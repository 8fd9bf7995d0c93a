/**
 * The field normalizers of the transformation stage: each maps one raw,
 * possibly absent text to a typed value or to absence, and never fails.
 */
module Clean {
  import opened Wrappers
  import opened Text
  import opened Numerals
  import opened Catalog

  // ---------------------------------------------------------------- price

  /**
   * The amount text of a price: every `$` deleted, then stripped. Deleting
   * the one-character pattern "$" is `Without(s, '$')` (`RemoveCharSpec`).
   */
  function DollarAmount(s: string): string {
    Strip(Without(s, '$'))
  }

  /**
   * clean_price. Absent for a null, for the "Price Unavailable" sentinel and
   * for any text without a `$`; otherwise the amount, read as a decimal,
   * converted to rupiah at 16000 rupiah per dollar, or absent when the amount does not parse.
   */
  function CleanPrice(price: Option<string>): (r: Option<real>)
    ensures price.None? ==> r.None?
    ensures price == Some(PriceUnavailable) ==> r.None?
    ensures price.Some? && '$' !in price.value ==> r.None?
    ensures price.Some? && '$' in price.value ==> r == Rupiah(ParseDecimal(DollarAmount(price.value)))
  {
    assert '$' !in PriceUnavailable;
    if price.None? || price.value == PriceUnavailable then None
    else if '$' in price.value then Rupiah(ParseDecimal(DollarAmount(price.value)))
    else None
  }

  /** A dollar amount, when there is one, in rupiah at 16000 rupiah per dollar. */
  function Rupiah(usd: Option<real>): (r: Option<real>)
    ensures r.Some? <==> usd.Some?
    ensures r.Some? ==> r.value == usd.value * 16000.0
  {
    match usd
    case Some(v) => Some(v * 16000.0)
    case None => None
  }

  /** A stripped amount without `$` behind one `$` is read back unchanged. */
  lemma DollarAmountOf(amount: string)
    requires '$' !in amount && IsStripped(amount)
    ensures '$' in "$" + amount
    ensures DollarAmount("$" + amount) == amount
  {
    var s := "$" + amount;
    assert s[0] == '$' && s[1..] == amount;
    WithoutAbsent(amount, '$');
  }

  /** `d.mm` holds no `$` and starts and ends with a digit. */
  lemma FormatDollarsShape(d: nat, m: nat)
    requires m < 100
    ensures '$' !in FormatDollars(d, m) && IsStripped(FormatDollars(d, m))
  {
    var amount := FormatDollars(d, m);
    assert amount[0] == NatToString(d)[0];
    assert IsDigit(amount[|amount| - 1]);
  }

  /** A price with a `$` whose amount reads as `usd` dollars is `usd * 16000` rupiah. */
  lemma PriceOfAmount(v: string, usd: real)
    requires '$' in v && ParseDecimal(DollarAmount(v)) == Some(usd)
    ensures CleanPrice(Some(v)) == Some(usd * 16000.0)
  {
    var a := ParseDecimal(DollarAmount(v));
    assert CleanPrice(Some(v)) == Rupiah(a);
    assert Rupiah(a).value == usd * 16000.0;
  }

  /**
   * One `$` before a stripped amount that reads as `usd` dollars is
   * exactly `usd * 16000` rupiah.
   */
  lemma PriceOfStripped(amount: string, usd: real)
    requires '$' !in amount && IsStripped(amount) && ParseDecimal(amount) == Some(usd)
    ensures CleanPrice(Some("$" + amount)) == Some(usd * 16000.0)
  {
    DollarAmountOf(amount);
    PriceOfAmount("$" + amount, usd);
  }

  // --------------------------------------------------------------- rating

  /** The texts clean_rating rejects before parsing anything. */
  predicate IsRatingSentinel(v: string) {
    Contains(v, "Invalid Rating") || Contains(v, "Not Rated") || v == PriceUnavailable
  }

  /**
   * clean_rating. Absent for a null and for a sentinel; otherwise the
   * stripped text, or the stripped text before its first `/`, read as a
   * decimal.
   */
  function CleanRating(rating: Option<string>): (r: Option<real>)
    ensures rating.None? ==> r.None?
    ensures rating.Some? && IsRatingSentinel(rating.value) ==> r.None?
  {
    if rating.None? || IsRatingSentinel(rating.value) then None
    else
      var text := Strip(rating.value);
      ParseDecimal(if '/' in text then Strip(BeforeFirst(text, '/')) else text)
  }

  /** With a `/`, only the text before the first `/` is read, stripped. */
  lemma RatingBeforeSlash(v: string)
    requires !IsRatingSentinel(v) && '/' in v
    ensures CleanRating(Some(v)) == ParseDecimal(Strip(BeforeFirst(v, '/')))
  {
    StripBeforeFirst(v, '/');
  }

  /** Without a `/`, the whole stripped text is read. */
  lemma RatingWithoutSlash(v: string)
    requires !IsRatingSentinel(v) && '/' !in v
    ensures CleanRating(Some(v)) == ParseDecimal(Strip(v))
  {
    StripKeepsChars(v, '/');
  }

  // --------------------------------------------------------------- colors
  // clean_colors runs re.search(r'(\d+)\s*Colors?', text). The functions
  // below follow the regular-expression engine: the leftmost start position
  // that matches wins, `\d+` and `\s*` are greedy and give characters back
  // one at a time when the rest fails. The optional `s` never decides
  // whether a match exists, so the search looks for `Color`.

  /** The first index at or after `j` that is not whitespace. */
  function SkipSpaces(s: string, j: nat): (k: nat)
    requires j <= |s|
    ensures j <= k <= |s|
    ensures forall m :: j <= m < k ==> IsSpace(s[m])
    ensures k < |s| ==> !IsSpace(s[k])
    decreases |s| - j
  {
    if j < |s| && IsSpace(s[j]) then SkipSpaces(s, j + 1) else j
  }

  /** The first index at or after `i` that is not a digit. */
  function RunEnd(s: string, i: nat): (j: nat)
    requires i <= |s|
    ensures i <= j <= |s|
    ensures forall m :: i <= m < j ==> IsDigit(s[m])
    ensures j < |s| ==> !IsDigit(s[j])
    decreases |s| - i
  {
    if i < |s| && IsDigit(s[i]) then RunEnd(s, i + 1) else i
  }

  /** The first index of the run of digits that ends just before `k`. */
  function RunStart(s: string, k: nat): (i: nat)
    requires k <= |s|
    ensures i <= k
    ensures forall m :: i <= m < k ==> IsDigit(s[m])
    ensures i > 0 ==> !IsDigit(s[i - 1])
  {
    if k > 0 && IsDigit(s[k - 1]) then RunStart(s, k - 1) else k
  }

  /** `\s*Color` after `\s*` has taken `s[j..k]`, giving back characters on failure. */
  predicate SpacesThenColor(s: string, j: nat, k: nat)
    requires j <= k <= |s|
    decreases k - j
  {
    StartsWith(s[k..], "Color") || (k > j && SpacesThenColor(s, j, k - 1))
  }

  /** `\d+\s*Color` after `\d+` has taken `s[i..j]`: the end of the group on success. */
  function DigitsThenColor(s: string, i: nat, j: nat): (r: Option<nat>)
    requires i < j <= |s|
    ensures r.Some? ==> i < r.value <= j
    decreases j - i
  {
    if SpacesThenColor(s, j, SkipSpaces(s, j)) then Some(j)
    else if j - 1 > i then DigitsThenColor(s, i, j - 1)
    else None
  }

  /** The engine's attempt at start position `i`: the end of the digit group on success. */
  function MatchAt(s: string, i: nat): (r: Option<nat>)
    requires i <= |s|
    ensures r.Some? ==> i < r.value <= |s| && AllDigits(s[i..r.value])
  {
    if i < |s| && IsDigit(s[i]) then
      var r := DigitsThenColor(s, i, RunEnd(s, i));
      assert r.Some? ==> AllDigits(s[i..r.value]) by {
        if r.Some? {
          forall m | 0 <= m < r.value - i ensures IsDigit(s[i..r.value][m]) {
            assert s[i..r.value][m] == s[i + m];
          }
        }
      }
      r
    else None
  }

  /** re.search: the first start position at or after `i` where the engine succeeds. */
  function Search(s: string, i: nat): (r: Option<(nat, nat)>)
    requires i <= |s|
    ensures r.Some? ==> i <= r.value.0 < r.value.1 <= |s| && AllDigits(s[r.value.0..r.value.1])
    decreases |s| - i
  {
    match MatchAt(s, i)
    case Some(j) => Some((i, j))
    case None => if i < |s| then Search(s, i + 1) else None
  }

  /** One step of re.search: stop where the engine succeeds, else move on. */
  lemma SearchStep(s: string, i: nat)
    requires i <= |s|
    ensures MatchAt(s, i).Some? ==> Search(s, i) == Some((i, MatchAt(s, i).value))
    ensures MatchAt(s, i).None? && i < |s| ==> Search(s, i) == Search(s, i + 1)
  {
  }

  /** re.search returns a position where the engine succeeds, with the end it finds there. */
  lemma {:induction false} SearchFound(s: string, i: nat)
    requires i <= |s| && Search(s, i).Some?
    ensures MatchAt(s, Search(s, i).value.0) == Some(Search(s, i).value.1)
    decreases |s| - i
  {
    SearchStep(s, i);
    if MatchAt(s, i).None? {
      SearchFound(s, i + 1);
    }
  }

  /** re.search finds the leftmost match: the engine fails at every position before the one returned. */
  lemma {:induction false} SearchLeftmost(s: string, i: nat, m: nat)
    requires i <= |s| && Search(s, i).Some? && i <= m < Search(s, i).value.0
    ensures MatchAt(s, m).None?
    decreases |s| - i
  {
    SearchStep(s, i);
    if MatchAt(s, i).None? && m > i {
      SearchLeftmost(s, i + 1, m);
    }
  }

  /** No result from re.search means the engine fails at every position from `i` on. */
  lemma {:induction false} SearchNone(s: string, i: nat, m: nat)
    requires i <= m <= |s| && Search(s, i).None?
    ensures MatchAt(s, m).None?
    decreases |s| - i
  {
    SearchStep(s, i);
    if m > i {
      SearchNone(s, i + 1, m);
    }
  }

  /**
   * clean_colors: the value of the digit group of the leftmost match of
   * `(\d+)\s*Colors?`, or absence.
   */
  function CleanColors(colors: Option<string>): (r: Option<int>)
    ensures colors.None? ==> r.None?
    ensures r.Some? ==> r.value >= 0
  {
    if colors.None? then None
    else
      match Search(colors.value, 0)
      case Some((i, j)) => Some(DigitsValue(colors.value[i..j]))
      case None => None
  }

  /** "Color" follows position `j`, after any whitespace. */
  predicate ColorFollows(s: string, j: nat)
    requires j <= |s|
  {
    StartsWith(s[SkipSpaces(s, j)..], "Color")
  }

  /**
   * A reference definition: `s[i..j]` is a maximal run of digits followed by
   * optional whitespace and "Color".
   */
  predicate ColorRun(s: string, i: nat, j: nat) {
    && i < j <= |s|
    && (forall m :: i <= m < j ==> IsDigit(s[m]))
    && (i == 0 || !IsDigit(s[i - 1]))
    && (j == |s| || !IsDigit(s[j]))
    && ColorFollows(s, j)
  }

  /** Giving whitespace back never helps: "Color" cannot start on a space. */
  lemma {:induction false} SpacesThenColorGreedy(s: string, j: nat, k: nat)
    requires j <= |s| && j <= k <= SkipSpaces(s, j)
    ensures SpacesThenColor(s, j, k) == (k == SkipSpaces(s, j) && ColorFollows(s, j))
    decreases k - j
  {
    if k < SkipSpaces(s, j) {
      assert !StartsWith(s[k..], "Color") by { assert IsSpace(s[k]); }
    }
    if k > j {
      SpacesThenColorGreedy(s, j, k - 1);
    }
  }

  /** "Color" cannot follow a position holding a digit. */
  lemma ColorNotOnDigit(s: string, j: nat)
    requires j < |s| && IsDigit(s[j])
    ensures !SpacesThenColor(s, j, SkipSpaces(s, j))
  {
    assert SkipSpaces(s, j) == j;
    assert s[j..][0] == s[j];
  }

  /** A digit run cut short fails: the next character is a digit, not "Color". */
  lemma {:induction false} DigitsCutShort(s: string, i: nat, j: nat)
    requires i < j < |s| && forall m :: i < m <= j ==> IsDigit(s[m])
    ensures DigitsThenColor(s, i, j).None?
    decreases j - i
  {
    ColorNotOnDigit(s, j);
    if j - 1 > i {
      DigitsCutShort(s, i, j - 1);
    }
  }

  /**
   * Giving digits back never helps: a maximal run of digits `s[i..j]`
   * matches exactly when "Color" follows it.
   */
  lemma DigitsThenColorGreedy(s: string, i: nat, j: nat)
    requires i < j <= |s| && (forall m :: i <= m < j ==> IsDigit(s[m]))
    requires j == |s| || !IsDigit(s[j])
    ensures DigitsThenColor(s, i, j) == if ColorFollows(s, j) then Some(j) else None
  {
    SpacesThenColorGreedy(s, j, SkipSpaces(s, j));
    if !ColorFollows(s, j) && j - 1 > i {
      DigitsCutShort(s, i, j - 1);
    }
  }

  /** The engine succeeds at `i` exactly when the whole digit run from `i` is followed by "Color". */
  lemma MatchAtSpec(s: string, i: nat)
    requires i <= |s|
    ensures MatchAt(s, i) == if i < |s| && IsDigit(s[i]) && ColorFollows(s, RunEnd(s, i)) then Some(RunEnd(s, i)) else None
  {
    if i < |s| && IsDigit(s[i]) {
      DigitsThenColorGreedy(s, i, RunEnd(s, i));
    }
  }

  lemma {:induction false} RunEndFromStart(s: string, k: nat)
    requires k <= |s|
    ensures RunEnd(s, RunStart(s, k)) == RunEnd(s, k)
    decreases k
  {
    if k > 0 && IsDigit(s[k - 1]) {
      RunEndFromStart(s, k - 1);
    }
  }

  lemma RunEndOfRun(s: string, i: nat, j: nat)
    requires i <= j <= |s|
    requires forall m :: i <= m < j ==> IsDigit(s[m])
    requires j == |s| || !IsDigit(s[j])
    ensures RunEnd(s, i) == j
    decreases j - i
  {
    if i < j {
      RunEndOfRun(s, i + 1, j);
    }
  }

  /** Wherever the engine succeeds, the run of digits around that position is a ColorRun. */
  lemma MatchGivesRun(s: string, k: nat)
    requires k <= |s| && MatchAt(s, k).Some?
    ensures ColorRun(s, RunStart(s, k), RunEnd(s, k))
  {
    MatchAtSpec(s, k);
    RunEndFromStart(s, k);
  }

  /** Positions where the engine fails are skipped by the search. */
  lemma {:induction false} SearchSkips(s: string, k: nat, i: nat)
    requires k <= i <= |s|
    requires forall m :: k <= m < i ==> MatchAt(s, m).None?
    ensures Search(s, k) == Search(s, i)
    decreases i - k
  {
    if k < i {
      SearchSkips(s, k + 1, i);
    }
  }

  /** The count is that of the first maximal digit run followed by "Color". */
  lemma ColorsOfFirstRun(s: string, i: nat, j: nat)
    requires ColorRun(s, i, j)
    requires forall i', j' :: ColorRun(s, i', j') ==> i <= i'
    ensures CleanColors(Some(s)) == Some(DigitsValue(s[i..j]))
  {
    forall m | 0 <= m < i ensures MatchAt(s, m).None? {
      if MatchAt(s, m).Some? {
        MatchGivesRun(s, m);
      }
    }
    SearchSkips(s, 0, i);
    RunEndOfRun(s, i, j);
    MatchAtSpec(s, i);
  }

  /** Without a digit run followed by "Color" there is no count. */
  lemma ColorsWithoutRun(s: string)
    requires forall i, j :: !ColorRun(s, i, j)
    ensures CleanColors(Some(s)) == None
  {
    forall m | 0 <= m <= |s| ensures MatchAt(s, m).None? {
      if MatchAt(s, m).Some? {
        MatchGivesRun(s, m);
      }
    }
    SearchSkips(s, 0, |s|);
  }

  // -------------------------------------------------------- size, gender

  /**
   * What clean_size and clean_gender do to a present text: strip it; if it
   * then starts with `tag`, delete every occurrence of `tag` and strip
   * again.
   */
  function CleanLabeled(tag: string, v: string): (r: string)
    requires tag != []
    ensures IsStripped(r)
    ensures !StartsWith(Strip(v), tag) ==> r == Strip(v)
    ensures StartsWith(Strip(v), tag) ==> r == Strip(RemoveAll(Strip(v), tag))
  {
    var t := Strip(v);
    if StartsWith(t, tag) then Strip(RemoveAll(t, tag)) else t
  }

  /**
   * Cleaning a cleaned value again leaves it alone exactly when it does not
   * start with the tag; otherwise the deletion shortens it.
   */
  lemma CleanLabeledIdempotent(tag: string, v: string)
    requires tag != []
    ensures CleanLabeled(tag, CleanLabeled(tag, v)) == CleanLabeled(tag, v) <==> !StartsWith(CleanLabeled(tag, v), tag)
    ensures StartsWith(CleanLabeled(tag, v), tag) ==> |CleanLabeled(tag, CleanLabeled(tag, v))| < |CleanLabeled(tag, v)|
  {
  }

  /** clean_size: absent only for a null. */
  function CleanSize(size: Option<string>): (r: Option<string>)
    ensures r.None? <==> size.None?
    ensures r.Some? ==> r.value == CleanLabeled("Size:", size.value)
  {
    if size.None? then None else Some(CleanLabeled("Size:", size.value))
  }

  /** clean_gender: absent only for a null. */
  function CleanGender(gender: Option<string>): (r: Option<string>)
    ensures r.None? <==> gender.None?
    ensures r.Some? ==> r.value == CleanLabeled("Gender:", gender.value)
  {
    if gender.None? then None else Some(CleanLabeled("Gender:", gender.value))
  }
}
