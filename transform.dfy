// transform_data: the cleaned, filtered, de-duplicated and (when there is a
// Timestamp column) re-ordered product table.
module Transform {
  import opened Wrappers
  import opened Clean
  import opened Frames

  /** The columns the pipeline knows; the CSV may lack any of them. */
  datatype Column = TitleCol | PriceCol | RatingCol | ColorCol | SizeCol | GenderCol | TimestampCol

  /** Every column the pipeline reads unconditionally; a missing one raises. */
  const Required: set<Column> := {TitleCol, PriceCol, RatingCol, ColorCol, SizeCol, GenderCol}

  const UnknownProduct := "Unknown Product"

  /** One CSV record as read; `None` is an empty cell (NaN). */
  datatype RawRow = RawRow(
    title: Option<string>, price: Option<string>, rating: Option<string>,
    color: Option<string>, size: Option<string>, gender: Option<string>,
    timestamp: Option<string>)

  /** The input CSV: its header and its records. */
  datatype Table = Table(columns: set<Column>, rows: seq<RawRow>)

  /**
   * A cleaned record. The timestamp is still text (`Stamp = string`) while
   * rows are filtered and de-duplicated, and is the parsed sort key
   * (`Stamp = int`) in the output.
   */
  datatype Row<Stamp> = Row(
    title: Option<string>, price: Option<real>, rating: Option<real>,
    color: Option<int>, size: Option<string>, gender: Option<string>,
    timestamp: Option<Stamp>)

  /** The title mask: not null, not empty, not "Unknown Product". */
  predicate HasValidTitle<S>(r: Row<S>) {
    r.title.Some? && r.title.value != "" && r.title.value != UnknownProduct
  }

  /** The dropna mask over the six required columns. */
  predicate IsComplete<S>(r: Row<S>) {
    r.title.Some? && r.price.Some? && r.rating.Some? && r.color.Some? && r.size.Some? && r.gender.Some?
  }

  /**
   * The five column-wise clean-ups of one record; Title is left as read.
   * A cleaned row is complete only if its record had every required cell,
   * a price with a `$` and a rating that is no sentinel.
   */
  function CleanRow(columns: set<Column>, raw: RawRow): (r: Row<string>)
    ensures IsComplete(r) ==>
      && raw.title.Some? && raw.price.Some? && '$' in raw.price.value
      && raw.rating.Some? && !IsRatingSentinel(raw.rating.value)
      && raw.color.Some? && raw.size.Some? && raw.gender.Some?
    ensures raw.size.Some? && raw.gender.Some? ==> r.size.Some? && r.gender.Some?
  {
    Row(raw.title, CleanPrice(raw.price), CleanRating(raw.rating), CleanColors(raw.color),
        CleanSize(raw.size), CleanGender(raw.gender),
        if TimestampCol in columns then raw.timestamp else None)
  }

  /** Every column cleaned in place, one cleaned row per record. */
  function Cleaned(t: Table): (r: seq<Row<string>>)
    ensures |r| == |t.rows|
    ensures forall i :: 0 <= i < |r| ==> r[i].title == t.rows[i].title && r[i].price == CleanPrice(t.rows[i].price)
    ensures forall i :: 0 <= i < |r| ==> r[i].rating == CleanRating(t.rows[i].rating) && r[i].color == CleanColors(t.rows[i].color)
    ensures forall i :: 0 <= i < |r| ==> r[i].size == CleanSize(t.rows[i].size) && r[i].gender == CleanGender(t.rows[i].gender)
    ensures TimestampCol in t.columns ==> forall i :: 0 <= i < |r| ==> r[i].timestamp == t.rows[i].timestamp
    ensures TimestampCol !in t.columns ==> forall i :: 0 <= i < |r| ==> r[i].timestamp.None?
  {
    seq(|t.rows|, i requires 0 <= i < |t.rows| => CleanRow(t.columns, t.rows[i]))
  }

  /**
   * The title mask, dropna and drop_duplicates on cleaned rows: the rows with a valid title and no null
   * in a required column, first occurrences only, in input order.
   */
  function Selected(c: seq<Row<string>>): (r: seq<Row<string>>)
    ensures forall x :: x in r <==> x in c && HasValidTitle(x) && IsComplete(x)
    ensures NoDuplicates(r)
    ensures IsSubseq(r, c)
    ensures forall i, j, k :: 0 <= i < j < |r| && 0 <= k < |c| && c[k] == r[j] ==> r[i] in c[..k]
  {
    var titled := Filter(HasValidTitle, c);
    var complete := Filter(IsComplete, titled);
    FilterFirstOccurrence(IsComplete, titled, DropDuplicates(complete));
    FilterFirstOccurrence(HasValidTitle, c, DropDuplicates(complete));
    IsSubseqTrans(DropDuplicates(complete), complete, titled);
    IsSubseqTrans(DropDuplicates(complete), titled, c);
    assert forall x :: x in complete ==> x in titled && x in c by {
      forall x | x in complete ensures x in titled && x in c {
        assert multiset(complete)[x] > 0;
        assert multiset(titled)[x] > 0;
      }
    }
    assert forall x :: x in c && HasValidTitle(x) && IsComplete(x) ==> x in complete by {
      forall x | x in c && HasValidTitle(x) && IsComplete(x) ensures x in complete {
        assert multiset(titled)[x] > 0;
        assert multiset(complete)[x] > 0;
      }
    }
    DropDuplicates(complete)
  }

  /** The rows that reach the timestamp step. */
  function Deduped(t: Table): seq<Row<string>> {
    Selected(Cleaned(t))
  }

  /** `pd.to_datetime(errors='coerce')` on one cell: an empty cell and unparsable text are NaT. */
  function ParseStamp(ts: Option<string>, parse: string -> Option<int>): Option<int> {
    if ts.Some? then parse(ts.value) else None
  }

  function Stamped(r: Row<string>, parse: string -> Option<int>): Row<int> {
    Row(r.title, r.price, r.rating, r.color, r.size, r.gender, ParseStamp(r.timestamp, parse))
  }

  /** The Timestamp column replaced by its parsed value, every other field kept. */
  function ParseAll(s: seq<Row<string>>, parse: string -> Option<int>): (r: seq<Row<int>>)
    ensures |r| == |s|
    ensures forall i :: 0 <= i < |s| ==> r[i].timestamp == ParseStamp(s[i].timestamp, parse)
    ensures forall i :: 0 <= i < |s| ==> r[i].title == s[i].title && r[i].price == s[i].price && r[i].rating == s[i].rating
    ensures forall i :: 0 <= i < |s| ==> r[i].color == s[i].color && r[i].size == s[i].size && r[i].gender == s[i].gender
    ensures forall i :: 0 <= i < |s| ==> HasValidTitle(r[i]) == HasValidTitle(s[i]) && IsComplete(r[i]) == IsComplete(s[i])
  {
    seq(|s|, i requires 0 <= i < |s| => Stamped(s[i], parse))
  }

  // ------------------------------------------------------------------ sort

  /**
   * `a` may precede `b` in `sort_values(ascending=False)`: later instants
   * first, NaT last.
   */
  predicate Precedes(a: Option<int>, b: Option<int>) {
    b.None? || (a.Some? && a.value >= b.value)
  }

  predicate SortedByTimestamp(s: seq<Row<int>>) {
    forall i, j :: 0 <= i < j < |s| ==> Precedes(s[i].timestamp, s[j].timestamp)
  }

  /** A row that may precede every row of a sorted permutation stays sorted in front of it. */
  lemma PrependSorted(h: Row<int>, rest: seq<Row<int>>, x: Row<int>, tail: seq<Row<int>>)
    requires SortedByTimestamp(rest) && multiset(rest) == multiset(tail) + multiset{x}
    requires Precedes(h.timestamp, x.timestamp)
    requires forall y :: y in tail ==> Precedes(h.timestamp, y.timestamp)
    ensures SortedByTimestamp([h] + rest)
  {
    forall j | 0 <= j < |rest| ensures Precedes(h.timestamp, rest[j].timestamp) {
      assert multiset(rest)[rest[j]] > 0;
    }
  }

  function Insert(x: Row<int>, s: seq<Row<int>>): (r: seq<Row<int>>)
    requires SortedByTimestamp(s)
    ensures SortedByTimestamp(r)
    ensures multiset(r) == multiset(s) + multiset{x}
  {
    if s == [] then [x]
    else if Precedes(x.timestamp, s[0].timestamp) then [x] + s
    else
      var tail := s[1..];
      assert s == [s[0]] + tail;
      var rest := Insert(x, tail);
      forall y | y in tail ensures Precedes(s[0].timestamp, y.timestamp) {
        var k :| 0 <= k < |tail| && tail[k] == y;
        assert s[k + 1] == y;
      }
      PrependSorted(s[0], rest, x, tail);
      [s[0]] + rest
  }

  /** `sort_values('Timestamp', ascending=False)`: sorted and a permutation. */
  function SortByTimestamp(s: seq<Row<int>>): (r: seq<Row<int>>)
    ensures SortedByTimestamp(r)
    ensures multiset(r) == multiset(s)
  {
    if s == [] then []
    else
      assert s == [s[0]] + s[1..];
      Insert(s[0], SortByTimestamp(s[1..]))
  }

  // -------------------------------------------------------------- pipeline

  /**
   * The table transform_data writes, given that every required column is
   * present: only valid, complete rows, a permutation of the parsed
   * de-duplicated rows, newest first when there is a Timestamp column.
   */
  function Transformed(t: Table, parse: string -> Option<int>): (r: seq<Row<int>>)
    ensures forall x :: x in r ==> HasValidTitle(x) && IsComplete(x)
    ensures multiset(r) == multiset(ParseAll(Deduped(t), parse))
    ensures TimestampCol in t.columns ==> SortedByTimestamp(r)
  {
    var d := Deduped(t);
    ParsedRowsValid(d, parse);
    var out := ParseAll(d, parse);
    var r := if TimestampCol in t.columns then SortByTimestamp(out) else out;
    PermutedRowsValid(out, r);
    r
  }

  /** Parsing the timestamps keeps every row valid and complete. */
  lemma ParsedRowsValid(d: seq<Row<string>>, parse: string -> Option<int>)
    requires forall x :: x in d ==> HasValidTitle(x) && IsComplete(x)
    ensures forall x :: x in ParseAll(d, parse) ==> HasValidTitle(x) && IsComplete(x)
  {
    var out := ParseAll(d, parse);
    forall x | x in out ensures HasValidTitle(x) && IsComplete(x) {
      var i :| 0 <= i < |out| && out[i] == x;
      assert d[i] in d;
    }
  }

  /** Reordering keeps every row valid and complete. */
  lemma PermutedRowsValid(a: seq<Row<int>>, b: seq<Row<int>>)
    requires multiset(a) == multiset(b)
    requires forall x :: x in a ==> HasValidTitle(x) && IsComplete(x)
    ensures forall x :: x in b ==> HasValidTitle(x) && IsComplete(x)
  {
    forall x | x in b ensures HasValidTitle(x) && IsComplete(x) {
      assert multiset(b)[x] > 0;
      assert x in a;
    }
  }

  /**
   * transform_data. `source` is `None` when the input file cannot be read;
   * `canWrite` is whether writing the output succeeds. Returns the success
   * flag and the table written.
   */
  method TransformData(source: Option<Table>, parse: string -> Option<int>, canWrite: bool)
    returns (ok: bool, written: Option<seq<Row<int>>>)
    ensures ok <==> source.Some? && Required <= source.value.columns && canWrite
    ensures ok ==> written == Some(Transformed(source.value, parse))
    ensures !ok ==> written.None?
  {
    if source.None? {
      // FileNotFoundError
      return false, None;
    }
    var t := source.value;
    if !(Required <= t.columns) {
      // KeyError on the first missing column
      return false, None;
    }
    var df := Cleaned(t);
    df := Filter(HasValidTitle, df);
    df := Filter(IsComplete, df);
    df := DropDuplicates(df);
    var out := ParseAll(df, parse);
    if TimestampCol in t.columns {
      out := SortByTimestamp(out);
    }
    if !canWrite {
      return false, None;
    }
    return true, Some(out);
  }

  // -------------------------------------------------------------- lemmas

  /** Parsing timestamps keeps a subsequence a subsequence. */
  lemma {:induction false} ParseAllSubseq(a: seq<Row<string>>, b: seq<Row<string>>, parse: string -> Option<int>)
    requires IsSubseq(a, b)
    ensures IsSubseq(ParseAll(a, parse), ParseAll(b, parse))
    decreases |b|
  {
    if b != [] {
      var pa, pb := ParseAll(a, parse), ParseAll(b, parse);
      assert pb[..|pb| - 1] == ParseAll(b[..|b| - 1], parse);
      if IsSubseq(a, b[..|b| - 1]) {
        ParseAllSubseq(a, b[..|b| - 1], parse);
      } else {
        assert pa[..|pa| - 1] == ParseAll(a[..|a| - 1], parse);
        ParseAllSubseq(a[..|a| - 1], b[..|b| - 1], parse);
      }
    }
  }

  /**
   * The output is a permutation of a subsequence of the cleaned input
   * (with its timestamps parsed).
   */
  lemma TransformedPermutesSubsequence(t: Table, parse: string -> Option<int>)
    ensures IsSubseq(ParseAll(Deduped(t), parse), ParseAll(Cleaned(t), parse))
    ensures multiset(Transformed(t, parse)) == multiset(ParseAll(Deduped(t), parse))
  {
    ParseAllSubseq(Deduped(t), Cleaned(t), parse);
  }

  /** Without a Timestamp column no selected row carries a timestamp. */
  lemma DedupedUnstamped(t: Table, i: nat)
    requires TimestampCol !in t.columns && i < |Deduped(t)|
    ensures Deduped(t)[i].timestamp.None?
  {
    var c := Cleaned(t);
    assert Deduped(t)[i] in c;
    var j :| 0 <= j < |c| && c[j] == Deduped(t)[i];
  }

  /** Without a Timestamp column the rows keep the order of the de-duplicated input. */
  lemma TransformedKeepsOrder(t: Table, parse: string -> Option<int>)
    requires TimestampCol !in t.columns
    ensures Transformed(t, parse) == ParseAll(Deduped(t), parse)
    ensures forall x :: x in Transformed(t, parse) ==> x.timestamp.None?
  {
    var out := ParseAll(Deduped(t), parse);
    assert Transformed(t, parse) == out;
    forall x | x in out ensures x.timestamp.None? {
      var i :| 0 <= i < |out| && out[i] == x;
      DedupedUnstamped(t, i);
    }
  }

  /**
   * Duplicates are dropped on the timestamp text, so the output is free of
   * duplicates when, among the de-duplicated rows, cells that differ
   * (a missing cell included) parse to distinct keys.
   */
  lemma TransformedDistinct(t: Table, parse: string -> Option<int>)
    requires forall i, j :: 0 <= i < j < |Deduped(t)| && Deduped(t)[i].timestamp != Deduped(t)[j].timestamp ==>
      ParseStamp(Deduped(t)[i].timestamp, parse) != ParseStamp(Deduped(t)[j].timestamp, parse)
    ensures NoDuplicates(Transformed(t, parse))
  {
    var d := Deduped(t);
    var out := ParseAll(d, parse);
    forall i, j | 0 <= i < j < |out| ensures out[i] != out[j] {
      assert d[i] != d[j];
      assert Stamped(d[i], parse) == out[i] && Stamped(d[j], parse) == out[j];
    }
    DistinctPermutation(out, Transformed(t, parse));
  }

  /** Every column, Timestamp included. */
  const AllColumns: set<Column> := Required + {TimestampCol}

  /** Cleaning leaves the timestamp text as read. */
  lemma CleanStamps(r: RawRow, a: string, b: string)
    ensures Cleaned(Table(AllColumns, [r.(timestamp := Some(a)), r.(timestamp := Some(b))])) ==
      [CleanRow(AllColumns, r).(timestamp := Some(a)), CleanRow(AllColumns, r).(timestamp := Some(b))]
  {
    var t := Table(AllColumns, [r.(timestamp := Some(a)), r.(timestamp := Some(b))]);
    assert TimestampCol in AllColumns;
    assert CleanRow(AllColumns, t.rows[0]) == CleanRow(AllColumns, r).(timestamp := Some(a));
    assert CleanRow(AllColumns, t.rows[1]) == CleanRow(AllColumns, r).(timestamp := Some(b));
  }

  /** Two distinct valid rows both survive filtering and de-duplication, in order. */
  lemma TwoRowsSurvive(u: Row<string>, v: Row<string>)
    requires u != v
    requires HasValidTitle(u) && IsComplete(u) && HasValidTitle(v) && IsComplete(v)
    ensures Selected([u, v]) == [u, v]
  {
    var d := Selected([u, v]);
    assert u in [u, v] && v in [u, v];
    IsSubseqLength(d, [u, v]);
    var i :| 0 <= i < |d| && d[i] == u;
    var j :| 0 <= j < |d| && d[j] == v;
    assert i != j;
    IsSubseqFull(d, [u, v]);
  }

  /** A sequence holding `z` exactly twice and nothing else is `[z, z]`. */
  lemma TwiceOnly<T>(s: seq<T>, z: T)
    requires multiset(s) == multiset{z, z}
    ensures s == [z, z]
  {
    assert |s| == |multiset(s)| == 2;
    assert s[0] in multiset(s) && s[1] in multiset(s);
  }

  /** Two valid rows differing only in timestamps that parse alike come out as one row twice. */
  lemma TwinRows(u: Row<string>, a: string, b: string, parse: string -> Option<int>)
    requires a != b && parse(a) == parse(b)
    requires HasValidTitle(u) && IsComplete(u)
    ensures var z := Stamped(u.(timestamp := Some(a)), parse);
      ParseAll(Selected([u.(timestamp := Some(a)), u.(timestamp := Some(b))]), parse) == [z, z]
  {
    var ua, ub := u.(timestamp := Some(a)), u.(timestamp := Some(b));
    TwoRowsSurvive(ua, ub);
    ParseAllPair(ua, ub, parse);
    assert Stamped(ub, parse) == Stamped(ua, parse);
  }

  /** Parsing two rows is stamping each of them. */
  lemma ParseAllPair(x: Row<string>, y: Row<string>, parse: string -> Option<int>)
    ensures ParseAll([x, y], parse) == [Stamped(x, parse), Stamped(y, parse)]
  {
  }

  /**
   * Two records that differ only in timestamp text whose parsed values
   * coincide (two unparsable texts, both NaT, for instance) both survive
   * drop_duplicates and come out as two equal rows.
   */
  lemma DuplicatesFromTimestampText(r: RawRow, a: string, b: string, parse: string -> Option<int>)
    requires a != b && parse(a) == parse(b)
    requires HasValidTitle(CleanRow(AllColumns, r)) && IsComplete(CleanRow(AllColumns, r))
    ensures var t := Table(AllColumns, [r.(timestamp := Some(a)), r.(timestamp := Some(b))]);
      var z := Stamped(CleanRow(AllColumns, r).(timestamp := Some(a)), parse);
      Transformed(t, parse) == [z, z]
  {
    var t := Table(AllColumns, [r.(timestamp := Some(a)), r.(timestamp := Some(b))]);
    var u := CleanRow(AllColumns, r);
    CleanStamps(r, a, b);
    TwinRows(u, a, b, parse);
    TwiceOnly(Transformed(t, parse), Stamped(u.(timestamp := Some(a)), parse));
  }
}
