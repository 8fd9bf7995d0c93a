/**
 * The few Python `str` operations the pipeline relies on: `strip()`,
 * `startswith`, `in`, `replace(pat, '')` and `split(c)[0]`.
 */
module Text {

  /** Python's `str.isspace()`; also what `\s` matches in a `str` pattern and what `strip()` removes. */
  predicate IsSpace(c: char) {
    || c == ' '
    || ('\t' <= c <= '\r')
    || ('\U{1C}' <= c <= '\U{1F}')
    || c == '\U{85}' || c == '\U{A0}' || c == '\U{1680}'
    || ('\U{2000}' <= c <= '\U{200A}')
    || c == '\U{2028}' || c == '\U{2029}' || c == '\U{202F}' || c == '\U{205F}' || c == '\U{3000}'
  }

  /** Neither end of `s` is whitespace. */
  predicate IsStripped(s: string) {
    s == [] || (!IsSpace(s[0]) && !IsSpace(s[|s| - 1]))
  }

  /** `s.lstrip()`: drops the longest all-whitespace prefix. */
  function TrimLeft(s: string): (r: string)
    ensures |r| <= |s|
    ensures r == [] || !IsSpace(r[0])
  {
    if s != [] && IsSpace(s[0]) then TrimLeft(s[1..]) else s
  }

  /** Every character of `s` is whitespace. */
  predicate AllSpace(s: string) {
    forall k :: 0 <= k < |s| ==> IsSpace(s[k])
  }

  /** What `lstrip()` drops is an all-whitespace prefix; what it keeps is the rest of `s`. */
  lemma {:induction false} TrimLeftSuffix(s: string)
    ensures var r := TrimLeft(s); r == s[|s| - |r|..] && AllSpace(s[..|s| - |r|])
    decreases |s|
  {
    if s != [] && IsSpace(s[0]) {
      TrimLeftSuffix(s[1..]);
      var r := TrimLeft(s);
      assert s[..|s| - |r|] == [s[0]] + s[1..][..|s| - 1 - |r|];
    }
  }

  /** `s.rstrip()`: drops the longest all-whitespace suffix. */
  function TrimRight(s: string): (r: string)
    ensures |r| <= |s| && r == s[..|r|]
    ensures forall k :: |r| <= k < |s| ==> IsSpace(s[k])
    ensures r == [] || !IsSpace(r[|r| - 1])
  {
    if s != [] && IsSpace(s[|s| - 1]) then TrimRight(s[..|s| - 1]) else s
  }

  /**
   * `s.strip()`: `s` with its whitespace edges removed. With `i` characters
   * dropped in front, the result is the slice of `s` from `i`, and every
   * character outside that slice is whitespace.
   */
  function Strip(s: string): (r: string)
    ensures IsStripped(r)
    ensures |r| <= |s|
    ensures IsStripped(s) ==> r == s
  {
    TrimRight(TrimLeft(s))
  }

  /**
   * `strip()` removes whitespace at the edges and nothing else: the result
   * is the slice of `s` from `i`, and every character outside it is
   * whitespace.
   */
  lemma StripEdges(s: string)
    ensures var r, i := Strip(s), |s| - |TrimLeft(s)|;
      i + |r| <= |s| && r == s[i..i + |r|] && AllSpace(s[..i]) && AllSpace(s[i + |r|..])
  {
    TrimLeftSuffix(s);
    var t, r, i := TrimLeft(s), Strip(s), |s| - |TrimLeft(s)|;
    assert s[i..i + |r|] == t[..|r|];
    assert s[i + |r|..] == t[|r|..];
  }

  /** One blank in front of a stripped word is all that `strip()` removes. */
  lemma StripBlankThen(w: string)
    requires w != [] && IsStripped(w)
    ensures Strip(" " + w) == w
  {
    assert (" " + w)[1..] == w;
    assert TrimLeft(" " + w) == TrimLeft(w) == w;
  }

  /** One blank after a stripped word is all that `strip()` removes. */
  lemma StripThenBlank(w: string)
    requires w != [] && IsStripped(w)
    ensures Strip(w + " ") == w
  {
    assert (w + " ")[..|w|] == w;
  }

  /** Stripping twice is stripping once. */
  lemma StripIdempotent(s: string)
    ensures Strip(Strip(s)) == Strip(s)
  {
  }

  /** Python's `s.startswith(p)`. */
  predicate StartsWith(s: string, p: string) {
    |p| <= |s| && s[..|p|] == p
  }

  /** Python's `p in s` for strings: `p` occurs somewhere in `s`. */
  predicate Contains(s: string, p: string)
    decreases |s|
  {
    StartsWith(s, p) || (s != [] && Contains(s[1..], p))
  }

  /** The position of the first `c` in `s`, or `|s|` when there is none. */
  function IndexOf(s: string, c: char): (i: nat)
    ensures i <= |s|
    ensures c !in s[..i]
    ensures forall k :: 0 <= k < i ==> s[k] != c
    ensures i < |s| ==> s[i] == c
    ensures i == |s| <==> c !in s
  {
    if s == [] then 0
    else if s[0] == c then 0
    else
      var j := IndexOf(s[1..], c);
      assert s[..j + 1] == [s[0]] + s[1..][..j];
      j + 1
  }

  /** Python's `s.split(c)[0]`: the text before the first `c`, or all of `s`. */
  function BeforeFirst(s: string, c: char): (r: string)
    ensures |r| <= |s| && r == s[..|r|]
    ensures c !in r
    ensures c in s ==> |r| < |s| && s[|r|] == c
    ensures c !in s ==> r == s
  {
    s[..IndexOf(s, c)]
  }

  /**
   * Python's `s.replace(pat, '')`: a left-to-right scan that deletes every
   * non-overlapping occurrence of `pat`.
   */
  function RemoveAll(s: string, pat: string): (r: string)
    requires pat != []
    ensures |r| <= |s|
    ensures !Contains(s, pat) ==> r == s
    ensures StartsWith(s, pat) ==> |r| <= |s| - |pat|
    decreases |s|
  {
    if StartsWith(s, pat) then RemoveAll(s[|pat|..], pat)
    else if s == [] then []
    else [s[0]] + RemoveAll(s[1..], pat)
  }

  /**
   * Deleting a one-character pattern removes every copy of that character
   * and keeps every other character, in order.
   */
  lemma {:induction false} RemoveCharSpec(s: string, c: char)
    ensures c !in RemoveAll(s, [c])
    ensures RemoveAll(s, [c]) == Without(s, c)
    decreases |s|
  {
    if s != [] {
      RemoveCharSpec(s[1..], c);
      assert StartsWith(s, [c]) <==> s[0] == c;
    }
  }

  /** `s` with every `c` left out (a reference definition). */
  function Without(s: string, c: char): (r: string)
    ensures c !in r
    ensures forall x :: x != c ==> multiset(r)[x] == multiset(s)[x]
  {
    if s == [] then []
    else
      assert s == [s[0]] + s[1..];
      if s[0] == c then Without(s[1..], c) else [s[0]] + Without(s[1..], c)
  }

  /** Leaving out a character that does not occur changes nothing. */
  lemma {:induction false} WithoutAbsent(s: string, c: char)
    requires c !in s
    ensures Without(s, c) == s
    decreases |s|
  {
    if s != [] {
      assert c !in s[1..];
      WithoutAbsent(s[1..], c);
    }
  }

  /** `lstrip()` leaves a text that `lstrip()` no longer changes. */
  lemma TrimLeftIdempotent(s: string)
    ensures TrimLeft(TrimLeft(s)) == TrimLeft(s)
  {
  }

  /** `strip()` after `lstrip()` is plain `strip()`. */
  lemma StripAfterTrimLeft(s: string)
    ensures Strip(TrimLeft(s)) == Strip(s)
  {
    TrimLeftIdempotent(s);
  }

  /** The index of the first `c` is the only position holding `c` with no `c` before it. */
  lemma IndexOfUnique(s: string, c: char, i: nat)
    requires i < |s| && s[i] == c && c !in s[..i]
    ensures IndexOf(s, c) == i
  {
  }

  /** The text before the first `c` grows by one character when a different one is put in front. */
  lemma BeforeFirstCons(s: string, c: char)
    requires s != [] && s[0] != c
    ensures BeforeFirst(s, c) == [s[0]] + BeforeFirst(s[1..], c)
  {
  }

  /** `lstrip()` commutes with taking the text before the first non-space `c`. */
  lemma {:induction false} TrimLeftBeforeFirst(x: string, c: char)
    requires !IsSpace(c)
    ensures BeforeFirst(TrimLeft(x), c) == TrimLeft(BeforeFirst(x, c))
    ensures c in x ==> c in TrimLeft(x)
    decreases |x|
  {
    TrimLeftKeepsWord(x, c);
    if x != [] && IsSpace(x[0]) {
      assert TrimLeft(x) == TrimLeft(x[1..]);
      BeforeFirstCons(x, c);
      TrimLeftBeforeFirst(x[1..], c);
      var b := BeforeFirst(x[1..], c);
      assert ([x[0]] + b)[0] == x[0] && ([x[0]] + b)[1..] == b;
      assert TrimLeft([x[0]] + b) == TrimLeft(b);
    } else {
      assert TrimLeft(x) == x;
      if x != [] && x[0] != c {
        BeforeFirstCons(x, c);
        var b := BeforeFirst(x[1..], c);
        assert ([x[0]] + b)[0] == x[0];
        assert TrimLeft([x[0]] + b) == [x[0]] + b;
      } else if x != [] {
        assert BeforeFirst(x, c) == [];
      }
    }
  }

  /** `lstrip()` keeps every character that is not whitespace. */
  lemma {:induction false} TrimLeftKeepsWord(x: string, c: char)
    requires !IsSpace(c)
    ensures c in x ==> c in TrimLeft(x)
    decreases |x|
  {
    if c in x && IsSpace(x[0]) {
      var k :| 0 <= k < |x| && x[k] == c;
      assert x[1..][k - 1] == c;
      TrimLeftKeepsWord(x[1..], c);
    }
  }

  /** Trailing whitespace lies after the first non-space `c`, so `rstrip()` does not move it. */
  lemma TrimRightBeforeFirst(y: string, c: char)
    requires !IsSpace(c) && c in y
    ensures c in TrimRight(y)
    ensures BeforeFirst(TrimRight(y), c) == BeforeFirst(y, c)
  {
    var t := TrimRight(y);
    var p := IndexOf(y, c);
    assert p < |t|;
    assert t[p] == c;
    assert t[..p] == y[..p];
    IndexOfUnique(t, c, p);
  }

  /**
   * Python's `s.strip().split(c)[0].strip()` equals `s.split(c)[0].strip()`
   * whenever `c` is not whitespace and occurs in `s`.
   */
  lemma StripBeforeFirst(s: string, c: char)
    requires !IsSpace(c) && c in s
    ensures c in Strip(s)
    ensures Strip(BeforeFirst(Strip(s), c)) == Strip(BeforeFirst(s, c))
  {
    TrimLeftBeforeFirst(s, c);
    TrimRightBeforeFirst(TrimLeft(s), c);
    StripAfterTrimLeft(BeforeFirst(s, c));
  }

  /** `lstrip()` only deletes characters, so it introduces none. */
  lemma {:induction false} TrimLeftKeepsChars(s: string, c: char)
    ensures c in TrimLeft(s) ==> c in s
    decreases |s|
  {
    if s != [] && IsSpace(s[0]) {
      TrimLeftKeepsChars(s[1..], c);
    }
  }

  /** `strip()` only deletes characters, so it introduces none. */
  lemma StripKeepsChars(s: string, c: char)
    ensures c in Strip(s) ==> c in s
  {
    TrimLeftKeepsChars(s, c);
  }

  /** A pattern longer than the text cannot occur in it. */
  lemma {:induction false} ContainsLength(s: string, p: string)
    ensures Contains(s, p) ==> |p| <= |s|
    decreases |s|
  {
    if s != [] {
      ContainsLength(s[1..], p);
    }
  }

  /** One differing character rules a prefix out. */
  lemma StartsWithMismatch(s: string, p: string, k: nat)
    requires k < |p| && (|s| < |p| || (k < |s| && s[k] != p[k]))
    ensures !StartsWith(s, p)
  {
    if |p| <= |s| {
      assert s[..|p|][k] == s[k];
    }
  }
}
