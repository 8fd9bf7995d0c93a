// extract.py: one product record out of a catalog entry, and the walk over
// the catalog pages that collects them.
module Extract {
  import opened Wrappers
  import opened Text
  import opened Numerals
  import opened Catalog

  // ------------------------------------------------------------- records

  /**
   * A catalog entry as the parser sees it: the text of the title element,
   * the text of the price element, and the texts of the `<p>` elements in
   * document order. A missing element is `None`.
   */
  datatype Fragment = Fragment(title: Option<string>, price: Option<string>, paragraphs: seq<string>)

  /** The reading of `datetime.now()`. */
  datatype Clock = Clock(year: nat, month: nat, day: nat, hour: nat, minute: nat, second: nat, microsecond: nat)

  /** The ranges a `datetime` keeps its fields in. */
  predicate ValidClock(c: Clock) {
    1 <= c.year <= 9999 && 1 <= c.month <= 12 && 1 <= c.day <= 31 &&
    c.hour < 24 && c.minute < 60 && c.second < 60 && c.microsecond < 1000000
  }

  /** The record extract_fashion_data returns; every field is text. */
  datatype Product = Product(
    title: string, price: string, rating: string, color: string,
    size: string, gender: string, timestamp: string)

  const Star: char := '\U{2B50}'

  /** `%Y-%m-%d`: the year, unpadded, then the month and the day as two digits each. */
  function DateText(c: Clock): (r: string)
    requires ValidClock(c)
    ensures var k := |NatToString(c.year)|;
      |r| == k + 6 && r[..k] == NatToString(c.year) && r[k] == '-' &&
      r[k + 1..k + 3] == Pad(c.month, 2) && r[k + 3] == '-' && r[k + 4..] == Pad(c.day, 2)
  {
    NatToString(c.year) + "-" + Pad(c.month, 2) + "-" + Pad(c.day, 2)
  }

  /** `%H:%M:%S`: hour, minute and second as two digits each. */
  function TimeText(c: Clock): (r: string)
    requires ValidClock(c)
    ensures |r| == 8 && r[..2] == Pad(c.hour, 2) && r[2] == ':' &&
      r[3..5] == Pad(c.minute, 2) && r[5] == ':' && r[6..] == Pad(c.second, 2)
  {
    Pad(c.hour, 2) + ":" + Pad(c.minute, 2) + ":" + Pad(c.second, 2)
  }

  /**
   * `strftime('%Y-%m-%d %H:%M:%S.')` followed by the milliseconds
   * (`microsecond / 1000`, floored) as three digits: nineteen characters
   * after the year. TimestampDate and TimestampTime give the offsets of
   * the parts.
   */
  function Timestamp(c: Clock): (r: string)
    requires ValidClock(c)
    ensures |r| == |NatToString(c.year)| + 19
  {
    DateText(c) + " " + TimeText(c) + "." + Pad(c.microsecond / 1000, 3)
  }

  /** The timestamp opens with the date and a blank. */
  lemma TimestampDate(c: Clock)
    requires ValidClock(c)
    ensures var r, k := Timestamp(c), |NatToString(c.year)|;
      r[..k + 6] == DateText(c) && r[k + 6] == ' '
  {
    var date := DateText(c);
    assert Timestamp(c) == date + (" " + TimeText(c) + "." + Pad(c.microsecond / 1000, 3));
  }

  /** After the date and the blank come the time, a dot and the milliseconds. */
  lemma TimestampTime(c: Clock)
    requires ValidClock(c)
    ensures var r, k := Timestamp(c), |NatToString(c.year)|;
      r[k + 7..k + 15] == TimeText(c) && r[k + 15] == '.' && r[k + 16..] == Pad(c.microsecond / 1000, 3)
  {
    var r, k := Timestamp(c), |NatToString(c.year)|;
    var time, millis := TimeText(c), Pad(c.microsecond / 1000, 3);
    assert r == (DateText(c) + " ") + (time + ("." + millis));
    assert r[k + 7..] == time + ("." + millis);
  }

  /** The last four characters are a dot and the zero-padded milliseconds. */
  lemma TimestampEnd(c: Clock)
    requires ValidClock(c)
    ensures var r := Timestamp(c);
      |r| >= 4 && r[|r| - 4..] == "." + Pad(c.microsecond / 1000, 3)
  {
    var r, k := Timestamp(c), |NatToString(c.year)|;
    TimestampTime(c);
    assert r[k + 15..] == [r[k + 15]] + r[k + 16..];
  }

  /** The timestamp ends in a dot and three digits that read back as the milliseconds. */
  lemma TimestampMillis(c: Clock)
    requires ValidClock(c)
    ensures var r := Timestamp(c);
      |r| >= 4 && r[|r| - 4] == '.' && AllDigits(r[|r| - 3..]) &&
      DigitsValue(r[|r| - 3..]) == c.microsecond / 1000 < 1000
  {
    TimestampTime(c);
    PadRoundTrip(c.microsecond / 1000, 3);
  }

  /** A two-digit field read back at its offset. */
  lemma PadAt(r: string, i: nat, n: nat)
    requires n < 100 && i + 2 <= |r| && r[i..i + 2] == Pad(n, 2)
    ensures AllDigits(r[i..i + 2]) && DigitsValue(r[i..i + 2]) == n
  {
    PadRoundTrip(n, 2);
  }

  /** Two clocks with the same date text agree on the date. */
  lemma DateTextInjective(c: Clock, d: Clock)
    requires ValidClock(c) && ValidClock(d) && DateText(c) == DateText(d)
    ensures c.year == d.year && c.month == d.month && c.day == d.day
  {
    var r := DateText(c);
    var k := |NatToString(c.year)|;
    assert k == |NatToString(d.year)|;
    NatToStringInjective(c.year, d.year);
    PadAt(r, k + 1, c.month);
    PadAt(r, k + 1, d.month);
    PadAt(r, k + 4, c.day);
    PadAt(r, k + 4, d.day);
  }

  /** Two clocks with the same time text agree on the time of day to the second. */
  lemma TimeTextInjective(c: Clock, d: Clock)
    requires ValidClock(c) && ValidClock(d) && TimeText(c) == TimeText(d)
    ensures c.hour == d.hour && c.minute == d.minute && c.second == d.second
  {
    var r := TimeText(c);
    PadAt(r, 0, c.hour);
    PadAt(r, 0, d.hour);
    PadAt(r, 3, c.minute);
    PadAt(r, 3, d.minute);
    PadAt(r, 6, c.second);
    PadAt(r, 6, d.second);
  }

  /** Two clocks with the same timestamp agree up to the millisecond. */
  lemma TimestampInjective(c: Clock, d: Clock)
    requires ValidClock(c) && ValidClock(d) && Timestamp(c) == Timestamp(d)
    ensures c.year == d.year && c.month == d.month && c.day == d.day
    ensures c.hour == d.hour && c.minute == d.minute && c.second == d.second
    ensures c.microsecond / 1000 == d.microsecond / 1000
  {
    var r := Timestamp(c);
    var k := |NatToString(c.year)|;
    assert k == |NatToString(d.year)|;
    TimestampDate(c);
    TimestampDate(d);
    TimestampTime(c);
    TimestampTime(d);
    DateTextInjective(c, d);
    TimeTextInjective(c, d);
    PadRoundTrip(c.microsecond / 1000, 3);
    PadRoundTrip(d.microsecond / 1000, 3);
  }

  /**
   * The rating text: the first paragraph with every "Rating:" and every
   * star deleted, cut before the first `/`.
   */
  function RatingText(p: string): (r: string)
    ensures '/' !in r && Star !in r
    ensures |r| <= |Without(RemoveAll(p, "Rating:"), Star)|
    ensures r == Without(RemoveAll(p, "Rating:"), Star)[..|r|]
    ensures '/' in Without(RemoveAll(p, "Rating:"), Star) ==> Without(RemoveAll(p, "Rating:"), Star)[|r|] == '/'
    ensures '/' !in Without(RemoveAll(p, "Rating:"), Star) ==> r == Without(RemoveAll(p, "Rating:"), Star)
  {
    RemoveCharSpec(RemoveAll(p, "Rating:"), Star);
    var unstarred := RemoveAll(RemoveAll(p, "Rating:"), [Star]);
    var r := BeforeFirst(unstarred, '/');
    assert forall k :: 0 <= k < |r| ==> r[k] == unstarred[k];
    r
  }

  /** When the unlabelled, unstarred text has its first `/` at `k`, the rating text is what comes before. */
  lemma RatingTextBefore(p: string, u: string, k: nat)
    requires u == Without(RemoveAll(p, "Rating:"), Star)
    requires k < |u| && u[k] == '/' && '/' !in u[..k]
    ensures RatingText(p) == u[..k]
  {
    assert '/' in u;
  }

  /**
   * extract_fashion_data. A missing title element, or fewer than four
   * paragraphs, raises inside the function and gives `None`.
   */
  function ExtractFashionData(f: Fragment, now: Clock): (r: Option<Product>)
    requires ValidClock(now)
    ensures r.None? <==> f.title.None? || |f.paragraphs| < 4
    ensures r.Some? ==> r.value.title == f.title.value
    ensures r.Some? ==> r.value.price == if f.price.Some? then f.price.value else PriceUnavailable
    ensures r.Some? ==> r.value.rating == RatingText(f.paragraphs[0])
    ensures r.Some? ==> r.value.color == f.paragraphs[1]
    ensures r.Some? ==> r.value.size == RemoveAll(f.paragraphs[2], "Size:")
    ensures r.Some? ==> r.value.gender == RemoveAll(f.paragraphs[3], "Gender:")
    ensures r.Some? ==> r.value.timestamp == Timestamp(now)
  {
    var timestamp := Timestamp(now);
    if f.title.None? || |f.paragraphs| < 4 then None
    else
      var price := if f.price.Some? then f.price.value else PriceUnavailable;
      Some(Product(
        f.title.value, price, RatingText(f.paragraphs[0]), f.paragraphs[1],
        RemoveAll(f.paragraphs[2], "Size:"), RemoveAll(f.paragraphs[3], "Gender:"),
        timestamp))
  }

  // ---------------------------------------------------------------- walk

  const MaxPages := 50

  /** The URL of catalog page `n`: the base itself for page 1, `page<n>` appended otherwise. */
  function PageUrl(base: string, n: int): (u: string)
    ensures n == 1 ==> u == base
    ensures n != 1 ==> u == base + "page" + IntToString(n)
  {
    if n == 1 then base else base + "page" + IntToString(n)
  }

  /** Different pages have different URLs. */
  lemma PageUrlInjective(base: string, m: int, n: int)
    requires PageUrl(base, m) == PageUrl(base, n)
    ensures m == n
  {
    if m != 1 && n != 1 {
      var u := PageUrl(base, m);
      assert u[|base| + 4..] == IntToString(m);
      assert PageUrl(base, n)[|base| + 4..] == IntToString(n);
      IntToStringInjective(m, n);
    }
  }

  /** What extracting one entry does: a record, a falsy result, or an exception. */
  datatype Extraction<R> = Extracted(record: R) | Nothing | Raised

  /** The records of the entries whose extraction produced one, in entry order. */
  function Collect<E, R>(entries: seq<E>, extract: E -> Extraction<R>): (r: seq<R>)
    ensures |r| <= |entries|
    decreases |entries|
  {
    if entries == [] then []
    else
      var last := entries[|entries| - 1];
      Collect(entries[..|entries| - 1], extract) +
      (if extract(last).Extracted? then [extract(last).record] else [])
  }

  /** Collecting is done entry by entry: it distributes over concatenation. */
  lemma {:induction false} CollectAppend<E, R>(a: seq<E>, b: seq<E>, extract: E -> Extraction<R>)
    ensures Collect(a + b, extract) == Collect(a, extract) + Collect(b, extract)
    decreases |b|
  {
    if b == [] {
      assert a + b == a;
    } else {
      var b' := b[..|b| - 1];
      assert (a + b)[..|a + b| - 1] == a + b';
      assert (a + b)[|a + b| - 1] == b[|b| - 1];
      CollectAppend(a, b', extract);
    }
  }

  /** An entry whose extraction gives nothing or raises contributes nothing and stops nothing. */
  lemma CollectSkips<E, R>(a: seq<E>, e: E, b: seq<E>, extract: E -> Extraction<R>)
    requires !extract(e).Extracted?
    ensures Collect(a + [e] + b, extract) == Collect(a + b, extract)
  {
    CollectAppend(a + [e], b, extract);
    CollectAppend(a, b, extract);
    assert (a + [e])[..|a|] == a;
  }

  /** Every entry that yields a record contributes exactly that record. */
  lemma CollectKeeps<E, R>(a: seq<E>, e: E, b: seq<E>, extract: E -> Extraction<R>)
    requires extract(e).Extracted?
    ensures Collect(a + [e] + b, extract) == Collect(a, extract) + [extract(e).record] + Collect(b, extract)
  {
    CollectAppend(a + [e], b, extract);
    assert (a + [e])[..|a|] == a;
  }

  /** The step measure of the walk: pages left before the limit. */
  function Remaining(page: int): nat {
    if page <= MaxPages then MaxPages + 1 - page else 0
  }

  /** The entries of page `page` when the walk goes on past it, or `None` when it stops there. */
  function Content<E>(base: string, page: int, fetch: string -> Option<seq<E>>): Option<seq<E>> {
    var content := fetch(PageUrl(base, page));
    if content.Some? && content.value != [] then content else None
  }

  /** The records scrape_data collects from `page` on. */
  function Walk<E, R>(base: string, page: int, fetch: string -> Option<seq<E>>, extract: E -> Extraction<R>): (r: seq<R>)
    ensures |r| <= |TriedEntries(base, page, fetch)|
    decreases Remaining(page)
  {
    if page > MaxPages then []
    else match Content(base, page, fetch)
      case None => []
      case Some(entries) => Collect(entries, extract) + Walk(base, page + 1, fetch, extract)
  }

  /** The pages whose URL is fetched from `page` on. */
  function VisitedPages<E>(base: string, page: int, fetch: string -> Option<seq<E>>): seq<int>
    decreases Remaining(page)
  {
    if page > MaxPages then []
    else if Content(base, page, fetch).None? then [page]
    else [page] + VisitedPages(base, page + 1, fetch)
  }

  /** The entries handed to the extractor from `page` on, in order. */
  function TriedEntries<E>(base: string, page: int, fetch: string -> Option<seq<E>>): seq<E>
    decreases Remaining(page)
  {
    if page > MaxPages then []
    else match Content(base, page, fetch)
      case None => []
      case Some(entries) => entries + TriedEntries(base, page + 1, fetch)
  }

  /** The pages fetched are consecutive from `page`, none above the limit. */
  lemma {:induction false} VisitedPagesConsecutive<E>(base: string, page: int, fetch: string -> Option<seq<E>>)
    ensures var p := VisitedPages(base, page, fetch);
      |p| <= Remaining(page) && forall i :: 0 <= i < |p| ==> p[i] == page + i <= MaxPages
    decreases Remaining(page)
  {
    var p := VisitedPages(base, page, fetch);
    if page <= MaxPages && Content(base, page, fetch).Some? {
      var q := VisitedPages(base, page + 1, fetch);
      VisitedPagesConsecutive(base, page + 1, fetch);
      assert p == [page] + q;
      forall i | 0 <= i < |p| ensures p[i] == page + i <= MaxPages {
        if i > 0 {
          assert p[i] == q[i - 1];
        }
      }
    }
  }

  /** The walk goes on past every page fetched but the last. */
  lemma {:induction false} VisitedPagesContinue<E>(base: string, page: int, fetch: string -> Option<seq<E>>, i: nat)
    requires i + 1 < |VisitedPages(base, page, fetch)|
    ensures Content(base, VisitedPages(base, page, fetch)[i], fetch).Some?
    decreases Remaining(page)
  {
    var p := VisitedPages(base, page, fetch);
    assert page <= MaxPages && Content(base, page, fetch).Some?;
    var q := VisitedPages(base, page + 1, fetch);
    assert p == [page] + q;
    if i > 0 {
      VisitedPagesContinue(base, page + 1, fetch, i - 1);
      assert p[i] == q[i - 1];
    }
  }

  /** Some page is fetched exactly when the start is within the limit. */
  lemma VisitedPagesSome<E>(base: string, page: int, fetch: string -> Option<seq<E>>)
    ensures page <= MaxPages <==> |VisitedPages(base, page, fetch)| > 0
  {
  }

  /** The last page fetched is the limit or a page without content or entries. */
  lemma {:induction false} VisitedPagesStop<E>(base: string, page: int, fetch: string -> Option<seq<E>>)
    requires |VisitedPages(base, page, fetch)| > 0
    ensures var p := VisitedPages(base, page, fetch);
      p[|p| - 1] == MaxPages || Content(base, p[|p| - 1], fetch).None?
    decreases Remaining(page)
  {
    var p := VisitedPages(base, page, fetch);
    VisitedPagesSome(base, page, fetch);
    if Content(base, page, fetch).None? {
      assert p == [page];
    } else {
      var q := VisitedPages(base, page + 1, fetch);
      assert p == [page] + q;
      VisitedPagesSome(base, page + 1, fetch);
      if page < MaxPages {
        VisitedPagesStop(base, page + 1, fetch);
        assert p[|p| - 1] == q[|q| - 1];
      } else {
        assert p == [MaxPages];
      }
    }
  }

  /** The records are what the tried entries yield, in the order they were tried. */
  lemma {:induction false} WalkCollectsTried<E, R>(base: string, page: int, fetch: string -> Option<seq<E>>, extract: E -> Extraction<R>)
    ensures Walk(base, page, fetch, extract) == Collect(TriedEntries(base, page, fetch), extract)
    decreases Remaining(page)
  {
    if page <= MaxPages && Content(base, page, fetch).Some? {
      WalkCollectsTried(base, page + 1, fetch, extract);
      CollectAppend(Content(base, page, fetch).value, TriedEntries(base, page + 1, fetch), extract);
    }
  }

  /**
   * Two pages of two entries each and nothing on page 3: three fetches,
   * four extractions, four records in page then entry order.
   */
  lemma TwoFullPages<E, R>(base: string, fetch: string -> Option<seq<E>>, extract: E -> Extraction<R>, a: E, b: E, c: E, d: E)
    requires fetch(PageUrl(base, 1)) == Some([a, b]) && fetch(PageUrl(base, 2)) == Some([c, d])
    requires fetch(PageUrl(base, 3)) == None
    requires forall e :: extract(e).Extracted?
    ensures VisitedPages(base, 1, fetch) == [1, 2, 3]
    ensures TriedEntries(base, 1, fetch) == [a, b, c, d]
    ensures Walk(base, 1, fetch, extract) == [extract(a).record, extract(b).record, extract(c).record, extract(d).record]
  {
    assert Content(base, 1, fetch) == Some([a, b]);
    assert Content(base, 2, fetch) == Some([c, d]);
    assert Content(base, 3, fetch).None?;
    WalkStep(base, 1, fetch, extract);
    WalkStep(base, 2, fetch, extract);
    WalkStep(base, 3, fetch, extract);
    CollectPair(a, b, extract);
    CollectPair(c, d, extract);
  }

  lemma CollectPair<E, R>(a: E, b: E, extract: E -> Extraction<R>)
    requires extract(a).Extracted? && extract(b).Extracted?
    ensures Collect([a, b], extract) == [extract(a).record, extract(b).record]
  {
    assert [a, b][..1] == [a];
    assert [a][..0] == [];
  }

  /** One step of the walk at a page within the limit. */
  lemma WalkStep<E, R>(base: string, page: int, fetch: string -> Option<seq<E>>, extract: E -> Extraction<R>)
    requires page <= MaxPages
    ensures Content(base, page, fetch).None? ==>
      Walk(base, page, fetch, extract) == [] && VisitedPages(base, page, fetch) == [page] &&
      TriedEntries(base, page, fetch) == []
    ensures Content(base, page, fetch).Some? ==>
      var entries := Content(base, page, fetch).value;
      Walk(base, page, fetch, extract) == Collect(entries, extract) + Walk(base, page + 1, fetch, extract) &&
      VisitedPages(base, page, fetch) == [page] + VisitedPages(base, page + 1, fetch) &&
      TriedEntries(base, page, fetch) == entries + TriedEntries(base, page + 1, fetch)
  {
  }

  /**
   * The `for` loop over one page's entries: each entry is extracted in
   * turn, a record is appended when there is one, and an entry that gives
   * nothing or raises is passed over.
   */
  method ExtractPage<E, R>(entries: seq<E>, extract: E -> Extraction<R>) returns (records: seq<R>)
    ensures records == Collect(entries, extract)
  {
    records := [];
    for i := 0 to |entries|
      invariant records == Collect(entries[..i], extract)
    {
      var outcome := extract(entries[i]);
      if outcome.Extracted? {
        records := records + [outcome.record];
      }
      assert entries[..i + 1][..i] == entries[..i];
    }
    assert entries[..|entries|] == entries;
  }

  /** Past the limit the walk fetches, tries and collects nothing. */
  lemma WalkEnd<E, R>(base: string, page: int, fetch: string -> Option<seq<E>>, extract: E -> Extraction<R>)
    requires page > MaxPages
    ensures Walk(base, page, fetch, extract) == []
    ensures VisitedPages(base, page, fetch) == []
    ensures TriedEntries(base, page, fetch) == []
  {
  }

  lemma AppendAssoc<T>(a: seq<T>, b: seq<T>, c: seq<T>)
    ensures a + (b + c) == (a + b) + c
  {
  }

  /** The records still to come, carried past a page whose entries are `entries`. */
  lemma WalkAdvance<E, R>(base: string, page: int, fetch: string -> Option<seq<E>>, extract: E -> Extraction<R>,
                          data: seq<R>, entries: seq<E>)
    requires page <= MaxPages && Content(base, page, fetch) == Some(entries)
    ensures data + Walk(base, page, fetch, extract) == (data + Collect(entries, extract)) + Walk(base, page + 1, fetch, extract)
  {
    AppendAssoc(data, Collect(entries, extract), Walk(base, page + 1, fetch, extract));
  }

  /** The pages still to fetch, carried past a page with entries. */
  lemma PagesAdvance<E>(base: string, page: int, fetch: string -> Option<seq<E>>, pages: seq<int>)
    requires page <= MaxPages && Content(base, page, fetch).Some?
    ensures pages + VisitedPages(base, page, fetch) == (pages + [page]) + VisitedPages(base, page + 1, fetch)
  {
    AppendAssoc(pages, [page], VisitedPages(base, page + 1, fetch));
  }

  /** The entries still to try, carried past a page whose entries are `entries`. */
  lemma TriedAdvance<E>(base: string, page: int, fetch: string -> Option<seq<E>>, tried: seq<E>, entries: seq<E>)
    requires page <= MaxPages && Content(base, page, fetch) == Some(entries)
    ensures tried + TriedEntries(base, page, fetch) == (tried + entries) + TriedEntries(base, page + 1, fetch)
  {
    AppendAssoc(tried, entries, TriedEntries(base, page + 1, fetch));
  }

  /** The loop's invariant at a page without content or entries, where it stops. */
  lemma WalkStop<E, R>(base: string, startPage: int, page: int, fetch: string -> Option<seq<E>>, extract: E -> Extraction<R>,
                       data: seq<R>, pages: seq<int>, tried: seq<E>)
    requires page <= MaxPages && Content(base, page, fetch).None?
    requires Walk(base, startPage, fetch, extract) == data + Walk(base, page, fetch, extract)
    requires VisitedPages(base, startPage, fetch) == pages + VisitedPages(base, page, fetch)
    requires TriedEntries(base, startPage, fetch) == tried + TriedEntries(base, page, fetch)
    ensures Walk(base, startPage, fetch, extract) == data
    ensures VisitedPages(base, startPage, fetch) == pages + [page]
    ensures TriedEntries(base, startPage, fetch) == tried
  {
    WalkStep(base, page, fetch, extract);
    assert data + [] == data;
    assert tried + [] == tried;
  }

  /** The loop's invariant once the page number has passed the limit. */
  lemma WalkFinished<E, R>(base: string, startPage: int, page: int, fetch: string -> Option<seq<E>>, extract: E -> Extraction<R>,
                           data: seq<R>, pages: seq<int>, tried: seq<E>)
    requires page > MaxPages
    requires Walk(base, startPage, fetch, extract) == data + Walk(base, page, fetch, extract)
    requires VisitedPages(base, startPage, fetch) == pages + VisitedPages(base, page, fetch)
    requires TriedEntries(base, startPage, fetch) == tried + TriedEntries(base, page, fetch)
    ensures Walk(base, startPage, fetch, extract) == data
    ensures VisitedPages(base, startPage, fetch) == pages
    ensures TriedEntries(base, startPage, fetch) == tried
  {
    WalkEnd(base, page, fetch, extract);
    assert data + [] == data && pages + [] == pages && tried + [] == tried;
  }

  /**
   * scrape_data. `fetch` stands for fetching_content keyed by URL (`None`
   * for falsy content) composed with finding the entries; `extract` for
   * extract_fashion_data together with the `try` around it. The ghost
   * results are the pages fetched and the entries tried.
   */
  method ScrapeData<E, R>(base: string, startPage: int, fetch: string -> Option<seq<E>>, extract: E -> Extraction<R>)
    returns (data: seq<R>, ghost pages: seq<int>, ghost tried: seq<E>)
    ensures data == Walk(base, startPage, fetch, extract)
    ensures pages == VisitedPages(base, startPage, fetch)
    ensures tried == TriedEntries(base, startPage, fetch)
    ensures data == Collect(tried, extract)
    ensures startPage > MaxPages ==> pages == [] && data == []
  {
    data := [];
    pages := [];
    tried := [];
    var pageNumber := startPage;
    while pageNumber <= MaxPages
      invariant Walk(base, startPage, fetch, extract) == data + Walk(base, pageNumber, fetch, extract)
      invariant VisitedPages(base, startPage, fetch) == pages + VisitedPages(base, pageNumber, fetch)
      invariant TriedEntries(base, startPage, fetch) == tried + TriedEntries(base, pageNumber, fetch)
      decreases MaxPages + 1 - pageNumber
    {
      var url := PageUrl(base, pageNumber);
      var content := fetch(url);
      if content.None? || content.value == [] {
        WalkStop(base, startPage, pageNumber, fetch, extract, data, pages, tried);
        pages := pages + [pageNumber];
        break;
      }
      var entries := content.value;
      var records := ExtractPage(entries, extract);
      WalkAdvance(base, pageNumber, fetch, extract, data, entries);
      PagesAdvance(base, pageNumber, fetch, pages);
      TriedAdvance(base, pageNumber, fetch, tried, entries);
      pages := pages + [pageNumber];
      data := data + records;
      tried := tried + entries;
      pageNumber := pageNumber + 1;
    }
    if pageNumber > MaxPages {
      WalkFinished(base, startPage, pageNumber, fetch, extract, data, pages, tried);
    }
    WalkCollectsTried(base, startPage, fetch, extract);
  }
}
