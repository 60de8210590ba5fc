/**
 * Per-URL, per-date hit counts: the nested PHP array `$result[$url][$date]`
 * that each worker builds and that the merge step folds together.  A PHP array
 * keeps its keys in insertion order, so an aggregate is an association list
 * of URLs, each holding an association list of dates.
 *
 * Both writers of such an array perform the same update: find the URL (append
 * it when new), find the date inside it (append it when new, starting from 0),
 * and add a count.  `Bump` is that update and `Apply` a sequence of them.
 */
module Aggregates {
  import opened Text

  /** One observation of a `(url, date)` pair carrying a count. */
  datatype Hit = Hit(url: Bytes, date: Bytes, count: int)

  datatype DateCount = DateCount(date: Bytes, count: int)
  datatype UrlEntry = UrlEntry(url: Bytes, dates: seq<DateCount>)
  type Aggregate = seq<UrlEntry>

  // ---------------------------------------------------------------------------
  // Lookup
  // ---------------------------------------------------------------------------

  predicate HasDate(ds: seq<DateCount>, d: Bytes) {
    ds != [] && (ds[0].date == d || HasDate(ds[1..], d))
  }

  predicate HasUrl(a: Aggregate, u: Bytes) {
    a != [] && (a[0].url == u || HasUrl(a[1..], u))
  }

  /** The date list stored under `u`; empty when `u` is absent. */
  function DatesOf(a: Aggregate, u: Bytes): seq<DateCount> {
    if a == [] then [] else if a[0].url == u then a[0].dates else DatesOf(a[1..], u)
  }

  predicate Has(a: Aggregate, u: Bytes, d: Bytes) {
    HasDate(DatesOf(a, u), d)
  }

  /** The count stored under `d`, or 0 when absent (PHP's `?? 0`). */
  function CountIn(ds: seq<DateCount>, d: Bytes): int {
    if ds == [] then 0 else if ds[0].date == d then ds[0].count else CountIn(ds[1..], d)
  }

  function Count(a: Aggregate, u: Bytes, d: Bytes): int {
    CountIn(DatesOf(a, u), d)
  }

  // ---------------------------------------------------------------------------
  // Shape invariants
  // ---------------------------------------------------------------------------

  predicate DistinctDates(ds: seq<DateCount>) {
    ds == [] || (!HasDate(ds[1..], ds[0].date) && DistinctDates(ds[1..]))
  }

  /** Keys are unique at both levels and every URL holds at least one date. */
  predicate Valid(a: Aggregate) {
    a == [] ||
    (!HasUrl(a[1..], a[0].url) && a[0].dates != [] && DistinctDates(a[0].dates) && Valid(a[1..]))
  }

  predicate PositiveDates(ds: seq<DateCount>) {
    forall j | 0 <= j < |ds| :: ds[j].count >= 1
  }

  /** Every stored count is at least 1. */
  predicate Positive(a: Aggregate) {
    forall i | 0 <= i < |a| :: PositiveDates(a[i].dates)
  }

  /** Every `(url, date)` key stored in `a` satisfies `ok`. */
  predicate ForallKeys(a: Aggregate, ok: (Bytes, Bytes) -> bool) {
    forall i, j | 0 <= i < |a| && 0 <= j < |a[i].dates| :: ok(a[i].url, a[i].dates[j].date)
  }

  function DatesTotal(ds: seq<DateCount>): int {
    if ds == [] then 0 else ds[0].count + DatesTotal(ds[1..])
  }

  /** The sum of all stored counts. */
  function Total(a: Aggregate): int {
    if a == [] then 0 else DatesTotal(a[0].dates) + Total(a[1..])
  }

  // ---------------------------------------------------------------------------
  // The update
  // ---------------------------------------------------------------------------

  /** Add `c` under date `d`, appending `d` with count `c` when it is new. */
  function BumpDate(ds: seq<DateCount>, d: Bytes, c: int): (r: seq<DateCount>)
    ensures r != []
  {
    if ds == [] then [DateCount(d, c)]
    else if ds[0].date == d then [DateCount(d, ds[0].count + c)] + ds[1..]
    else [ds[0]] + BumpDate(ds[1..], d, c)
  }

  /** `$a[$h->url][$h->date] = ($a[$h->url][$h->date] ?? 0) + $h->count`. */
  function Bump(a: Aggregate, h: Hit): (r: Aggregate)
    ensures r != []
  {
    if a == [] then [UrlEntry(h.url, [DateCount(h.date, h.count)])]
    else if a[0].url == h.url then [UrlEntry(h.url, BumpDate(a[0].dates, h.date, h.count))] + a[1..]
    else [a[0]] + Bump(a[1..], h)
  }

  /** The updates of `hs`, in order, starting from `a`. */
  function Apply(a: Aggregate, hs: seq<Hit>): Aggregate
    decreases |hs|
  {
    if hs == [] then a else Bump(Apply(a, hs[..|hs| - 1]), hs[|hs| - 1])
  }

  /** The aggregate of a sequence of hits, starting from the empty array. */
  function Tally(hs: seq<Hit>): Aggregate {
    Apply([], hs)
  }

  /** The sum of the counts of the hits on `(u, d)`. */
  function HitSum(hs: seq<Hit>, u: Bytes, d: Bytes): int
    decreases |hs|
  {
    if hs == [] then 0
    else HitSum(hs[..|hs| - 1], u, d) + (if hs[|hs| - 1].url == u && hs[|hs| - 1].date == d then hs[|hs| - 1].count else 0)
  }

  function HitsTotal(hs: seq<Hit>): int
    decreases |hs|
  {
    if hs == [] then 0 else HitsTotal(hs[..|hs| - 1]) + hs[|hs| - 1].count
  }

  /** The entries of an aggregate, one per `(url, date)`, in stored order. */
  function DateRecords(u: Bytes, ds: seq<DateCount>): (rs: seq<Hit>)
    ensures |rs| == |ds|
    ensures forall k | 0 <= k < |rs| :: rs[k] == Hit(u, ds[k].date, ds[k].count)
  {
    if ds == [] then [] else [Hit(u, ds[0].date, ds[0].count)] + DateRecords(u, ds[1..])
  }

  /** The stored (url, date, count) pairs, url by url in insertion order. */
  function Pairs(a: Aggregate): seq<Hit> {
    if a == [] then [] else DateRecords(a[0].url, a[0].dates) + Pairs(a[1..])
  }

  // ---------------------------------------------------------------------------
  // What one update does
  // ---------------------------------------------------------------------------

  lemma {:induction false} BumpDateCount(ds: seq<DateCount>, d: Bytes, c: int, x: Bytes)
    ensures CountIn(BumpDate(ds, d, c), x) == CountIn(ds, x) + (if x == d then c else 0)
    ensures HasDate(BumpDate(ds, d, c), x) <==> HasDate(ds, x) || x == d
  {
    if ds != [] && ds[0].date != d {
      BumpDateCount(ds[1..], d, c, x);
    }
  }

  /** Bumping `h` changes the date list of `h.url` and no other. */
  lemma {:induction false} BumpDatesOf(a: Aggregate, h: Hit, u: Bytes)
    ensures DatesOf(Bump(a, h), u) == if u == h.url then BumpDate(DatesOf(a, u), h.date, h.count) else DatesOf(a, u)
    ensures HasUrl(Bump(a, h), u) <==> HasUrl(a, u) || u == h.url
  {
    if a != [] && a[0].url != h.url {
      BumpDatesOf(a[1..], h, u);
    }
  }

  /**
   * Each update adds its count to exactly one `(url, date)` pair, a new pair
   * starting from 0, and leaves every other count as it was.
   */
  lemma BumpCount(a: Aggregate, h: Hit, u: Bytes, d: Bytes)
    ensures Count(Bump(a, h), u, d) == Count(a, u, d) + (if u == h.url && d == h.date then h.count else 0)
    ensures Has(Bump(a, h), u, d) <==> Has(a, u, d) || (u == h.url && d == h.date)
  {
    BumpDatesOf(a, h, u);
    BumpDateCount(DatesOf(a, u), h.date, h.count, d);
  }

  lemma {:induction false} BumpDateValid(ds: seq<DateCount>, d: Bytes, c: int)
    requires DistinctDates(ds)
    ensures DistinctDates(BumpDate(ds, d, c))
  {
    if ds == [] {
    } else if ds[0].date == d {
      assert BumpDate(ds, d, c)[1..] == ds[1..];
    } else {
      BumpDateValid(ds[1..], d, c);
      BumpDateCount(ds[1..], d, c, ds[0].date);
      assert BumpDate(ds, d, c)[1..] == BumpDate(ds[1..], d, c);
    }
  }

  /** The update keeps keys unique at both levels. */
  lemma {:induction false} BumpValid(a: Aggregate, h: Hit)
    requires Valid(a)
    ensures Valid(Bump(a, h))
  {
    if a == [] {
    } else if a[0].url == h.url {
      BumpDateValid(a[0].dates, h.date, h.count);
      assert Bump(a, h)[1..] == a[1..];
    } else {
      BumpValid(a[1..], h);
      BumpDatesOf(a[1..], h, a[0].url);
      assert Bump(a, h)[1..] == Bump(a[1..], h);
    }
  }

  lemma {:induction false} BumpDatePositive(ds: seq<DateCount>, d: Bytes, c: int)
    requires PositiveDates(ds) && c >= 1
    ensures PositiveDates(BumpDate(ds, d, c))
  {
    if ds != [] && ds[0].date != d {
      BumpDatePositive(ds[1..], d, c);
      assert BumpDate(ds, d, c) == [ds[0]] + BumpDate(ds[1..], d, c);
    }
  }

  /** Counts of at least 1 stay at least 1 when a positive count is added. */
  lemma {:induction false} BumpPositive(a: Aggregate, h: Hit)
    requires Positive(a) && h.count >= 1
    ensures Positive(Bump(a, h))
  {
    if a == [] {
    } else if a[0].url == h.url {
      BumpDatePositive(a[0].dates, h.date, h.count);
    } else {
      assert Positive(a[1..]) by {
        forall i | 0 <= i < |a[1..]| ensures PositiveDates(a[1..][i].dates) {
          assert a[1..][i] == a[i + 1];
        }
      }
      BumpPositive(a[1..], h);
      var r := Bump(a, h);
      forall i | 0 <= i < |r| ensures PositiveDates(r[i].dates) {
        if i > 0 { assert r[i] == Bump(a[1..], h)[i - 1]; }
      }
    }
  }

  lemma {:induction false} BumpDateTotal(ds: seq<DateCount>, d: Bytes, c: int)
    ensures DatesTotal(BumpDate(ds, d, c)) == DatesTotal(ds) + c
  {
    if ds != [] && ds[0].date != d {
      BumpDateTotal(ds[1..], d, c);
    }
  }

  /** The update raises the sum of all counts by exactly its count. */
  lemma {:induction false} BumpTotal(a: Aggregate, h: Hit)
    ensures Total(Bump(a, h)) == Total(a) + h.count
  {
    if a == [] {
      assert DatesTotal([DateCount(h.date, h.count)]) == h.count + DatesTotal([]);
    } else if a[0].url == h.url {
      BumpDateTotal(a[0].dates, h.date, h.count);
      assert Bump(a, h)[1..] == a[1..];
    } else {
      BumpTotal(a[1..], h);
      assert Bump(a, h)[1..] == Bump(a[1..], h);
    }
  }

  lemma {:induction false} BumpKeys(a: Aggregate, h: Hit, ok: (Bytes, Bytes) -> bool)
    requires ForallKeys(a, ok) && ok(h.url, h.date)
    ensures ForallKeys(Bump(a, h), ok)
  {
    if a == [] {
    } else if a[0].url == h.url {
      BumpDateKeys(a[0].dates, h.url, h.date, h.count, ok);
      var r := Bump(a, h);
      forall i, j | 0 <= i < |r| && 0 <= j < |r[i].dates| ensures ok(r[i].url, r[i].dates[j].date) {
        if i > 0 { assert r[i] == a[i]; }
      }
    } else {
      assert ForallKeys(a[1..], ok) by {
        forall i, j | 0 <= i < |a[1..]| && 0 <= j < |a[1..][i].dates|
          ensures ok(a[1..][i].url, a[1..][i].dates[j].date)
        {
          assert a[1..][i] == a[i + 1];
        }
      }
      BumpKeys(a[1..], h, ok);
      var r := Bump(a, h);
      forall i, j | 0 <= i < |r| && 0 <= j < |r[i].dates| ensures ok(r[i].url, r[i].dates[j].date) {
        if i > 0 { assert r[i] == Bump(a[1..], h)[i - 1]; }
      }
    }
  }

  lemma {:induction false} BumpDateKeys(ds: seq<DateCount>, u: Bytes, d: Bytes, c: int, ok: (Bytes, Bytes) -> bool)
    requires forall j | 0 <= j < |ds| :: ok(u, ds[j].date)
    requires ok(u, d)
    ensures forall j | 0 <= j < |BumpDate(ds, d, c)| :: ok(u, BumpDate(ds, d, c)[j].date)
  {
    if ds != [] && ds[0].date != d {
      BumpDateKeys(ds[1..], u, d, c, ok);
      var r := BumpDate(ds, d, c);
      forall j | 0 <= j < |r| ensures ok(u, r[j].date) {
        if j > 0 { assert r[j] == BumpDate(ds[1..], d, c)[j - 1]; }
      }
    }
  }

  // ---------------------------------------------------------------------------
  // What a sequence of updates does
  // ---------------------------------------------------------------------------

  lemma {:induction false} ApplyAppend(a: Aggregate, xs: seq<Hit>, ys: seq<Hit>)
    ensures Apply(a, xs + ys) == Apply(Apply(a, xs), ys)
    decreases |ys|
  {
    if ys == [] {
      assert xs + ys == xs;
    } else {
      assert (xs + ys)[..|xs + ys| - 1] == xs + ys[..|ys| - 1];
      ApplyAppend(a, xs, ys[..|ys| - 1]);
    }
  }

  lemma ApplyCons(a: Aggregate, h: Hit, ys: seq<Hit>)
    ensures Apply(a, [h] + ys) == Apply(Bump(a, h), ys)
  {
    ApplyAppend(a, [h], ys);
    assert [h][..0] == [];
  }

  /**
   * The reference meaning of a sequence of updates: each pair's count is what
   * it was plus the sum of the counts of the hits on that pair.
   */
  lemma {:induction false} ApplyCount(a: Aggregate, hs: seq<Hit>, u: Bytes, d: Bytes)
    ensures Count(Apply(a, hs), u, d) == Count(a, u, d) + HitSum(hs, u, d)
    ensures Has(Apply(a, hs), u, d) <== Has(a, u, d)
    decreases |hs|
  {
    if hs != [] {
      ApplyCount(a, hs[..|hs| - 1], u, d);
      BumpCount(Apply(a, hs[..|hs| - 1]), hs[|hs| - 1], u, d);
    }
  }

  /** Some hit of `hs` is on `(u, d)`, whatever its count. */
  predicate OnKey(hs: seq<Hit>, u: Bytes, d: Bytes) {
    exists h | h in hs :: h.url == u && h.date == d
  }

  /** A pair is present after the updates exactly when it was before or some update is on it. */
  lemma {:induction false} ApplyHas(a: Aggregate, hs: seq<Hit>, u: Bytes, d: Bytes)
    ensures Has(Apply(a, hs), u, d) <==> Has(a, u, d) || OnKey(hs, u, d)
    decreases |hs|
  {
    if hs != [] {
      var init, last := hs[..|hs| - 1], hs[|hs| - 1];
      ApplyHas(a, init, u, d);
      BumpCount(Apply(a, init), last, u, d);
      assert hs == init + [last];
    }
  }

  lemma {:induction false} ApplyHasUrl(a: Aggregate, hs: seq<Hit>, u: Bytes)
    requires HasUrl(a, u)
    ensures HasUrl(Apply(a, hs), u)
    decreases |hs|
  {
    if hs != [] {
      ApplyHasUrl(a, hs[..|hs| - 1], u);
      BumpDatesOf(Apply(a, hs[..|hs| - 1]), hs[|hs| - 1], u);
    }
  }

  lemma {:induction false} ApplyValid(a: Aggregate, hs: seq<Hit>)
    requires Valid(a)
    ensures Valid(Apply(a, hs))
    decreases |hs|
  {
    if hs != [] {
      ApplyValid(a, hs[..|hs| - 1]);
      BumpValid(Apply(a, hs[..|hs| - 1]), hs[|hs| - 1]);
    }
  }

  lemma {:induction false} ApplyPositive(a: Aggregate, hs: seq<Hit>)
    requires Positive(a)
    requires forall k | 0 <= k < |hs| :: hs[k].count >= 1
    ensures Positive(Apply(a, hs))
    decreases |hs|
  {
    if hs != [] {
      ApplyPositive(a, hs[..|hs| - 1]);
      BumpPositive(Apply(a, hs[..|hs| - 1]), hs[|hs| - 1]);
    }
  }

  lemma {:induction false} ApplyTotal(a: Aggregate, hs: seq<Hit>)
    ensures Total(Apply(a, hs)) == Total(a) + HitsTotal(hs)
    decreases |hs|
  {
    if hs != [] {
      ApplyTotal(a, hs[..|hs| - 1]);
      BumpTotal(Apply(a, hs[..|hs| - 1]), hs[|hs| - 1]);
    }
  }

  lemma {:induction false} ApplyKeys(a: Aggregate, hs: seq<Hit>, ok: (Bytes, Bytes) -> bool)
    requires ForallKeys(a, ok)
    requires forall k | 0 <= k < |hs| :: ok(hs[k].url, hs[k].date)
    ensures ForallKeys(Apply(a, hs), ok)
    decreases |hs|
  {
    if hs != [] {
      ApplyKeys(a, hs[..|hs| - 1], ok);
      BumpKeys(Apply(a, hs[..|hs| - 1]), hs[|hs| - 1], ok);
    }
  }

  lemma {:induction false} HitSumAppend(xs: seq<Hit>, ys: seq<Hit>, u: Bytes, d: Bytes)
    ensures HitSum(xs + ys, u, d) == HitSum(xs, u, d) + HitSum(ys, u, d)
    decreases |ys|
  {
    if ys == [] {
      assert xs + ys == xs;
    } else {
      assert (xs + ys)[..|xs + ys| - 1] == xs + ys[..|ys| - 1];
      HitSumAppend(xs, ys[..|ys| - 1], u, d);
    }
  }

  lemma {:induction false} CountInOfPositive(ds: seq<DateCount>, d: Bytes)
    requires PositiveDates(ds)
    ensures HasDate(ds, d) <==> CountIn(ds, d) > 0
  {
    if ds != [] {
      assert PositiveDates(ds[1..]) by {
        forall j | 0 <= j < |ds[1..]| ensures ds[1..][j].count >= 1 {
          assert ds[1..][j] == ds[j + 1];
        }
      }
      CountInOfPositive(ds[1..], d);
    }
  }

  lemma {:induction false} DatesOfPositive(a: Aggregate, u: Bytes)
    requires Positive(a)
    ensures PositiveDates(DatesOf(a, u))
  {
    if a != [] && a[0].url != u {
      assert Positive(a[1..]) by {
        forall i | 0 <= i < |a[1..]| ensures PositiveDates(a[1..][i].dates) {
          assert a[1..][i] == a[i + 1];
        }
      }
      DatesOfPositive(a[1..], u);
    }
  }

  /** In an aggregate of positive counts, a pair is stored exactly when its count is positive. */
  lemma PositiveHas(a: Aggregate, u: Bytes, d: Bytes)
    requires Positive(a)
    ensures Has(a, u, d) <==> Count(a, u, d) > 0
  {
    DatesOfPositive(a, u);
    CountInOfPositive(DatesOf(a, u), d);
  }

  /**
   * A tally of hits of count 1 holds, for each pair, the number of those
   * hits, every count is at least 1, and the counts add up to the number of hits.
   */
  lemma {:induction false} TallyOfSingles(hs: seq<Hit>)
    requires forall k | 0 <= k < |hs| :: hs[k].count == 1
    ensures Valid(Tally(hs)) && Positive(Tally(hs))
    ensures Total(Tally(hs)) == |hs|
    decreases |hs|
  {
    ApplyValid([], hs);
    ApplyPositive([], hs);
    ApplyTotal([], hs);
    SinglesTotal(hs);
  }

  lemma {:induction false} SinglesTotal(hs: seq<Hit>)
    requires forall k | 0 <= k < |hs| :: hs[k].count == 1
    ensures HitsTotal(hs) == |hs|
    decreases |hs|
  {
    if hs != [] {
      SinglesTotal(hs[..|hs| - 1]);
    }
  }

  // ---------------------------------------------------------------------------
  // Regrouping: replaying an aggregate's entries is replaying its hits
  // ---------------------------------------------------------------------------

  lemma {:induction false} BumpDateAdd(ds: seq<DateCount>, d: Bytes, x: int, y: int)
    ensures BumpDate(BumpDate(ds, d, x), d, y) == BumpDate(ds, d, x + y)
  {
    if ds != [] && ds[0].date != d {
      BumpDateAdd(ds[1..], d, x, y);
    }
  }

  /** Two updates of the same pair amount to one update by the sum of their counts. */
  lemma {:induction false} BumpAdd(a: Aggregate, u: Bytes, d: Bytes, x: int, y: int)
    ensures Bump(Bump(a, Hit(u, d, x)), Hit(u, d, y)) == Bump(a, Hit(u, d, x + y))
  {
    if a == [] {
      var one := Bump(a, Hit(u, d, x));
      assert one == [UrlEntry(u, [DateCount(d, x)])];
      assert BumpDate(one[0].dates, d, y) == [DateCount(d, x + y)];
      assert Bump(one, Hit(u, d, y)) == [UrlEntry(u, [DateCount(d, x + y)])] + one[1..];
      assert one[1..] == [];
    } else if a[0].url == u {
      BumpDateAdd(a[0].dates, d, x, y);
    } else {
      BumpAdd(a[1..], u, d, x, y);
    }
  }

  lemma {:induction false} BumpDateCommute(ds: seq<DateCount>, d1: Bytes, c1: int, d2: Bytes, c2: int)
    requires d2 == d1 || HasDate(ds, d1)
    ensures BumpDate(BumpDate(ds, d1, c1), d2, c2) == BumpDate(BumpDate(ds, d2, c2), d1, c1)
  {
    if ds != [] && ds[0].date != d1 && ds[0].date != d2 {
      BumpDateCommute(ds[1..], d1, c1, d2, c2);
    }
  }

  /**
   * Two updates commute unless both would append something new, which would
   * fix the order of the new keys: it suffices that the URL of `r` is present
   * and that `s` touches another URL, the same pair, or `r`'s pair is present.
   */
  lemma {:induction false} BumpCommute(a: Aggregate, r: Hit, s: Hit)
    requires HasUrl(a, r.url)
    requires s.url != r.url || s.date == r.date || Has(a, r.url, r.date)
    ensures Bump(Bump(a, r), s) == Bump(Bump(a, s), r)
  {
    if a[0].url == r.url {
      if s.url == r.url {
        BumpDateCommute(a[0].dates, r.date, r.count, s.date, s.count);
      }
    } else if s.url != a[0].url {
      BumpCommute(a[1..], r, s);
    }
  }

  /** An update whose URL is already present can be moved past later updates that do not clash with it. */
  lemma {:induction false} MoveLast(y: Aggregate, r: Hit, ss: seq<Hit>)
    requires HasUrl(y, r.url)
    requires forall k | 0 <= k < |ss| :: ss[k].url != r.url || ss[k].date == r.date || Has(y, r.url, r.date)
    ensures Apply(Bump(y, r), ss) == Bump(Apply(y, ss), r)
    decreases |ss|
  {
    if ss != [] {
      var front, s := ss[..|ss| - 1], ss[|ss| - 1];
      MoveLast(y, r, front);
      ApplyHasUrl(y, front, r.url);
      ApplyCount(y, front, r.url, r.date);
      BumpCommute(Apply(y, front), r, s);
    }
  }

  lemma {:induction false} DateRecordsOfBump(m: Aggregate, u: Bytes, ds: seq<DateCount>, d: Bytes, c: int)
    ensures Apply(m, DateRecords(u, BumpDate(ds, d, c))) == Bump(Apply(m, DateRecords(u, ds)), Hit(u, d, c))
    decreases ds
  {
    if ds == [] {
      assert DateRecords(u, BumpDate(ds, d, c)) == [Hit(u, d, c)];
      ApplyCons(m, Hit(u, d, c), []);
    } else {
      var h0 := Hit(u, ds[0].date, ds[0].count);
      var rest := DateRecords(u, ds[1..]);
      assert DateRecords(u, ds) == [h0] + rest;
      ApplyCons(m, h0, rest);
      if ds[0].date == d {
        var merged := Hit(u, d, ds[0].count + c);
        assert DateRecords(u, BumpDate(ds, d, c)) == [merged] + rest;
        ApplyCons(m, merged, rest);
        BumpAdd(m, u, d, ds[0].count, c);
        BumpCount(m, h0, u, d);
        BumpDatesOf(m, h0, u);
        MoveLast(Bump(m, h0), Hit(u, d, c), rest);
      } else {
        var tail := DateRecords(u, BumpDate(ds[1..], d, c));
        assert DateRecords(u, BumpDate(ds, d, c)) == [h0] + tail;
        ApplyCons(m, h0, tail);
        DateRecordsOfBump(Bump(m, h0), u, ds[1..], d, c);
      }
    }
  }

  /** Every entry of an aggregate belongs to a URL the aggregate holds. */
  lemma {:induction false} RecordsUrls(a: Aggregate)
    ensures forall k | 0 <= k < |Pairs(a)| :: HasUrl(a, Pairs(a)[k].url)
  {
    if a != [] {
      RecordsUrls(a[1..]);
      var head, tail := DateRecords(a[0].url, a[0].dates), Pairs(a[1..]);
      forall k | 0 <= k < |Pairs(a)| ensures HasUrl(a, Pairs(a)[k].url) {
        if k >= |head| {
          assert Pairs(a)[k] == tail[k - |head|];
        }
      }
    }
  }

  lemma ApplyNonEmptyDateRecords(m: Aggregate, u: Bytes, ds: seq<DateCount>)
    requires ds != []
    ensures HasUrl(Apply(m, DateRecords(u, ds)), u)
  {
    var h0 := Hit(u, ds[0].date, ds[0].count);
    assert DateRecords(u, ds) == [h0] + DateRecords(u, ds[1..]);
    ApplyCons(m, h0, DateRecords(u, ds[1..]));
    BumpDatesOf(m, h0, u);
    ApplyHasUrl(Bump(m, h0), DateRecords(u, ds[1..]), u);
  }

  /** Replaying the entries of `Bump(x, r)` is replaying those of `x` and then `r`. */
  lemma {:induction false} RecordsOfBump(m: Aggregate, x: Aggregate, r: Hit)
    requires Valid(x)
    ensures Apply(m, Pairs(Bump(x, r))) == Bump(Apply(m, Pairs(x)), r)
    decreases x
  {
    if x == [] {
      assert Pairs(Bump(x, r)) == [r] + [];
      ApplyCons(m, r, []);
    } else if x[0].url == r.url {
      var u := r.url;
      var a, a' := DateRecords(u, x[0].dates), DateRecords(u, BumpDate(x[0].dates, r.date, r.count));
      var rest := Pairs(x[1..]);
      assert Pairs(Bump(x, r)) == a' + rest;
      ApplyAppend(m, a', rest);
      DateRecordsOfBump(m, u, x[0].dates, r.date, r.count);
      ApplyNonEmptyDateRecords(m, u, x[0].dates);
      RecordsUrls(x[1..]);
      MoveLast(Apply(m, a), r, rest);
      ApplyAppend(m, a, rest);
    } else {
      var head := DateRecords(x[0].url, x[0].dates);
      assert Pairs(Bump(x, r)) == head + Pairs(Bump(x[1..], r));
      ApplyAppend(m, head, Pairs(Bump(x[1..], r)));
      RecordsOfBump(Apply(m, head), x[1..], r);
      ApplyAppend(m, head, Pairs(x[1..]));
    }
  }

  /**
   * Folding the entries of the tally of `hs` into `m` gives exactly what
   * folding the hits themselves gives: the same counts and the same order of
   * keys.  This is why a worker may pre-aggregate its chunk.
   */
  lemma {:induction false} Regroup(m: Aggregate, hs: seq<Hit>)
    ensures Apply(m, Pairs(Tally(hs))) == Apply(m, hs)
    decreases |hs|
  {
    if hs != [] {
      var front := hs[..|hs| - 1];
      ApplyValid([], front);
      RecordsOfBump(m, Tally(front), hs[|hs| - 1]);
      Regroup(m, front);
    }
  }

  /** The entries of an aggregate whose counts are positive carry counts between 1 and the total. */
  lemma {:induction false} RecordCountsBounded(a: Aggregate)
    requires Positive(a)
    ensures forall k | 0 <= k < |Pairs(a)| :: 1 <= Pairs(a)[k].count <= Total(a)
  {
    if a != [] {
      assert Positive(a[1..]) by {
        forall i | 0 <= i < |a[1..]| ensures PositiveDates(a[1..][i].dates) {
          assert a[1..][i] == a[i + 1];
        }
      }
      RecordCountsBounded(a[1..]);
      TotalNonNegative(a[1..]);
      var head, tail := DateRecords(a[0].url, a[0].dates), Pairs(a[1..]);
      forall k | 0 <= k < |Pairs(a)| ensures 1 <= Pairs(a)[k].count <= Total(a) {
        if k < |head| {
          DatesTotalBounds(a[0].dates, k);
        } else {
          assert Pairs(a)[k] == tail[k - |head|];
          DatesTotalBounds(a[0].dates, 0);
        }
      }
    }
  }

  lemma {:induction false} TotalNonNegative(a: Aggregate)
    requires Positive(a)
    ensures Total(a) >= 0
  {
    if a != [] {
      assert Positive(a[1..]) by {
        forall i | 0 <= i < |a[1..]| ensures PositiveDates(a[1..][i].dates) {
          assert a[1..][i] == a[i + 1];
        }
      }
      TotalNonNegative(a[1..]);
      if a[0].dates != [] {
        DatesTotalBounds(a[0].dates, 0);
      }
    }
  }

  lemma {:induction false} DatesTotalBounds(ds: seq<DateCount>, j: nat)
    requires PositiveDates(ds)
    ensures DatesTotal(ds) >= 0
    ensures j < |ds| ==> ds[j].count <= DatesTotal(ds)
  {
    if ds != [] {
      DatesTotalBounds(ds[1..], if j > 0 then j - 1 else 0);
    }
  }

  /** Every entry of an aggregate carries a key the aggregate stores. */
  lemma {:induction false} RecordsKeys(a: Aggregate, ok: (Bytes, Bytes) -> bool)
    requires ForallKeys(a, ok)
    ensures forall k | 0 <= k < |Pairs(a)| :: ok(Pairs(a)[k].url, Pairs(a)[k].date)
  {
    if a != [] {
      assert ForallKeys(a[1..], ok) by {
        forall i, j | 0 <= i < |a[1..]| && 0 <= j < |a[1..][i].dates|
          ensures ok(a[1..][i].url, a[1..][i].dates[j].date)
        {
          assert a[1..][i] == a[i + 1];
        }
      }
      RecordsKeys(a[1..], ok);
      var head, tail := DateRecords(a[0].url, a[0].dates), Pairs(a[1..]);
      forall k | 0 <= k < |Pairs(a)| ensures ok(Pairs(a)[k].url, Pairs(a)[k].date) {
        if k >= |head| {
          assert Pairs(a)[k] == tail[k - |head|];
        }
      }
    }
  }
}
