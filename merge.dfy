/**
 * Merging (`Parser::mergeResults`): the partial-result files are read back
 * record by record and summed into one aggregate, then each URL's dates are
 * put in ascending order (`ksort`).
 */
module Merge {
  import opened Text
  import opened Aggregates
  import opened Records

  // ---------------------------------------------------------------------------
  // The order `ksort` puts date keys in
  // ---------------------------------------------------------------------------

  /** Byte-wise lexicographic order; a proper prefix comes first. */
  predicate Below(a: Bytes, b: Bytes) {
    if a == [] then b != []
    else if b == [] then false
    else if a[0] != b[0] then a[0] < b[0]
    else Below(a[1..], b[1..])
  }

  lemma {:induction false} BelowIrreflexive(a: Bytes)
    ensures !Below(a, a)
  {
    if a != [] {
      BelowIrreflexive(a[1..]);
    }
  }

  lemma {:induction false} BelowAsymmetric(a: Bytes, b: Bytes)
    requires Below(a, b)
    ensures !Below(b, a)
  {
    if a != [] && b != [] && a[0] == b[0] {
      BelowAsymmetric(a[1..], b[1..]);
    }
  }

  lemma {:induction false} BelowTransitive(a: Bytes, b: Bytes, c: Bytes)
    requires Below(a, b) && Below(b, c)
    ensures Below(a, c)
  {
    if a != [] && a[0] == b[0] && b[0] == c[0] {
      BelowTransitive(a[1..], b[1..], c[1..]);
    }
  }

  lemma {:induction false} BelowTotal(a: Bytes, b: Bytes)
    requires a != b
    ensures Below(a, b) || Below(b, a)
  {
    if a != [] && b != [] && a[0] == b[0] {
      assert a == [a[0]] + a[1..] && b == [b[0]] + b[1..];
      BelowTotal(a[1..], b[1..]);
    }
  }

  /** Dates strictly ascending: the order `ksort` leaves unique keys in. */
  predicate Ascending(ds: seq<DateCount>) {
    forall i, j | 0 <= i < j < |ds| :: Below(ds[i].date, ds[j].date)
  }

  // ---------------------------------------------------------------------------
  // `ksort` on one URL's dates
  // ---------------------------------------------------------------------------

  function Insert(x: DateCount, ds: seq<DateCount>): (r: seq<DateCount>)
    ensures multiset(r) == multiset(ds) + multiset{x}
  {
    if ds == [] then [x]
    else if Below(ds[0].date, x.date) then
      assert ds == [ds[0]] + ds[1..];
      [ds[0]] + Insert(x, ds[1..])
    else [x] + ds
  }

  /** `ksort($dates)`, written as an insertion sort. */
  function SortDates(ds: seq<DateCount>): (r: seq<DateCount>)
    ensures multiset(r) == multiset(ds)
  {
    if ds == [] then []
    else
      assert ds == [ds[0]] + ds[1..];
      Insert(ds[0], SortDates(ds[1..]))
  }

  lemma {:induction false} HasDateMember(ds: seq<DateCount>, d: Bytes)
    ensures HasDate(ds, d) <==> exists c :: DateCount(d, c) in ds
  {
    if ds != [] {
      HasDateMember(ds[1..], d);
      assert ds == [ds[0]] + ds[1..];
      if ds[0].date == d {
        assert DateCount(d, ds[0].count) in ds;
      }
    }
  }

  /** With distinct dates, the count under `d` is the one stored with it. */
  lemma {:induction false} CountInMember(ds: seq<DateCount>, d: Bytes, c: int)
    requires DistinctDates(ds) && DateCount(d, c) in ds
    ensures CountIn(ds, d) == c
  {
    if ds[0] != DateCount(d, c) {
      assert DateCount(d, c) in ds[1..];
      if ds[0].date == d {
        HasDateMember(ds[1..], d);
      }
      CountInMember(ds[1..], d, c);
    }
  }

  lemma {:induction false} CountInAbsent(ds: seq<DateCount>, d: Bytes)
    requires !HasDate(ds, d)
    ensures CountIn(ds, d) == 0
  {
    if ds != [] {
      CountInAbsent(ds[1..], d);
    }
  }

  lemma {:induction false} HasDateIndex(ds: seq<DateCount>, d: Bytes)
    ensures HasDate(ds, d) <==> exists k | 0 <= k < |ds| :: ds[k].date == d
  {
    if ds != [] {
      var rest := ds[1..];
      HasDateIndex(rest, d);
      if HasDate(rest, d) {
        var k :| 0 <= k < |rest| && rest[k].date == d;
        assert ds[k + 1] == rest[k];
      }
      if exists k | 0 <= k < |ds| :: ds[k].date == d {
        var k :| 0 <= k < |ds| && ds[k].date == d;
        if k > 0 {
          assert rest[k - 1] == ds[k];
        }
      }
    }
  }

  /** Dates are distinct exactly when no two positions share one. */
  lemma {:induction false} DistinctDatesPairs(ds: seq<DateCount>)
    ensures DistinctDates(ds) <==> forall i, j | 0 <= i < j < |ds| :: ds[i].date != ds[j].date
  {
    if ds != [] {
      var rest := ds[1..];
      DistinctDatesPairs(rest);
      HasDateIndex(rest, ds[0].date);
      if DistinctDates(ds) {
        forall i, j | 0 <= i < j < |ds| ensures ds[i].date != ds[j].date {
          if i == 0 {
            assert rest[j - 1] == ds[j];
          } else {
            assert rest[i - 1] == ds[i] && rest[j - 1] == ds[j];
          }
        }
      }
      if forall i, j | 0 <= i < j < |ds| :: ds[i].date != ds[j].date {
        forall i, j | 0 <= i < j < |rest| ensures rest[i].date != rest[j].date {
          assert rest[i] == ds[i + 1] && rest[j] == ds[j + 1];
        }
        forall k | 0 <= k < |rest| ensures rest[k].date != ds[0].date {
          assert rest[k] == ds[k + 1];
        }
      }
    }
  }

  lemma {:induction false} InsertAscending(x: DateCount, ds: seq<DateCount>)
    requires Ascending(ds) && !HasDate(ds, x.date)
    ensures Ascending(Insert(x, ds))
  {
    if ds != [] {
      if Below(ds[0].date, x.date) {
        AscendingTail(ds);
        InsertAscending(x, ds[1..]);
        ConsAscending(ds, x, Insert(x, ds[1..]));
      } else {
        assert ds[0].date != x.date;
        BelowTotal(ds[0].date, x.date);
        PrependAscending(x, ds);
      }
    }
  }

  /** A sorted permutation of `ds[1..]` plus `x`, all above `ds[0]`, stays sorted behind `ds[0]`. */
  lemma ConsAscending(ds: seq<DateCount>, x: DateCount, ins: seq<DateCount>)
    requires Ascending(ds) && ds != [] && Below(ds[0].date, x.date)
    requires Ascending(ins) && multiset(ins) == multiset(ds[1..]) + multiset{x}
    ensures Ascending([ds[0]] + ins)
  {
    var rest := ds[1..];
    var r := [ds[0]] + ins;
    forall i, j | 0 <= i < j < |r| ensures Below(r[i].date, r[j].date) {
      if i == 0 {
        var y := r[j];
        assert y in multiset(ins);
        assert y == x || y in multiset(rest);
        if y != x {
          var k :| 0 <= k < |rest| && rest[k] == y;
          assert ds[k + 1] == y;
        }
      } else {
        assert r[i] == ins[i - 1] && r[j] == ins[j - 1];
      }
    }
  }

  /** An entry below the first of a sorted sequence keeps it sorted when put in front. */
  lemma PrependAscending(x: DateCount, ds: seq<DateCount>)
    requires Ascending(ds) && ds != [] && Below(x.date, ds[0].date)
    ensures Ascending([x] + ds)
  {
    var r := [x] + ds;
    forall i, j | 0 <= i < j < |r| ensures Below(r[i].date, r[j].date) {
      if i == 0 {
        if j > 1 {
          BelowTransitive(x.date, ds[0].date, ds[j - 1].date);
        }
      } else {
        assert r[i] == ds[i - 1] && r[j] == ds[j - 1];
      }
    }
  }

  lemma {:induction false} InsertHasDate(x: DateCount, ds: seq<DateCount>, d: Bytes)
    ensures HasDate(Insert(x, ds), d) <==> x.date == d || HasDate(ds, d)
  {
    HasDateMember(Insert(x, ds), d);
    HasDateMember(ds, d);
    var r := Insert(x, ds);
    assert forall y :: y in r <==> y == x || y in ds by {
      forall y ensures y in r <==> y == x || y in ds {
        assert y in r <==> y in multiset(r);
        assert y in ds <==> y in multiset(ds);
      }
    }
  }

  /** The insertion sort keeps the dates and their counts and leaves them strictly ascending. */
  lemma {:induction false} SortDatesSpec(ds: seq<DateCount>)
    requires DistinctDates(ds)
    ensures Ascending(SortDates(ds))
    ensures DistinctDates(SortDates(ds))
    ensures forall d :: HasDate(SortDates(ds), d) <==> HasDate(ds, d)
    ensures forall d :: CountIn(SortDates(ds), d) == CountIn(ds, d)
  {
    var r := SortDates(ds);
    if ds != [] {
      var rest := SortDates(ds[1..]);
      SortDatesSpec(ds[1..]);
      assert !HasDate(rest, ds[0].date);
      InsertAscending(ds[0], rest);
      forall d ensures HasDate(r, d) <==> HasDate(ds, d) {
        InsertHasDate(ds[0], rest, d);
      }
      AscendingDistinct(r);
      forall d ensures CountIn(r, d) == CountIn(ds, d) {
        if HasDate(ds, d) {
          HasDateMember(ds, d);
          var c :| DateCount(d, c) in ds;
          assert DateCount(d, c) in multiset(r);
          CountInMember(ds, d, c);
          CountInMember(r, d, c);
        } else {
          CountInAbsent(ds, d);
          CountInAbsent(r, d);
        }
      }
    }
  }

  lemma AscendingDistinct(ds: seq<DateCount>)
    requires Ascending(ds)
    ensures DistinctDates(ds)
  {
    forall i, j | 0 <= i < j < |ds| ensures ds[i].date != ds[j].date {
      if ds[i].date == ds[j].date {
        BelowIrreflexive(ds[i].date);
      }
    }
    DistinctDatesPairs(ds);
  }

  lemma AscendingTail(xs: seq<DateCount>)
    requires Ascending(xs) && xs != []
    ensures Ascending(xs[1..])
  {
    var xt := xs[1..];
    forall i, j | 0 <= i < j < |xt| ensures Below(xt[i].date, xt[j].date) {
      assert xt[i] == xs[i + 1] && xt[j] == xs[j + 1];
    }
  }

  /** Two strictly ascending arrangements of the same entries start alike. */
  lemma AscendingHead(xs: seq<DateCount>, ys: seq<DateCount>)
    requires Ascending(xs) && Ascending(ys) && multiset(xs) == multiset(ys) && xs != []
    ensures ys != [] && xs[0] == ys[0]
  {
    assert xs[0] in multiset(ys);
    var k :| 0 <= k < |ys| && ys[k] == xs[0];
    assert ys[0] in multiset(xs);
    var m :| 0 <= m < |xs| && xs[m] == ys[0];
    if k > 0 && m > 0 {
      BelowAsymmetric(ys[0].date, ys[k].date);
    } else if k > 0 {
      BelowIrreflexive(ys[0].date);
    } else if m > 0 {
      BelowIrreflexive(xs[0].date);
    }
  }

  lemma MultisetTail(xs: seq<DateCount>, ys: seq<DateCount>)
    requires xs != [] && ys != [] && xs[0] == ys[0] && multiset(xs) == multiset(ys)
    ensures multiset(xs[1..]) == multiset(ys[1..])
  {
    assert xs == [xs[0]] + xs[1..] && ys == [ys[0]] + ys[1..];
    assert multiset(xs[1..]) == multiset(xs) - multiset{xs[0]};
    assert multiset(ys[1..]) == multiset(ys) - multiset{ys[0]};
  }

  /**
   * Two strictly ascending arrangements of the same entries are equal: any
   * sorting routine `ksort` may use leaves the dates exactly as `SortDates` does.
   */
  lemma {:induction false} AscendingUnique(xs: seq<DateCount>, ys: seq<DateCount>)
    requires Ascending(xs) && Ascending(ys) && multiset(xs) == multiset(ys)
    ensures xs == ys
  {
    if xs != [] {
      AscendingHead(xs, ys);
      MultisetTail(xs, ys);
      AscendingTail(xs);
      AscendingTail(ys);
      AscendingUnique(xs[1..], ys[1..]);
      assert xs == [xs[0]] + xs[1..] && ys == [ys[0]] + ys[1..];
    }
  }

  /** `foreach ($merged as &$dates) ksort($dates)`: every URL's dates sorted, URLs in place. */
  function SortAll(a: Aggregate): (r: Aggregate)
    ensures |r| == |a|
  {
    seq(|a|, i requires 0 <= i < |a| => UrlEntry(a[i].url, SortDates(a[i].dates)))
  }

  lemma {:induction false} SortAllLookup(a: Aggregate, u: Bytes)
    ensures DatesOf(SortAll(a), u) == SortDates(DatesOf(a, u))
    ensures HasUrl(SortAll(a), u) <==> HasUrl(a, u)
  {
    if a != [] {
      assert SortAll(a)[1..] == SortAll(a[1..]);
      SortAllLookup(a[1..], u);
    }
  }

  /** Sorting keeps the shape invariant and leaves each URL's dates strictly ascending. */
  lemma {:induction false} SortAllShape(a: Aggregate)
    requires Valid(a)
    ensures Valid(SortAll(a))
    ensures forall i | 0 <= i < |a| :: SortAll(a)[i].url == a[i].url && Ascending(SortAll(a)[i].dates)
  {
    if a != [] {
      var r := SortAll(a);
      assert r[1..] == SortAll(a[1..]);
      SortAllShape(a[1..]);
      SortDatesSpec(a[0].dates);
      SortAllLookup(a[1..], a[0].url);
      assert SortDates(a[0].dates) != [] by {
        assert a[0].dates[0] in multiset(SortDates(a[0].dates));
      }
      forall i | 0 <= i < |a| ensures r[i].url == a[i].url && Ascending(r[i].dates) {
        if i > 0 {
          assert r[i] == SortAll(a[1..])[i - 1];
        }
      }
    }
  }

  /** Sorting keeps every pair and its count. */
  lemma SortAllCount(a: Aggregate, u: Bytes, d: Bytes)
    requires Valid(a)
    ensures Count(SortAll(a), u, d) == Count(a, u, d)
    ensures Has(SortAll(a), u, d) <==> Has(a, u, d)
  {
    SortAllLookup(a, u);
    ValidDatesOf(a, u);
    SortDatesSpec(DatesOf(a, u));
  }

  lemma {:induction false} ValidDatesOf(a: Aggregate, u: Bytes)
    requires Valid(a)
    ensures DistinctDates(DatesOf(a, u))
  {
    if a != [] && a[0].url != u {
      ValidDatesOf(a[1..], u);
    }
  }

  /**
   * Sorting keeps every pair and its count and the shape invariant, and
   * leaves each URL's dates strictly ascending.
   */
  lemma SortAllSpec(a: Aggregate)
    requires Valid(a)
    ensures Valid(SortAll(a))
    ensures forall i | 0 <= i < |a| :: SortAll(a)[i].url == a[i].url && Ascending(SortAll(a)[i].dates)
    ensures forall u, d :: Count(SortAll(a), u, d) == Count(a, u, d)
    ensures forall u, d :: Has(SortAll(a), u, d) <==> Has(a, u, d)
  {
    SortAllShape(a);
    forall u, d ensures Count(SortAll(a), u, d) == Count(a, u, d) && (Has(SortAll(a), u, d) <==> Has(a, u, d)) {
      SortAllCount(a, u, d);
    }
  }

  // ---------------------------------------------------------------------------
  // Reading all partial results
  // ---------------------------------------------------------------------------

  /** The records of several decoded pieces, in order; `None` once one of them is `None`. */
  function Concat(os: seq<Option<seq<Hit>>>): Option<seq<Hit>> {
    if os == [] then Some([])
    else
      var init := Concat(os[..|os| - 1]);
      var last := os[|os| - 1];
      if init.Some? && last.Some? then Some(init.value + last.value) else None
  }

  /** `DecodeFile` on each file, in order. */
  function Decoded(files: seq<Bytes>): (os: seq<Option<seq<Hit>>>)
    ensures |os| == |files|
  {
    if files == [] then [] else Decoded(files[..|files| - 1]) + [DecodeFile(files[|files| - 1])]
  }

  /** The records of all files, file after file; `None` once a record raises. */
  function DecodeFiles(files: seq<Bytes>): Option<seq<Hit>> {
    Concat(Decoded(files))
  }

  /** What `mergeResults` returns; `None` when a `ValueError` escapes it. */
  function Merged(files: seq<Bytes>): Option<Aggregate> {
    var hs := DecodeFiles(files);
    if hs.Some? then Some(SortAll(Tally(hs.value))) else None
  }

  lemma {:induction false} CollectAppend(xs: seq<Option<Hit>>, ys: seq<Option<Hit>>)
    ensures Collect(xs + ys) ==
      if Collect(xs).Some? && Collect(ys).Some? then Some(Collect(xs).value + Collect(ys).value) else None
    decreases |ys|
  {
    if ys == [] {
      assert xs + ys == xs;
      if Collect(xs).Some? {
        assert Collect(xs).value + [] == Collect(xs).value;
      }
    } else {
      var init := ys[..|ys| - 1];
      assert (xs + ys)[..|xs + ys| - 1] == xs + init;
      CollectAppend(xs, init);
      if Collect(xs).Some? && Collect(init).Some? && ys[|ys| - 1].Some? {
        var l := [ys[|ys| - 1].value];
        assert (Collect(xs).value + Collect(init).value) + l == Collect(xs).value + (Collect(init).value + l);
      }
    }
  }

  /** Decoding the lines read so far, one more line at a time. */
  lemma DecodeLinesStep(done: seq<Bytes>, line: Bytes)
    ensures DecodeLines(done + [line]) ==
      if DecodeLines(done).Some? && DecodeRecord(line).Some?
      then Some(DecodeLines(done).value + [DecodeRecord(line).value]) else None
  {
    assert (done + [line])[..|done|] == done;
    assert Results(done + [line]) == Results(done) + [DecodeRecord(line)];
    CollectAppend(Results(done), [DecodeRecord(line)]);
    assert [DecodeRecord(line)][..0] == [];
  }

  lemma DecodeLinesAppend(xs: seq<Bytes>, ys: seq<Bytes>)
    ensures DecodeLines(xs + ys) ==
      if DecodeLines(xs).Some? && DecodeLines(ys).Some? then Some(DecodeLines(xs).value + DecodeLines(ys).value) else None
  {
    ResultsAppend(xs, ys);
    CollectAppend(Results(xs), Results(ys));
  }

  lemma {:induction false} ResultsAppend(xs: seq<Bytes>, ys: seq<Bytes>)
    ensures Results(xs + ys) == Results(xs) + Results(ys)
    decreases |ys|
  {
    if ys == [] {
      assert xs + ys == xs;
    } else {
      assert (xs + ys)[..|xs + ys| - 1] == xs + ys[..|ys| - 1];
      ResultsAppend(xs, ys[..|ys| - 1]);
    }
  }

  lemma DecodeFilesStep(files: seq<Bytes>, f: nat)
    requires f < |files|
    ensures DecodeFiles(files[..f + 1]) ==
      if DecodeFiles(files[..f]).Some? && DecodeFile(files[f]).Some?
      then Some(DecodeFiles(files[..f]).value + DecodeFile(files[f]).value) else None
  {
    assert files[..f + 1][..f] == files[..f];
    assert Decoded(files[..f + 1])[..f] == Decoded(files[..f]);
  }

  lemma {:induction false} DecodeFilesFailed(files: seq<Bytes>, f: nat)
    requires f <= |files| && DecodeFiles(files[..f]).None?
    ensures DecodeFiles(files).None?
    decreases |files| - f
  {
    if f < |files| {
      DecodeFilesStep(files, f);
      DecodeFilesFailed(files, f + 1);
    } else {
      assert files[..f] == files;
    }
  }

  /** A line that raises stops the whole merge. */
  lemma RaisingLine(files: seq<Bytes>, f: nat, done: seq<Bytes>, line: Bytes, rest: seq<Bytes>)
    requires f < |files| && done + [line] + rest == Lines(files[f], 0, |files[f]|)
    requires DecodeRecord(line).None?
    ensures Merged(files).None?
  {
    DecodeLinesAppend(done + [line], rest);
    DecodeLinesStep(done, line);
    DecodeFilesStep(files, f);
    DecodeFilesFailed(files, f + 1);
  }

  /** `Concat` fails exactly when one of the pieces failed. */
  lemma {:induction false} ConcatNone(os: seq<Option<seq<Hit>>>)
    ensures Concat(os).None? <==> exists i | 0 <= i < |os| :: os[i].None?
  {
    if os != [] {
      var init := os[..|os| - 1];
      ConcatNone(init);
      if exists i | 0 <= i < |init| :: init[i].None? {
        var i :| 0 <= i < |init| && init[i].None?;
        assert os[i].None?;
      }
      if exists i | 0 <= i < |os| :: os[i].None? {
        var i :| 0 <= i < |os| && os[i].None?;
        if i < |init| {
          assert init[i].None?;
        }
      }
    }
  }

  /** The decoding of each file sits at that file's position. */
  lemma {:induction false} DecodedIndex(files: seq<Bytes>, f: nat)
    requires f < |files|
    ensures Decoded(files)[f] == DecodeFile(files[f])
  {
    if f < |files| - 1 {
      DecodedIndex(files[..|files| - 1], f);
    }
  }

  /**
   * The merge fails exactly when some file holds a line shorter than 12
   * bytes: that line makes the first `strrpos` raise, and no other line
   * raises.
   */
  lemma MergeFailsOnlyOnShortLine(files: seq<Bytes>)
    ensures Merged(files).None? <==> exists f | 0 <= f < |files| :: HasShortLine(files[f])
  {
    ConcatNone(Decoded(files));
    if exists f | 0 <= f < |files| :: HasShortLine(files[f]) {
      var f :| 0 <= f < |files| && HasShortLine(files[f]);
      DecodedIndex(files, f);
      DecodeFileNone(files[f]);
    }
    if Merged(files).None? {
      var f :| 0 <= f < |files| && Decoded(files)[f].None?;
      DecodedIndex(files, f);
      DecodeFileNone(files[f]);
    }
  }

  lemma ConsumeFileLine(text: Bytes, pos: nat, done: seq<Bytes>)
    requires pos < |text| && done + Lines(text, pos, |text|) == Lines(text, 0, |text|)
    ensures (done + [text[pos..LineEnd(text, pos)]]) + Lines(text, LineEnd(text, pos), |text|) == Lines(text, 0, |text|)
  {
    var line := text[pos..LineEnd(text, pos)];
    var rest := Lines(text, LineEnd(text, pos), |text|);
    assert Lines(text, pos, |text|) == [line] + rest;
    assert (done + [line]) + rest == done + ([line] + rest);
  }

  /** One record more folded into the running aggregate. */
  lemma FoldStep(prior: seq<Hit>, done: seq<Bytes>, line: Bytes, acc: Aggregate)
    requires DecodeLines(done).Some? && acc == Tally(prior + DecodeLines(done).value)
    requires DecodeRecord(line).Some?
    ensures DecodeLines(done + [line]).Some?
    ensures Bump(acc, DecodeRecord(line).value) == Tally(prior + DecodeLines(done + [line]).value)
  {
    DecodeLinesStep(done, line);
    var h := DecodeRecord(line).value;
    assert prior + DecodeLines(done + [line]).value == (prior + DecodeLines(done).value) + [h];
  }

  /** Sorting the dates of entry `i` extends the sorted prefix by one entry. */
  lemma SortLoopStep(unsorted: Aggregate, acc: Aggregate, i: nat)
    requires i < |unsorted| && acc == SortAll(unsorted[..i]) + unsorted[i..]
    ensures acc[i := UrlEntry(acc[i].url, SortDates(acc[i].dates))] == SortAll(unsorted[..i + 1]) + unsorted[i + 1..]
  {
    var next := acc[i := UrlEntry(acc[i].url, SortDates(acc[i].dates))];
    var want := SortAll(unsorted[..i + 1]) + unsorted[i + 1..];
    assert acc[i] == unsorted[i];
    forall j | 0 <= j < |next| ensures next[j] == want[j] {
      if j < i {
        assert unsorted[..i + 1][j] == unsorted[..i][j];
      }
    }
  }

  /** A file read to its end adds its records to those of the files before it. */
  lemma FileDone(files: seq<Bytes>, f: nat, prior: seq<Hit>, done: seq<Bytes>)
    requires f < |files| && DecodeFiles(files[..f]) == Some(prior)
    requires done == Lines(files[f], 0, |files[f]|) && DecodeLines(done).Some?
    ensures DecodeFiles(files[..f + 1]) == Some(prior + DecodeLines(done).value)
  {
    DecodeFilesStep(files, f);
  }

  method MergeResults(files: seq<Bytes>) returns (merged: Option<Aggregate>)
    ensures merged == Merged(files)
  {
    var acc: Aggregate := [];
    ghost var prior: seq<Hit> := [];
    assert files[..0] == [];
    for f := 0 to |files|
      invariant DecodeFiles(files[..f]) == Some(prior)
      invariant acc == Tally(prior)
    {
      var text := files[f];
      var pos: nat := 0;
      ghost var done: seq<Bytes> := [];
      assert prior + DecodeLines(done).value == prior;
      while pos < |text|
        invariant done + Lines(text, pos, |text|) == Lines(text, 0, |text|)
        invariant DecodeLines(done).Some? && acc == Tally(prior + DecodeLines(done).value)
        decreases |text| - pos
      {
        var next := LineEnd(text, pos);
        var line := text[pos..next];
        ConsumeFileLine(text, pos, done);
        pos := next;
        var record := DecodeRecord(line);
        if record.None? {
          RaisingLine(files, f, done, line, Lines(text, pos, |text|));
          return None;
        }
        FoldStep(prior, done, line, acc);
        acc := Bump(acc, record.value);
        done := done + [line];
      }
      assert done == done + Lines(text, pos, |text|);
      FileDone(files, f, prior, done);
      prior := prior + DecodeLines(done).value;
    }
    assert files[..|files|] == files;
    ghost var unsorted := acc;
    assert acc == SortAll(unsorted[..0]) + unsorted[0..];
    for i := 0 to |acc|
      invariant |acc| == |unsorted|
      invariant acc == SortAll(unsorted[..i]) + unsorted[i..]
    {
      SortLoopStep(unsorted, acc, i);
      acc := acc[i := UrlEntry(acc[i].url, SortDates(acc[i].dates))];
    }
    assert unsorted[..|unsorted|] == unsorted && unsorted[|unsorted|..] == [];
    assert acc == SortAll(unsorted);
    assert DecodeFiles(files) == Some(prior);
    merged := Some(acc);
  }

  // ---------------------------------------------------------------------------
  // What the merged counts are
  // ---------------------------------------------------------------------------

  /** The count a file's records carry for `(u, d)`, absent pairs counting 0. */
  function FileSum(text: Bytes, u: Bytes, d: Bytes): int {
    var hs := DecodeFile(text);
    if hs.Some? then HitSum(hs.value, u, d) else 0
  }

  /** The sum of a pair's counts over all partial results. */
  function PartialSum(files: seq<Bytes>, u: Bytes, d: Bytes): int {
    if files == [] then 0 else PartialSum(files[..|files| - 1], u, d) + FileSum(files[|files| - 1], u, d)
  }

  lemma {:induction false} DecodeFilesSum(files: seq<Bytes>, u: Bytes, d: Bytes)
    requires DecodeFiles(files).Some?
    ensures HitSum(DecodeFiles(files).value, u, d) == PartialSum(files, u, d)
  {
    if files != [] {
      var init := files[..|files| - 1];
      assert Decoded(files)[..|files| - 1] == Decoded(init);
      DecodeFilesSum(init, u, d);
      HitSumAppend(DecodeFiles(init).value, DecodeFile(files[|files| - 1]).value, u, d);
    }
  }

  /**
   * Each merged count is the sum of that pair's counts over all partial
   * results (0 where a partial lacks the pair).
   */
  lemma MergedCounts(files: seq<Bytes>, u: Bytes, d: Bytes)
    requires Merged(files).Some?
    ensures Count(Merged(files).value, u, d) == PartialSum(files, u, d)
  {
    var hs := DecodeFiles(files).value;
    ApplyValid([], hs);
    SortAllSpec(Tally(hs));
    ApplyCount([], hs, u, d);
    DecodeFilesSum(files, u, d);
  }

  /** The file decodes and one of its records is on `(u, d)`. */
  predicate FileOnKey(text: Bytes, u: Bytes, d: Bytes) {
    DecodeFile(text).Some? && OnKey(DecodeFile(text).value, u, d)
  }

  /** Some file among `files` decodes and holds a record on `(u, d)`. */
  predicate AnyFileOnKey(files: seq<Bytes>, u: Bytes, d: Bytes) {
    exists t | t in files :: FileOnKey(t, u, d)
  }

  /** The records of all files hold a hit on `(u, d)` exactly when one file's records do. */
  lemma {:induction false} DecodeFilesOnKey(files: seq<Bytes>, u: Bytes, d: Bytes)
    requires DecodeFiles(files).Some?
    ensures OnKey(DecodeFiles(files).value, u, d) <==> AnyFileOnKey(files, u, d)
  {
    if files != [] {
      var init, last := files[..|files| - 1], files[|files| - 1];
      DecodeFilesLast(files);
      DecodeFilesOnKey(init, u, d);
      OnKeyAppend(DecodeFiles(init).value, DecodeFile(last).value, u, d);
      FilesOnKeyLast(files, u, d);
    }
  }

  /** The records of all files are those of all but the last, then the last's. */
  lemma DecodeFilesLast(files: seq<Bytes>)
    requires files != [] && DecodeFiles(files).Some?
    ensures DecodeFiles(files[..|files| - 1]).Some? && DecodeFile(files[|files| - 1]).Some?
    ensures DecodeFiles(files).value == DecodeFiles(files[..|files| - 1]).value + DecodeFile(files[|files| - 1]).value
  {
    assert Decoded(files)[..|files| - 1] == Decoded(files[..|files| - 1]);
  }

  lemma OnKeyAppend(xs: seq<Hit>, ys: seq<Hit>, u: Bytes, d: Bytes)
    ensures OnKey(xs + ys, u, d) <==> OnKey(xs, u, d) || OnKey(ys, u, d)
  {
    if OnKey(xs + ys, u, d) {
      var h: Hit :| h in xs + ys && h.url == u && h.date == d;
      assert h in xs || h in ys;
    }
    if OnKey(xs, u, d) {
      var h: Hit :| h in xs && h.url == u && h.date == d;
      assert h in xs + ys;
    }
    if OnKey(ys, u, d) {
      var h: Hit :| h in ys && h.url == u && h.date == d;
      assert h in xs + ys;
    }
  }

  lemma FilesOnKeyLast(files: seq<Bytes>, u: Bytes, d: Bytes)
    requires files != []
    ensures AnyFileOnKey(files, u, d) <==> AnyFileOnKey(files[..|files| - 1], u, d) || FileOnKey(files[|files| - 1], u, d)
  {
    var init, last := files[..|files| - 1], files[|files| - 1];
    assert files == init + [last];
    if AnyFileOnKey(files, u, d) {
      var t :| t in files && FileOnKey(t, u, d);
      assert t in init || t == last;
    }
    if AnyFileOnKey(init, u, d) {
      var t :| t in init && FileOnKey(t, u, d);
      assert t in files;
    }
  }

  /** A pair is in the merged result exactly when some file holds a record on it, whatever its count. */
  lemma MergedHas(files: seq<Bytes>, u: Bytes, d: Bytes)
    requires Merged(files).Some?
    ensures Has(Merged(files).value, u, d) <==> AnyFileOnKey(files, u, d)
  {
    var hs := DecodeFiles(files).value;
    ApplyValid([], hs);
    SortAllCount(Tally(hs), u, d);
    ApplyHas([], hs, u, d);
    DecodeFilesOnKey(files, u, d);
  }

  /** The merged aggregate is well formed and every URL's dates are strictly ascending. */
  lemma MergedSorted(files: seq<Bytes>)
    requires Merged(files).Some?
    ensures Valid(Merged(files).value)
    ensures forall i | 0 <= i < |Merged(files).value| :: Ascending(Merged(files).value[i].dates)
  {
    var hs := DecodeFiles(files).value;
    ApplyValid([], hs);
    SortAllSpec(Tally(hs));
  }

  lemma {:induction false} ConcatMember(os: seq<Option<seq<Hit>>>, o: Option<seq<Hit>>)
    requires Concat(os).Some? && o in os
    ensures o.Some?
  {
    var init := os[..|os| - 1];
    if o != os[|os| - 1] {
      assert os == init + [os[|os| - 1]];
      assert o in init;
      ConcatMember(init, o);
    }
  }

  lemma {:induction false} DecodedMember(files: seq<Bytes>, t: Bytes)
    requires t in files
    ensures DecodeFile(t) in Decoded(files)
  {
    var init := files[..|files| - 1];
    if t != files[|files| - 1] {
      assert files == init + [files[|files| - 1]];
      assert t in init;
      DecodedMember(init, t);
    }
  }

  /** Files each of which occurs among files that all decode decode together. */
  lemma {:induction false} DecodeFilesSubset(files: seq<Bytes>, others: seq<Bytes>)
    requires DecodeFiles(files).Some? && forall t | t in others :: t in files
    ensures DecodeFiles(others).Some?
  {
    if others != [] {
      var init := others[..|others| - 1];
      var t := others[|others| - 1];
      assert forall x | x in init :: x in others;
      DecodeFilesSubset(files, init);
      DecodedMember(files, t);
      ConcatMember(Decoded(files), DecodeFile(t));
      assert Decoded(others)[..|others| - 1] == Decoded(init);
    }
  }

  lemma {:induction false} PartialSumAppend(xs: seq<Bytes>, ys: seq<Bytes>, u: Bytes, d: Bytes)
    ensures PartialSum(xs + ys, u, d) == PartialSum(xs, u, d) + PartialSum(ys, u, d)
    decreases |ys|
  {
    if ys == [] {
      assert xs + ys == xs;
    } else {
      assert (xs + ys)[..|xs + ys| - 1] == xs + ys[..|ys| - 1];
      PartialSumAppend(xs, ys[..|ys| - 1], u, d);
    }
  }

  lemma {:induction false} PartialSumPermutation(xs: seq<Bytes>, ys: seq<Bytes>, u: Bytes, d: Bytes)
    requires multiset(xs) == multiset(ys)
    ensures PartialSum(xs, u, d) == PartialSum(ys, u, d)
    decreases |xs|
  {
    if xs != [] {
      var last := xs[|xs| - 1];
      assert last in multiset(ys);
      var k :| 0 <= k < |ys| && ys[k] == last;
      var rest := ys[..k] + ys[k + 1..];
      assert ys == ys[..k] + [last] + ys[k + 1..];
      assert xs == xs[..|xs| - 1] + [last];
      assert multiset(ys) == multiset(ys[..k]) + multiset{last} + multiset(ys[k + 1..]);
      assert multiset(rest) == multiset(ys[..k]) + multiset(ys[k + 1..]);
      assert multiset(xs) == multiset(xs[..|xs| - 1]) + multiset{last};
      assert multiset(xs[..|xs| - 1]) == multiset(xs) - multiset{last};
      assert multiset(rest) == multiset(ys) - multiset{last};
      PartialSumPermutation(xs[..|xs| - 1], rest, u, d);
      PartialSumAppend(ys[..k] + [last], ys[k + 1..], u, d);
      PartialSumAppend(ys[..k], [last], u, d);
      PartialSumAppend(ys[..k], ys[k + 1..], u, d);
      var none: seq<Bytes> := [];
      assert [last][..0] == none;
    } else {
      assert |ys| == |multiset(ys)| == 0;
    }
  }

  /**
   * Merging the same partial results in another order gives the same pairs
   * with the same counts: only the order of the URLs can differ.
   */
  lemma MergeOrderIndependent(files: seq<Bytes>, reordered: seq<Bytes>, u: Bytes, d: Bytes)
    requires multiset(files) == multiset(reordered)
    requires Merged(files).Some?
    ensures Merged(reordered).Some?
    ensures Count(Merged(files).value, u, d) == Count(Merged(reordered).value, u, d)
    ensures Has(Merged(files).value, u, d) <==> Has(Merged(reordered).value, u, d)
  {
    forall t | t in reordered ensures t in files {
      assert t in multiset(reordered);
    }
    forall t | t in files ensures t in reordered {
      assert t in multiset(files);
    }
    DecodeFilesSubset(files, reordered);
    MergedCounts(files, u, d);
    MergedCounts(reordered, u, d);
    PartialSumPermutation(files, reordered, u, d);
    MergedHas(files, u, d);
    MergedHas(reordered, u, d);
  }
}
