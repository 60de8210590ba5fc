/**
 * The partial-result files: each worker writes one `url TAB date TAB count NL`
 * record per stored pair (`Parser::forkWorkers`), and `Parser::mergeResults`
 * cuts each record back into its fields.
 */
module Records {
  import opened Text
  import opened Aggregates

  /** One record line, `"$url\t$date\t$count\n"`. */
  function EncodeRecord(h: Hit): (line: Bytes)
    ensures |line| == |h.url| + |h.date| + |Decimal(h.count)| + 3
  {
    h.url + [TAB] + h.date + [TAB] + Decimal(h.count) + [NL]
  }

  function RecordLines(hs: seq<Hit>): (ls: seq<Bytes>)
    ensures |ls| == |hs|
    ensures forall i | 0 <= i < |ls| :: ls[i] == EncodeRecord(hs[i])
  {
    seq(|hs|, i requires 0 <= i < |hs| => EncodeRecord(hs[i]))
  }

  /** The text of a file holding one record per hit, in order. */
  function EncodeRecords(hs: seq<Hit>): Bytes {
    Flatten(RecordLines(hs))
  }

  lemma EncodeRecordsAppend(xs: seq<Hit>, ys: seq<Hit>)
    ensures EncodeRecords(xs + ys) == EncodeRecords(xs) + EncodeRecords(ys)
  {
    assert RecordLines(xs + ys) == RecordLines(xs) + RecordLines(ys);
    FlattenAppend(RecordLines(xs), RecordLines(ys));
  }

  lemma {:induction false} PairsAppend(a: Aggregate, b: Aggregate)
    ensures Pairs(a + b) == Pairs(a) + Pairs(b)
  {
    if a != [] {
      assert (a + b)[1..] == a[1..] + b;
      PairsAppend(a[1..], b);
    } else {
      assert a + b == b;
    }
  }

  lemma EncodeStep(done: seq<Hit>, url: Bytes, dates: seq<DateCount>, j: nat)
    requires j < |dates|
    ensures EncodeRecords(done + DateRecords(url, dates[..j + 1]))
         == EncodeRecords(done + DateRecords(url, dates[..j])) + EncodeRecord(Hit(url, dates[j].date, dates[j].count))
  {
    var h := Hit(url, dates[j].date, dates[j].count);
    var before := DateRecords(url, dates[..j]);
    DateRecordsSnoc(url, dates, j);
    assert done + (before + [h]) == (done + before) + [h];
    EncodeSnoc(done + before, h);
  }

  lemma DateRecordsSnoc(url: Bytes, dates: seq<DateCount>, j: nat)
    requires j < |dates|
    ensures DateRecords(url, dates[..j + 1]) == DateRecords(url, dates[..j]) + [Hit(url, dates[j].date, dates[j].count)]
  {
    var xs, ys := DateRecords(url, dates[..j + 1]), DateRecords(url, dates[..j]) + [Hit(url, dates[j].date, dates[j].count)];
    assert |xs| == |ys|;
    forall k | 0 <= k < |xs| ensures xs[k] == ys[k] {
    }
  }

  lemma EncodeSnoc(hs: seq<Hit>, h: Hit)
    ensures EncodeRecords(hs + [h]) == EncodeRecords(hs) + EncodeRecord(h)
  {
    EncodeRecordsAppend(hs, [h]);
    assert EncodeRecords([h]) == EncodeRecord(h) + Flatten([]);
  }

  lemma EntryDone(a: Aggregate, i: nat)
    requires i < |a|
    ensures Pairs(a[..i]) + DateRecords(a[i].url, a[i].dates[..|a[i].dates|]) == Pairs(a[..i + 1])
  {
    assert a[i].dates[..|a[i].dates|] == a[i].dates;
    assert a[..i + 1] == a[..i] + [a[i]];
    PairsAppend(a[..i], [a[i]]);
  }

  /** The worker's output loop: every stored pair, in stored order, as one record. */
  method EncodePartial(result: Aggregate) returns (out: Bytes)
    ensures out == EncodeRecords(Pairs(result))
  {
    out := [];
    for i := 0 to |result|
      invariant out == EncodeRecords(Pairs(result[..i]))
    {
      var url := result[i].url;
      var dates := result[i].dates;
      assert Pairs(result[..i]) + DateRecords(url, dates[..0]) == Pairs(result[..i]);
      for j := 0 to |dates|
        invariant out == EncodeRecords(Pairs(result[..i]) + DateRecords(url, dates[..j]))
      {
        var date, count := dates[j].date, dates[j].count;
        EncodeStep(Pairs(result[..i]), url, dates, j);
        out := out + (url + [TAB] + date + [TAB] + Decimal(count) + [NL]);
      }
      EntryDone(result, i);
    }
    assert result[..|result|] == result;
  }

  /**
   * `strrpos($s, $b)` with the search held below `limit`: the last index
   * under `limit` holding `b`.
   */
  function LastIndexBelow(s: Bytes, b: byte, limit: nat): (r: Option<nat>)
    requires limit <= |s|
    ensures r.Some? ==> r.value < limit && s[r.value] == b && Free(s[r.value + 1..limit], b)
    ensures r.None? ==> Free(s[..limit], b)
  {
    if limit == 0 then None
    else if s[limit - 1] == b then Some(limit - 1)
    else
      var r := LastIndexBelow(s, b, limit - 1);
      assert s[..limit] == s[..limit - 1] + [s[limit - 1]];
      assert r.Some? ==> s[r.value + 1..limit] == s[r.value + 1..limit - 1] + [s[limit - 1]];
      r
  }

  /** The offset of the first-tab search, counted back from the end of the line. */
  const SearchBack: nat := 12

  /**
   * Cutting one record line into url, date and count.  The first tab is the
   * last one that starts at least 12 bytes before the end of the line, the
   * second is the last tab of the line; a tab that is not found acts as
   * offset 0.  A line shorter than 12 bytes makes `strrpos` raise a
   * `ValueError`, which is `None` here.
   */
  function DecodeRecord(line: Bytes): (r: Option<Hit>)
    ensures r.None? <==> |line| < SearchBack
  {
    if |line| < SearchBack then None
    else
      var tab1 := OffsetOf(LastIndexBelow(line, TAB, |line| - SearchBack + 1));
      var tab2 := OffsetOf(LastIndexBelow(line, TAB, |line|));
      Some(Hit(Substr(line, 0, tab1), Substr(line, tab1 + 1, tab2 - tab1 - 1), IntCast(line[tab2 + 1..])))
  }

  /**
   * The records the encoder writes for the pairs a scan can produce: a
   * newline-free URL (tabs are allowed), a 10-byte date without tab or newline,
   * and a count of at most nine digits.
   */
  predicate RecordSafe(h: Hit) {
    && Free(h.url, NL)
    && SafeDate(h.date)
    && 0 <= h.count < 1_000_000_000
  }

  /** A date the merge's tab search finds whole: 10 bytes without tab or newline. */
  predicate SafeDate(d: Bytes) {
    |d| == 10 && Free(d, TAB) && Free(d, NL)
  }

  /** Where the fields of a record line sit. */
  lemma RecordLayout(h: Hit, line: Bytes)
    requires line == EncodeRecord(h) && |h.date| == 10
    ensures line[..|h.url|] == h.url
    ensures line[|h.url|] == TAB && line[|h.url| + 11] == TAB
    ensures line[|h.url| + 1..|h.url| + 11] == h.date
    ensures line[|h.url| + 12..] == Decimal(h.count) + [NL]
  {
    var u := |h.url|;
    assert line == (h.url + [TAB]) + (h.date + [TAB] + Decimal(h.count) + [NL]);
  }

  /**
   * The two tab searches on a line laid out as a record: the `-12` search
   * skips the tab after the date as long as the count has at most nine digits.
   */
  lemma LastTabsOfLayout(line: Bytes, u: nat, date: Bytes, digits: Bytes)
    requires |date| == 10 && Free(date, TAB)
    requires AllDigits(digits) && 1 <= |digits| <= 9
    requires |line| == u + 13 + |digits|
    requires line[u] == TAB && line[u + 11] == TAB
    requires line[u + 1..u + 11] == date
    requires line[u + 12..] == digits + [NL]
    ensures LastIndexBelow(line, TAB, |line|) == Some(u + 11)
    ensures LastIndexBelow(line, TAB, |line| - SearchBack + 1) == Some(u)
  {
    assert line[u + 12..|line|] == digits + [NL];
    assert Free(digits + [NL], TAB);
    LastIndexAt(line, TAB, u + 11, |line|);
    var limit := |line| - SearchBack + 1;
    assert line[u + 1..limit] == date[..limit - u - 1];
    LastIndexAt(line, TAB, u, limit);
  }

  lemma {:induction false} LastIndexAt(s: Bytes, b: byte, i: nat, limit: nat)
    requires i < limit <= |s| && s[i] == b && Free(s[i + 1..limit], b)
    ensures LastIndexBelow(s, b, limit) == Some(i)
    decreases limit
  {
    if limit - 1 != i {
      assert s[i + 1..limit][limit - 2 - i] == s[limit - 1];
      assert s[i + 1..limit - 1] == s[i + 1..limit][..limit - 2 - i];
      LastIndexAt(s, b, i, limit - 1);
    }
  }

  lemma DecodeLayout(line: Bytes, url: Bytes, date: Bytes, count: int)
    requires |date| == 10 && Free(date, TAB)
    requires count >= 0 && |Decimal(count)| <= 9
    requires |line| == |url| + 13 + |Decimal(count)|
    requires line[..|url|] == url
    requires line[|url|] == TAB && line[|url| + 11] == TAB
    requires line[|url| + 1..|url| + 11] == date
    requires line[|url| + 12..] == Decimal(count) + [NL]
    ensures DecodeRecord(line) == Some(Hit(url, date, count))
  {
    var u := |url|;
    LastTabsOfLayout(line, u, date, Decimal(count));
    DecodeAt(line, u);
    SubstrInside(line, 0, u);
    SubstrInside(line, u + 1, 10);
    IntCastDecimal(count, [NL]);
  }

  /** Decoding a line whose two tab searches find `u` and `u + 11`. */
  lemma DecodeAt(line: Bytes, u: nat)
    requires |line| >= SearchBack && u + 12 <= |line|
    requires LastIndexBelow(line, TAB, |line| - SearchBack + 1) == Some(u)
    requires LastIndexBelow(line, TAB, |line|) == Some(u + 11)
    ensures DecodeRecord(line) == Some(Hit(Substr(line, 0, u), Substr(line, u + 1, 10), IntCast(line[u + 12..])))
  {
  }

  lemma SubstrInside(s: Bytes, offset: nat, length: nat)
    requires offset + length <= |s|
    ensures Substr(s, offset, length) == s[offset..offset + length]
  {
  }

  /** Decoding a record the encoder wrote gives back the url, date and count, tabs in the URL notwithstanding. */
  lemma DecodeEncodeRecord(h: Hit)
    requires RecordSafe(h)
    ensures DecodeRecord(EncodeRecord(h)) == Some(h)
  {
    var line := EncodeRecord(h);
    RecordLayout(h, line);
    DigitsLength(h.count, 9);
    DecodeLayout(line, h.url, h.date, h.count);
  }

  /** All the decoded values, or `None` as soon as one decoding raised. */
  function Collect(os: seq<Option<Hit>>): (r: Option<seq<Hit>>)
    ensures r.Some? ==> |r.value| == |os|
  {
    if os == [] then Some([])
    else
      var init := Collect(os[..|os| - 1]);
      var last := os[|os| - 1];
      if init.Some? && last.Some? then Some(init.value + [last.value]) else None
  }

  /** `DecodeRecord` on each line, in order. */
  function Results(ls: seq<Bytes>): (os: seq<Option<Hit>>)
    ensures |os| == |ls|
  {
    if ls == [] then [] else Results(ls[..|ls| - 1]) + [DecodeRecord(ls[|ls| - 1])]
  }

  lemma {:induction false} ResultsIndex(ls: seq<Bytes>, i: nat)
    requires i < |ls|
    ensures Results(ls)[i] == DecodeRecord(ls[i])
  {
    if i < |ls| - 1 {
      ResultsIndex(ls[..|ls| - 1], i);
    }
  }

  /** The hits of a file's record lines; `None` when one of them raises. */
  function DecodeLines(ls: seq<Bytes>): Option<seq<Hit>> {
    Collect(Results(ls))
  }

  /** Reading a partial-result file line by line. */
  function DecodeFile(text: Bytes): Option<seq<Hit>> {
    DecodeLines(Lines(text, 0, |text|))
  }

  /** `Collect` fails exactly when one of the decodings failed. */
  lemma {:induction false} CollectNone(os: seq<Option<Hit>>)
    ensures Collect(os).None? <==> exists i | 0 <= i < |os| :: os[i].None?
  {
    if os != [] {
      var init := os[..|os| - 1];
      CollectNone(init);
      if exists i | 0 <= i < |init| :: init[i].None? {
        var i :| 0 <= i < |init| && init[i].None?;
        assert os[i].None?;
      }
      if exists i | 0 <= i < |os| :: os[i].None? {
        var i :| 0 <= i < |os| && os[i].None?;
        if i < |init| {
          assert init[i].None?;
        }
      }
    }
  }

  /** Some line `fgets` returns from `text` is shorter than 12 bytes. */
  predicate HasShortLine(text: Bytes) {
    exists l | l in Lines(text, 0, |text|) :: |l| < SearchBack
  }

  /** Reading a file fails exactly when one of its lines is shorter than 12 bytes. */
  lemma DecodeFileNone(text: Bytes)
    ensures DecodeFile(text).None? <==> HasShortLine(text)
  {
    var ls := Lines(text, 0, |text|);
    CollectNone(Results(ls));
    if HasShortLine(text) {
      var l :| l in ls && |l| < SearchBack;
      var i :| 0 <= i < |ls| && ls[i] == l;
      ResultsIndex(ls, i);
    }
    if DecodeFile(text).None? {
      var i :| 0 <= i < |ls| && Results(ls)[i].None?;
      ResultsIndex(ls, i);
      assert ls[i] in ls;
    }
  }

  lemma DecodeRecordLines(hs: seq<Hit>)
    requires forall i | 0 <= i < |hs| :: RecordSafe(hs[i])
    ensures DecodeLines(RecordLines(hs)) == Some(hs)
  {
    var ls := RecordLines(hs);
    var os := Results(ls);
    forall i | 0 <= i < |hs| ensures os[i] == Some(hs[i]) {
      ResultsIndex(ls, i);
      DecodeEncodeRecord(hs[i]);
    }
    CollectAll(os, hs);
  }

  lemma {:induction false} CollectAll(os: seq<Option<Hit>>, hs: seq<Hit>)
    requires |os| == |hs|
    requires forall i | 0 <= i < |os| :: os[i] == Some(hs[i])
    ensures Collect(os) == Some(hs)
  {
    if os != [] {
      CollectAll(os[..|os| - 1], hs[..|hs| - 1]);
      assert hs == hs[..|hs| - 1] + [hs[|hs| - 1]];
    }
  }

  lemma EncodedRecordIsLine(h: Hit)
    requires RecordSafe(h)
    ensures TerminatedLine(EncodeRecord(h))
  {
    var line := EncodeRecord(h);
    var body := line[..|line| - 1];
    assert body == h.url + [TAB] + h.date + [TAB] + Decimal(h.count);
    forall i | 0 <= i < |body| ensures body[i] != NL {
      if i < |h.url| {
        assert body[i] == h.url[i];
      } else if i == |h.url| || i == |h.url| + 11 {
      } else if i < |h.url| + 11 {
        assert body[i] == h.date[i - |h.url| - 1];
      } else {
        assert body[i] == Decimal(h.count)[i - |h.url| - 12];
      }
    }
  }

  /**
   * A file written by the encoder reads back as the very hits it was
   * written from, in order.
   */
  lemma DecodeEncodeFile(hs: seq<Hit>)
    requires forall i | 0 <= i < |hs| :: RecordSafe(hs[i])
    ensures DecodeFile(EncodeRecords(hs)) == Some(hs)
  {
    forall i | 0 <= i < |hs| ensures TerminatedLine(RecordLines(hs)[i]) {
      EncodedRecordIsLine(hs[i]);
    }
    LinesOfFlatten(RecordLines(hs));
    DecodeRecordLines(hs);
  }

  /**
   * A line too short for the `-12` offset cannot be decoded: this is how a
   * worker's record for a blank input line stops the merge.
   */
  lemma ShortRecordRaises(h: Hit)
    requires |EncodeRecord(h)| < SearchBack
    ensures DecodeRecord(EncodeRecord(h)) == None
  {
  }
}
