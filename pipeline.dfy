/**
 * The whole run (`Parser::parse`): plan one byte range per worker, let each
 * worker scan its range and write its partial result as records, merge the
 * record files, and write the merged aggregate as JSON.
 *
 * The input file's contents are the parameter `s`; the temporary files are
 * the values the workers return.  Workers run one after the other here.
 */
module Pipeline {
  import opened Text
  import opened Aggregates
  import opened Chunks
  import opened Scanner
  import opened Records
  import opened Merge
  import opened Json

  /** `Parser::WORKERS`. */
  const Workers: nat := 2

  // ---------------------------------------------------------------------------
  // The workers
  // ---------------------------------------------------------------------------

  /** The temporary file the worker for range `c` leaves behind. */
  ghost function WorkerFile(s: Bytes, c: ByteRange): Bytes {
    EncodeRecords(Pairs(Scan(s, c.start, c.end)))
  }

  /** The temporary files of all workers, in the order of their ranges. */
  ghost function WorkerFiles(s: Bytes, chunks: seq<ByteRange>): (files: seq<Bytes>)
    ensures |files| == |chunks|
    ensures forall i | 0 <= i < |chunks| :: files[i] == WorkerFile(s, chunks[i])
  {
    if chunks == [] then []
    else WorkerFiles(s, chunks[..|chunks| - 1]) + [WorkerFile(s, chunks[|chunks| - 1])]
  }

  /**
   * `forkWorkers`: each worker scans its range and writes every stored pair
   * of its aggregate as one record, in stored order.
   */
  method ForkWorkers(s: Bytes, chunks: seq<ByteRange>) returns (files: seq<Bytes>)
    ensures files == WorkerFiles(s, chunks)
  {
    files := [];
    for i := 0 to |chunks|
      invariant files == WorkerFiles(s, chunks[..i])
    {
      var result := ParseCsvChunk(s, chunks[i].start, chunks[i].end);
      var out := EncodePartial(result);
      assert chunks[..i + 1][..i] == chunks[..i];
      files := files + [out];
    }
    assert chunks[..|chunks|] == chunks;
  }

  // ---------------------------------------------------------------------------
  // Inputs the merge reads back faithfully
  // ---------------------------------------------------------------------------

  /**
   * Input of the expected shape: every line carries a full date after its
   * first comma, and there are fewer than 10^9 lines, so that no count
   * needs ten digits.
   */
  ghost predicate WellFormed(s: Bytes) {
    && |Lines(s, 0, |s|)| < 1_000_000_000
    && forall line | line in Lines(s, 0, |s|) :: SafeDate(LineKey(line).date)
  }

  /** The keys a record file can carry: a newline-free URL and a safe date. */
  predicate SafeKey(u: Bytes, d: Bytes) {
    Free(u, NL) && SafeDate(d)
  }

  /** A blank line is counted under an empty URL and date; its record makes the merge raise. */
  lemma BlankLineRaises()
    ensures LineKey([NL]) == Hit([], [], 1)
    ensures DecodeRecord(EncodeRecord(LineKey([NL]))) == None
  {
    assert FirstIndex([NL], ',') == None;
    assert Decimal(1) == [DigitByte(1)];
    ShortRecordRaises(Hit([], [], 1));
  }

  /**
   * A key whose date ends in the line's newline splits its record over two
   * `fgets` lines: the URL, a tab and the date, then a tab, the count and a
   * newline.  The second is shorter than 12 bytes, so the merge raises on
   * it whatever the URL; the first raises already when it is that short,
   * and otherwise decodes into a record of its own.
   */
  lemma SplitRecordRaises(url: Bytes, date: Bytes, count: int)
    requires Free(url, NL) && Free(date, NL) && 0 <= count < 1_000_000_000
    ensures var first := url + [TAB] + date + [NL];
            var tail := [TAB] + Decimal(count) + [NL];
            var rec := EncodeRecord(Hit(url, date + [NL], count));
            && Lines(rec, 0, |rec|) == [first, tail]
            && DecodeRecord(tail) == None
            && (DecodeRecord(first).None? <==> |first| < SearchBack)
  {
    var rec := EncodeRecord(Hit(url, date + [NL], count));
    var first := url + [TAB] + date + [NL];
    var tail := [TAB] + Decimal(count) + [NL];
    RecordSplits(url, date, Decimal(count), rec);
    KeyLine(url, date);
    CountLine(count);
    TwoLines(rec, first, tail);
  }

  /** A tab, a count of at most nine digits and a newline: one whole line, under 12 bytes. */
  lemma CountLine(count: int)
    requires 0 <= count < 1_000_000_000
    ensures TerminatedLine([TAB] + Decimal(count) + [NL])
    ensures |[TAB] + Decimal(count) + [NL]| < SearchBack
  {
    DecimalFree(count, NL);
    FreeAppend([TAB], Decimal(count), NL);
    TerminatedOf([TAB] + Decimal(count));
    assert Decimal(count) == Digits(count);
    DigitsLength(count, 9);
  }

  /** The lines of `a + b`, both whole lines, are `a` and `b`. */
  lemma TwoLines(s: Bytes, a: Bytes, b: Bytes)
    requires TerminatedLine(a) && TerminatedLine(b) && s == a + b
    ensures Lines(s, 0, |s|) == [a, b]
  {
    assert [a, b][1..] == [b];
    assert Flatten([b]) == b + Flatten([]);
    assert Flatten([a, b]) == a + b;
    LinesOfFlatten([a, b]);
  }

  /** A record whose date ends in a newline is that line followed by the rest. */
  lemma RecordSplits(url: Bytes, date: Bytes, n: Bytes, rec: Bytes)
    requires rec == url + [TAB] + (date + [NL]) + [TAB] + n + [NL]
    ensures rec == (url + [TAB] + date + [NL]) + ([TAB] + n + [NL])
  {
    var body := url + [TAB] + date;
    ConcatAssoc(url + [TAB], date, [NL]);
    ConcatAssoc(body + [NL], [TAB], n);
    ConcatAssoc(body + [NL], [TAB] + n, [NL]);
  }

  /** A URL, a tab, a date and a newline make one whole line when neither field holds a newline. */
  lemma KeyLine(url: Bytes, date: Bytes)
    requires Free(url, NL) && Free(date, NL)
    ensures TerminatedLine(url + [TAB] + date + [NL])
  {
    var body := url + [TAB] + date;
    forall i | 0 <= i < |body| ensures body[i] != NL {
      if i < |url| {
        assert body[i] == url[i];
      } else if i > |url| {
        assert body[i] == date[i - |url| - 1];
      }
    }
    TerminatedOf(body);
  }

  /** A line read by `fgets` holds a newline at its end at most. */
  lemma {:induction false} LineBodies(s: Bytes, p: nat, end: int)
    ensures forall i | 0 <= i < |Lines(s, p, end)| ::
              Free(Lines(s, p, end)[i][..|Lines(s, p, end)[i]| - 1], NL)
    decreases |s| - p
  {
    if p < end && p < |s| {
      var e := LineEnd(s, p);
      var ls := Lines(s, p, end);
      LineBodies(s, e, end);
      forall i | 0 <= i < |ls| ensures Free(ls[i][..|ls[i]| - 1], NL) {
        if i == 0 {
          assert ls[0] == s[p..e];
          forall k | 0 <= k < |ls[0]| - 1 ensures ls[0][k] != NL {
            assert ls[0][k] == s[p + k];
          }
        } else {
          assert ls[i] == Lines(s, e, end)[i - 1];
        }
      }
    }
  }

  /** A worker's aggregate over lines of the expected shape holds only keys records can carry. */
  lemma ScanKeys(s: Bytes, start: nat, end: nat)
    requires forall line | line in Lines(s, start, end) :: SafeDate(LineKey(line).date)
    ensures ForallKeys(Scan(s, start, end), SafeKey)
  {
    var ls := Lines(s, start, end);
    var hs := Hits(ls);
    LineBodies(s, start, end);
    forall k | 0 <= k < |hs| ensures SafeKey(hs[k].url, hs[k].date) {
      assert ls[k] in ls;
      LineKeyUrlInsideLine(ls[k]);
    }
    ApplyKeys([], hs, SafeKey);
  }

  /**
   * The aggregate a worker builds over lines of the expected shape is
   * written as records the merge reads back: newline-free URLs, full dates
   * and counts below 10^9.
   */
  lemma ScanSafe(s: Bytes, start: nat, end: nat)
    requires |Lines(s, start, end)| < 1_000_000_000
    requires forall line | line in Lines(s, start, end) :: SafeDate(LineKey(line).date)
    ensures forall k | 0 <= k < |Pairs(Scan(s, start, end))| :: RecordSafe(Pairs(Scan(s, start, end))[k])
  {
    var a := Scan(s, start, end);
    TallyOfSingles(Hits(Lines(s, start, end)));
    RecordCountsBounded(a);
    ScanKeys(s, start, end);
    RecordsKeys(a, SafeKey);
  }

  // ---------------------------------------------------------------------------
  // Merging the workers' files
  // ---------------------------------------------------------------------------

  /** The lines of the ranges, range after range, split off at the last range. */
  lemma {:induction false} LinesOfChunksSnoc(s: Bytes, chunks: seq<ByteRange>)
    requires chunks != []
    ensures LinesOfChunks(s, chunks)
         == LinesOfChunks(s, chunks[..|chunks| - 1]) + Lines(s, chunks[|chunks| - 1].start, chunks[|chunks| - 1].end)
  {
    if |chunks| > 1 {
      var init, rest := chunks[..|chunks| - 1], chunks[1..];
      var head := Lines(s, chunks[0].start, chunks[0].end);
      var last := Lines(s, chunks[|chunks| - 1].start, chunks[|chunks| - 1].end);
      LinesOfChunksSnoc(s, rest);
      assert rest[|rest| - 1] == chunks[|chunks| - 1];
      assert init[0] == chunks[0] && init[1..] == rest[..|rest| - 1];
      assert LinesOfChunks(s, chunks) == head + LinesOfChunks(s, rest);
      assert LinesOfChunks(s, init) == head + LinesOfChunks(s, init[1..]);
      LinesAssoc(head, LinesOfChunks(s, init[1..]), last);
    }
  }

  lemma LinesAssoc(a: seq<Bytes>, b: seq<Bytes>, c: seq<Bytes>)
    ensures a + (b + c) == (a + b) + c
  {
  }

  /**
   * Appending a pre-aggregated piece, as records, to a sequence of hits
   * tallies the same as appending the piece's hits themselves.
   */
  lemma TallyJoin(done: seq<Hit>, hits: seq<Hit>, piece: seq<Hit>)
    requires Tally(done) == Tally(hits)
    ensures Tally(done + Pairs(Tally(piece))) == Tally(hits + piece)
  {
    ApplyAppend([], done, Pairs(Tally(piece)));
    Regroup(Tally(hits), piece);
    ApplyAppend([], hits, piece);
  }

  /** The record file of the last range added to the files read so far. */
  lemma DecodeWorkerFilesStep(s: Bytes, chunks: seq<ByteRange>, prior: seq<Hit>, records: seq<Hit>)
    requires chunks != []
    requires DecodeFiles(WorkerFiles(s, chunks[..|chunks| - 1])) == Some(prior)
    requires DecodeFile(WorkerFile(s, chunks[|chunks| - 1])) == Some(records)
    ensures DecodeFiles(WorkerFiles(s, chunks)) == Some(prior + records)
  {
    var files := WorkerFiles(s, chunks);
    assert files[..|files| - 1] == WorkerFiles(s, chunks[..|chunks| - 1]);
  }

  /**
   * Reading back the files of the workers of any ranges of well-formed
   * lines succeeds, and tallies like the lines of the ranges, range after range.
   */
  lemma {:induction false} WorkersTally(s: Bytes, chunks: seq<ByteRange>)
    requires |LinesOfChunks(s, chunks)| < 1_000_000_000
    requires forall line | line in LinesOfChunks(s, chunks) :: SafeDate(LineKey(line).date)
    ensures DecodeFiles(WorkerFiles(s, chunks)).Some?
    ensures Tally(DecodeFiles(WorkerFiles(s, chunks)).value) == Tally(Hits(LinesOfChunks(s, chunks)))
  {
    if chunks != [] {
      var init, c := chunks[..|chunks| - 1], chunks[|chunks| - 1];
      var before, lines := LinesOfChunks(s, init), Lines(s, c.start, c.end);
      LinesOfChunksSnoc(s, chunks);
      WorkersTally(s, init);
      ScanSafe(s, c.start, c.end);
      var records := Pairs(Scan(s, c.start, c.end));
      DecodeEncodeFile(records);
      var prior := DecodeFiles(WorkerFiles(s, init)).value;
      DecodeWorkerFilesStep(s, chunks, prior, records);
      TallyJoin(prior, Hits(before), Hits(lines));
      HitsAppend(before, lines);
    }
  }

  /** What the run should report for `s`: every line counted under its key, dates sorted. */
  ghost function Expected(s: Bytes): Aggregate {
    SortAll(Tally(Hits(Lines(s, 0, |s|))))
  }

  /**
   * Over line-aligned ranges of well-formed input, merging the workers'
   * files gives exactly what one scan of the whole file gives, key order
   * included: every line is counted once.
   */
  lemma MergeOfWorkers(s: Bytes, chunks: seq<ByteRange>)
    requires LineAligned(s, chunks) && WellFormed(s)
    ensures Merged(WorkerFiles(s, chunks)) == Some(Expected(s))
  {
    EveryLineOnce(s, chunks);
    WorkersTally(s, chunks);
  }

  /** The count the run reports for a key is the number of lines carrying it. */
  lemma ExpectedCount(s: Bytes, u: Bytes, d: Bytes)
    ensures Count(Expected(s), u, d) == LinesWithKey(Lines(s, 0, |s|), u, d)
    ensures Has(Expected(s), u, d) <==> LinesWithKey(Lines(s, 0, |s|), u, d) > 0
  {
    ScanCount(s, 0, |s|, u, d);
    TallyOfSingles(Hits(Lines(s, 0, |s|)));
    SortAllCount(Tally(Hits(Lines(s, 0, |s|))), u, d);
  }

  lemma {:induction false} ValidNonEmpty(a: Aggregate, i: nat)
    requires Valid(a) && i < |a|
    ensures a[i].dates != []
  {
    if i > 0 {
      ValidNonEmpty(a[1..], i - 1);
    }
  }

  /** Sorting the dates of an aggregate whose keys are safe leaves nothing the JSON reader trips on. */
  lemma SortedJsonSafe(a: Aggregate)
    requires Valid(a) && ForallKeys(a, SafeKey)
    ensures JsonSafe(SortAll(a))
  {
    var r := SortAll(a);
    forall i | 0 <= i < |r|
      ensures Free(r[i].url, NL) && forall j | 0 <= j < |r[i].dates| :: Free(r[i].dates[j].date, NL)
    {
      ValidNonEmpty(a, i);
      assert SafeKey(a[i].url, a[i].dates[0].date);
      forall j | 0 <= j < |r[i].dates| ensures Free(r[i].dates[j].date, NL) {
        var x := r[i].dates[j];
        assert x in multiset(SortDates(a[i].dates));
        var k :| 0 <= k < |a[i].dates| && a[i].dates[k] == x;
        assert SafeKey(a[i].url, a[i].dates[k].date);
      }
    }
  }

  /** The JSON written for well-formed input reads back as the expected aggregate. */
  lemma OutputReadsBack(s: Bytes)
    requires WellFormed(s)
    ensures ParseJson(Json.Json(Expected(s))) == Some(Expected(s))
  {
    var hs := Hits(Lines(s, 0, |s|));
    TallyOfSingles(hs);
    ScanKeys(s, 0, |s|);
    SortedJsonSafe(Tally(hs));
    ParseJsonOfJson(Expected(s));
  }

  /** `parse`: the JSON text written to the output path, or `None` when the merge raises. */
  method Parse(s: Bytes) returns (out: Option<Bytes>)
    ensures WellFormed(s) ==> out == Some(Json.Json(Expected(s)))
  {
    var chunks := SplitIntoChunks(s, Workers);
    var files := ForkWorkers(s, chunks);
    var merged := MergeResults(files);
    if merged.None? {
      PlanIsLineAligned(s, Workers, chunks);
      if WellFormed(s) {
        MergeOfWorkers(s, chunks);
      }
      return None;
    }
    var text := ToJson(merged.value);
    out := Some(text);
    PlanIsLineAligned(s, Workers, chunks);
    if WellFormed(s) {
      MergeOfWorkers(s, chunks);
    }
  }
}
