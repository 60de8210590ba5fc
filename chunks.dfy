/**
 * Chunk planning (`Parser::splitIntoChunks`): the input is cut into one byte
 * range per worker.  Each range but the last ends where the line running
 * through `start + fileSize / workers` ends; the last ends at the file size.
 * The worker count is a parameter here (the source fixes it at 2).
 */
module Chunks {
  import opened Text

  /** The half-open byte range `[start, end)` one worker reads. */
  datatype ByteRange = ByteRange(start: nat, end: nat)

  /**
   * `fseek($h, $p); fgets($h); ftell($h)`.  Seeking past the end of a file is
   * allowed; `fgets` then reads nothing and the position stays at `p`.
   */
  function PositionAfterLine(s: Bytes, p: nat): (q: nat)
    ensures p <= q && AtBoundary(s, q)
    ensures p < |s| ==> p < q <= |s|
    ensures p >= |s| ==> q == p
  {
    if p < |s| then LineEndAtBoundary(s, p); LineEnd(s, p) else p
  }

  /** The position `ftell` reports is the first line start after the seek target. */
  lemma PositionAfterLineFirst(s: Bytes, p: nat)
    ensures forall k | p < k < PositionAfterLine(s, p) :: !AtBoundary(s, k)
  {
    if p < |s| {
      forall k | p < k < PositionAfterLine(s, p) ensures !AtBoundary(s, k) {
        assert s[k - 1] != NL;
      }
    }
  }

  /**
   * What `splitIntoChunks` produces for `workers` workers: one range per
   * worker whose seeks advance by `fileSize / workers`.
   */
  ghost predicate IsPlan(s: Bytes, workers: nat, chunks: seq<ByteRange>) {
    workers >= 1 && |chunks| == workers && PlanPrefix(s, workers, |s| / workers, chunks)
  }

  /**
   * Consecutive ranges from `chunks[0].start` to the end of the data whose
   * inner boundaries are line starts (or lie past the data): no line is split.
   */
  ghost predicate Chained(s: Bytes, chunks: seq<ByteRange>) {
    && |chunks| >= 1
    && chunks[|chunks| - 1].end == |s|
    && (forall i | 0 <= i < |chunks| - 1 ::
         chunks[i].start <= chunks[i].end && AtBoundary(s, chunks[i].end))
    && (forall i, j | 0 <= i < j < |chunks| && j == i + 1 :: chunks[j].start == chunks[i].end)
  }

  ghost predicate LineAligned(s: Bytes, chunks: seq<ByteRange>) {
    Chained(s, chunks) && chunks[0].start == 0
  }

  /** The first `|chunks|` ranges of a plan whose seeks advance by `chunkSize`. */
  ghost predicate PlanPrefix(s: Bytes, workers: nat, chunkSize: nat, chunks: seq<ByteRange>) {
    && |chunks| <= workers
    && (|chunks| > 0 ==> chunks[0].start == 0)
    && (forall i | 0 <= i < |chunks| && i < workers - 1 ::
          chunks[i].end == PositionAfterLine(s, chunks[i].start + chunkSize))
    && (forall i, j | 0 <= i < j < |chunks| && j == i + 1 :: chunks[j].start == chunks[i].end)
    && (|chunks| == workers > 0 ==> chunks[workers - 1].end == |s|)
  }

  /** One iteration of the planning loop extends a plan prefix by one range. */
  lemma PlanPrefixExtend(s: Bytes, workers: nat, chunkSize: nat, chunks: seq<ByteRange>, start: nat, end: nat)
    requires PlanPrefix(s, workers, chunkSize, chunks) && |chunks| < workers
    requires start == if chunks == [] then 0 else chunks[|chunks| - 1].end
    requires end == if |chunks| == workers - 1 then |s| else PositionAfterLine(s, start + chunkSize)
    ensures PlanPrefix(s, workers, chunkSize, chunks + [ByteRange(start, end)])
  {
    var next := chunks + [ByteRange(start, end)];
    ExtendEnds(s, workers, chunkSize, chunks, ByteRange(start, end));
    ExtendChain(chunks, ByteRange(start, end));
  }

  lemma ExtendEnds(s: Bytes, workers: nat, chunkSize: nat, chunks: seq<ByteRange>, last: ByteRange)
    requires forall i | 0 <= i < |chunks| && i < workers - 1 ::
               chunks[i].end == PositionAfterLine(s, chunks[i].start + chunkSize)
    requires |chunks| < workers - 1 ==> last.end == PositionAfterLine(s, last.start + chunkSize)
    ensures forall i | 0 <= i < |chunks| + 1 && i < workers - 1 ::
              (chunks + [last])[i].end == PositionAfterLine(s, (chunks + [last])[i].start + chunkSize)
  {
    var next := chunks + [last];
    forall i | 0 <= i < |next| && i < workers - 1
      ensures next[i].end == PositionAfterLine(s, next[i].start + chunkSize)
    {
      if i < |chunks| {
        assert next[i] == chunks[i];
      }
    }
  }

  lemma ExtendChain(chunks: seq<ByteRange>, last: ByteRange)
    requires forall i, j | 0 <= i < j < |chunks| && j == i + 1 :: chunks[j].start == chunks[i].end
    requires chunks != [] ==> last.start == chunks[|chunks| - 1].end
    ensures forall i, j | 0 <= i < j < |chunks| + 1 && j == i + 1 :: (chunks + [last])[j].start == (chunks + [last])[i].end
  {
    var next := chunks + [last];
    forall i, j | 0 <= i < j < |next| && j == i + 1 ensures next[j].start == next[i].end {
      assert next[i] == chunks[i];
      if j < |chunks| {
        assert next[j] == chunks[j];
      }
    }
  }

  method SplitIntoChunks(s: Bytes, workers: nat) returns (chunks: seq<ByteRange>)
    requires workers >= 1
    ensures IsPlan(s, workers, chunks)
  {
    var fileSize := |s|;
    var chunkSize: nat := fileSize / workers;
    chunks := [];
    var start: nat := 0;
    for i := 0 to workers
      invariant |chunks| == i
      invariant PlanPrefix(s, workers, chunkSize, chunks)
      invariant i < workers ==> start == if i == 0 then 0 else chunks[i - 1].end
    {
      if i == workers - 1 {
        PlanPrefixExtend(s, workers, chunkSize, chunks, start, fileSize);
        chunks := chunks + [ByteRange(start, fileSize)];
      } else {
        var end := PositionAfterLine(s, start + chunkSize);
        PlanPrefixExtend(s, workers, chunkSize, chunks, start, end);
        chunks := chunks + [ByteRange(start, end)];
        start := end;
      }
    }
  }

  /** The ranges of a plan are line-aligned. */
  lemma PlanIsLineAligned(s: Bytes, workers: nat, chunks: seq<ByteRange>)
    requires IsPlan(s, workers, chunks)
    ensures LineAligned(s, chunks)
  {
    PlanRanges(s, workers, chunks);
  }

  lemma PlanRanges(s: Bytes, workers: nat, chunks: seq<ByteRange>)
    requires IsPlan(s, workers, chunks)
    ensures forall i | 0 <= i < |chunks| - 1 :: chunks[i].start <= chunks[i].end && AtBoundary(s, chunks[i].end)
  {
    PrefixRanges(s, workers, |s| / workers, chunks);
  }

  lemma PrefixRanges(s: Bytes, workers: nat, chunkSize: nat, chunks: seq<ByteRange>)
    requires PlanPrefix(s, workers, chunkSize, chunks) && |chunks| == workers
    ensures forall i | 0 <= i < |chunks| - 1 :: chunks[i].start <= chunks[i].end && AtBoundary(s, chunks[i].end)
  {
    forall i | 0 <= i < |chunks| - 1
      ensures chunks[i].start <= chunks[i].end && AtBoundary(s, chunks[i].end)
    {
      SeekBoundary(s, workers, chunkSize, chunks, i);
    }
  }

  /**
   * Every inner boundary lies at or after `start + fileSize / workers`, and
   * stays inside the file exactly when that seek target does.
   */
  lemma PlanBoundaries(s: Bytes, workers: nat, chunks: seq<ByteRange>, i: nat)
    requires IsPlan(s, workers, chunks) && i < workers - 1
    ensures chunks[i].end >= chunks[i].start + |s| / workers
    ensures chunks[i].end <= |s| <==> chunks[i].start + |s| / workers <= |s|
    ensures AtBoundary(s, chunks[i].end) && (chunks[i].end == 0 ==> |s| == 0)
    ensures chunks[i].end <= |s| ==> chunks[i].end == |s| || s[chunks[i].end - 1] == NL
  {
    SeekBoundary(s, workers, |s| / workers, chunks, i);
    SeekLandsFacts(s, chunks[i].start + |s| / workers, chunks[i].end);
  }

  /** Where a seek to `target` followed by one `fgets` can land. */
  predicate SeekLands(s: Bytes, target: nat, end: nat) {
    && end >= target
    && (end <= |s| <==> target <= |s|)
    && AtBoundary(s, end)
    && (end == 0 ==> |s| == 0)
  }

  lemma SeekLandsFacts(s: Bytes, target: nat, end: nat)
    requires SeekLands(s, target, end)
    ensures end >= target
    ensures end <= |s| <==> target <= |s|
    ensures AtBoundary(s, end) && (end == 0 ==> |s| == 0)
    ensures end <= |s| ==> end == |s| || s[end - 1] == NL
  {
  }

  lemma SeekBoundary(s: Bytes, workers: nat, chunkSize: nat, chunks: seq<ByteRange>, i: nat)
    requires PlanPrefix(s, workers, chunkSize, chunks) && |chunks| == workers && i < workers - 1
    ensures SeekLands(s, chunks[i].start + chunkSize, chunks[i].end)
    ensures chunks[i].start <= chunks[i].end
  {
  }

  /**
   * With at most two workers (the source uses two) the ranges tile
   * `[0, fileSize)`: each starts where the previous ended and none leaves the file.
   */
  lemma {:induction false} PlanWithinFile(s: Bytes, workers: nat, chunks: seq<ByteRange>)
    requires IsPlan(s, workers, chunks) && workers <= 2
    ensures forall i | 0 <= i < workers :: chunks[i].start <= chunks[i].end <= |s|
  {
    if workers == 2 {
      assert chunks[0].end == PositionAfterLine(s, |s| / 2);
    }
  }

  /**
   * With three workers the second seek can land past the end of a file
   * whose first line is long: the second range then ends past the data and
   * the last one is inverted (its start exceeds its end).
   */
  lemma ThreeWorkersCanSeekPastEnd(chunks: seq<ByteRange>)
    requires IsPlan("aaaaaaaa\nb", 3, chunks)
    ensures chunks[1].end == 12 > |"aaaaaaaa\nb"|
    ensures chunks[2].start > chunks[2].end
  {
    var s: Bytes := "aaaaaaaa\nb";
    assert |s| / 3 == 3;
    assert LineEnd(s, 8) == 9;
    assert LineEnd(s, 3) == 9;
    assert chunks[0].end == 9;
  }

  /** The lines each range's worker consumes, range after range. */
  function LinesOfChunks(s: Bytes, chunks: seq<ByteRange>): seq<Bytes> {
    if chunks == [] then [] else Lines(s, chunks[0].start, chunks[0].end) + LinesOfChunks(s, chunks[1..])
  }

  lemma {:induction false} ChainedLines(s: Bytes, chunks: seq<ByteRange>)
    requires Chained(s, chunks)
    ensures LinesOfChunks(s, chunks) == Lines(s, chunks[0].start, |s|)
  {
    if |chunks| > 1 {
      var rest := chunks[1..];
      forall i, j | 0 <= i < j < |rest| && j == i + 1 ensures rest[j].start == rest[i].end {
        assert rest[j] == chunks[j + 1] && rest[i] == chunks[i + 1];
      }
      assert Chained(s, rest);
      ChainedLines(s, chunks[1..]);
      LinesSplit(s, chunks[0].start, chunks[0].end, |s|);
    }
  }

  /**
   * Over line-aligned ranges every line of the file is consumed by exactly
   * one worker, in file order: none is dropped and none is read twice.
   */
  lemma EveryLineOnce(s: Bytes, chunks: seq<ByteRange>)
    requires LineAligned(s, chunks)
    ensures LinesOfChunks(s, chunks) == Lines(s, 0, |s|)
  {
    ChainedLines(s, chunks);
  }
}
