/**
 * Chunk scanning (`Parser::parseCsvChunk`): a worker reads whole lines from
 * `start` while its position is below `end`, cuts a (url, date) key out of
 * each line and counts how often each key occurs.
 */
module Scanner {
  import opened Text
  import opened Aggregates

  /** Bytes dropped from the front of every URL: the length of "https://stitcher.io". */
  const HostLength: nat := 19
  /** Bytes of a `YYYY-MM-DD` date. */
  const DateLength: nat := 10

  /** `strpos($s, $b)`: the first index holding `b`. */
  function FirstIndex(s: Bytes, b: byte): (r: Option<nat>)
    ensures r.Some? ==> r.value < |s| && s[r.value] == b && Free(s[..r.value], b)
    ensures r.None? ==> Free(s, b)
  {
    if s == [] then None
    else if s[0] == b then Some(0)
    else match FirstIndex(s[1..], b)
      case None => None
      case Some(i) =>
        assert s[..i + 1] == [s[0]] + s[1..][..i];
        Some(i + 1)
  }

  /**
   * The key a line is counted under: the URL is `substr($line, 19, $comma - 19)`
   * and the date `substr($line, $comma + 1, 10)`, where `$comma` is the first
   * comma (a missing comma, `false`, acts as 0).  Every line is counted.
   */
  function LineKey(line: Bytes): (h: Hit)
    ensures h.count == 1 && |h.date| <= DateLength
  {
    var comma := OffsetOf(FirstIndex(line, ','));
    Hit(Substr(line, HostLength, comma - HostLength), Substr(line, comma + 1, DateLength), 1)
  }

  /**
   * A line of the expected shape (19 bytes of scheme and host, the path, a
   * comma, the date and whatever follows) is counted under its path and the
   * (at most) 10 bytes after the comma.
   */
  lemma LineKeyFields(host: Bytes, url: Bytes, date: Bytes, rest: Bytes)
    requires |host| == HostLength && Free(host, ',') && Free(url, ',')
    requires |date| == DateLength || (|date| < DateLength && rest == [])
    ensures LineKey(host + url + [','] + date + rest) == Hit(url, date, 1)
  {
    var line := host + url + [','] + date + rest;
    var comma := |host| + |url|;
    assert line[..comma] == host + url;
    assert line[comma] == ',';
    FirstIndexAt(line, ',', comma);
    assert line[HostLength..comma] == url;
    assert line[comma + 1..comma + 1 + |date|] == date;
  }
  /**
   * A line with fewer than 10 bytes after its comma keeps its own newline in
   * the date of its key.
   */
  lemma ShortDateKeepsNewline(host: Bytes, url: Bytes, date: Bytes)
    requires |host| == HostLength && Free(host, ',') && Free(url, ',') && |date| < DateLength
    ensures LineKey(host + url + [','] + date + [NL]) == Hit(url, date + [NL], 1)
  {
    LineKeyFields(host, url, date + [NL], []);
    assert host + url + [','] + (date + [NL]) + [] == host + url + [','] + date + [NL];
  }


  lemma {:induction false} FirstIndexAt(s: Bytes, b: byte, i: nat)
    requires i < |s| && s[i] == b && Free(s[..i], b)
    ensures FirstIndex(s, b) == Some(i)
  {
    if i > 0 {
      assert s[..i][0] == s[0];
      assert s[1..][..i - 1] == s[..i][1..];
      FirstIndexAt(s[1..], b, i - 1);
    }
  }

  /**
   * The URL of a key never reaches the last byte of its line, so a line whose
   * only newline is its last byte yields a newline-free URL.
   */
  lemma LineKeyUrlInsideLine(line: Bytes)
    requires |line| > 0 && Free(line[..|line| - 1], NL)
    ensures Free(LineKey(line).url, NL)
  {
    var comma := OffsetOf(FirstIndex(line, ','));
    var url := LineKey(line).url;
    if url != [] {
      assert HostLength + |url| <= |line| - 1;
      assert url == line[..|line| - 1][HostLength..HostLength + |url|];
    }
  }

  /** The keys of the scanned lines, in file order. */
  function Hits(ls: seq<Bytes>): (hs: seq<Hit>)
    ensures |hs| == |ls|
    ensures forall i | 0 <= i < |hs| :: hs[i] == LineKey(ls[i])
  {
    seq(|ls|, i requires 0 <= i < |ls| => LineKey(ls[i]))
  }

  lemma HitsAppend(a: seq<Bytes>, b: seq<Bytes>)
    ensures Hits(a + b) == Hits(a) + Hits(b)
  {
  }

  /** How many of the lines yield the key `(u, d)`. */
  function LinesWithKey(ls: seq<Bytes>, u: Bytes, d: Bytes): (n: nat)
    ensures n <= |ls|
  {
    if ls == [] then 0
    else LinesWithKey(ls[..|ls| - 1], u, d) + (if LineKey(ls[|ls| - 1]) == Hit(u, d, 1) then 1 else 0)
  }

  lemma {:induction false} HitSumOfLines(ls: seq<Bytes>, u: Bytes, d: Bytes)
    ensures HitSum(Hits(ls), u, d) == LinesWithKey(ls, u, d)
  {
    if ls != [] {
      var init := ls[..|ls| - 1];
      HitSumOfLines(init, u, d);
      assert Hits(ls)[..|ls| - 1] == Hits(init);
    }
  }

  /** What a worker computes for the byte range `[start, end)`. */
  ghost function Scan(s: Bytes, start: nat, end: nat): Aggregate {
    Tally(Hits(Lines(s, start, end)))
  }

  /** Scanning one more line adds one to that line's key. */
  lemma TallyStep(consumed: seq<Bytes>, line: Bytes)
    ensures Tally(Hits(consumed + [line])) == Bump(Tally(Hits(consumed)), LineKey(line))
  {
    assert Hits(consumed + [line])[..|consumed|] == Hits(consumed);
  }

  /** Reading the line at `pos` moves it from the lines still ahead to the lines consumed. */
  lemma ConsumeLine(s: Bytes, start: nat, pos: nat, end: nat, consumed: seq<Bytes>, line: Bytes)
    requires pos < end && pos < |s| && line == s[pos..LineEnd(s, pos)]
    requires consumed + Lines(s, pos, end) == Lines(s, start, end)
    ensures pos + |line| == LineEnd(s, pos)
    ensures (consumed + [line]) + Lines(s, pos + |line|, end) == Lines(s, start, end)
  {
    var rest := Lines(s, LineEnd(s, pos), end);
    assert Lines(s, pos, end) == [line] + rest;
    assert (consumed + [line]) + rest == consumed + ([line] + rest);
  }

  method ParseCsvChunk(s: Bytes, start: nat, end: nat) returns (result: Aggregate)
    ensures result == Scan(s, start, end)
    ensures Valid(result) && Positive(result)
    ensures Total(result) == |Lines(s, start, end)|
    ensures end <= start ==> result == []
  {
    result := [];
    var pos: nat := start;
    ghost var consumed: seq<Bytes> := [];
    while pos < end && pos < |s|
      invariant consumed + Lines(s, pos, end) == Lines(s, start, end)
      invariant result == Tally(Hits(consumed))
      decreases |s| - pos
    {
      var line := s[pos..LineEnd(s, pos)];
      ConsumeLine(s, start, pos, end, consumed, line);
      pos := pos + |line|;
      TallyStep(consumed, line);
      var key := LineKey(line);
      result := Bump(result, key);
      consumed := consumed + [line];
    }
    assert Lines(s, pos, end) == [];
    assert consumed == Lines(s, start, end);
    TallyOfSingles(Hits(Lines(s, start, end)));
  }

  /**
   * Every count a scan stores is the number of lines of the range carrying
   * that key; a key no line carries has count 0.
   */
  lemma ScanCount(s: Bytes, start: nat, end: nat, u: Bytes, d: Bytes)
    ensures Count(Scan(s, start, end), u, d) == LinesWithKey(Lines(s, start, end), u, d)
    ensures Has(Scan(s, start, end), u, d) <==> LinesWithKey(Lines(s, start, end), u, d) > 0
  {
    var hs := Hits(Lines(s, start, end));
    ApplyCount([], hs, u, d);
    HitSumOfLines(Lines(s, start, end), u, d);
    TallyOfSingles(hs);
    PositiveHas(Scan(s, start, end), u, d);
  }

  /** Where a scan that starts at `p` stops: the first line start at or after `end`, or the end of the data. */
  function ScanStop(s: Bytes, p: nat, end: nat): (q: nat)
    requires p <= |s|
    ensures p <= q <= |s|
    decreases |s| - p
  {
    if p < end && p < |s| then ScanStop(s, LineEnd(s, p), end) else p
  }

  /**
   * A scan consumes the bytes from its start up to where it stops, line by
   * line; it stops at the end of the data or at the first line start at or
   * after `end`, so the line that straddles `end` is consumed whole.
   */
  lemma {:induction false} ScanConsumesWholeLines(s: Bytes, p: nat, end: nat)
    requires p <= |s| && AtBoundary(s, p)
    ensures Flatten(Lines(s, p, end)) == s[p..ScanStop(s, p, end)]
    ensures AtBoundary(s, ScanStop(s, p, end))
    ensures ScanStop(s, p, end) >= end || ScanStop(s, p, end) == |s|
    ensures p < end && p < |s| ==> ScanStop(s, p, end) > p
    ensures forall q | p <= q < ScanStop(s, p, end) && q >= end :: !AtBoundary(s, q)
    decreases |s| - p
  {
    if p < end && p < |s| {
      var e := LineEnd(s, p);
      LineEndAtBoundary(s, p);
      ScanConsumesWholeLines(s, e, end);
      var q := ScanStop(s, e, end);
      forall k | p <= k < e && k >= end ensures !AtBoundary(s, k) {
        assert s[k - 1] != NL;
      }
      calc {
        Flatten(Lines(s, p, end));
        s[p..e] + Flatten(Lines(s, e, end));
        s[p..e] + s[e..q];
        s[p..q];
      }
    }
  }

  /** An empty (or inverted) range yields an empty aggregate. */
  lemma EmptyRange(s: Bytes, start: nat, end: nat)
    requires end <= start
    ensures Scan(s, start, end) == []
  {
  }
}
