/**
 * The output document (`Parser::toJson`): one line `{`, then per URL a line
 * opening its object (slashes escaped as `\/`), one line per date with its
 * count, and a closing line; a comma follows every date and every URL object
 * but the last.  The text ends with `}` and no newline.
 *
 * `ParseJson` is a line-based reader for exactly this layout; reading back a
 * written document gives the aggregate it was written from.
 */
module Json {
  import opened Text
  import opened Aggregates
  import opened Records
  import opened Merge

  // ---------------------------------------------------------------------------
  // Escaping URLs
  // ---------------------------------------------------------------------------

  /** `str_replace('/', '\/', $url)`. */
  function Escape(s: Bytes): (r: Bytes)
    ensures |r| >= |s|
  {
    if s == [] then []
    else (if s[0] == '/' then ['\\', '/'] else [s[0]]) + Escape(s[1..])
  }

  /** Reads `\/` as `/` and every other byte as itself. */
  function Unescape(s: Bytes): (r: Bytes)
    ensures |r| <= |s|
  {
    if s == [] then []
    else if |s| >= 2 && s[0] == '\\' && s[1] == '/' then ['/'] + Unescape(s[2..])
    else [s[0]] + Unescape(s[1..])
  }

  lemma EscapeFirst(s: Bytes)
    requires s != []
    ensures Escape(s) != [] && Escape(s)[0] != '/'
  {
  }

  /** Escaping loses nothing: a backslash already in the URL stays readable. */
  lemma {:induction false} UnescapeEscape(s: Bytes)
    ensures Unescape(Escape(s)) == s
  {
    if s != [] {
      var rest := Escape(s[1..]);
      UnescapeEscape(s[1..]);
      if s[1..] != [] {
        EscapeFirst(s[1..]);
      }
      if s[0] == '/' {
        assert Escape(s) == ['\\', '/'] + rest;
        assert Escape(s)[2..] == rest;
      } else {
        assert Escape(s) == [s[0]] + rest;
        assert Escape(s)[1..] == rest;
      }
      assert s == [s[0]] + s[1..];
    }
  }

  /** Every slash of an escaped URL is preceded by a backslash. */
  lemma {:induction false} EscapedSlashes(s: Bytes)
    ensures forall i | 0 <= i < |Escape(s)| && Escape(s)[i] == '/' :: i > 0 && Escape(s)[i - 1] == '\\'
  {
    if s != [] {
      var head: Bytes := if s[0] == '/' then ['\\', '/'] else [s[0]];
      var rest := Escape(s[1..]);
      var r := Escape(s);
      assert r == head + rest;
      EscapedSlashes(s[1..]);
      if s[1..] != [] {
        EscapeFirst(s[1..]);
      }
      forall i | 0 <= i < |r| && r[i] == '/' ensures i > 0 && r[i - 1] == '\\' {
        if i >= |head| {
          assert r[i] == rest[i - |head|];
          if i > |head| {
            assert r[i - 1] == rest[i - 1 - |head|];
          }
        }
      }
    }
  }

  /** Escaping adds only backslashes and slashes. */
  lemma {:induction false} EscapeFree(s: Bytes, b: byte)
    requires Free(s, b) && b != '\\'
    ensures Free(Escape(s), b)
  {
    if s != [] {
      var head: Bytes := if s[0] == '/' then ['\\', '/'] else [s[0]];
      assert s[1..] == s[1..] && Free(s[1..], b) by {
        forall i | 0 <= i < |s[1..]| ensures s[1..][i] != b {
          assert s[1..][i] == s[i + 1];
        }
      }
      EscapeFree(s[1..], b);
      FreeAppend(head, Escape(s[1..]), b);
    }
  }

  // ---------------------------------------------------------------------------
  // The document, line by line
  // ---------------------------------------------------------------------------

  /** `array_key_last($dates)`; no date line is written when there is none. */
  function LastDate(ds: seq<DateCount>): Bytes {
    if ds == [] then [] else ds[|ds| - 1].date
  }

  /** `array_key_last($result)`; no URL object is written when there is none. */
  function LastUrl(a: Aggregate): Bytes {
    if a == [] then [] else a[|a| - 1].url
  }

  /** The line opening a URL's object. */
  function OpenLine(url: Bytes): Bytes {
    "    \"" + Escape(url) + "\": {\n"
  }

  /** A date and its count; the comma is left off when the date is the last key. */
  function DateLine(d: DateCount, lastDate: Bytes): Bytes {
    "        \"" + d.date + "\": " + Decimal(d.count) + (if d.date == lastDate then "" else ",") + "\n"
  }

  /** The line closing a URL's object; the comma is left off when the URL is the last key. */
  function CloseLine(url: Bytes, lastUrl: Bytes): Bytes {
    "    }" + (if url == lastUrl then "" else ",") + "\n"
  }

  function DateLines(ds: seq<DateCount>, lastDate: Bytes): (ls: seq<Bytes>)
    ensures |ls| == |ds|
    ensures forall j | 0 <= j < |ls| :: ls[j] == DateLine(ds[j], lastDate)
  {
    seq(|ds|, j requires 0 <= j < |ds| => DateLine(ds[j], lastDate))
  }

  function EntryLines(e: UrlEntry, lastUrl: Bytes): seq<Bytes> {
    [OpenLine(e.url)] + DateLines(e.dates, LastDate(e.dates)) + [CloseLine(e.url, lastUrl)]
  }

  /** The lines `f` gives each entry, entry after entry. */
  function JoinMap(a: Aggregate, f: UrlEntry -> seq<Bytes>): seq<Bytes> {
    if a == [] then [] else f(a[0]) + JoinMap(a[1..], f)
  }

  function EntryLinesFor(lastUrl: Bytes): UrlEntry -> seq<Bytes> {
    e => EntryLines(e, lastUrl)
  }

  function EntriesLines(a: Aggregate, lastUrl: Bytes): seq<Bytes> {
    JoinMap(a, EntryLinesFor(lastUrl))
  }

  /** The whole document: the lines of every URL object between `{` and `}`. */
  function Json(a: Aggregate): (text: Bytes)
    ensures |text| >= 3 && text[..2] == "{\n" && text[|text| - 1] == '}'
  {
    "{\n" + Flatten(EntriesLines(a, LastUrl(a))) + "}"
  }

  lemma {:induction false} JoinMapAppend(a: Aggregate, b: Aggregate, f: UrlEntry -> seq<Bytes>)
    ensures JoinMap(a + b, f) == JoinMap(a, f) + JoinMap(b, f)
  {
    if a != [] {
      assert (a + b)[1..] == a[1..] + b;
      JoinMapAppend(a[1..], b, f);
    } else {
      assert a + b == b;
    }
  }

  lemma JoinMapSingle(e: UrlEntry, f: UrlEntry -> seq<Bytes>)
    ensures JoinMap([e], f) == f(e)
  {
    assert [e][1..] == [];
  }

  /** The text of one URL object: its opening line, its date lines, its closing line. */
  lemma EntryText(e: UrlEntry, lastUrl: Bytes)
    ensures Flatten(EntryLines(e, lastUrl))
         == OpenLine(e.url) + Flatten(DateLines(e.dates, LastDate(e.dates))) + CloseLine(e.url, lastUrl)
  {
    var o, ds, c := OpenLine(e.url), DateLines(e.dates, LastDate(e.dates)), CloseLine(e.url, lastUrl);
    FlattenAppend([o] + ds, [c]);
    FlattenAppend([o], ds);
    assert Flatten([o]) == o + Flatten([]);
    assert Flatten([c]) == c + Flatten([]);
  }

  /** One date line more written. */
  lemma DateStep(dates: seq<DateCount>, lastDate: Bytes, j: nat)
    requires j < |dates|
    ensures Flatten(DateLines(dates[..j + 1], lastDate)) == Flatten(DateLines(dates[..j], lastDate)) + DateLine(dates[j], lastDate)
  {
    assert dates[..j + 1] == dates[..j] + [dates[j]];
    DateLinesSnoc(dates[..j], dates[j], lastDate);
    FlattenSnoc(DateLines(dates[..j], lastDate), DateLine(dates[j], lastDate));
  }

  lemma DateLinesSnoc(ds: seq<DateCount>, d: DateCount, lastDate: Bytes)
    ensures DateLines(ds + [d], lastDate) == DateLines(ds, lastDate) + [DateLine(d, lastDate)]
  {
    var ls, ms := DateLines(ds + [d], lastDate), DateLines(ds, lastDate) + [DateLine(d, lastDate)];
    assert |ls| == |ms|;
    forall j | 0 <= j < |ls| ensures ls[j] == ms[j] {
      if j < |ds| {
        assert (ds + [d])[j] == ds[j];
      }
    }
  }

  /**
   * Appending the `j`-th date line after the first `j - 1` ones gives the
   * first `j` (for `j == 0`, nothing has been appended yet).
   */
  lemma DatesAppended(head: Bytes, dates: seq<DateCount>, lastDate: Bytes, j: nat, line: Bytes)
    requires j <= |dates|
    requires j > 0 ==> line == DateLine(dates[j - 1], lastDate)
    ensures j == 0 ==> head == head + Flatten(DateLines(dates[..0], lastDate))
    ensures j > 0 ==> head + Flatten(DateLines(dates[..j - 1], lastDate)) + line
                      == head + Flatten(DateLines(dates[..j], lastDate))
  {
    if j == 0 {
      assert DateLines(dates[..0], lastDate) == [];
    } else {
      DateStep(dates, lastDate, j - 1);
      assert head + Flatten(DateLines(dates[..j - 1], lastDate)) + line
          == head + (Flatten(DateLines(dates[..j - 1], lastDate)) + line);
    }
  }

  /** One URL object more written. */
  lemma EntryStep(a: Aggregate, lastUrl: Bytes, i: nat)
    requires i < |a|
    ensures Flatten(EntriesLines(a[..i + 1], lastUrl))
         == Flatten(EntriesLines(a[..i], lastUrl)) + Flatten(EntryLines(a[i], lastUrl))
  {
    var f := EntryLinesFor(lastUrl);
    assert a[..i + 1] == a[..i] + [a[i]];
    JoinMapAppend(a[..i], [a[i]], f);
    JoinMapSingle(a[i], f);
    FlattenAppend(EntriesLines(a[..i], lastUrl), EntryLines(a[i], lastUrl));
  }

  /** A URL object written after the objects before it. */
  lemma AppendAssoc(p: Bytes, o: Bytes, d: Bytes, c: Bytes)
    ensures p + o + d + c == p + (o + d + c)
  {
  }

  lemma ConcatAssoc(x: Bytes, y: Bytes, z: Bytes)
    ensures x + y + z == x + (y + z)
  {
  }

  lemma EntryAppended(a: Aggregate, lastUrl: Bytes, i: nat, prefix: Bytes)
    requires i < |a| && prefix == "{\n" + Flatten(EntriesLines(a[..i], lastUrl))
    ensures (prefix + OpenLine(a[i].url)) + Flatten(DateLines(a[i].dates, LastDate(a[i].dates))) + CloseLine(a[i].url, lastUrl)
         == "{\n" + Flatten(EntriesLines(a[..i + 1], lastUrl))
  {
    var o, d, c := OpenLine(a[i].url), Flatten(DateLines(a[i].dates, LastDate(a[i].dates))), CloseLine(a[i].url, lastUrl);
    var done, e := Flatten(EntriesLines(a[..i], lastUrl)), Flatten(EntryLines(a[i], lastUrl));
    EntryText(a[i], lastUrl);
    EntryStep(a, lastUrl, i);
    AppendAssoc(prefix, o, d, c);
    ConcatAssoc("{\n", done, e);
  }

  /** The writer: the URL objects in stored order, each with its dates in stored order. */
  method ToJson(result: Aggregate) returns (out: Bytes)
    ensures out == Json(result)
  {
    out := "{\n";
    var lastUrl := LastUrl(result);
    for i := 0 to |result|
      invariant out == "{\n" + Flatten(EntriesLines(result[..i], lastUrl))
    {
      var url, dates := result[i].url, result[i].dates;
      var lastDate := LastDate(dates);
      ghost var prefix := out;
      out := out + OpenLine(url);
      ghost var head := out;
      DatesAppended(head, dates, lastDate, 0, []);
      for j := 0 to |dates|
        invariant out == head + Flatten(DateLines(dates[..j], lastDate))
      {
        var line := DateLine(dates[j], lastDate);
        DatesAppended(head, dates, lastDate, j + 1, line);
        out := out + line;
      }
      assert dates[..|dates|] == dates;
      EntryAppended(result, lastUrl, i, prefix);
      out := out + CloseLine(url, lastUrl);
    }
    assert result[..|result|] == result;
    out := out + "}";
  }

  /** An empty aggregate is written as `{`, a newline and `}`. */
  lemma EmptyJson()
    ensures Json([]) == "{\n}"
  {
  }

  // ---------------------------------------------------------------------------
  // Where the commas go
  // ---------------------------------------------------------------------------

  lemma {:induction false} HasUrlIndex(a: Aggregate, u: Bytes)
    ensures HasUrl(a, u) <==> exists k | 0 <= k < |a| :: a[k].url == u
  {
    if a != [] {
      var rest := a[1..];
      HasUrlIndex(rest, u);
      if HasUrl(rest, u) {
        var k :| 0 <= k < |rest| && rest[k].url == u;
        assert a[k + 1] == rest[k];
      }
      if exists k | 0 <= k < |a| :: a[k].url == u {
        var k :| 0 <= k < |a| && a[k].url == u;
        if k > 0 {
          assert rest[k - 1] == a[k];
        }
      }
    }
  }

  /** In a well-formed aggregate no two entries share a URL. */
  lemma {:induction false} ValidUrlsDistinct(a: Aggregate, i: nat, j: nat)
    requires Valid(a) && i < j < |a|
    ensures a[i].url != a[j].url
  {
    if i == 0 {
      HasUrlIndex(a[1..], a[0].url);
      assert a[1..][j - 1] == a[j];
    } else {
      assert a[1..][i - 1] == a[i] && a[1..][j - 1] == a[j];
      ValidUrlsDistinct(a[1..], i - 1, j - 1);
    }
  }

  /**
   * For a well-formed aggregate the `=== array_key_last(...)` tests put a
   * comma after every URL object but the last and after every date line but
   * the last of its object.
   */
  lemma JsonCommas(a: Aggregate, i: nat, j: nat)
    requires Valid(a) && i < |a| && j < |a[i].dates|
    ensures CloseLine(a[i].url, LastUrl(a)) == if i == |a| - 1 then "    }\n" else "    },\n"
    ensures DateLine(a[i].dates[j], LastDate(a[i].dates))
         == "        \"" + a[i].dates[j].date + "\": " + Decimal(a[i].dates[j].count)
            + (if j == |a[i].dates| - 1 then "" else ",") + "\n"
  {
    if i < |a| - 1 {
      ValidUrlsDistinct(a, i, |a| - 1);
    }
    var ds := a[i].dates;
    ValidEntryDates(a, i);
    DistinctDatesPairs(ds);
  }

  lemma {:induction false} ValidEntryDates(a: Aggregate, i: nat)
    requires Valid(a) && i < |a|
    ensures DistinctDates(a[i].dates)
  {
    if i > 0 {
      assert a[1..][i - 1] == a[i];
      ValidEntryDates(a[1..], i - 1);
    }
  }

  // ---------------------------------------------------------------------------
  // Reading a document back
  // ---------------------------------------------------------------------------

  function ParseOpen(l: Bytes): Option<Bytes> {
    if |l| >= 10 && l[..5] == "    \"" && l[|l| - 5..] == "\": {\n" then Some(Unescape(l[5..|l| - 5])) else None
  }

  predicate IsClose(l: Bytes) {
    l == "    }\n" || l == "    },\n"
  }

  function StripComma(s: Bytes): Bytes {
    if s != [] && s[|s| - 1] == ',' then s[..|s| - 1] else s
  }

  /** `date": count`, split at its last space (a count holds none). */
  function SplitDate(core: Bytes): Option<DateCount> {
    match LastIndexBelow(core, ' ', |core|)
    case None => None
    case Some(sp) =>
      if sp >= 2 && core[sp - 2..sp] == "\":" then
        match ParseInt(core[sp + 1..])
        case None => None
        case Some(c) => Some(DateCount(core[..sp - 2], c))
      else None
  }

  function ParseDateLine(l: Bytes): Option<DateCount> {
    if |l| >= 10 && l[..9] == "        \"" && l[|l| - 1] == NL then SplitDate(StripComma(l[9..|l| - 1])) else None
  }

  /** The dates of one URL object and the lines after its closing line. */
  datatype Block = Block(dates: seq<DateCount>, rest: seq<Bytes>)

  function ParseDates(ls: seq<Bytes>): (r: Option<Block>)
    ensures r.Some? ==> |r.value.rest| < |ls|
  {
    if ls == [] then None
    else if IsClose(ls[0]) then Some(Block([], ls[1..]))
    else match ParseDateLine(ls[0])
      case None => None
      case Some(d) =>
        match ParseDates(ls[1..])
        case None => None
        case Some(b) => Some(Block([d] + b.dates, b.rest))
  }

  function ParseEntries(ls: seq<Bytes>): Option<Aggregate>
    decreases |ls|
  {
    if ls == [] then Some([])
    else match ParseOpen(ls[0])
      case None => None
      case Some(url) =>
        match ParseDates(ls[1..])
        case None => None
        case Some(b) =>
          match ParseEntries(b.rest)
          case None => None
          case Some(more) => Some([UrlEntry(url, b.dates)] + more)
  }

  /** Reads a document: `{` on its own line, URL objects, and a final `}`. */
  function ParseJson(text: Bytes): Option<Aggregate> {
    if text != [] && text[|text| - 1] == '}' then
      var ls := Lines(text[..|text| - 1], 0, |text| - 1);
      if ls != [] && ls[0] == "{\n" then ParseEntries(ls[1..]) else None
    else None
  }

  /** Keys the line-based layout can carry: no newline in a URL or a date. */
  predicate JsonSafe(a: Aggregate) {
    forall i | 0 <= i < |a| :: Free(a[i].url, NL) && forall j | 0 <= j < |a[i].dates| :: Free(a[i].dates[j].date, NL)
  }

  lemma ParseOpenLine(url: Bytes)
    ensures ParseOpen(OpenLine(url)) == Some(url)
  {
    var l := OpenLine(url);
    var e := Escape(url);
    assert l == "    \"" + e + "\": {\n";
    assert l[..5] == "    \"";
    assert l[|l| - 5..] == "\": {\n";
    assert l[5..|l| - 5] == e;
    UnescapeEscape(url);
  }

  lemma DecimalFree(n: int, b: byte)
    requires !IsDigit(b) && b != '-'
    ensures Free(Decimal(n), b)
  {
    if n < 0 {
      var m: nat := -n;
      assert Decimal(n) == "-" + Digits(m);
      forall i | 0 <= i < |Decimal(n)| ensures Decimal(n)[i] != b {
        if i > 0 {
          assert Decimal(n)[i] == Digits(m)[i - 1];
        }
      }
    }
  }

  lemma SplitDateOf(date: Bytes, c: int)
    ensures SplitDate(date + "\": " + Decimal(c)) == Some(DateCount(date, c))
  {
    DecimalFree(c, ' ');
    SplitDateAt(date, Decimal(c));
    ParseIntDecimal(c);
  }

  /** `date": n` splits at the space before `n` when `n` holds no space. */
  lemma SplitDateAt(date: Bytes, n: Bytes)
    requires Free(n, ' ')
    ensures SplitDate(date + "\": " + n)
         == match ParseInt(n) case None => None case Some(c) => Some(DateCount(date, c))
  {
    var core := date + "\": " + n;
    var sp := |date| + 2;
    assert core[sp] == ' ';
    assert core[sp + 1..] == n;
    LastIndexAt(core, ' ', sp, |core|);
    assert core[sp - 2..sp] == "\":";
    assert core[..sp - 2] == date;
  }

  lemma ParseDateLineOf(d: DateCount, lastDate: Bytes)
    ensures ParseDateLine(DateLine(d, lastDate)) == Some(d)
  {
    var comma: Bytes := if d.date == lastDate then "" else ",";
    assert DateLine(d, lastDate) == "        \"" + d.date + "\": " + Decimal(d.count) + comma + "\n";
    ParseDateLineAt(d.date, Decimal(d.count), comma);
    SplitDateOf(d.date, d.count);
  }

  /** A date line reads as its `date": n` part, an optional trailing comma left off. */
  lemma ParseDateLineAt(date: Bytes, n: Bytes, comma: Bytes)
    requires n != [] && n[|n| - 1] != ',' && (comma == [] || comma == ",")
    ensures ParseDateLine("        \"" + date + "\": " + n + comma + "\n") == SplitDate(date + "\": " + n)
  {
    var core := date + "\": " + n;
    var l := "        \"" + date + "\": " + n + comma + "\n";
    assert l == "        \"" + (core + comma) + "\n";
    assert l[..9] == "        \"";
    assert l[9..|l| - 1] == core + comma;
    assert core[|core| - 1] == n[|n| - 1];
    assert StripComma(core + comma) == core;
  }

  /** A date line is no closing line and reads back as its date and count. */
  lemma DateLineRead(d: DateCount, lastDate: Bytes)
    ensures !IsClose(DateLine(d, lastDate))
    ensures ParseDateLine(DateLine(d, lastDate)) == Some(d)
  {
    assert DateLine(d, lastDate)[4] == ' ';
    ParseDateLineOf(d, lastDate);
  }

  lemma ParseDatesCons(l: Bytes, d: DateCount, tail: seq<Bytes>, b: Block)
    requires !IsClose(l) && ParseDateLine(l) == Some(d) && ParseDates(tail) == Some(b)
    ensures ParseDates([l] + tail) == Some(Block([d] + b.dates, b.rest))
  {
    assert ([l] + tail)[0] == l && ([l] + tail)[1..] == tail;
  }

  lemma DateLinesCons(ds: seq<DateCount>, lastDate: Bytes, more: seq<Bytes>)
    requires ds != []
    ensures DateLines(ds, lastDate) + more == [DateLine(ds[0], lastDate)] + (DateLines(ds[1..], lastDate) + more)
  {
    assert DateLines(ds, lastDate) == [DateLine(ds[0], lastDate)] + DateLines(ds[1..], lastDate);
  }

  lemma {:induction false} ParseDatesOf(ds: seq<DateCount>, lastDate: Bytes, close: Bytes, rest: seq<Bytes>)
    requires IsClose(close)
    ensures ParseDates(DateLines(ds, lastDate) + ([close] + rest)) == Some(Block(ds, rest))
  {
    if ds == [] {
      ParseDatesOfNone(lastDate, close, rest);
    } else {
      ParseDatesOf(ds[1..], lastDate, close, rest);
      ParseDatesOfMore(ds, lastDate, close, rest);
    }
  }

  lemma ParseDatesOfNone(lastDate: Bytes, close: Bytes, rest: seq<Bytes>)
    requires IsClose(close)
    ensures ParseDates(DateLines([], lastDate) + ([close] + rest)) == Some(Block([], rest))
  {
    assert DateLines([], lastDate) + ([close] + rest) == [close] + rest;
    assert ([close] + rest)[0] == close && ([close] + rest)[1..] == rest;
  }

  lemma ParseDatesOfMore(ds: seq<DateCount>, lastDate: Bytes, close: Bytes, rest: seq<Bytes>)
    requires ds != []
    requires ParseDates(DateLines(ds[1..], lastDate) + ([close] + rest)) == Some(Block(ds[1..], rest))
    ensures ParseDates(DateLines(ds, lastDate) + ([close] + rest)) == Some(Block(ds, rest))
  {
    DateLinesCons(ds, lastDate, [close] + rest);
    DateLineRead(ds[0], lastDate);
    ParseDatesCons(DateLine(ds[0], lastDate), ds[0], DateLines(ds[1..], lastDate) + ([close] + rest), Block(ds[1..], rest));
    assert [ds[0]] + ds[1..] == ds;
  }

  lemma EntryLinesCons(e: UrlEntry, lastUrl: Bytes, more: seq<Bytes>)
    ensures EntryLines(e, lastUrl) + more
         == [OpenLine(e.url)] + (DateLines(e.dates, LastDate(e.dates)) + ([CloseLine(e.url, lastUrl)] + more))
  {
  }

  lemma ParseEntriesCons(url: Bytes, tail: seq<Bytes>)
    requires ParseDates(tail).Some? && ParseEntries(ParseDates(tail).value.rest).Some?
    ensures ParseEntries([OpenLine(url)] + tail)
         == Some([UrlEntry(url, ParseDates(tail).value.dates)] + ParseEntries(ParseDates(tail).value.rest).value)
  {
    ParseOpenLine(url);
    assert ([OpenLine(url)] + tail)[0] == OpenLine(url) && ([OpenLine(url)] + tail)[1..] == tail;
  }

  lemma EntriesLinesCons(a: Aggregate, lastUrl: Bytes)
    requires a != []
    ensures EntriesLines(a, lastUrl) == EntryLines(a[0], lastUrl) + EntriesLines(a[1..], lastUrl)
  {
  }

  lemma {:induction false} ParseEntriesOf(a: Aggregate, lastUrl: Bytes)
    ensures ParseEntries(EntriesLines(a, lastUrl)) == Some(a)
  {
    if a != [] {
      var e := a[0];
      var more := EntriesLines(a[1..], lastUrl);
      var close := CloseLine(e.url, lastUrl);
      var tail := DateLines(e.dates, LastDate(e.dates)) + ([close] + more);
      EntriesLinesCons(a, lastUrl);
      EntryLinesCons(e, lastUrl, more);
      ParseDatesOf(e.dates, LastDate(e.dates), close, more);
      ParseEntriesOf(a[1..], lastUrl);
      ParseEntriesCons(e.url, tail);
      assert [e] + a[1..] == a;
    }
  }

  lemma OpenLineTerminated(url: Bytes)
    requires Free(url, NL)
    ensures TerminatedLine(OpenLine(url))
  {
    EscapeFree(url, NL);
    FreeAppend("    \"", Escape(url), NL);
    FreeAppend("    \"" + Escape(url), "\": {", NL);
    TerminatedOf("    \"" + Escape(url) + "\": {");
    assert OpenLine(url) == "    \"" + Escape(url) + "\": {" + [NL];
  }

  lemma CloseLineTerminated(url: Bytes, lastUrl: Bytes)
    ensures TerminatedLine(CloseLine(url, lastUrl))
  {
  }

  lemma DateLineTerminated(d: DateCount, lastDate: Bytes)
    requires Free(d.date, NL)
    ensures TerminatedLine(DateLine(d, lastDate))
  {
    var comma: Bytes := if d.date == lastDate then "" else ",";
    DecimalFree(d.count, NL);
    FreeAppend("        \"", d.date, NL);
    FreeAppend("        \"" + d.date, "\": ", NL);
    FreeAppend("        \"" + d.date + "\": ", Decimal(d.count), NL);
    FreeAppend("        \"" + d.date + "\": " + Decimal(d.count), comma, NL);
    TerminatedOf("        \"" + d.date + "\": " + Decimal(d.count) + comma);
    assert DateLine(d, lastDate) == "        \"" + d.date + "\": " + Decimal(d.count) + comma + [NL];
  }

  /** Every line of `ls` is a whole line. */
  predicate LinesTerminated(ls: seq<Bytes>) {
    forall k | 0 <= k < |ls| :: TerminatedLine(ls[k])
  }

  lemma TerminatedAppend(xs: seq<Bytes>, ys: seq<Bytes>)
    requires LinesTerminated(xs) && LinesTerminated(ys)
    ensures LinesTerminated(xs + ys)
  {
    forall k | 0 <= k < |xs + ys| ensures TerminatedLine((xs + ys)[k]) {
      if k >= |xs| {
        assert (xs + ys)[k] == ys[k - |xs|];
      } else {
        assert (xs + ys)[k] == xs[k];
      }
    }
  }

  lemma DateLinesTerminated(ds: seq<DateCount>, lastDate: Bytes)
    requires forall j | 0 <= j < |ds| :: Free(ds[j].date, NL)
    ensures LinesTerminated(DateLines(ds, lastDate))
  {
    forall k | 0 <= k < |ds| ensures TerminatedLine(DateLines(ds, lastDate)[k]) {
      DateLineTerminated(ds[k], lastDate);
    }
  }

  lemma EntryLinesTerminated(e: UrlEntry, lastUrl: Bytes)
    requires Free(e.url, NL) && forall j | 0 <= j < |e.dates| :: Free(e.dates[j].date, NL)
    ensures LinesTerminated(EntryLines(e, lastUrl))
  {
    var o, ds, c := OpenLine(e.url), DateLines(e.dates, LastDate(e.dates)), CloseLine(e.url, lastUrl);
    OpenLineTerminated(e.url);
    CloseLineTerminated(e.url, lastUrl);
    DateLinesTerminated(e.dates, LastDate(e.dates));
    assert LinesTerminated([o]);
    assert LinesTerminated([c]);
    TerminatedAppend([o], ds);
    TerminatedAppend([o] + ds, [c]);
  }

  lemma {:induction false} EntriesLinesTerminated(a: Aggregate, lastUrl: Bytes)
    requires JsonSafe(a)
    ensures LinesTerminated(EntriesLines(a, lastUrl))
  {
    if a != [] {
      assert JsonSafe(a[1..]) by {
        forall i | 0 <= i < |a[1..]| ensures a[1..][i] == a[i + 1] {}
      }
      EntriesLinesTerminated(a[1..], lastUrl);
      EntryLinesTerminated(a[0], lastUrl);
      EntriesLinesCons(a, lastUrl);
      TerminatedAppend(EntryLines(a[0], lastUrl), EntriesLines(a[1..], lastUrl));
    }
  }

  /**
   * Reading back a written document gives the aggregate it was written
   * from: URLs, dates, counts and both orders, whatever bytes other than a
   * newline the keys hold.
   */
  lemma ParseJsonOfJson(a: Aggregate)
    requires JsonSafe(a)
    ensures ParseJson(Json(a)) == Some(a)
  {
    JsonReadsAs(a);
    ParseEntriesOf(a, LastUrl(a));
  }

  /** A written document reads as its URL objects' lines. */
  lemma JsonReadsAs(a: Aggregate)
    requires JsonSafe(a)
    ensures ParseJson(Json(a)) == ParseEntries(EntriesLines(a, LastUrl(a)))
  {
    JsonLines(a);
    ParseJsonOfLines(Json(a), EntriesLines(a, LastUrl(a)));
  }

  /** The lines of a written document, its final `}` left aside. */
  lemma JsonLines(a: Aggregate)
    requires JsonSafe(a)
    ensures Lines(Json(a)[..|Json(a)| - 1], 0, |Json(a)| - 1) == ["{\n"] + EntriesLines(a, LastUrl(a))
  {
    var body := EntriesLines(a, LastUrl(a));
    var ls := ["{\n"] + body;
    FlattenCons("{\n", body);
    DropLast(Flatten(ls), '}');
    EntriesLinesTerminated(a, LastUrl(a));
    assert LinesTerminated(["{\n"]);
    TerminatedAppend(["{\n"], body);
    LinesOfFlatten(ls);
  }

  lemma FlattenCons(l: Bytes, body: seq<Bytes>)
    ensures Flatten([l] + body) == l + Flatten(body)
  {
    assert ([l] + body)[1..] == body;
  }

  lemma DropLast(t: Bytes, b: byte)
    ensures (t + [b])[..|t|] == t
  {
  }

  lemma ParseJsonOfLines(text: Bytes, body: seq<Bytes>)
    requires text != [] && text[|text| - 1] == '}'
    requires Lines(text[..|text| - 1], 0, |text| - 1) == ["{\n"] + body
    ensures ParseJson(text) == ParseEntries(body)
  {
    assert (["{\n"] + body)[1..] == body;
  }
}
