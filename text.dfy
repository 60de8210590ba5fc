/**
 * Byte strings as the parser sees them.  A PHP string is a sequence of bytes;
 * here each byte is a `char` below 256, so that string literals stay readable.
 * The module also holds the two pieces of PHP runtime behaviour the parser
 * leans on everywhere: reading a line the way `fgets` does, and turning
 * integers into decimal text and back.
 */
module Text {

  type byte = c: char | c as int < 256
  type Bytes = seq<byte>

  datatype Option<+T> = None | Some(value: T)

  const NL: byte := '\n'
  const TAB: byte := '\t'

  /** `s` contains no occurrence of `b`. */
  predicate Free(s: Bytes, b: byte) {
    forall i | 0 <= i < |s| :: s[i] != b
  }

  /** A line as `fgets` returns it in the middle of a file: one newline, at the end. */
  predicate TerminatedLine(l: Bytes) {
    |l| > 0 && l[|l| - 1] == NL && Free(l[..|l| - 1], NL)
  }

  lemma FreeAppend(a: Bytes, b: Bytes, x: byte)
    ensures Free(a + b, x) <==> Free(a, x) && Free(b, x)
  {
    if Free(a, x) && Free(b, x) {
      forall i | 0 <= i < |a + b| ensures (a + b)[i] != x {
        if i >= |a| {
          assert (a + b)[i] == b[i - |a|];
        }
      }
    }
    if Free(a + b, x) {
      forall i | 0 <= i < |a| ensures a[i] != x {
        assert (a + b)[i] == a[i];
      }
      forall i | 0 <= i < |b| ensures b[i] != x {
        assert (a + b)[|a| + i] == b[i];
      }
    }
  }

  /** A newline-free body followed by a newline is one whole line. */
  lemma TerminatedOf(body: Bytes)
    requires Free(body, NL)
    ensures TerminatedLine(body + [NL])
  {
    assert (body + [NL])[..|body|] == body;
  }

  function Flatten(ls: seq<Bytes>): (s: Bytes)
    ensures ls == [] ==> s == []
  {
    if ls == [] then [] else ls[0] + Flatten(ls[1..])
  }

  lemma FlattenSnoc(ls: seq<Bytes>, l: Bytes)
    ensures Flatten(ls + [l]) == Flatten(ls) + l
  {
    FlattenAppend(ls, [l]);
    assert Flatten([l]) == l + Flatten([]);
  }

  lemma {:induction false} FlattenAppend(a: seq<Bytes>, b: seq<Bytes>)
    ensures Flatten(a + b) == Flatten(a) + Flatten(b)
  {
    if a != [] {
      calc {
        Flatten(a + b);
        (a + b)[0] + Flatten((a + b)[1..]);
        { assert (a + b)[0] == a[0] && (a + b)[1..] == a[1..] + b; }
        a[0] + Flatten(a[1..] + b);
        { FlattenAppend(a[1..], b); }
        a[0] + (Flatten(a[1..]) + Flatten(b));
        Flatten(a) + Flatten(b);
      }
    } else {
      assert a + b == b;
    }
  }

  // ---------------------------------------------------------------------------
  // Reading lines (`fgets` without a length cap, `ftell` after it)
  // ---------------------------------------------------------------------------

  /**
   * The position just after the line that `fgets` reads when the file position
   * is `p`: one past the next newline at or after `p`, or the end of the data.
   */
  function LineEnd(s: Bytes, p: nat): (e: nat)
    requires p <= |s|
    ensures p <= e <= |s|
    ensures p < |s| ==> p < e
    ensures forall i | p <= i < e - 1 :: s[i] != NL
    ensures e == |s| || (p < e && s[e - 1] == NL)
    decreases |s| - p
  {
    if p == |s| then p
    else if s[p] == NL then p + 1
    else LineEnd(s, p + 1)
  }

  /**
   * A position at which a line begins, or one at or past the end of the data
   * (where `fgets` reads nothing).  No line straddles such a position.
   */
  predicate AtBoundary(s: Bytes, q: nat) {
    q == 0 || q >= |s| || s[q - 1] == NL
  }

  /**
   * The lines consumed by a loop that starts at position `p` and calls
   * `fgets` while the running position is below `end` and data remains.
   * The line that crosses `end` is consumed whole.
   */
  function Lines(s: Bytes, p: nat, end: int): (ls: seq<Bytes>)
    ensures forall i | 0 <= i < |ls| :: |ls[i]| > 0
    decreases |s| - p
  {
    if p < end && p < |s| then [s[p..LineEnd(s, p)]] + Lines(s, LineEnd(s, p), end)
    else []
  }

  /** A line never runs past a boundary that lies ahead of it. */
  lemma LineEndWithin(s: Bytes, p: nat, q: nat)
    requires p < q && p < |s| && AtBoundary(s, q)
    ensures LineEnd(s, p) <= q
  {
  }

  /** The end of a line is a boundary. */
  lemma LineEndAtBoundary(s: Bytes, p: nat)
    requires p <= |s|
    ensures AtBoundary(s, LineEnd(s, p))
  {
  }

  /**
   * Reading from `p` to `e` is reading from `p` to a boundary `q` and then
   * from `q` to `e`: no line is lost or read twice at `q`.
   */
  lemma {:induction false} LinesSplit(s: Bytes, p: nat, q: nat, e: int)
    requires p <= q && AtBoundary(s, q)
    requires q <= e || e >= |s|
    ensures Lines(s, p, e) == Lines(s, p, q) + Lines(s, q, e)
    decreases |s| - p
  {
    if p == q {
    } else if p >= |s| {
    } else {
      LineEndWithin(s, p, q);
      LinesSplit(s, LineEnd(s, p), q, e);
    }
  }

  /** Line reading is unaffected by data placed before the starting point. */
  lemma {:induction false} LineEndShift(a: Bytes, b: Bytes, p: nat)
    requires p <= |b|
    ensures LineEnd(a + b, |a| + p) == |a| + LineEnd(b, p)
    decreases |b| - p
  {
    if p < |b| {
      assert (a + b)[|a| + p] == b[p];
      if b[p] != NL {
        LineEndShift(a, b, p + 1);
      }
    }
  }

  lemma {:induction false} LinesShift(a: Bytes, b: Bytes, p: nat)
    requires p <= |b|
    ensures Lines(a + b, |a| + p, |a + b|) == Lines(b, p, |b|)
    decreases |b| - p
  {
    if p < |b| {
      LineEndShift(a, b, p);
      var e := LineEnd(b, p);
      assert (a + b)[|a| + p..|a| + e] == b[p..e];
      LinesShift(a, b, e);
    }
  }

  /** Reading back a concatenation of newline-terminated lines yields those lines. */
  lemma {:induction false} LinesOfFlatten(ls: seq<Bytes>)
    requires forall i | 0 <= i < |ls| :: TerminatedLine(ls[i])
    ensures Lines(Flatten(ls), 0, |Flatten(ls)|) == ls
  {
    if ls != [] {
      var a, b := ls[0], Flatten(ls[1..]);
      var s := a + b;
      assert Flatten(ls) == s;
      FirstLine(a, b);
      LineEndAtBoundary(s, 0);
      LinesSplit(s, 0, |a|, |s|);
      LinesShift(a, b, 0);
      LinesOfFlatten(ls[1..]);
    }
  }

  lemma FirstLine(a: Bytes, b: Bytes)
    requires TerminatedLine(a)
    ensures LineEnd(a + b, 0) == |a|
    ensures Lines(a + b, 0, |a|) == [a]
  {
    var s := a + b;
    assert forall i | 0 <= i < |a| - 1 :: s[i] == a[..|a| - 1][i];
    assert s[|a| - 1] == NL;
    assert LineEnd(s, 0) == |a|;
    assert s[0..|a|] == a;
    assert Lines(s, |a|, |a|) == [];
  }

  // ---------------------------------------------------------------------------
  // Decimal text: PHP's integer interpolation and its `(int)` cast
  // ---------------------------------------------------------------------------

  /**
   * PHP's `substr($s, $offset, $length)` for a non-negative offset: an offset
   * past the end gives the empty string; a negative length leaves out that
   * many bytes at the end (nothing remains when they reach back past the offset).
   */
  function Substr(s: Bytes, offset: nat, length: int): (r: Bytes)
    ensures offset <= |s| ==> offset + |r| <= |s| && r == s[offset..offset + |r|]
    ensures length >= 0 && offset <= |s| ==> |r| == if offset + length < |s| then length else |s| - offset
    ensures length < 0 ==> offset + |r| <= |s| + length || r == []
    ensures offset > |s| ==> r == []
    ensures length < 0 && offset <= |s| ==> |r| == if |s| + length < offset then 0 else |s| + length - offset
  {
    if offset > |s| then []
    else if length >= 0 then s[offset..if offset + length < |s| then offset + length else |s|]
    else if |s| + length < offset then []
    else s[offset..|s| + length]
  }

  /** PHP's use of a search result as a number: `false` (not found) counts as 0. */
  function OffsetOf(r: Option<nat>): nat {
    if r.Some? then r.value else 0
  }

  predicate IsDigit(b: byte) { '0' <= b <= '9' }

  predicate AllDigits(s: Bytes) {
    forall i | 0 <= i < |s| :: IsDigit(s[i])
  }

  function DigitByte(d: nat): (b: byte)
    requires d < 10
    ensures IsDigit(b)
  {
    (48 + d) as char
  }

  /** The decimal digits of `n`, most significant first, without leading zeros. */
  function Digits(n: nat): (r: Bytes)
    ensures |r| >= 1 && AllDigits(r)
    decreases n
  {
    if n < 10 then [DigitByte(n)] else Digits(n / 10) + [DigitByte(n % 10)]
  }

  /** The number a string of decimal digits denotes. */
  function DigitsValue(s: Bytes): (v: nat)
    requires AllDigits(s)
  {
    if s == [] then 0 else DigitsValue(s[..|s| - 1]) * 10 + ((s[|s| - 1] as int) - 48)
  }

  lemma {:induction false} DigitsValueOfDigits(n: nat)
    ensures DigitsValue(Digits(n)) == n
    decreases n
  {
    if n >= 10 {
      var d := Digits(n);
      assert d[..|d| - 1] == Digits(n / 10);
      DigitsValueOfDigits(n / 10);
    }
  }

  /** Numbers below 10^k need at most k digits. */
  lemma {:induction false} DigitsLength(n: nat, k: nat)
    requires k >= 1 && n < Pow10(k)
    ensures |Digits(n)| <= k
    decreases n
  {
    if n >= 10 {
      assert Pow10(1) == 10;
      assert Pow10(k) == 10 * Pow10(k - 1);
      assert n / 10 < Pow10(k - 1);
      DigitsLength(n / 10, k - 1);
    }
  }

  function Pow10(k: nat): (p: nat)
    ensures p >= 1
  {
    if k == 0 then 1 else 10 * Pow10(k - 1)
  }

  /** `"$n"`: an integer written in decimal, with a minus sign when negative. */
  function Decimal(n: int): (r: Bytes)
    ensures |r| >= 1 && r[0] != ' ' && r[|r| - 1] != ','
    ensures n >= 0 ==> AllDigits(r)
  {
    if n < 0 then "-" + Digits(-n) else Digits(n)
  }

  /** The number of decimal digits at the front of `s`. */
  function LeadingDigits(s: Bytes): (k: nat)
    ensures k <= |s| && AllDigits(s[..k])
    ensures k < |s| ==> !IsDigit(s[k])
  {
    if s != [] && IsDigit(s[0]) then
      assert s[..1 + LeadingDigits(s[1..])] == [s[0]] + s[1..][..LeadingDigits(s[1..])];
      1 + LeadingDigits(s[1..])
    else 0
  }

  predicate IsSpace(b: byte) {
    b == ' ' || b == '\t' || b == '\n' || b == '\r' || b == '\U{B}' || b == '\U{C}'
  }

  function SkipSpaces(s: Bytes): (t: Bytes)
    ensures |t| <= |s| && t == s[|s| - |t|..]
    ensures t != [] ==> !IsSpace(t[0])
  {
    if s != [] && IsSpace(s[0]) then SkipSpaces(s[1..]) else s
  }

  /**
   * PHP's `(int)` cast of a string: leading white space is skipped, then an
   * optional sign and the longest run of digits are read; a string with no
   * digits there is 0.
   */
  function IntCast(s: Bytes): (r: int)
    ensures r < 0 ==> SkipSpaces(s) != [] && SkipSpaces(s)[0] == '-'
  {
    var t := SkipSpaces(s);
    if t != [] && (t[0] == '-' || t[0] == '+') then
      var v: int := DigitsValue(t[1..][..LeadingDigits(t[1..])]);
      if t[0] == '-' then -v else v
    else DigitsValue(t[..LeadingDigits(t)])
  }

  lemma LeadingDigitsOfDigits(d: Bytes, rest: Bytes)
    requires AllDigits(d)
    requires rest == [] || !IsDigit(rest[0])
    ensures LeadingDigits(d + rest) == |d|
    ensures (d + rest)[..|d|] == d
  {
    if d != [] {
      assert (d + rest)[1..] == d[1..] + rest;
      LeadingDigitsOfDigits(d[1..], rest);
    }
  }

  /** The `(int)` cast reads back what decimal interpolation wrote. */
  lemma IntCastDecimal(n: int, rest: Bytes)
    requires rest == [] || !IsDigit(rest[0])
    ensures IntCast(Decimal(n) + rest) == n
  {
    if n < 0 {
      IntCastNegative(n, rest);
    } else {
      IntCastNatural(n, rest);
    }
  }

  lemma IntCastNegative(n: int, rest: Bytes)
    requires n < 0 && (rest == [] || !IsDigit(rest[0]))
    ensures IntCast(Decimal(n) + rest) == n
  {
    var m: nat := -n;
    var u, d := Decimal(n) + rest, Digits(m);
    NegativeText(n, rest);
    IntCastMinus(u, d, rest);
    DigitsValueOfDigits(m);
  }

  lemma NegativeText(n: int, rest: Bytes)
    requires n < 0
    ensures (Decimal(n) + rest)[0] == '-' && (Decimal(n) + rest)[1..] == Digits(-n) + rest
  {
    assert Decimal(n) == ['-'] + Digits(-n);
  }

  /** The `(int)` cast of a minus sign, digits and then something else. */
  lemma IntCastMinus(u: Bytes, d: Bytes, rest: Bytes)
    requires AllDigits(d) && (rest == [] || !IsDigit(rest[0]))
    requires u != [] && u[0] == '-' && u[1..] == d + rest
    ensures IntCast(u) == 0 - DigitsValue(d)
  {
    IntCastSigned(u);
    DigitsPrefixValue(d, rest);
  }

  /** The digits read at the front of `d + rest` are those of `d`. */
  lemma DigitsPrefixValue(d: Bytes, rest: Bytes)
    requires AllDigits(d)
    requires rest == [] || !IsDigit(rest[0])
    ensures DigitsValue((d + rest)[..LeadingDigits(d + rest)]) == DigitsValue(d)
  {
    LeadingDigitsOfDigits(d, rest);
  }

  lemma IntCastNatural(n: nat, rest: Bytes)
    requires rest == [] || !IsDigit(rest[0])
    ensures IntCast(Decimal(n) + rest) == n
  {
    assert Decimal(n) == Digits(n);
    IntCastUnsigned(Digits(n) + rest);
    DigitsPrefixValue(Digits(n), rest);
    DigitsValueOfDigits(n);
  }

  lemma IntCastUnsigned(t: Bytes)
    requires t != [] && IsDigit(t[0])
    ensures IntCast(t) == DigitsValue(t[..LeadingDigits(t)])
  {
    assert !IsSpace(t[0]) && t[0] != '-' && t[0] != '+';
    assert SkipSpaces(t) == t;
  }

  lemma IntCastSigned(u: Bytes)
    requires u != [] && u[0] == '-'
    ensures IntCast(u) == 0 - DigitsValue(u[1..][..LeadingDigits(u[1..])])
  {
    assert SkipSpaces(u) == u;
  }

  /** A strict reader for an integer written on its own: optional minus, then digits. */
  function ParseInt(s: Bytes): Option<int> {
    if s != [] && AllDigits(s) then Some(DigitsValue(s))
    else if |s| > 1 && s[0] == '-' && AllDigits(s[1..]) then Some(0 - DigitsValue(s[1..]))
    else None
  }

  lemma ParseIntDecimal(n: int)
    ensures ParseInt(Decimal(n)) == Some(n)
  {
    if n < 0 {
      var m: nat := -n;
      assert Decimal(n)[1..] == Digits(m);
      assert !IsDigit(Decimal(n)[0]);
      DigitsValueOfDigits(m);
    } else {
      DigitsValueOfDigits(n);
    }
  }
}
