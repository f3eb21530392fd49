/** Byte-string searching and splitting, and the decimal and hexadecimal forms Go's fmt, strconv and hex print and read. */
module Text {
  import opened Bytes

  // ---- Searching and splitting ----

  /** Position of the first `sep` at or after `from`, or the length when there is none. */
  function FirstFrom(s: bytes, sep: byte, from: nat): (i: nat)
    requires from <= |s|
    ensures from <= i <= |s| && (i < |s| ==> s[i] == sep)
    ensures forall k | from <= k < i :: s[k] != sep
    decreases |s| - from
  {
    if from == |s| || s[from] == sep then from else FirstFrom(s, sep, from + 1)
  }

  lemma FirstIsJoin(a: bytes, sep: byte, b: bytes)
    requires sep !in a
    ensures FirstFrom(a + [sep] + b, sep, 0) == |a|
    ensures (a + [sep] + b)[..|a|] == a && (a + [sep] + b)[|a| + 1..] == b
  {
    var s := a + [sep] + b;
    assert s[|a|] == sep;
    assert forall k | 0 <= k < |a| :: s[k] == a[k];
  }

  /** Position of the last `sep` at or before `from`, or -1. */
  function LastFrom(s: bytes, sep: byte, from: int): (i: int)
    requires -1 <= from < |s|
    ensures -1 <= i <= from && (i >= 0 ==> s[i] == sep)
    ensures forall k | i < k <= from :: s[k] != sep
    decreases from + 1
  {
    if from < 0 || s[from] == sep then from else LastFrom(s, sep, from - 1)
  }

  function CutLast(s: bytes, sep: byte): (parts: seq<bytes>)
    ensures |parts| == 1 || |parts| == 2
  {
    var i := LastFrom(s, sep, |s| - 1);
    if i < 0 then [s] else [s[..i], s[i + 1..]]
  }

  /** `splitLast` of internal/relay/token.go. */
  method SplitLast(s: bytes, sep: byte) returns (parts: seq<bytes>)
    ensures parts == CutLast(s, sep)
  {
    var i := |s| - 1;
    while i >= 0 && s[i] != sep
      invariant -1 <= i < |s|
      invariant LastFrom(s, sep, i) == LastFrom(s, sep, |s| - 1)
    {
      i := i - 1;
    }
    if i < 0 {
      return [s];
    }
    return [s[..i], s[i + 1..]];
  }

  /** `CutLast` cuts exactly at the separator that has none behind it. */
  lemma CutLastIff(s: bytes, sep: byte, a: bytes, b: bytes)
    ensures CutLast(s, sep) == [a, b] <==> s == a + [sep] + b && sep !in b
  {
    var i := LastFrom(s, sep, |s| - 1);
    if CutLast(s, sep) == [a, b] {
      assert s == s[..i] + [s[i]] + s[i + 1..];
    }
    if s == a + [sep] + b && sep !in b {
      assert s[|a|] == sep;
      assert forall k | |a| < k < |s| :: s[k] == b[k - |a| - 1];
      assert i == |a|;
      assert s[..i] == a && s[i + 1..] == b;
    }
  }

  /** At most `n` parts of `s[start..]`, cut at the first separators, none of which is in `s[start..i]`. */
  function Split(s: bytes, sep: byte, start: nat, i: nat, n: int): seq<bytes>
    requires start <= i <= |s|
    decreases |s| - i
  {
    if i == |s| || n <= 1 then [s[start..]]
    else if s[i] == sep then [s[start..i]] + Split(s, sep, i + 1, i + 1, n - 1)
    else Split(s, sep, start, i + 1, n)
  }

  /** `splitN` of internal/relay/token.go. */
  method SplitN(s: bytes, sep: byte, n: nat) returns (parts: seq<bytes>)
    ensures parts == Split(s, sep, 0, 0, n)
  {
    parts := [];
    var start, count, i := 0, 0, 0;
    ghost var answer := Split(s, sep, 0, 0, n);
    while i < |s| && count < n - 1
      invariant 0 <= start <= i <= |s|
      invariant parts + Split(s, sep, start, i, n - count) == answer
    {
      if s[i] == sep {
        Assoc(parts, [s[start..i]], Split(s, sep, i + 1, i + 1, n - count - 1));
        parts := parts + [s[start..i]];
        start := i + 1;
        count := count + 1;
      }
      i := i + 1;
    }
    parts := parts + [s[start..]];
  }

  /** Splitting in two cuts at the first separator, if there is one. */
  lemma {:induction false} SplitInTwo(s: bytes, sep: byte, i: nat)
    requires i <= |s|
    ensures var k := FirstFrom(s, sep, i);
            Split(s, sep, 0, i, 2) == if k == |s| then [s] else [s[..k], s[k + 1..]]
    decreases |s| - i
  {
    if i < |s| && s[i] != sep {
      SplitInTwo(s, sep, i + 1);
    } else if i < |s| {
      assert Split(s, sep, i + 1, i + 1, 1) == [s[i + 1..]];
    }
  }

  // ---- Numbers ----

  function Digits(n: nat): (d: bytes)
    ensures d != [] && AllDigits(d)
  {
    if n < 10 then [48 + n] else Digits(n / 10) + [48 + n % 10]
  }

  predicate AllDigits(d: bytes) { forall i | 0 <= i < |d| :: 48 <= d[i] <= 57 }

  /** `%d` of an integer. */
  function Decimal(n: int): (d: bytes)
    ensures d != []
  {
    if n < 0 then [45] + Digits(-n) else Digits(n)
  }

  function Value(d: bytes): nat
    requires AllDigits(d)
  {
    if d == [] then 0 else Value(d[..|d| - 1]) * 10 + (d[|d| - 1] - 48)
  }

  lemma {:induction false} ValueOfDigits(n: nat)
    ensures Value(Digits(n)) == n
  {
    if n >= 10 {
      ValueOfDigits(n / 10);
      assert Digits(n)[..|Digits(n)| - 1] == Digits(n / 10);
    } else {
      assert Value([48 + n]) == Value([]) * 10 + n;
    }
  }

  lemma DigitsInjective(m: nat, n: nat)
    requires Digits(m) == Digits(n)
    ensures m == n
  {
    ValueOfDigits(m);
    ValueOfDigits(n);
  }

  lemma DecimalSign(n: int)
    ensures n < 0 ==> Decimal(n)[0] == 45 && Decimal(n)[1..] == Digits(-n)
    ensures n >= 0 ==> Decimal(n)[0] >= 48 && Decimal(n) == Digits(n)
  {
  }

  lemma DecimalInjective(m: int, n: int)
    requires Decimal(m) == Decimal(n)
    ensures m == n
  {
    DecimalSign(m);
    DecimalSign(n);
    DigitsInjective(if m < 0 then -m else m, if n < 0 then -n else n);
  }

  /** Number of leading digits. */
  function DigitRun(s: bytes): (k: nat)
    ensures k <= |s| && AllDigits(s[..k])
    ensures k < |s| ==> !(48 <= s[k] <= 57)
  {
    if s == [] || !(48 <= s[0] <= 57) then 0
    else
      var k := 1 + DigitRun(s[1..]);
      assert s[..k] == [s[0]] + s[1..][..k - 1];
      k
  }

  /**
   * Length of the white-space character in front, in UTF-8, or zero: tab to carriage return without newline, space,
   * U+0085, U+00A0, U+1680, U+2000 to U+200A, U+2028, U+2029, U+202F, U+205F and U+3000, as package fmt has them.
   */
  function SpaceInFront(s: bytes): (n: nat)
    ensures n <= |s|
    ensures s != [] && 33 <= s[0] < 128 ==> n == 0
  {
    if s == [] then 0
    else if s[0] == 32 || s[0] == 9 || 11 <= s[0] <= 13 then 1
    else if |s| >= 2 && s[0] == 0xC2 && (s[1] == 0x85 || s[1] == 0xA0) then 2
    else if |s| < 3 then 0
    else if s[..3] == [0xE1, 0x9A, 0x80] || s[..3] == [0xE2, 0x81, 0x9F] || s[..3] == [0xE3, 0x80, 0x80] then 3
    else if s[..2] == [0xE2, 0x80] && (0x80 <= s[2] <= 0x8A || s[2] == 0xA8 || s[2] == 0xA9 || s[2] == 0xAF) then 3
    else 0
  }

  function SkipSpace(s: bytes): bytes
    decreases |s|
  {
    if SpaceInFront(s) == 0 then s else SkipSpace(s[SpaceInFront(s)..])
  }

  /** `var v int64; fmt.Sscanf(s, "%d", &v)`: the value left in `v`, zero when the scan fails. */
  function ScanInt(s: bytes): int {
    var t := SkipSpace(s);
    var signed := t != [] && (t[0] == 43 || t[0] == 45);
    var u := if signed then t[1..] else t;
    var k := DigitRun(u);
    var m: int := Value(u[..k]);
    var v := if signed && t[0] == 45 then -m else m;
    if k > 0 && -0x8000_0000_0000_0000 <= v < 0x8000_0000_0000_0000 then v else 0
  }

  /** The white-space characters of package fmt other than newline, in UTF-8. */
  function Spaces(): seq<bytes> {
    [[0x09], [0x0B], [0x0C], [0x0D], [0x20], [0xC2, 0x85], [0xC2, 0xA0], [0xE1, 0x9A, 0x80],
     [0xE2, 0x80, 0x80], [0xE2, 0x80, 0x81], [0xE2, 0x80, 0x82], [0xE2, 0x80, 0x83], [0xE2, 0x80, 0x84],
     [0xE2, 0x80, 0x85], [0xE2, 0x80, 0x86], [0xE2, 0x80, 0x87], [0xE2, 0x80, 0x88], [0xE2, 0x80, 0x89],
     [0xE2, 0x80, 0x8A], [0xE2, 0x80, 0xA8], [0xE2, 0x80, 0xA9], [0xE2, 0x80, 0xAF], [0xE2, 0x81, 0x9F], [0xE3, 0x80, 0x80]]
  }

  /** Exactly those are skipped in front of a number. */
  lemma SpaceIff(s: bytes, n: nat)
    requires 0 < n <= |s|
    ensures SpaceInFront(s) == n <==> s[..n] in Spaces()
  {
    if n == 1 {
      assert s[..1] == [s[0]];
    } else if n == 2 {
      assert s[..2] == [s[0], s[1]];
    } else if n == 3 {
      assert s[..3] == [s[0], s[1], s[2]] && s[..2] == [s[0], s[1]];
    }
  }

  lemma SkipsSpace(space: bytes, s: bytes)
    requires space in Spaces()
    ensures SkipSpace(space + s) == SkipSpace(s)
  {
    assert 0 < |space| <= 3;
    assert (space + s)[..|space|] == space && (space + s)[|space|..] == s;
    SpaceIff(space + s, |space|);
  }

  /**
   * Scanning reads the longest run of digits behind an optional sign and white space, and ignores what follows; it
   * yields zero when there is no digit, and when the number is not an int64.
   */
  lemma ScanReads(sign: bytes, d: bytes, tail: bytes)
    requires sign == [] || sign == [43] || sign == [45]
    requires AllDigits(d) && (tail == [] || tail[0] < 48 || tail[0] > 57)
    requires d == [] && sign == [] ==> tail == [] || (SpaceInFront(tail) == 0 && tail[0] != 43 && tail[0] != 45)
    ensures ScanInt(sign + d + tail)
            == var v := Signed(sign == [45], Value(d));
               if d != [] && -0x8000_0000_0000_0000 <= v <= 0x7FFF_FFFF_FFFF_FFFF then v else 0
  {
    var s, u := sign + d + tail, d + tail;
    SignSplits(sign, d, tail);
    assert SkipSpace(s) == s;
    RunOfDigits(d, tail);
    assert u[..|d|] == d;
  }

  function Signed(negative: bool, m: nat): int { if negative then 0 - m else m }

  lemma SignSplits(sign: bytes, d: bytes, tail: bytes)
    requires sign == [] || sign == [43] || sign == [45]
    requires AllDigits(d) && (tail == [] || tail[0] < 48 || tail[0] > 57)
    requires d == [] && sign == [] ==> tail == [] || (SpaceInFront(tail) == 0 && tail[0] != 43 && tail[0] != 45)
    ensures var s := sign + d + tail;
            && SpaceInFront(s) == 0
            && (s != [] && (s[0] == 43 || s[0] == 45) <==> sign != [])
            && (sign != [] ==> s[0] == sign[0] && s[1..] == d + tail)
            && (sign == [] ==> s == d + tail)
  {
    var s := sign + d + tail;
    if sign != [] {
      assert s[0] == sign[0];
      assert s[1..] == d + tail;
    } else {
      assert s == d + tail;
      if d != [] {
        assert s[0] == d[0];
      } else {
        assert s == tail;
      }
    }
  }

  lemma {:induction false} RunOfDigits(d: bytes, tail: bytes)
    requires AllDigits(d) && (tail == [] || tail[0] < 48 || tail[0] > 57)
    ensures DigitRun(d + tail) == |d|
  {
    if d != [] {
      RunOfDigits(d[1..], tail);
      assert (d + tail)[1..] == d[1..] + tail;
    }
  }

  lemma {:induction false} DigitRunOfDigits(d: bytes)
    requires AllDigits(d)
    ensures DigitRun(d) == |d|
  {
  }

  /** Scanning a printed int64 gives it back. */
  lemma ScanOfDecimal(n: int)
    requires -0x8000_0000_0000_0000 <= n < 0x8000_0000_0000_0000
    ensures ScanInt(Decimal(n)) == n
  {
    var d := Digits(if n < 0 then -n else n);
    ValueOfDigits(if n < 0 then -n else n);
    DigitRunOfDigits(d);
    assert d[..|d|] == d && Decimal(n)[..0] == [];
    var s := Decimal(n);
    assert SkipSpace(s) == s;
    if n < 0 {
      assert s[1..] == d;
    }
  }

  function HexDigit(n: nat): byte
    requires n < 16
  {
    if n < 10 then 48 + n else 87 + n
  }

  /** `hex.EncodeToString`. */
  function Hex(b: bytes): (h: bytes)
    ensures |h| == 2 * |b|
    ensures forall i | 0 <= i < |h| :: h[i] >= 48
  {
    if b == [] then [] else [HexDigit(b[0] / 16), HexDigit(b[0] % 16)] + Hex(b[1..])
  }

  /** The value of a hexadecimal digit in lower case. */
  function HexValue(c: byte): Option<nat> {
    if '0' as int <= c <= '9' as int then Some(c - '0' as int)
    else if 'a' as int <= c <= 'f' as int then Some(10 + c - 'a' as int)
    else None
  }

  /** The bytes that pairs of lower-case hexadecimal digits stand for. */
  function Unhex(h: bytes): (b: Option<bytes>)
    ensures b.Some? ==> |h| == 2 * |b.value| && forall i | 0 <= i < |h| :: HexValue(h[i]).Some?
  {
    if h == [] then Some([])
    else if |h| == 1 || HexValue(h[0]).None? || HexValue(h[1]).None? then None
    else
      var rest := Unhex(h[2..]);
      var first := HexValue(h[0]).value * 16 + HexValue(h[1]).value;
      if rest.None? then None
      else
        assert forall i | 2 <= i < |h| :: h[i] == h[2..][i - 2];
        Some([first] + rest.value)
  }

  lemma HexDigitValue(n: nat)
    requires n < 16
    ensures HexValue(HexDigit(n)) == Some(n)
  {
  }

  lemma {:induction false} UnhexOfHex(b: bytes)
    ensures Unhex(Hex(b)) == Some(b)
  {
    if b != [] {
      HexDigitValue(b[0] / 16);
      HexDigitValue(b[0] % 16);
      UnhexOfHex(b[1..]);
      assert Hex(b)[2..] == Hex(b[1..]);
      assert b == [b[0]] + b[1..];
    }
  }

  lemma DigitOfValue(c: byte)
    requires HexValue(c).Some?
    ensures HexValue(c).value < 16 && HexDigit(HexValue(c).value) == c
  {
  }

  lemma {:induction false} HexOfUnhex(h: bytes)
    requires Unhex(h).Some?
    ensures Hex(Unhex(h).value) == h
  {
    if h != [] {
      DigitOfValue(h[0]);
      DigitOfValue(h[1]);
      HexOfUnhex(h[2..]);
      var b := Unhex(h).value;
      assert b[1..] == Unhex(h[2..]).value;
      assert h == [h[0], h[1]] + h[2..];
    }
  }

  /** Decoding the hexadecimal form gives the bytes back, and nothing else decodes to them. */
  lemma UnhexIff(h: bytes, b: bytes)
    ensures Unhex(h) == Some(b) <==> h == Hex(b)
  {
    UnhexOfHex(b);
    if Unhex(h).Some? {
      HexOfUnhex(h);
    }
  }
}
