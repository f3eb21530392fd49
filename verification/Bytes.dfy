/** Bytes, fixed-width big-endian integers and exclusive-or, as `encoding/binary` and Go's `^` give them. */
module Bytes {

  type byte = b: int | 0 <= b < 256
  type bytes = seq<byte>

  const TWO_TO_64 := 0x1_0000_0000_0000_0000

  type uint64 = n: int | 0 <= n < TWO_TO_64

  /** `id++` on a uint64. */
  function Incremented(id: uint64): uint64 { (id + 1) % TWO_TO_64 }

  datatype Option<+T> = None | Some(value: T)

  lemma Assoc<T>(a: seq<T>, b: seq<T>, c: seq<T>)
    ensures (a + b) + c == a + (b + c)
  {
  }

  /** The bytes of an ASCII literal. */
  function Ascii(s: string): (b: bytes)
    ensures |b| == |s| && forall i | 0 <= i < |s| && s[i] < 128 as char :: b[i] == s[i] as int
  {
    seq(|s|, i requires 0 <= i < |s| => s[i] as int % 256)
  }

  /** 256 to the power `width`: the number of values a `width`-byte integer can hold. */
  function Span(width: nat): (n: nat)
    ensures n >= 1
  {
    if width == 0 then 1 else 256 * Span(width - 1)
  }

  lemma SpanValues()
    ensures Span(1) == 256 && Span(2) == 0x1_0000 && Span(4) == 0x1_0000_0000
    ensures Span(8) == 0x1_0000_0000_0000_0000
  {
  }

  /** The low `width` bytes of `n`, most significant first. */
  function Put(n: nat, width: nat): (b: bytes)
    ensures |b| == width
  {
    if width == 0 then [] else Put(n / 256, width - 1) + [n % 256]
  }

  function Get(b: bytes): (n: nat) {
    if b == [] then 0 else Get(b[..|b| - 1]) * 256 + b[|b| - 1]
  }

  lemma {:induction false} GetPut(n: nat, width: nat)
    requires n < Span(width)
    ensures Get(Put(n, width)) == n
  {
    if width > 0 {
      GetPut(n / 256, width - 1);
      assert Put(n, width)[..width - 1] == Put(n / 256, width - 1);
    }
  }

  lemma {:induction false} PutGet(b: bytes)
    ensures Put(Get(b), |b|) == b
    ensures Get(b) < Span(|b|)
  {
    if b != [] {
      var front, last := b[..|b| - 1], b[|b| - 1];
      PutGet(front);
      var h, n := Get(front), Get(b);
      assert n == h * 256 + last;
      assert n / 256 == h && n % 256 == last;
      assert b == front + [last];
    }
  }

  /** `PutUintN`: writes `n` into `a[at..at + width]`, last byte first. */
  method PutBigEndian(a: array<byte>, at: nat, width: nat, n: nat)
    requires at + width <= a.Length
    modifies a
    ensures a[..] == old(a[..at]) + Put(n, width) + old(a[at + width..])
  {
    var k, v := width, n;
    while k > 0
      invariant 0 <= k <= width && v >= 0
      invariant a[..at] == old(a[..at]) && a[at + width..] == old(a[at + width..])
      invariant Put(v, k) + a[at + k..at + width] == Put(n, width)
    {
      ghost var done := a[at + k..at + width];
      a[at + k - 1] := v % 256;
      k, v := k - 1, v / 256;
      assert a[at + k..at + width] == [a[at + k]] + done;
      assert Put(v, k) + ([a[at + k]] + done) == (Put(v, k) + [a[at + k]]) + done;
    }
    assert a[at..at + width] == Put(n, width);
    assert a[..] == a[..at] + a[at..at + width] + a[at + width..];
  }

  /** Bitwise exclusive-or of two naturals. */
  function Xor(a: nat, b: nat): (c: nat)
    decreases a + b
  {
    if a == 0 && b == 0 then 0 else 2 * Xor(a / 2, b / 2) + (a + b) % 2
  }

  lemma XorUnfolds(a: nat, b: nat)
    ensures Xor(a, b) == 2 * Xor(a / 2, b / 2) + (a + b) % 2
  {
  }

  lemma HalfAndParity(half: nat, a: nat, b: nat)
    ensures var c := 2 * half + (a + b) % 2;
            c / 2 == half && (c + b) % 2 == a % 2
  {
  }

  lemma {:induction false} XorCancels(a: nat, b: nat)
    ensures Xor(Xor(a, b), b) == a
    decreases a + b
  {
    if a != 0 || b != 0 {
      XorCancels(a / 2, b / 2);
      XorUnfolds(a, b);
      XorUnfolds(Xor(a, b), b);
      HalfAndParity(Xor(a / 2, b / 2), a, b);
    }
  }

  /** Bit `k` of a number. */
  function Bit(n: nat, k: nat): bool { if k == 0 then n % 2 == 1 else Bit(n / 2, k - 1) }

  /** Each bit of the exclusive-or is set exactly when the operands differ in it. */
  lemma {:induction false} XorIsBitwise(a: nat, b: nat, k: nat)
    ensures Bit(Xor(a, b), k) <==> Bit(a, k) != Bit(b, k)
    decreases k
  {
    XorHalves(a, b);
    if k > 0 {
      XorIsBitwise(a / 2, b / 2, k - 1);
    }
  }

  lemma XorHalves(a: nat, b: nat)
    ensures Xor(a, b) / 2 == Xor(a / 2, b / 2)
    ensures Xor(a, b) % 2 == 1 <==> (a % 2 == 1) != (b % 2 == 1)
  {
    XorUnfolds(a, b);
    ParityOfSum(Xor(a / 2, b / 2), a, b);
  }

  lemma ParityOfSum(half: nat, a: nat, b: nat)
    ensures var c := 2 * half + (a + b) % 2;
            c / 2 == half && (c % 2 == 1 <==> (a % 2 == 1) != (b % 2 == 1))
  {
  }

  /** Exclusive-or stays within any power of two that bounds both operands. */
  lemma {:induction false} XorBound(a: nat, b: nat, k: nat)
    requires a < Pow2(k) && b < Pow2(k)
    ensures Xor(a, b) < Pow2(k)
    decreases k
  {
    if k > 0 {
      XorBound(a / 2, b / 2, k - 1);
    }
  }

  function Pow2(k: nat): (n: nat)
    ensures n >= 1
  {
    if k == 0 then 1 else 2 * Pow2(k - 1)
  }

  lemma Pow2Values()
    ensures Pow2(8) == 256 && Pow2(16) == 65536
  {
  }

  function XorByte(a: byte, b: byte): (c: byte)
    ensures Xor(c, b) == a
  {
    Pow2Values();
    XorBound(a, b, 8);
    XorCancels(a, b);
    Xor(a, b)
  }

  /** Exclusive-or of a 16-bit value, as used for the mapped port. */
  function Xor16(a: nat, b: nat): (c: nat)
    requires a < 65536 && b < 65536
    ensures c < 65536 && Xor(c, b) == a
  {
    Pow2Values();
    XorBound(a, b, 16);
    XorCancels(a, b);
    Xor(a, b)
  }
}
