/** Padding to whole 64-byte blocks: a marker byte, zeros, and the length in bits. */
module Padding {

  import opened BitWords
  import opened Powers

  type Byte = x: int | 0 <= x < 256

  const BLOCK := 64

  // `n` in `k` bytes, the most significant first, and back.
  function Be(n: nat, k: nat): (b: seq<Byte>)
    ensures |b| == k
  {
    if k == 0 then [] else Be(n / 256, k - 1) + [n % 256]
  }

  function Nat(b: seq<Byte>): nat {
    if b == [] then 0 else 256 * Nat(b[..|b| - 1]) + b[|b| - 1]
  }

  function Pow256(k: nat): nat {
    if k == 0 then 1 else 256 * Pow256(k - 1)
  }

  lemma {:induction false} NatOfBe(n: nat, k: nat)
    requires n < Pow256(k)
    ensures Nat(Be(n, k)) == n
  {
    if k > 0 {
      NatOfBe(n / 256, k - 1);
      assert Be(n, k)[..k - 1] == Be(n / 256, k - 1);
    }
  }

  lemma {:induction false} BeOfNat(b: seq<Byte>)
    ensures Nat(b) < Pow256(|b|) && Be(Nat(b), |b|) == b
  {
    if b != [] {
      var init, last := b[..|b| - 1], b[|b| - 1];
      BeOfNat(init);
      assert Nat(b) == 256 * Nat(init) + last;
      assert Nat(b) / 256 == Nat(init) && Nat(b) % 256 == last;
      assert b == init + [last];
    }
  }

  function Zeros(n: nat): (z: seq<Byte>)
    ensures |z| == n
  {
    if n == 0 then [] else [0] + Zeros(n - 1)
  }

  lemma {:induction false} ZerosSnoc(n: nat)
    ensures Zeros(n + 1) == Zeros(n) + [0]
  {
    if n > 0 {
      ZerosSnoc(n - 1);
    }
  }

  function ZeroCount(len: nat): (z: nat)
    ensures z < BLOCK
  {
    (BLOCK - (len + 9) % BLOCK) % BLOCK
  }

  // The fewest zeros that fill the last block.
  lemma ZeroCountIsLeast(len: nat, z: nat)
    ensures (len + 9 + ZeroCount(len)) % BLOCK == 0
    ensures (len + 9 + z) % BLOCK == 0 ==> z >= ZeroCount(len)
  {
    var r, z0 := (len + 9) % BLOCK, ZeroCount(len);
    assert z0 == if r == 0 then 0 else BLOCK - r;
    if z < z0 {
      assert 0 < r + z < BLOCK;
    }
  }

  function Pad(m: seq<Byte>): (p: seq<Byte>)
    ensures |p| == |m| + 9 + ZeroCount(|m|)
  {
    m + ([0x80] + Zeros(ZeroCount(|m|)) + Be(8 * |m|, 8))
  }

  // The length of a message in bits fits the eight bytes it is packed into.
  predicate LengthFits(m: seq<Byte>) {
    |m| < 0x2000_0000_0000_0000
  }

  // The length field at the end of a padded message.
  function LengthField(p: seq<Byte>): nat
    requires |p| >= 8
  {
    Nat(p[|p| - 8..])
  }

  function Unpad(p: seq<Byte>): seq<Byte>
    requires |p| >= 8 && LengthField(p) / 8 <= |p|
  {
    p[..LengthField(p) / 8]
  }

  lemma Pow256Of8()
    ensures Pow256(8) == 0x1_0000_0000_0000_0000
  {
    assert Pow256(2) == 0x1_0000;
    assert Pow256(4) == 256 * (256 * Pow256(2));
    assert Pow256(6) == 256 * (256 * Pow256(4));
    assert Pow256(8) == 256 * (256 * Pow256(6));
  }

  lemma PadLength(m: seq<Byte>)
    requires LengthFits(m)
    ensures LengthField(Pad(m)) == 8 * |m|
  {
    var p := Pad(m);
    assert p[|p| - 8..] == Be(8 * |m|, 8);
    Pow256Of8();
    NatOfBe(8 * |m|, 8);
  }

  // The padded length is the least multiple of 64 that holds the message, the marker byte and the
  // length.
  lemma PadIsLeast(m: seq<Byte>, k: nat)
    ensures |Pad(m)| % BLOCK == 0
    ensures k % BLOCK == 0 && k >= |m| + 9 ==> k >= |Pad(m)|
  {
    ZeroCountIsLeast(|m|, if k >= |m| + 9 then k - |m| - 9 else 0);
  }

  // The padding byte by byte: the message, 0x80, zeros, and the length in bits, most significant first.
  lemma PadBytes(m: seq<Byte>)
    ensures var p := Pad(m);
      && |p| >= |m| + 9 && p[..|m|] == m && p[|m|] == 0x80
      && (forall i :: |m| < i < |p| - 8 ==> p[i] == 0)
      && (forall i :: 0 <= i < 8 ==> p[|p| - 1 - i] == (8 * |m|) / Pow2(8 * i) % 256)
  {
    ZerosAreZero(ZeroCount(|m|));
    BeBytes(8 * |m|, 8);
  }

  lemma {:induction false} ZerosAreZero(n: nat)
    ensures forall i :: 0 <= i < n ==> Zeros(n)[i] == 0
  {
    if n > 0 {
      ZerosAreZero(n - 1);
    }
  }

  lemma {:induction false} BeBytes(n: nat, k: nat)
    ensures forall i :: 0 <= i < k ==> Be(n, k)[k - 1 - i] == n / Pow2(8 * i) % 256
  {
    if k > 0 {
      BeBytes(n / 256, k - 1);
      forall i | 0 <= i < k ensures Be(n, k)[k - 1 - i] == n / Pow2(8 * i) % 256 {
        if i > 0 {
          ByteHigher(n, i);
          assert Be(n, k)[k - 1 - i] == Be(n / 256, k - 1)[k - 2 - (i - 1)];
        }
      }
    }
  }

  lemma ByteHigher(n: nat, i: nat)
    requires i > 0
    ensures n / Pow2(8 * i) == (n / 256) / Pow2(8 * (i - 1))
  {
    var q := Pow2(8 * (i - 1));
    Pow2Sum(8, 8 * (i - 1));
    assert Pow2(8) == 256;
    DivTwice(n, q);
  }

  lemma DivTwice(n: nat, q: nat)
    requires q > 0
    ensures n / (256 * q) == (n / 256) / q
  {
    var (a, r) := (n / 256, n % 256);
    var (b, s) := (a / q, a % q);
    assert n == 256 * (b * q + s) + r == b * (256 * q) + (256 * s + r);
    Quotient(b, 256 * s + r, 256 * q);
  }

  // The padding can be taken off again.
  lemma PadUndone(m: seq<Byte>)
    requires LengthFits(m)
    ensures LengthField(Pad(m)) / 8 <= |Pad(m)| && Unpad(Pad(m)) == m
  {
    PadLength(m);
    assert Pad(m)[..|m|] == m;
  }

  // None where packing the length fails.
  method PadMessage(message: seq<Byte>) returns (r: seq<Byte>, ok: bool)
    ensures ok <==> LengthFits(message)
    ensures ok ==> r == Pad(message)
  {
    var bitLength := |message| * 8;
    r := message + [0x80];
    ghost var zeros := 0;
    ZeroCountIsLeast(|message|, 0);
    while (|r| + 8) % BLOCK != 0
      invariant r == message + ([0x80] + Zeros(zeros))
      invariant zeros <= ZeroCount(|message|)
      decreases ZeroCount(|message|) - zeros
    {
      assert zeros != ZeroCount(|message|);
      ZerosSnoc(zeros);
      assert r + [0] == message + ([0x80] + Zeros(zeros + 1));
      r := r + [0];
      zeros := zeros + 1;
    }
    ZeroCountIsLeast(|message|, zeros);
    ok := bitLength < 0x1_0000_0000_0000_0000;
    if ok {
      assert r + Be(bitLength, 8) == Pad(message);
      r := r + Be(bitLength, 8);
    }
  }
}
