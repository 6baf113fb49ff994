/** 32-bit words as integers kept below 2^32, as a program over unbounded integers keeps them: sums
    reduced modulo 2^32, shifts as multiplication and division, bitwise operations bit by bit. */
module BitWords {
  import opened Powers

  const TWO32 := 0x1_0000_0000

  type Word = x: int | 0 <= x < TWO32

  // ---------- powers of two ----------

  lemma Pow2Of32()
    ensures Pow2(32) == TWO32
  {
    assert Pow2(8) == 256;
    Pow2Sum(8, 8);
    Pow2Sum(16, 16);
  }

  lemma Complement(k: nat)
    requires k <= 32
    ensures Pow2(k) * Pow2(32 - k) == TWO32
  {
    Pow2Sum(k, 32 - k);
    Pow2Of32();
  }

  // ---------- bitwise operations ----------

  type BitOp = (bool, bool) -> bool

  function BitAnd(p: bool, q: bool): bool { p && q }
  function BitOr(p: bool, q: bool): bool { p || q }
  function BitXor(p: bool, q: bool): bool { p != q }

  // `op` on every bit, of an `op` that is false of two zeros.
  function Bitwise(op: BitOp, x: nat, y: nat): nat
    decreases x + y
  {
    if x == 0 && y == 0 then 0
    else (if op(x % 2 == 1, y % 2 == 1) then 1 else 0) + 2 * Bitwise(op, x / 2, y / 2)
  }

  lemma {:induction false} BitwiseFits(op: BitOp, x: nat, y: nat, k: nat)
    requires x < Pow2(k) && y < Pow2(k)
    ensures Bitwise(op, x, y) < Pow2(k)
    decreases k
  {
    if x != 0 || y != 0 {
      BitwiseFits(op, x / 2, y / 2, k - 1);
    }
  }

  lemma {:induction false} OrZero(x: nat)
    ensures Bitwise(BitOr, x, 0) == x
  {
    if x != 0 {
      OrZero(x / 2);
    }
  }

  // `|` of numbers that share no bit is their sum.
  lemma {:induction false} OrOfParts(h: nat, l: nat, k: nat)
    requires l < Pow2(k)
    ensures Bitwise(BitOr, h * Pow2(k), l) == h * Pow2(k) + l
    decreases k
  {
    if k == 0 {
      OrZero(h);
    } else {
      var x := h * Pow2(k - 1);
      assert h * Pow2(k) == 2 * x;
      OrOfParts(h, l / 2, k - 1);
      OrStep(2 * x, l, x);
    }
  }

  lemma OrStep(x2: nat, l: nat, x: nat)
    requires x2 == 2 * x && Bitwise(BitOr, x, l / 2) == x + l / 2
    ensures Bitwise(BitOr, x2, l) == x2 + l
  {
  }

  function Op(op: BitOp, x: Word, y: Word): Word {
    Pow2Of32();
    BitwiseFits(op, x, y, 32);
    Bitwise(op, x, y)
  }

  function And(x: Word, y: Word): Word { Op(BitAnd, x, y) }
  function Or(x: Word, y: Word): Word { Op(BitOr, x, y) }
  function Xor(x: Word, y: Word): Word { Op(BitXor, x, y) }

  // `~x`, masked.
  function Not(x: Word): Word {
    TWO32 - 1 - x
  }

  // ---------- sums ----------

  function Plus(a: Word, b: Word): Word {
    (a + b) % TWO32
  }

  function Minus(a: Word, b: Word): Word {
    (a - b) % TWO32
  }

  lemma MinusUndoesPlus(a: Word, b: Word)
    ensures Minus(Plus(a, b), b) == a
  {
    if a + b < TWO32 {
      assert Plus(a, b) == a + b;
    } else {
      assert Plus(a, b) == a + b - TWO32;
    }
  }

  lemma PlusUndoesMinus(a: Word, b: Word)
    ensures Plus(Minus(a, b), b) == a
  {
    if a >= b {
      assert Minus(a, b) == a - b;
    } else {
      assert Minus(a, b) == a - b + TWO32;
    }
  }

  // ---------- rotations ----------

  // `(x << k) & MASK32` and `x >> k`.
  function ShiftLeft(x: Word, k: nat): Word {
    (x * Pow2(k)) % TWO32
  }

  function ShiftRight(x: Word, k: nat): (w: Word)
  {
    ShiftRightFits(x, Pow2(k));
    x / Pow2(k)
  }

  lemma ShiftRightFits(x: Word, p: nat)
    requires p > 0
    ensures 0 <= x / p < TWO32
  {
    var h := x / p;
    if h > x {
      MulLe(x + 1, h, p);
      MulLe(1, p, x + 1);
    }
  }

  lemma MulLe(a: nat, b: nat, q: nat)
    requires a <= b
    ensures a * q <= b * q
  {
  }

  lemma Distribute(a: int, b: int, q: int)
    ensures (a - b) * q == a * q - b * q
  {
  }

  lemma DivUnique(h: nat, l: nat, q: nat, d: nat, m: nat)
    requires l < q && m < q && h * q + l == d * q + m
    ensures h == d && l == m
  {
    if d > h {
      MulLe(1, d - h, q);
      Distribute(d, h, q);
    } else if h > d {
      MulLe(1, h - d, q);
      Distribute(h, d, q);
    }
  }

  lemma Quotient(h: nat, l: nat, q: nat)
    requires l < q
    ensures (h * q + l) / q == h && (h * q + l) % q == l
  {
    var n := h * q + l;
    DivUnique(h, l, q, n / q, n % q);
  }

  lemma Rearrange(h: nat, l: nat, p: nat, q: nat)
    ensures (h * q + l) * p == h * (p * q) + l * p
  {
    assert (h * q + l) * p == (h * q) * p + l * p;
    assert (h * q) * p == h * (q * p);
  }

  // A word cut into its high bits `h` and its low bits `l`, the two shifts of a rotation.
  lemma Parts(x: Word, p: nat, q: nat) returns (h: nat, l: nat)
    requires p > 0 && q > 0 && p * q == TWO32
    ensures x == h * q + l && l < q && h < p && x / q == h && (x * p) % TWO32 == l * p
  {
    h, l := x / q, x % q;
    if h >= p {
      MulLe(p, h, q);
    }
    MulLe(l, q - 1, p);
    Distribute(q, 1, p);
    Rearrange(h, l, p, q);
    Quotient(h, l * p, TWO32);
  }

  // A rotation by `k` bits, in either direction: the parts exchanged.
  function Exchanged(x: Word, k: nat): Word
    requires k <= 32
  {
    Or(ShiftLeft(x, k), ShiftRight(x, 32 - k))
  }

  lemma ExchangedIs(x: Word, k: nat) returns (h: nat, l: nat)
    requires k <= 32
    ensures x == h * Pow2(32 - k) + l && l < Pow2(32 - k) && h < Pow2(k)
    ensures Exchanged(x, k) == l * Pow2(k) + h
  {
    Complement(k);
    h, l := Parts(x, Pow2(k), Pow2(32 - k));
    OrOfParts(l, h, k);
  }

  lemma ExchangedTwice(x: Word, k: nat)
    requires k <= 32
    ensures Exchanged(Exchanged(x, k), 32 - k) == x
  {
    var h, l := ExchangedIs(x, k);
    var h', l' := ExchangedIs(Exchanged(x, k), 32 - k);
    DivUnique(l, h, Pow2(k), h', l');
  }

  function Rotl(x: Word, r: nat): Word {
    Exchanged(x, r % 32)
  }

  // `(x >> r) | (x << (32 - r))`.
  function Rotr(x: Word, r: nat): Word {
    Or(ShiftRight(x, r % 32), ShiftLeft(x, 32 - r % 32))
  }

  lemma {:induction false} OrCommutes(x: nat, y: nat)
    ensures Bitwise(BitOr, x, y) == Bitwise(BitOr, y, x)
    decreases x + y
  {
    if x != 0 || y != 0 {
      OrCommutes(x / 2, y / 2);
    }
  }

  lemma RotationsCancel(x: Word, r: nat)
    ensures Rotr(Rotl(x, r), r) == x && Rotl(Rotr(x, r), r) == x
  {
    var k := r % 32;
    RotrIs(Rotl(x, r), r);
    RotrIs(x, r);
    ExchangedTwice(x, k);
    ExchangedTwice(x, 32 - k);
  }

  lemma RotrIs(x: Word, r: nat)
    ensures Rotr(x, r) == Exchanged(x, 32 - r % 32)
  {
    OrCommutes(ShiftRight(x, r % 32), ShiftLeft(x, 32 - r % 32));
  }

  // ---------- bit by bit ----------

  // Bit `i` of a number, bit 0 the lowest.
  predicate Bit(x: nat, i: nat)
    decreases i
  {
    if i == 0 then x % 2 == 1 else Bit(x / 2, i - 1)
  }

  // The lowest bit and the others.
  lemma BitwiseParts(op: BitOp, x: nat, y: nat)
    requires !op(false, false)
    ensures Bitwise(op, x, y) / 2 == Bitwise(op, x / 2, y / 2)
    ensures Bitwise(op, x, y) % 2 == 1 <==> op(x % 2 == 1, y % 2 == 1)
  {
    var r := Bitwise(op, x / 2, y / 2);
    if x != 0 || y != 0 {
      HalfOfOdd(r);
    }
  }

  lemma HalfOfOdd(r: nat)
    ensures (2 * r) / 2 == r && (2 * r + 1) / 2 == r && (2 * r) % 2 == 0 && (2 * r + 1) % 2 == 1
  {
  }

  lemma {:induction false} BitwiseBits(op: BitOp, x: nat, y: nat, i: nat)
    requires !op(false, false)
    ensures Bit(Bitwise(op, x, y), i) <==> op(Bit(x, i), Bit(y, i))
    decreases i
  {
    BitwiseParts(op, x, y);
    if i > 0 {
      BitwiseBits(op, x / 2, y / 2, i - 1);
    }
  }

  lemma AndBits(x: Word, y: Word, i: nat)
    ensures Bit(And(x, y), i) <==> Bit(x, i) && Bit(y, i)
  {
    BitwiseBits(BitAnd, x, y, i);
  }

  lemma OrBits(x: Word, y: Word, i: nat)
    ensures Bit(Or(x, y), i) <==> Bit(x, i) || Bit(y, i)
  {
    BitwiseBits(BitOr, x, y, i);
  }

  lemma XorBits(x: Word, y: Word, i: nat)
    ensures Bit(Xor(x, y), i) <==> Bit(x, i) != Bit(y, i)
  {
    BitwiseBits(BitXor, x, y, i);
  }

  lemma {:induction false} ComplementBits(x: nat, i: nat, k: nat)
    requires i < k && x < Pow2(k)
    ensures Bit(Pow2(k) - 1 - x, i) <==> !Bit(x, i)
    decreases i
  {
    var c := Pow2(k) - 1 - x;
    assert Pow2(k) == 2 * Pow2(k - 1);
    if i > 0 {
      ComplementBits(x / 2, i - 1, k - 1);
      assert c / 2 == Pow2(k - 1) - 1 - x / 2;
    }
  }

  lemma NotBits(x: Word, i: nat)
    requires i < 32
    ensures Bit(Not(x), i) <==> !Bit(x, i)
  {
    Pow2Of32();
    ComplementBits(x, i, 32);
  }

  lemma {:induction false} XorTwice(x: nat, y: nat)
    ensures Bitwise(BitXor, x, Bitwise(BitXor, x, y)) == y
    decreases x + y
  {
    if x != 0 || y != 0 {
      XorTwice(x / 2, y / 2);
      BitwiseParts(BitXor, x, y);
      BitwiseParts(BitXor, x, Bitwise(BitXor, x, y));
    }
  }

  lemma XorUndone(x: Word, y: Word)
    ensures Xor(x, Xor(x, y)) == y
  {
    XorTwice(x, y);
  }

  // The rotations as sums of what is shifted each way.
  lemma RotlIsSum(x: Word, r: nat)
    ensures Rotl(x, r) == (x * Pow2(r % 32)) % 0x1_0000_0000 + x / Pow2(32 - r % 32)
  {
    var k := r % 32;
    Complement(k);
    var h, l := Parts(x, Pow2(k), Pow2(32 - k));
    OrOfParts(l, h, k);
  }

  lemma RotrIsSum(x: Word, r: nat)
    ensures Rotr(x, r) == x / Pow2(r % 32) + (x * Pow2(32 - r % 32)) % 0x1_0000_0000
  {
    RotrIs(x, r);
    var k := 32 - r % 32;
    Complement(k);
    var h, l := Parts(x, Pow2(k), Pow2(32 - k));
    OrOfParts(l, h, k);
  }
}
