/** MAYA-HASH/0.2: the message schedule, the compression loop and the fold over padded blocks. */
module MayaHash {
  import opened Hashing
  import opened BitWords
  import opened BlockFold
  import opened Padding
  import opened Recurrence

  const INITIAL_STATE: seq<Word> := [
    0x6A09E667, 0xBB67AE85, 0x3C6EF372, 0xA54FF53A, 0x510E527F, 0x9B05688C, 0x1F83D9AB, 0x5BE0CD19,
    0xCBBB9D5D, 0x629A292A, 0x9159015A, 0x152FECD8, 0x67332667, 0x8EB44A87, 0xDB0C2E0D, 0x47B5481D
  ]

  const ROUND_CONSTANTS: seq<Word> := [
    0x6A09E667, 0xBB67AE85, 0x3C6EF372, 0xA54FF53A, 0x510E527F, 0x9B05688C, 0x1F83D9AB, 0x5BE0CD19,
    0xCBBB9D5D, 0x629A292A, 0x9159015A, 0x152FECD8, 0x67332667, 0x8EB44A87, 0xDB0C2E0D, 0x47B5481D,
    0xAE5F9156, 0xCF6C85D3, 0x2F73477D, 0x6D1826CA, 0x8B43D457, 0xE360B596, 0x1C456002, 0x6F196331,
    0xD94EBEB1, 0x0CC4A611, 0x261DC1F2, 0x5815A7BE, 0x70B7ED67, 0xA1513C69, 0x44F93635, 0x720DCDFD
  ]

  function F0(x: Word, y: Word, z: Word): Word {
    Xor(And(x, y), And(Not(x), z))
  }

  function F1(x: Word, y: Word, z: Word): Word {
    Xor(And(x, z), And(y, Not(z)))
  }

  function F2(x: Word, y: Word, z: Word): Word {
    Xor(Xor(x, y), And(y, z))
  }

  // Bit by bit: a choice by `x`, a choice by `z`, and `x` against what of `y` is not in `z`.
  lemma F0Bits(x: Word, y: Word, z: Word, i: nat)
    requires i < 32
    ensures Bit(F0(x, y, z), i) <==> if Bit(x, i) then Bit(y, i) else Bit(z, i)
  {
    NotBits(x, i);
    AndBits(x, y, i);
    AndBits(Not(x), z, i);
    XorBits(And(x, y), And(Not(x), z), i);
  }

  lemma F1Bits(x: Word, y: Word, z: Word, i: nat)
    requires i < 32
    ensures Bit(F1(x, y, z), i) <==> if Bit(z, i) then Bit(x, i) else Bit(y, i)
  {
    NotBits(z, i);
    AndBits(x, z, i);
    AndBits(y, Not(z), i);
    XorBits(And(x, z), And(y, Not(z)), i);
  }

  lemma F2Bits(x: Word, y: Word, z: Word, i: nat)
    requires i < 32
    ensures Bit(F2(x, y, z), i) <==> (Bit(x, i) != (Bit(y, i) && !Bit(z, i)))
  {
    XorBits(x, y, i);
    AndBits(y, z, i);
    XorBits(Xor(x, y), And(y, z), i);
  }

  // ---------- words and bytes ----------

  function WordOf(b: seq<Byte>): Word
    requires |b| == 4
  {
    BeOfNat(b);
    Pow256Of4();
    Nat(b)
  }

  function BytesOf(w: Word): (b: seq<Byte>)
    ensures |b| == 4
  {
    Be(w, 4)
  }

  lemma Pow256Of4()
    ensures Pow256(4) == TWO32
  {
    assert Pow256(2) == 256 * 256;
  }

  lemma WordOfBytes(w: Word)
    ensures WordOf(BytesOf(w)) == w
  {
    Pow256Of4();
    NatOfBe(w, 4);
  }

  lemma BytesOfWord(b: seq<Byte>)
    requires |b| == 4
    ensures BytesOf(WordOf(b)) == b
  {
    BeOfNat(b);
  }

  // Four bytes from place `i` on, the most significant first, as a number.
  function BigEndian(b: seq<Byte>, i: nat): int
    requires i + 4 <= |b|
  {
    0x100_0000 * (b[i] as int) + 0x1_0000 * (b[i + 1] as int) + 0x100 * (b[i + 2] as int) + b[i + 3] as int
  }

  lemma WordIsBigEndian(b: seq<Byte>)
    requires |b| == 4
    ensures WordOf(b) == BigEndian(b, 0)
  {
    assert b[..3][..2] == b[..2] && b[..2][..1] == b[..1] && b[..1][..0] == [];
    assert Nat(b[..1]) == b[0];
    assert Nat(b[..2]) == 256 * Nat(b[..1]) + b[1];
    assert Nat(b[..3]) == 256 * Nat(b[..2]) + b[2];
  }

  // ---------- the message schedule ----------

  // Word `i` of the schedule.
  function Mix(a: Word, b: Word, x: Word, y: Word, z: Word, i: nat): Word {
    Rotl(Plus(Plus(a, b), F0(x, y, z)), i % 32)
  }

  function Unmix(w: Word, b: Word, x: Word, y: Word, z: Word, i: nat): Word {
    Minus(Minus(Rotr(w, i % 32), F0(x, y, z)), b)
  }

  lemma UnmixUndoesMix(a: Word, b: Word, x: Word, y: Word, z: Word, i: nat)
    ensures Unmix(Mix(a, b, x, y, z, i), b, x, y, z, i) == a
  {
    RotationsCancel(Plus(Plus(a, b), F0(x, y, z)), i % 32);
    MinusUndoesPlus(Plus(a, b), F0(x, y, z));
    MinusUndoesPlus(a, b);
  }

  lemma MixUndoesUnmix(w: Word, b: Word, x: Word, y: Word, z: Word, i: nat)
    ensures Mix(Unmix(w, b, x, y, z, i), b, x, y, z, i) == w
  {
    RotationsCancel(w, i % 32);
    PlusUndoesMinus(Minus(Rotr(w, i % 32), F0(x, y, z)), b);
    PlusUndoesMinus(Rotr(w, i % 32), F0(x, y, z));
  }

  function Unpack(block: seq<Byte>): (ws: seq<Word>)
    requires |block| % 4 == 0
    ensures |ws| == |block| / 4
    decreases |block|
  {
    if block == [] then [] else [WordOf(block[..4])] + Unpack(block[4..])
  }

  function Pack(ws: seq<Word>): (b: seq<Byte>)
    ensures |b| == 4 * |ws|
  {
    if ws == [] then [] else BytesOf(ws[0]) + Pack(ws[1..])
  }

  lemma {:induction false} UnpackUndoesPack(ws: seq<Word>)
    ensures Unpack(Pack(ws)) == ws
  {
    if ws != [] {
      WordOfBytes(ws[0]);
      assert Pack(ws)[..4] == BytesOf(ws[0]) && Pack(ws)[4..] == Pack(ws[1..]);
      UnpackUndoesPack(ws[1..]);
    }
  }

  lemma {:induction false} PackUndoesUnpack(block: seq<Byte>)
    requires |block| % 4 == 0
    ensures Pack(Unpack(block)) == block
  {
    if block != [] {
      BytesOfWord(block[..4]);
      PackUndoesUnpack(block[4..]);
      assert block == block[..4] + block[4..];
      assert Unpack(block)[1..] == Unpack(block[4..]);
    }
  }

  lemma {:induction false} UnpackedWord(block: seq<Byte>, i: nat)
    requires |block| % 4 == 0 && i < |block| / 4
    ensures Unpack(block)[i] == BigEndian(block, 4 * i)
    decreases |block|
  {
    if i == 0 {
      WordIsBigEndian(block[..4]);
    } else {
      UnpackedWord(block[4..], i - 1);
      BigEndianOfRest(block, 4 * i);
    }
  }

  lemma BigEndianOfRest(block: seq<Byte>, m: nat)
    requires 4 <= m && m + 4 <= |block|
    ensures BigEndian(block[4..], m - 4) == BigEndian(block, m)
  {
  }

  lemma PackedWords(ws: seq<Word>)
    ensures forall i :: 0 <= i < |ws| ==> ws[i] == BigEndian(Pack(ws), 4 * i)
  {
    UnpackUndoesPack(ws);
    forall i | 0 <= i < |ws| ensures ws[i] == BigEndian(Pack(ws), 4 * i) {
      UnpackedWord(Pack(ws), i);
    }
  }

  function Schedule(block: seq<Byte>): (ws: seq<Word>)
    requires |block| == 64
    ensures |ws| == 32
  {
    Extend(Mix, Unpack(block))
  }

  lemma MixingUndone()
    ensures Undoes(Mix, Unmix)
  {
    forall a, b, x, y, z, i ensures Unmix(Mix(a, b, x, y, z, i), b, x, y, z, i) == a {
      UnmixUndoesMix(a, b, x, y, z, i);
    }
    forall w, b, x, y, z, i ensures Mix(Unmix(w, b, x, y, z, i), b, x, y, z, i) == w {
      MixUndoesUnmix(w, b, x, y, z, i);
    }
  }

  // The last sixteen words determine the block, and every sixteen words are the last of one: the
  // schedule is a bijection between blocks and their words 16 to 31.
  lemma ScheduleBijective(block: seq<Byte>, last: seq<Word>)
    requires |block| == 64 && |last| == 16
    ensures Pack(Rewind(Unmix, Schedule(block)[16..])[..16]) == block
    ensures Schedule(Pack(Rewind(Unmix, last)[..16]))[16..] == last
  {
    MixingUndone();
    ExtendBijective(Mix, Unmix, Unpack(block), last);
    PackUndoesUnpack(block);
    UnpackUndoesPack(Rewind(Unmix, last)[..16]);
  }

  // The schedule word by word: the block's words, and then each from five before it.
  ghost predicate Scheduled(block: seq<Byte>, ws: seq<Word>)
    requires |block| == 64
  {
    && |ws| == 32
    && (forall i :: 0 <= i < 16 ==> ws[i] == BigEndian(block, 4 * i))
    && (forall i :: 16 <= i < 32 ==> FollowsFive(ws, i))
  }

  ghost predicate FollowsFive(ws: seq<Word>, i: nat)
    requires 16 <= i < |ws|
  {
    ws[i] == Rotl((ws[i - 16] + ws[i - 7] + F0(ws[i - 15], ws[i - 2], ws[i - 1])) % 0x1_0000_0000, i)
  }

  lemma MixIs(a: Word, b: Word, x: Word, y: Word, z: Word, i: nat)
    ensures Mix(a, b, x, y, z, i) == Rotl((a + b + F0(x, y, z)) % 0x1_0000_0000, i)
  {
    PlusTwice(a, b, F0(x, y, z));
    RotlTakesMod((a + b + F0(x, y, z)) % 0x1_0000_0000, i);
  }

  lemma PlusTwice(a: Word, b: Word, c: Word)
    ensures Plus(Plus(a, b), c) == (a + b + c) % 0x1_0000_0000
  {
  }

  lemma RotlTakesMod(x: Word, i: nat)
    ensures Rotl(x, i % 32) == Rotl(x, i)
  {
    assert i % 32 % 32 == i % 32;
  }

  lemma {:induction false} ScheduleWords(block: seq<Byte>)
    requires |block| == 64
    ensures Scheduled(block, Schedule(block))
  {
    var first := Unpack(block);
    forall i | 0 <= i < 16 ensures first[i] == BigEndian(block, 4 * i) {
      UnpackedWord(block, i);
    }
    ExtendObeys(Mix, first);
    ObeysFollows(Schedule(block));
  }

  lemma {:induction false} ObeysFollows(ws: seq<Word>)
    requires |ws| == 32 && Obeys(Mix, ws)
    ensures forall i :: 16 <= i < 32 ==> FollowsFive(ws, i)
  {
    forall i | 16 <= i < 32 ensures FollowsFive(ws, i) {
      FollowsAt(ws, i);
    }
  }

  lemma FollowsAt(ws: seq<Word>, i: nat)
    requires 16 <= i < |ws| && Recurs(Mix, ws, i)
    ensures FollowsFive(ws, i)
  {
    MixIs(ws[i - 16], ws[i - 7], ws[i - 15], ws[i - 2], ws[i - 1], i);
  }

  // ---------- compression ----------

  type State = s: seq<Word> | |s| == 16 witness seq(16, i => 0)
  type Block = b: seq<Byte> | |b| == BLOCK witness seq(BLOCK, i => 0)

  function StartState(): State {
    INITIAL_STATE
  }

  function Permuted(before: State): State {
    seq<Word>(16, j requires 0 <= j < 16 => before[(13 * j + 3) % 16])
  }

  function Spread(x: Word, y: Word, z: Word, q: Word, r: nat): Word {
    Xor(Xor(Xor(Rotl(x, r % 13 + 3), Rotr(y, r % 11 + 5)), Rotl(z, r % 7 + 7)), q)
  }

  function Total(x: Word, m: Word, n: Word, q: Word, w: Word, k: Word): Word {
    (x + m + n + q + w + k) % TWO32
  }

  function Updated(s: State, i: nat, w: Word): State
    requires i < 16
  {
    s[i := w]
  }

  // The four updates of a round, each over the words as the one before left them.
  function FourUpdates(s: State, a: nat, b: nat, c: nat, d: nat, u: Word, p: Word, q: Word, v: Word): State
    requires a < 16 && b < 16 && c < 16 && d < 16
  {
    var s1 := Updated(s, a, Xor(s[a], u));
    var s2 := Updated(s1, b, Plus(s1[b], p));
    var s3 := Updated(s2, c, Xor(s2[c], q));
    Updated(s3, d, Plus(s3[d], v))
  }

  // One round before its words are permuted.
  function Stir(s: State, r: nat, w: Word, k: Word): State {
    var (a, b, c, d) := (r % 16, (5 * r + 1) % 16, (7 * r + 3) % 16, (11 * r + 5) % 16);
    var (x, y, z, t) := (s[a], s[b], s[c], s[d]);
    var q := F2(z, t, x);
    var u := Total(x, F0(x, y, z), F1(y, z, t), q, w, k);
    FourUpdates(s, a, b, c, d, u, Rotl(u, 7), Rotr(u, 11), Spread(x, y, z, q, r))
  }

  // The four updates word by word; two of the places can be one.
  ghost predicate FourUpdated(s: State, a: nat, b: nat, c: nat, d: nat, u: Word, p: Word, q: Word, v: Word,
                              after: State) {
    forall i :: 0 <= i < 16 ==>
      var w1 := if i == a then Xor(s[i], u) else s[i];
      var w2 := if i == b then (w1 + p) % 0x1_0000_0000 else w1;
      var w3 := if i == c then Xor(w2, q) else w2;
      after[i] == if i == d then (w3 + v) % 0x1_0000_0000 else w3
  }

  lemma FourUpdatesAre(s: State, a: nat, b: nat, c: nat, d: nat, u: Word, p: Word, q: Word, v: Word)
    requires a < 16 && b < 16 && c < 16 && d < 16
    ensures FourUpdated(s, a, b, c, d, u, p, q, v, FourUpdates(s, a, b, c, d, u, p, q, v))
  {
  }

  // One round's updates written out, over the words at its four places.
  ghost predicate Stirred(s: State, r: nat, w: Word, k: Word, after: State) {
    var (a, b, c, d) := (r % 16, (5 * r + 1) % 16, (7 * r + 3) % 16, (11 * r + 5) % 16);
    StirredAt(s, a, b, c, d, s[a], s[b], s[c], s[d], r, w, k, after)
  }

  ghost predicate StirredAt(s: State, a: nat, b: nat, c: nat, d: nat, x: Word, y: Word, z: Word, t: Word,
                            r: nat, w: Word, k: Word, after: State) {
    var u := (x + F0(x, y, z) + F1(y, z, t) + F2(z, t, x) + w + k) % 0x1_0000_0000;
    var v := Xor(Xor(Xor(Rotl(x, r % 13 + 3), Rotr(y, r % 11 + 5)), Rotl(z, r % 7 + 7)), F2(z, t, x));
    FourUpdated(s, a, b, c, d, u, Rotl(u, 7), Rotr(u, 11), v, after)
  }

  lemma TotalIs(x: Word, m: Word, n: Word, q: Word, w: Word, k: Word)
    ensures Total(x, m, n, q, w, k) == (x + m + n + q + w + k) % 0x1_0000_0000
  {
  }

  lemma SpreadIs(x: Word, y: Word, z: Word, q: Word, r: nat)
    ensures Spread(x, y, z, q, r) == Xor(Xor(Xor(Rotl(x, r % 13 + 3), Rotr(y, r % 11 + 5)), Rotl(z, r % 7 + 7)), q)
  {
  }

  lemma StirUpdates(s: State, a: nat, b: nat, c: nat, d: nat, x: Word, y: Word, z: Word, t: Word,
                    r: nat, w: Word, k: Word)
    requires a == r % 16 && b == (5 * r + 1) % 16 && c == (7 * r + 3) % 16 && d == (11 * r + 5) % 16
    requires x == s[a] && y == s[b] && z == s[c] && t == s[d]
    ensures var u := Total(x, F0(x, y, z), F1(y, z, t), F2(z, t, x), w, k);
      FourUpdated(s, a, b, c, d, u, Rotl(u, 7), Rotr(u, 11), Spread(x, y, z, F2(z, t, x), r), Stir(s, r, w, k))
  {
    var u := Total(x, F0(x, y, z), F1(y, z, t), F2(z, t, x), w, k);
    FourUpdatesAre(s, a, b, c, d, u, Rotl(u, 7), Rotr(u, 11), Spread(x, y, z, F2(z, t, x), r));
  }

  lemma StirIs(s: State, r: nat, w: Word, k: Word)
    ensures Stirred(s, r, w, k, Stir(s, r, w, k))
  {
    var (a, b, c, d) := (r % 16, (5 * r + 1) % 16, (7 * r + 3) % 16, (11 * r + 5) % 16);
    StirUpdates(s, a, b, c, d, s[a], s[b], s[c], s[d], r, w, k);
    StirredIs(s, a, b, c, d, s[a], s[b], s[c], s[d], r, w, k, Stir(s, r, w, k));
  }

  lemma StirredIs(s: State, a: nat, b: nat, c: nat, d: nat, x: Word, y: Word, z: Word, t: Word,
                  r: nat, w: Word, k: Word, after: State)
    requires var u := Total(x, F0(x, y, z), F1(y, z, t), F2(z, t, x), w, k);
      FourUpdated(s, a, b, c, d, u, Rotl(u, 7), Rotr(u, 11), Spread(x, y, z, F2(z, t, x), r), after)
    ensures StirredAt(s, a, b, c, d, x, y, z, t, r, w, k, after)
  {
    TotalIs(x, F0(x, y, z), F1(y, z, t), F2(z, t, x), w, k);
    SpreadIs(x, y, z, F2(z, t, x), r);
  }

  // The first place is none of the other three.
  lemma FirstPlaceAlone(r: nat)
    ensures r % 16 != (5 * r + 1) % 16 && r % 16 != (7 * r + 3) % 16 && r % 16 != (11 * r + 5) % 16
  {
    ParityOf(r);
    ParityOf(5 * r + 1);
    ParityOf(7 * r + 3);
    ParityOf(11 * r + 5);
  }

  lemma ParityOf(n: nat)
    ensures n % 16 % 2 == n % 2
  {
  }

  lemma TotalTellsApart(x: Word, m: Word, n: Word, q: Word, w: Word, v: Word, k: Word)
    requires Total(x, m, n, q, w, k) == Total(x, m, n, q, v, k)
    ensures w == v
  {
    var h := x + m + n + q + k;
    assert (h + w) % TWO32 == (h + v) % TWO32;
    var i, j := (h + w) / TWO32, (h + v) / TWO32;
    assert w - v == (i - j) * TWO32;
  }

  // A round tells two schedule words apart.
  lemma StirTellsApart(s: State, r: nat, w: Word, v: Word, k: Word)
    requires Stir(s, r, w, k)[r % 16] == Stir(s, r, v, k)[r % 16]
    ensures w == v
  {
    var (a, b, c, d) := (r % 16, (5 * r + 1) % 16, (7 * r + 3) % 16, (11 * r + 5) % 16);
    StirsTellApart(s, a, b, c, d, s[a], s[b], s[c], s[d], r, w, v, k);
  }

  lemma StirsTellApart(s: State, a: nat, b: nat, c: nat, d: nat, x: Word, y: Word, z: Word, t: Word,
                       r: nat, w: Word, v: Word, k: Word)
    requires a == r % 16 && b == (5 * r + 1) % 16 && c == (7 * r + 3) % 16 && d == (11 * r + 5) % 16
    requires x == s[a] && y == s[b] && z == s[c] && t == s[d]
    requires Stir(s, r, w, k)[a] == Stir(s, r, v, k)[a]
    ensures w == v
  {
    StirFirst(s, a, b, c, d, x, y, z, t, r, w, k);
    StirFirst(s, a, b, c, d, x, y, z, t, r, v, k);
    XorCancels(x, Total(x, F0(x, y, z), F1(y, z, t), F2(z, t, x), w, k),
      Total(x, F0(x, y, z), F1(y, z, t), F2(z, t, x), v, k));
    TotalTellsApart(x, F0(x, y, z), F1(y, z, t), F2(z, t, x), w, v, k);
  }

  lemma XorCancels(x: Word, u: Word, v: Word)
    requires Xor(x, u) == Xor(x, v)
    ensures u == v
  {
    XorUndone(x, u);
    XorUndone(x, v);
  }

  lemma FirstOfFour(s: State, a: nat, b: nat, c: nat, d: nat, u: Word, p: Word, q: Word, v: Word, after: State)
    requires a < 16 && a != b && a != c && a != d && FourUpdated(s, a, b, c, d, u, p, q, v, after)
    ensures after[a] == Xor(s[a], u)
  {
  }

  lemma StirFirst(s: State, a: nat, b: nat, c: nat, d: nat, x: Word, y: Word, z: Word, t: Word,
                  r: nat, w: Word, k: Word)
    requires a == r % 16 && b == (5 * r + 1) % 16 && c == (7 * r + 3) % 16 && d == (11 * r + 5) % 16
    requires x == s[a] && y == s[b] && z == s[c] && t == s[d]
    ensures Stir(s, r, w, k)[a] == Xor(x, Total(x, F0(x, y, z), F1(y, z, t), F2(z, t, x), w, k))
  {
    var u := Total(x, F0(x, y, z), F1(y, z, t), F2(z, t, x), w, k);
    FirstPlaceAlone(r);
    StirUpdates(s, a, b, c, d, x, y, z, t, r, w, k);
    FirstOfFour(s, a, b, c, d, u, Rotl(u, 7), Rotr(u, 11), Spread(x, y, z, F2(z, t, x), r), Stir(s, r, w, k));
  }

  lemma PermutedTellsApart(s: State, t: State)
    requires Permuted(s) == Permuted(t)
    ensures s == t
  {
    forall i | 0 <= i < 16 ensures s[i] == t[i] {
      PlaceOf(i);
      assert Permuted(s)[(5 * i + 1) % 16] == s[i] && Permuted(t)[(5 * i + 1) % 16] == t[i];
    }
  }

  // From every state, two schedules that first differ at word `r` leave different states after that round.
  lemma RoundsTellApart(s: State, ws: seq<Word>, vs: seq<Word>, r: nat)
    requires |ws| == |vs| == 32 && r < 32 && ws[..r] == vs[..r] && ws[r] != vs[r]
    ensures Rounds(s, ws, r + 1) != Rounds(s, vs, r + 1)
  {
    RoundsOfPrefix(s, ws, vs, r);
    var mid := Rounds(s, ws, r);
    if Rounds(s, ws, r + 1) == Rounds(s, vs, r + 1) {
      PermutedTellsApart(Stir(mid, r, ws[r], ROUND_CONSTANTS[r]), Stir(mid, r, vs[r], ROUND_CONSTANTS[r]));
      StirTellsApart(mid, r, ws[r], vs[r], ROUND_CONSTANTS[r]);
    }
  }

  lemma {:induction false} RoundsOfPrefix(s: State, ws: seq<Word>, vs: seq<Word>, r: nat)
    requires |ws| == |vs| == 32 && r <= 32 && ws[..r] == vs[..r]
    ensures Rounds(s, ws, r) == Rounds(s, vs, r)
    decreases r
  {
    if r > 0 {
      assert ws[r - 1] == ws[..r][r - 1] == vs[r - 1];
      ShorterPrefix(ws, vs, r);
      RoundsOfPrefix(s, ws, vs, r - 1);
    }
  }

  lemma ShorterPrefix(ws: seq<Word>, vs: seq<Word>, r: nat)
    requires 0 < r <= |ws| == |vs| && ws[..r] == vs[..r]
    ensures ws[..r - 1] == vs[..r - 1]
  {
    assert ws[..r - 1] == ws[..r][..r - 1] && vs[..r - 1] == vs[..r][..r - 1];
  }

  // Rounds `0..r` over `words`.
  function Rounds(s: State, words: seq<Word>, r: nat): State
    requires |words| == 32 && r <= 32
  {
    if r == 0 then s
    else Permuted(Stir(Rounds(s, words, r - 1), r - 1, words[r - 1], ROUND_CONSTANTS[r - 1]))
  }

  function AddWords(s: State, t: State): State {
    seq<Word>(16, i requires 0 <= i < 16 => Plus(s[i], t[i]))
  }

  function Compress(state: State, block: Block): State {
    var words := Schedule(block);
    AddWords(Rounds(state, words, |words|), state)
  }

  // Round `r` written out: the four updates, and then word `i` moved to place `(5 i + 1) mod 16`.
  ghost predicate RoundOf(s: State, r: nat, words: seq<Word>, next: State)
    requires r < 32 == |words|
  {
    exists stirred: State :: Stirred(s, r, words[r], ROUND_CONSTANTS[r], stirred) && Moved(stirred, next)
  }

  ghost predicate Moved(s: State, next: State) {
    forall i :: 0 <= i < 16 ==> next[(5 * i + 1) % 16] == s[i]
  }

  lemma PermutedMoves(s: State)
    ensures Moved(s, Permuted(s))
  {
    forall i | 0 <= i < 16 ensures Permuted(s)[(5 * i + 1) % 16] == s[i] {
      PlaceOf(i);
    }
  }

  // The compression written out: 32 rounds over the schedule, the state added to what they leave.
  ghost predicate Compressed(state: State, block: Block, after: State) {
    exists words: seq<Word>, states: seq<State> :: Scheduled(block, words) && RunOver(state, words, states, after)
  }

  ghost predicate RunOver(state: State, words: seq<Word>, states: seq<State>, after: State) {
    && |words| == 32 && |states| == 33 && states[0] == state
    && (forall r :: 0 <= r < 32 ==> RoundOf(states[r], r, words, states[r + 1]))
    && (forall i :: 0 <= i < 16 ==> after[i] == (states[32][i] as int + state[i]) % 0x1_0000_0000)
  }

  lemma RoundsIs(s: State, words: seq<Word>, r: nat)
    requires |words| == 32 && r < 32
    ensures RoundOf(Rounds(s, words, r), r, words, Rounds(s, words, r + 1))
  {
    var before := Rounds(s, words, r);
    var stirred := Stir(before, r, words[r], ROUND_CONSTANTS[r]);
    StirIs(before, r, words[r], ROUND_CONSTANTS[r]);
    PermutedMoves(stirred);
  }

  lemma AddWordsIs(s: State, t: State, i: nat)
    requires i < 16
    ensures AddWords(s, t)[i] == (s[i] as int + t[i]) % 0x1_0000_0000
  {
  }

  lemma RoundsRunOver(state: State, words: seq<Word>, states: seq<State>)
    requires |words| == 32 && |states| == 33
    requires forall r :: 0 <= r < 33 ==> states[r] == Rounds(state, words, r)
    ensures RunOver(state, words, states, AddWords(Rounds(state, words, |words|), state))
  {
    forall r | 0 <= r < 32 ensures RoundOf(states[r], r, words, states[r + 1]) {
      RoundsIs(state, words, r);
    }
    forall i | 0 <= i < 16 ensures
      AddWords(Rounds(state, words, |words|), state)[i] == (states[32][i] as int + state[i]) % 0x1_0000_0000
    {
      AddWordsIs(Rounds(state, words, |words|), state, i);
    }
  }

  lemma CompressIs(state: State, block: Block)
    ensures Compressed(state, block, Compress(state, block))
  {
    var words := Schedule(block);
    var states := seq<State>(33, r requires 0 <= r < 33 => Rounds(state, words, r));
    ScheduleWords(block);
    RoundsRunOver(state, words, states);
  }

  // ---------- the hash ----------

  function Blocks(data: seq<Byte>): (bs: seq<Block>)
    requires |data| % BLOCK == 0
    ensures |bs| == |data| / BLOCK
    decreases |data|
  {
    if data == [] then [] else Blocks(data[..|data| - BLOCK]) + [data[|data| - BLOCK..]]
  }

  lemma {:induction false} BlocksInjective(a: seq<Byte>, b: seq<Byte>)
    requires |a| % BLOCK == 0 && |b| % BLOCK == 0 && Blocks(a) == Blocks(b)
    ensures a == b
    decreases |a|
  {
    if a != [] {
      var m, n := |a| - BLOCK, |b| - BLOCK;
      assert Blocks(a)[..|Blocks(a)| - 1] == Blocks(a[..m]) && Blocks(b)[..|Blocks(b)| - 1] == Blocks(b[..n]);
      BlocksInjective(a[..m], b[..n]);
      assert a == a[..m] + a[m..] && b == b[..n] + b[n..];
    }
  }

  lemma {:induction false} BlocksOfMore(a: seq<Byte>, b: seq<Byte>)
    requires |a| % BLOCK == 0 && |b| % BLOCK == 0
    ensures Blocks(a + b) == Blocks(a) + Blocks(b)
    decreases |b|
  {
    if b == [] {
      assert a + b == a;
    } else {
      var n := |b| - BLOCK;
      assert (a + b)[..|a + b| - BLOCK] == a + b[..n];
      assert (a + b)[|a + b| - BLOCK..] == b[n..];
      BlocksOfMore(a, b[..n]);
    }
  }

  function PaddedBlocks(m: seq<Byte>): (bs: seq<Block>)
    ensures bs != []
  {
    PadIsLeast(m, 0);
    Blocks(Pad(m))
  }

  function HashState(m: seq<Byte>): State {
    Fold(Compress, StartState(), PaddedBlocks(m))
  }

  function Hash(m: seq<Byte>): (h: seq<Byte>)
    ensures |h| == 64
  {
    Pack(HashState(m))
  }

  // The hash written out: slice after slice of the padded message compressed into the state.
  ghost predicate HashedThrough(padded: seq<Byte>, states: seq<State>) {
    && |padded| % 64 == 0 && |states| == |padded| / 64 + 1 && states[0] == INITIAL_STATE
    && (forall k :: 0 <= k < |padded| / 64 ==> SliceCompressed(padded, states[k], k, states[k + 1]))
  }

  ghost predicate SliceCompressed(padded: seq<Byte>, state: State, k: nat, next: State)
    requires 64 * k + 64 <= |padded|
  {
    Compressed(state, padded[64 * k..64 * k + 64], next)
  }

  function WordsOf(hash: seq<Byte>): State
    requires |hash| == 64
  {
    Unpack(hash)
  }

  // The words of a hash are the state from which a longer message goes on.
  lemma HashResumes(m: seq<Byte>, y: seq<Byte>, all: seq<Byte>)
    requires |y| % BLOCK == 0 && |all| % BLOCK == 0 && all == Pad(m) + y
    ensures Fold(Compress, StartState(), Blocks(all)) == Fold(Compress, WordsOf(Hash(m)), Blocks(y))
  {
    UnpackUndoesPack(HashState(m));
    PadIsLeast(m, 0);
    BlocksOfMore(Pad(m), y);
    FoldResumes(Compress, StartState(), PaddedBlocks(m), Blocks(y));
  }

  lemma LastBlockHasLength(m: seq<Byte>)
    requires LengthFits(m)
    ensures LengthField(PaddedBlocks(m)[|PaddedBlocks(m)| - 1]) == 8 * |m|
  {
    var p := Pad(m);
    PadIsLeast(m, 0);
    PadLength(m);
    assert PaddedBlocks(m)[|PaddedBlocks(m)| - 1] == p[|p| - BLOCK..];
    assert p[|p| - BLOCK..][BLOCK - 8..] == p[|p| - 8..];
  }

  // What the compression is applied to in hashing `m`.
  ghost function HashInputs(m: seq<Byte>): set<(State, Block)> {
    Inputs(Compress, StartState(), PaddedBlocks(m))
  }

  // Two different messages with one hash show two different inputs of the compression, among
  // those it was applied to, with one output.
  lemma HashCollision(m: seq<Byte>, m': seq<Byte>)
    requires LengthFits(m) && LengthFits(m') && m != m' && Hash(m) == Hash(m')
    ensures Collides(Compress, HashInputs(m) + HashInputs(m'))
  {
    UnpackUndoesPack(HashState(m));
    UnpackUndoesPack(HashState(m'));
    PaddedBlocksDiffer(m, m');
    FoldCollision(Compress, StartState(), PaddedBlocks(m), PaddedBlocks(m'), HashInputs(m) + HashInputs(m'));
  }

  lemma PaddedBlocksDiffer(m: seq<Byte>, m': seq<Byte>)
    requires LengthFits(m) && LengthFits(m') && m != m'
    ensures var a, b := PaddedBlocks(m), PaddedBlocks(m');
      a != b && (|a| == |b| || a[|a| - 1] != b[|b| - 1])
  {
    LastBlockHasLength(m);
    LastBlockHasLength(m');
    PadIsLeast(m, 0);
    PadIsLeast(m', 0);
    PadUndone(m);
    PadUndone(m');
    if PaddedBlocks(m) == PaddedBlocks(m') {
      BlocksInjective(Pad(m), Pad(m'));
    }
  }

  // ---------- the program ----------

  // None for a block that is not 64 bytes.
  method MessageSchedule(block: seq<Byte>) returns (r: Option<seq<Word>>)
    ensures r == if |block| == 64 then Some(Schedule(block)) else None
    ensures |block| == 64 ==> Scheduled(block, r.value)
  {
    if |block| == 64 {
      ScheduleWords(block);
    }
    if |block| != 64 {
      return None;
    }
    var words := Unpack(block);
    for i := 16 to 32
      invariant |words| == i && Extend(Mix, words) == Schedule(block)
    {
      var value := Plus(Plus(words[i - 16], words[i - 7]), F0(words[i - 15], words[i - 2], words[i - 1]));
      words := words + [Rotl(value, i % 32)];
    }
    r := Some(words);
  }

  lemma ModOfMultiple(n: int, i: nat, k: int)
    requires i < 16 && n == i + 16 * k
    ensures n % 16 == i
  {
  }

  // Where word `i` goes, and which word comes to place `j`.
  lemma PlaceOf(i: nat)
    requires i < 16
    ensures (13 * ((5 * i + 1) % 16) + 3) % 16 == i
    ensures (5 * ((13 * i + 3) % 16) + 1) % 16 == i
  {
    ModOfMultiple(13 * ((5 * i + 1) % 16) + 3, i, 4 * i + 1 - 13 * ((5 * i + 1) / 16));
    ModOfMultiple(5 * ((13 * i + 3) % 16) + 1, i, 4 * i + 1 - 5 * ((13 * i + 3) / 16));
  }

  method Permute(before: State) returns (s: State)
    ensures s == Permuted(before)
    ensures Moved(before, s)
  {
    var after: seq<Word> := seq(16, j => 0);
    for i := 0 to 16
      invariant |after| == 16
      invariant forall j :: 0 <= j < 16 && (13 * j + 3) % 16 < i ==> after[j] == before[(13 * j + 3) % 16]
    {
      PlaceOf(i);
      forall j | 0 <= j < 16 && (13 * j + 3) % 16 == i ensures j == (5 * i + 1) % 16 {
        PlaceOf(j);
      }
      after := after[(5 * i + 1) % 16 := before[i]];
    }
    s := after;
    assert forall j :: 0 <= j < 16 ==> s[j] == Permuted(before)[j];
    PermutedMoves(before);
  }

  // The four updates of a round, each over the words as the one before left them: two of the places
  // can be the same.
  method StirInPlace(s: array<Word>, r: nat, w: Word, k: Word)
    requires s.Length == 16
    modifies s
    ensures s[..] == Stir(old(s[..]), r, w, k) && Stirred(old(s[..]), r, w, k, s[..])
  {
    StirIs(s[..], r, w, k);
    ghost var before: State := s[..];
    var a, b, c, d := r % 16, (5 * r + 1) % 16, (7 * r + 3) % 16, (11 * r + 5) % 16;
    var x, y, z, t := s[a], s[b], s[c], s[d];
    var q := F2(z, t, x);
    var rr := Spread(x, y, z, q, r);
    var u := Total(x, F0(x, y, z), F1(y, z, t), q, w, k);
    s[a] := Xor(s[a], u);
    ghost var s1: State := s[..];
    assert s1 == Updated(before, a, Xor(before[a], u));
    s[b] := Plus(s[b], Rotl(u, 7));
    ghost var s2: State := s[..];
    assert s2 == Updated(s1, b, Plus(s1[b], Rotl(u, 7)));
    s[c] := Xor(s[c], Rotr(u, 11));
    ghost var s3: State := s[..];
    assert s3 == Updated(s2, c, Xor(s2[c], Rotr(u, 11)));
    s[d] := Plus(s[d], rr);
    assert s[..] == Updated(s3, d, Plus(s3[d], rr));
  }

  // The sums at the end of the compression.
  method AddInPlace(s: array<Word>, state: State)
    requires s.Length == 16
    modifies s
    ensures s[..] == AddWords(old(s[..]), state)
    ensures forall i :: 0 <= i < 16 ==> s[i] == (old(s[i]) as int + state[i]) % 0x1_0000_0000
  {
    for i := 0 to 16
      invariant forall k :: 0 <= k < i ==> s[k] == Plus(old(s[k]), state[k])
      invariant forall k :: i <= k < 16 ==> s[k] == old(s[k])
    {
      s[i] := Plus(s[i], state[i]);
    }
  }

  // A new list of words.
  method ListOf(words: State) returns (s: array<Word>)
    ensures fresh(s) && s.Length == 16 && s[..] == words
  {
    s := new Word[16](i requires 0 <= i < 16 => words[i]);
    assert s[..] == words;
  }

  // One round; its words are permuted into a new list.
  method Round(s: array<Word>, r: nat, w: Word, k: Word) returns (next: array<Word>)
    requires s.Length == 16
    modifies s
    ensures fresh(next) && next.Length == 16 && next[..] == Permuted(Stir(old(s[..]), r, w, k))
  {
    StirInPlace(s, r, w, k);
    var permuted := Permute(s[..]);
    next := ListOf(permuted);
  }

  // The round loop and the final sums.
  method RunRounds(start: State, words: seq<Word>) returns (s: array<Word>)
    requires |words| == 32
    ensures fresh(s) && s[..] == AddWords(Rounds(start, words, |words|), start)
  {
    s := ListOf(start);
    for i := 0 to |words|
      invariant fresh(s) && s.Length == 16 && s[..] == Rounds(start, words, i)
    {
      s := Round(s, i, words[i], ROUND_CONSTANTS[i]);
    }
    AddInPlace(s, start);
  }

  method CompressBlock(state: seq<Word>, block: seq<Byte>) returns (r: Option<seq<Word>>)
    ensures r == if |state| == 16 && |block| == 64 then Some(Compress(state, block)) else None
    ensures |state| == 16 && |block| == 64 ==> Compressed(state, block, r.value)
  {
    if |state| == 16 && |block| == 64 {
      CompressIs(state, block);
    }
    if |state| != 16 {
      return None;
    }
    var schedule := MessageSchedule(block);
    if schedule.None? {
      return None;
    }
    var s := RunRounds(state, schedule.value);
    r := Some(s[..]);
  }

  // The slices `padded[offset:offset + 64]` the loop goes over are the blocks.
  lemma {:induction false} BlockAt(data: seq<Byte>, k: nat)
    requires |data| % BLOCK == 0 && k < |data| / BLOCK
    ensures Blocks(data)[k] == data[k * BLOCK..(k + 1) * BLOCK]
    decreases |data|
  {
    var n := |data| - BLOCK;
    if k < n / BLOCK {
      BlockAt(data[..n], k);
      assert data[..n][k * BLOCK..(k + 1) * BLOCK] == data[k * BLOCK..(k + 1) * BLOCK];
    }
  }

  lemma NextBlock(f: Step<State, Block>, bs: seq<Block>, k: nat)
    requires k < |bs|
    ensures Fold(f, StartState(), bs[..k + 1]) == f(Fold(f, StartState(), bs[..k]), bs[k])
  {
    assert bs[..k + 1] == bs[..k] + [bs[k]];
    FoldSnoc(f, StartState(), bs[..k], bs[k]);
  }

  lemma StatesOf(padded: seq<Byte>) returns (states: seq<State>)
    requires |padded| % 64 == 0
    ensures HashedThrough(padded, states)
    ensures states[|states| - 1] == Fold(Compress, StartState(), Blocks(padded))
  {
    var bs := Blocks(padded);
    states := seq<State>(|bs| + 1, k requires 0 <= k <= |bs| => Fold(Compress, StartState(), bs[..k]));
    forall k | 0 <= k < |bs| ensures SliceCompressed(padded, states[k], k, states[k + 1]) {
      SliceIs(padded, states[k], k);
      NextBlock(Compress, bs, k);
    }
    assert bs[..|bs|] == bs;
  }

  lemma SliceIs(padded: seq<Byte>, state: State, k: nat)
    requires |padded| % 64 == 0 && k < |padded| / 64
    ensures SliceCompressed(padded, state, k, Compress(state, Blocks(padded)[k]))
  {
    BlockAt(padded, k);
    CompressIs(state, padded[64 * k..64 * k + 64]);
  }

  // The written-out form of what is returned.
  ghost predicate HashedAs(data: seq<Byte>, states: seq<State>, hash: seq<Byte>) {
    && HashedThrough(Pad(data), states) && |hash| == 64
    && forall i :: 0 <= i < 16 ==> states[|states| - 1][i] == BigEndian(hash, 4 * i)
  }

  lemma HashIs(data: seq<Byte>) returns (states: seq<State>)
    ensures HashedAs(data, states, Hash(data))
  {
    PadIsLeast(data, 0);
    states := StatesOf(Pad(data));
    PackedWords(HashState(data));
  }

  method MayaHash02(data: seq<Byte>) returns (r: Option<seq<Byte>>)
    ensures r == if LengthFits(data) then Some(Hash(data)) else None
    ensures |data| < 0x2000_0000_0000_0000 <==> r.Some?
    ensures r.Some? ==> exists states :: HashedAs(data, states, r.value)
  {
    var padded, ok := PadMessage(data);
    if !ok {
      return None;
    }
    PadIsLeast(data, 0);
    ghost var states := HashIs(data);
    var state := FoldSlices(padded);
    r := Some(Pack(state));
  }

  method CompressSlice(state: State, padded: seq<Byte>, offset: nat, ghost k: nat) returns (next: State)
    requires |padded| % BLOCK == 0 && k < |padded| / BLOCK && offset == k * BLOCK
    ensures next == Compress(state, Blocks(padded)[k])
  {
    BlockAt(padded, k);
    var r := CompressBlock(state, padded[offset..offset + BLOCK]);
    next := r.value;
  }

  // The loop over the slices of the padded message.
  method FoldSlices(padded: seq<Byte>) returns (state: State)
    requires |padded| % BLOCK == 0
    ensures state == Fold(Compress, StartState(), Blocks(padded))
  {
    ghost var bs := Blocks(padded);
    state := StartState();
    var offset := 0;
    ghost var k := 0;
    while offset < |padded|
      invariant 0 <= k <= |bs| && offset == k * BLOCK <= |padded|
      invariant state == Fold(Compress, StartState(), bs[..k])
    {
      NextBlock(Compress, bs, k);
      state := CompressSlice(state, padded, offset, k);
      offset := offset + BLOCK;
      k := k + 1;
    }
    assert bs[..k] == bs;
  }
}
