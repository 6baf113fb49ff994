/** Bytes, digests and hexadecimal text.

    A byte is a `char` below 256, so that C strings are Dafny strings.  SHA-256 is never looked
    into: it is a parameter `H` of every definition and every theorem, so that each theorem holds
    of every function from byte strings to 32 bytes. */
module Hashing {

  datatype Option<+T> = None | Some(value: T)

  predicate Bytes(s: string) {
    forall i :: 0 <= i < |s| ==> s[i] as int < 256
  }

  type Bytes32 = d: string | |d| == 32 && Bytes(d) witness seq(32, _ => '\0')

  datatype Digest = Digest(bytes: Bytes32)

  type HashFn = string -> Digest

  // Over all strings a collision always exists, so that "or there is a collision" would say
  // nothing.  A collision counts here only among the strings that were really hashed.
  ghost predicate Collision(H: HashFn, hashed: set<string>) {
    exists a, b :: a in hashed && b in hashed && a != b && H(a) == H(b)
  }

  // ---------- hexadecimal ----------

  const HEX_DIGITS := "0123456789abcdef"

  predicate IsHexDigit(c: char) {
    '0' <= c <= '9' || 'a' <= c <= 'f'
  }

  predicate IsHex(s: string) {
    forall i :: 0 <= i < |s| ==> IsHexDigit(s[i])
  }

  function HexDigit(n: nat): (c: char)
    requires n < 16
    ensures IsHexDigit(c) && HexValue(c) == n
  {
    HEX_DIGITS[n]
  }

  function HexValue(c: char): (n: nat)
    requires IsHexDigit(c)
    ensures n < 16
  {
    if c <= '9' then c as int - '0' as int else c as int - 'a' as int + 10
  }

  function Hex(s: string): (h: string)
    requires Bytes(s)
    ensures |h| == 2 * |s| && IsHex(h)
  {
    if s == "" then "" else
      var n := s[0] as int;
      [HexDigit(n / 16), HexDigit(n % 16)] + Hex(s[1..])
  }

  // Read back two hexadecimal digits a byte; an odd digit at the end is dropped.
  function Unhex(h: string): (s: string)
    requires IsHex(h)
    ensures |s| == |h| / 2 && Bytes(s)
  {
    if |h| < 2 then "" else
      [(16 * HexValue(h[0]) + HexValue(h[1])) as char] + Unhex(h[2..])
  }

  lemma {:induction false} UnhexUndoesHex(s: string)
    requires Bytes(s)
    ensures Unhex(Hex(s)) == s
  {
    if s != "" {
      UnhexUndoesHex(s[1..]);
      assert Hex(s)[2..] == Hex(s[1..]);
    }
  }

  lemma HexInjective(s: string, t: string)
    requires Bytes(s) && Bytes(t) && Hex(s) == Hex(t)
    ensures s == t
  {
    UnhexUndoesHex(s);
    UnhexUndoesHex(t);
  }

  // The digits of a byte, the high one first.
  lemma {:induction false} HexDigits(s: string, i: nat)
    requires Bytes(s) && i < |s|
    ensures Hex(s)[2 * i] == "0123456789abcdef"[s[i] as int / 16]
    ensures Hex(s)[2 * i + 1] == "0123456789abcdef"[s[i] as int % 16]
  {
    if i > 0 {
      HexDigits(s[1..], i - 1);
      assert Hex(s)[2..] == Hex(s[1..]);
      assert Hex(s)[2 * i] == Hex(s)[2..][2 * i - 2] && Hex(s)[2 * i + 1] == Hex(s)[2..][2 * i - 1];
    }
  }

  // The text form of a digest, as `sha256_hex` writes it.
  function HashHex(H: HashFn, s: string): (h: string)
    ensures |h| == 64 && IsHex(h)
  {
    Hex(H(s).bytes)
  }

  lemma EqualHexHashes(H: HashFn, a: string, b: string, hashed: set<string>)
    requires HashHex(H, a) == HashHex(H, b) && a in hashed && b in hashed
    ensures a == b || Collision(H, hashed)
  {
    HexInjective(H(a).bytes, H(b).bytes);
  }
}
