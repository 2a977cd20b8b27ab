/** SHA-1 as FIPS 180-4 defines it. */
module Sha1Spec {

  type Byte = bv8
  type Word = bv32

  /** The working variables, and the hash value between blocks. */
  datatype Vars = Vars(a: Word, b: Word, c: Word, d: Word, e: Word)

  // Section 3.2: rotation to the left.
  function Rotl1(x: Word): Word { (x << 1) | (x >> 31) }
  function Rotl5(x: Word): Word { (x << 5) | (x >> 27) }
  function Rotl30(x: Word): Word { (x << 30) | (x >> 2) }

  // Section 4.1.1.
  function Ch(x: Word, y: Word, z: Word): Word { (x & y) ^ (!x & z) }
  function Parity(x: Word, y: Word, z: Word): Word { x ^ y ^ z }
  function Maj(x: Word, y: Word, z: Word): Word { (x & y) ^ (x & z) ^ (y & z) }

  function F(t: nat, x: Word, y: Word, z: Word): Word {
    if t < 20 then Ch(x, y, z) else if t < 40 then Parity(x, y, z) else if t < 60 then Maj(x, y, z) else Parity(x, y, z)
  }

  /** Section 4.2.1. */
  function K(t: nat): Word {
    if t < 20 then 0x5a827999 else if t < 40 then 0x6ed9eba1 else if t < 60 then 0x8f1bbcdc else 0xca62c1d6
  }

  /** Section 5.3.1. */
  const H0 := Vars(0x67452301, 0xefcdab89, 0x98badcfe, 0x10325476, 0xc3d2e1f0)

  /** Section 5.2.1: sixteen big-endian words. */
  function BigEndian(b0: Byte, b1: Byte, b2: Byte, b3: Byte): Word {
    ((b0 as bv32) << 24) | ((b1 as bv32) << 16) | ((b2 as bv32) << 8) | (b3 as bv32)
  }

  function Words(block: seq<Byte>): (m: seq<Word>)
    requires |block| == 64
    ensures |m| == 16
  {
    seq(16, i requires 0 <= i < 16 =>
      BigEndian(block[4 * i], block[4 * i + 1], block[4 * i + 2], block[4 * i + 3]))
  }

  /** The recurrence of section 6.1.2, step 1. */
  function NextWord(w3: Word, w8: Word, w14: Word, w16: Word): Word { Rotl1(w3 ^ w8 ^ w14 ^ w16) }

  /** Section 6.1.2, step 1: the first `n` words of the message schedule. */
  function Schedule(m: seq<Word>, n: nat): (w: seq<Word>)
    requires |m| == 16 && 16 <= n <= 80
    ensures |w| == n
  {
    if n == 16 then m
    else
      var w := Schedule(m, n - 1);
      w + [NextWord(w[n - 4], w[n - 9], w[n - 15], w[n - 17])]
  }

  /** The sum T of section 6.1.2, step 3. */
  function Temp(t: nat, v: Vars, w: Word): Word { Sum(Rotl5(v.a), F(t, v.b, v.c, v.d), v.e, K(t), w) }

  function Sum(a: Word, f: Word, e: Word, k: Word, w: Word): Word { a + f + e + k + w }

  /** Section 6.1.2, step 3, for one t. */
  function Round(t: nat, v: Vars, w: Word): Vars { Vars(Temp(t, v, w), v.a, Rotl30(v.b), v.c, v.d) }

  function Rounds(v: Vars, w: seq<Word>, n: nat): Vars
    requires n <= |w|
  {
    if n == 0 then v else Round(n - 1, Rounds(v, w, n - 1), w[n - 1])
  }

  function Plus(x: Word, y: Word): Word { x + y }

  /** Section 6.1.2, step 4. */
  function Add(h: Vars, v: Vars): Vars {
    Vars(Plus(h.a, v.a), Plus(h.b, v.b), Plus(h.c, v.c), Plus(h.d, v.d), Plus(h.e, v.e))
  }

  /** Section 6.1.2: the hash value after one more block. */
  function Compress(h: Vars, m: seq<Word>): Vars
    requires |m| == 16
  {
    Add(h, Rounds(h, Schedule(m, 80), 80))
  }

  /** The hash value after all whole blocks of `data`. */
  function Absorb(h: Vars, data: seq<Byte>): Vars
    decreases |data|
  {
    if |data| < 64 then h else Absorb(Compress(h, Words(data[..64])), data[64..])
  }

  /** The base-256 digit of weight 256^k. */
  function Digit(n: nat, k: nat): nat
    decreases k
  {
    if k == 0 then n % 256 else Digit(n / 256, k - 1)
  }

  lemma {:induction false} DigitBound(n: nat, k: nat)
    ensures Digit(n, k) < 256
    decreases k
  {
    if k > 0 {
      DigitBound(n / 256, k - 1);
    }
  }

  function DigitByte(n: nat, k: nat): Byte {
    DigitBound(n, k);
    Digit(n, k) as bv8
  }

  /** The length of a message of `n` bytes in bits, as a 64-bit big-endian number. */
  function LengthField(n: nat): seq<Byte> {
    seq(8, i requires 0 <= i < 8 => DigitByte(8 * n, 7 - i))
  }

  function Zeros(k: nat): seq<Byte> { seq(k, _ => 0) }

  /** Section 5.1.1: one bit, then the fewest zeros that leave room for the length. */
  function PadZeros(n: nat): nat { (55 - n) % 64 }

  function Pad(message: seq<Byte>): seq<Byte> {
    message + [0x80] + Zeros(PadZeros(|message|)) + LengthField(|message|)
  }

  lemma PadIsWhole(message: seq<Byte>)
    ensures |Pad(message)| % 64 == 0
  {
    var n := |message|;
    assert (n + 1 + PadZeros(n) + 8) % 64 == 0;
  }

  // The bytes of a word, most significant first.
  function WordByte(x: Word, k: nat): Byte
    requires k < 4
  {
    ((if k == 0 then x >> 24 else if k == 1 then x >> 16 else if k == 2 then x >> 8 else x) & 0xff) as bv8
  }

  function WordOf(v: Vars, i: nat): Word
    requires i < 5
  {
    if i == 0 then v.a else if i == 1 then v.b else if i == 2 then v.c else if i == 3 then v.d else v.e
  }

  function Digest(v: Vars): seq<Byte> {
    seq(20, i requires 0 <= i < 20 => WordByte(WordOf(v, i / 4), i % 4))
  }

  /** The message digest. */
  function Sha1(message: seq<Byte>): seq<Byte> { Digest(Absorb(H0, Pad(message))) }
}
