/** The streaming digest of examples/fossa/fossa.c: `SHA1Init`, `SHA1Update`, `SHA1Final`. */
module Sha1 {
  import opened Arithmetic
  import opened Bytes
  import opened Sha1Spec
  import opened Sha1Transform

  const TWO_32 := 0x1_0000_0000

  // ---- Absorbing in pieces ---------------------------------------------------------------------

  /** The bytes behind the last whole block. */
  function Tail(m: seq<Byte>): seq<Byte> { m[|m| - |m| % 64..] }

  /** Bytes that do not complete a block leave the hash value alone. */
  lemma {:induction false} AbsorbTail(h: Vars, m: seq<Byte>, d: seq<Byte>)
    requires |m| % 64 + |d| < 64
    ensures Absorb(h, m + d) == Absorb(h, m)
    decreases |m|
  {
    hide Compress, Words;
    if |m| >= 64 {
      assert (m + d)[..64] == m[..64] && (m + d)[64..] == m[64..] + d;
      AbsorbTail(Compress(h, Words(m[..64])), m[64..], d);
    }
  }

  /** Bytes that complete a block are compressed with the tail in front of them. */
  lemma {:induction false} AbsorbBlock(h: Vars, m: seq<Byte>, d: seq<Byte>)
    requires |m| % 64 + |d| == 64
    ensures |Tail(m) + d| == 64
    ensures Absorb(h, m + d) == Compress(Absorb(h, m), Words(Tail(m) + d))
    decreases |m|
  {
    hide Compress, Words;
    if |m| >= 64 {
      assert (m + d)[..64] == m[..64] && (m + d)[64..] == m[64..] + d;
      AbsorbBlock(Compress(h, Words(m[..64])), m[64..], d);
      assert Tail(m[64..]) == Tail(m);
    } else {
      assert Tail(m) == m;
      assert (m + d)[..64] == m + d && (m + d)[64..] == [];
    }
  }

  /** One more whole block on top of whole blocks. */
  lemma AbsorbWhole(h: Vars, m: seq<Byte>, block: seq<Byte>)
    requires |m| % 64 == 0 && |block| == 64
    ensures Absorb(h, m + block) == Compress(Absorb(h, m), Words(block))
  {
    hide Compress, Words, Absorb;
    AbsorbBlock(h, m, block);
    assert Tail(m) + block == block;
  }

  // ---- The two-word bit counter -------------------------------------------------------------------

  // The two halves of the number of bits in `n` bytes, modulo 2^64.
  function CountLow(n: nat): u32 { 8 * n % TWO_32 }
  function CountHigh(n: nat): u32 { 8 * n / TWO_32 % TWO_32 }

  /** The two words are the bit count modulo 2^64. */
  lemma CountsAreTotal(n: nat)
    ensures CountHigh(n) * TWO_32 + CountLow(n) == 8 * n % (TWO_32 * TWO_32)
  {
    var x := 8 * n;
    var q, lo := x / TWO_32, x % TWO_32;
    var p, hi := q / TWO_32, q % TWO_32;
    DivModUnique(x, TWO_32 * TWO_32, p, hi * TWO_32 + lo);
  }

  /** `len << 3` and `len >> 29` with a carry keep the counter right. */
  lemma CountAdds(n: nat, len: u32)
    ensures var shifted := 8 * (len as int) % TWO_32;
            var low := (CountLow(n) + shifted) % TWO_32;
            && low == CountLow(n + len)
            && (CountHigh(n) + (if low < CountLow(n) then 1 else 0) + len / 0x2000_0000) % TWO_32 == CountHigh(n + len)
  {
    var x: int, y: int := 8 * n, 8 * (len as int);
    var qx, lx, qy, ly := x / TWO_32, x % TWO_32, y / TWO_32, y % TWO_32;
    DivModUnique(len, 0x2000_0000, qy, len - qy * 0x2000_0000);
    var carry := if lx + ly >= TWO_32 then 1 else 0;
    DivModUnique(lx + ly, TWO_32, carry, lx + ly - carry * TWO_32);
    DivModUnique(x + y, TWO_32, qx + qy + carry, lx + ly - carry * TWO_32);
    var p, hx := qx / TWO_32, qx % TWO_32;
    var s := hx + carry + qy;
    DivModUnique(qx + qy + carry, TWO_32, p + s / TWO_32, s % TWO_32);
  }

  /** `(count >> 3) & 63` is the number of buffered bytes. */
  lemma CountTells(n: nat)
    ensures CountLow(n) / 8 % 64 == n % 64
  {
    var x := 8 * n;
    var q, lo := x / TWO_32, x % TWO_32;
    var m := n - q * 0x2000_0000;
    assert lo == 8 * m;
    DivModUnique(n, 64, q * 0x80_0000 + m / 64, m % 64);
  }

  /**
   * The branch of `SHA1Update` compares a 32-bit sum. It tells whether the data completes a
   * block exactly as long as the sum does not wrap; a longer piece than that takes the branch
   * for short data.
   */
  lemma BranchIsExact(buffered: nat, len: u32)
    requires buffered < 64
    ensures ((buffered + len) % TWO_32 > 63 <==> buffered + len > 63) <==> buffered + len < TWO_32
  {
    if buffered + len >= TWO_32 {
      DivModUnique(buffered + len, TWO_32, 1, buffered + len - TWO_32);
    }
  }

  /** One byte buffered and 2^32 - 1 more: the sum wraps to 0 and looks like too few for a block. */
  lemma BranchExample()
    ensures var buffered, len := 1, 0xffff_ffff; buffered + len > 63 && !((buffered + len) % TWO_32 > 63)
  {
  }

  // ---- The length bytes ---------------------------------------------------------------------------

  /** Dividing by 256 commutes with cutting to 2^32. */
  lemma {:induction false} DigitLow(n: nat, k: nat)
    requires k < 4
    ensures Digit(n % TWO_32, k) == Digit(n, k)
  {
    DigitCut(n, 0x100_0000, k);
  }

  /** A number cut to 256 * m has the same low digits, as many as fit in it. */
  lemma {:induction false} DigitCut(n: nat, m: nat, k: nat)
    requires (m == 0x100_0000 && k <= 3) || (m == 0x1_0000 && k <= 2) || (m == 0x100 && k <= 1) || (m == 1 && k == 0)
    ensures Digit(n % (256 * m), k) == Digit(n, k)
  {
    var q, r := n / (256 * m), n % (256 * m);
    DivModUnique(n, 256, q * m + r / 256, r % 256);
    if k > 0 {
      DivModUnique(n / 256, m, q, r / 256);
      assert m == 256 * (m / 256);
      DigitCut(n / 256, m / 256, k - 1);
    }
  }

  lemma DigitHigh(n: nat, k: nat)
    ensures Digit(n / TWO_32, k) == Digit(n, k + 4)
  {
    DivTwice(n, 256, 256);
    DivTwice(n, 0x1_0000, 256);
    DivTwice(n, 0x100_0000, 256);
    assert Digit(n, k + 4) == Digit(n / 256, k + 3) == Digit(n / 256 / 256, k + 2);
    assert Digit(n / 256 / 256, k + 2) == Digit(n / 256 / 256 / 256, k + 1) == Digit(n / 256 / 256 / 256 / 256, k);
  }

  /** Byte `i` of `finalcount`: a byte of the high word, then of the low word. */
  function CountByte(high: u32, low: u32, i: nat): Byte
    requires i < 8
  {
    DigitByte(if i >= 4 then low else high, 3 - i % 4)
  }

  lemma CountBytes(n: nat, i: nat)
    requires i < 8
    ensures CountByte(CountHigh(n), CountLow(n), i) == LengthField(n)[i]
  {
    hide Digit;
    if i >= 4 {
      assert i % 4 == i - 4 && 3 - i % 4 == 7 - i;
      DigitLow(8 * n, 7 - i);
      assert DigitByte(CountLow(n), 7 - i) == DigitByte(8 * n, 7 - i);
    } else {
      assert i % 4 == i && 3 - i + 4 == 7 - i;
      DigitLow(8 * n / TWO_32, 3 - i);
      DigitHigh(8 * n, 3 - i);
      assert Digit(CountHigh(n), 3 - i) == Digit(8 * n, 7 - i);
      assert DigitByte(CountHigh(n), 3 - i) == DigitByte(8 * n, 7 - i);
    }
  }

  // ---- The context -----------------------------------------------------------------------------

  /** `SHA1_CTX`; `message` is what has been hashed so far. */
  class Context {
    const state: array<Word>
    var count0: u32
    var count1: u32
    const buffer: array<Byte>
    ghost var message: seq<Byte>

    ghost predicate Valid()
      reads this, state, buffer
    {
      && state.Length == 5 && buffer.Length == 64
      && count0 == CountLow(|message|) && count1 == CountHigh(|message|)
      && StateOf(state) == Absorb(H0, message)
      && buffer[..|message| % 64] == Tail(message)
    }

    /** `SHA1Init`. */
    constructor ()
      ensures Valid() && message == [] && fresh(state) && fresh(buffer)
    {
      state := new Word[5];
      buffer := new Byte[64];
      count0, count1 := 0, 0;
      message := [];
      new;
      state[0], state[1], state[2], state[3], state[4] := 0x67452301, 0xefcdab89, 0x98badcfe, 0x10325476, 0xc3d2e1f0;
    }

    /** The counter part of `SHA1Update`. */
    method Count(len: u32)
      requires count0 == CountLow(|message|) && count1 == CountHigh(|message|)
      modifies this`count0, this`count1
      ensures count0 == CountLow(|message| + len) && count1 == CountHigh(|message| + len)
    {
      hide CountLow, CountHigh;
      CountAdds(|message|, len);
      var j := count0;
      var length: int := len;
      count0 := (count0 as int + 8 * length % TWO_32) % TWO_32;
      var carry := if count0 < j then 1 else 0;
      count1 := (count1 as int + carry + length / 0x2000_0000) % TWO_32;
    }

    /** `memcpy(&context->buffer[j], ...)`. */
    method Fill(j: nat, data: seq<Byte>)
      requires buffer.Length == 64 && j + |data| <= 64
      modifies buffer
      ensures buffer[..j + |data|] == old(buffer[..j]) + data
    {
      forall k | 0 <= k < |data| {
        buffer[j + k] := data[k];
      }
    }

    /**
     * `SHA1Update`. The last requirement is the C code's: beyond it the branch test wraps
     * (BranchIsExact) and the copy runs past the buffer.
     */
    method Update(data: seq<Byte>)
      requires Valid() && |data| < TWO_32 && |message| % 64 + |data| < TWO_32
      modifies this, state, buffer
      ensures Valid() && message == old(message) + data
    {
      hide CountLow, CountHigh, Absorb, Tail;
      var len := |data|;
      CountTells(|message|);
      var j := count0 / 8 % 64;
      Count(len);
      var i := 0;
      BranchIsExact(j, len);
      if (j + len) % TWO_32 > 63 {
        i := Blocks(j, data);
        TailAfterBlock(message, data, i);
        j := 0;
      } else {
        AbsorbTail(H0, message, data);
        TailGrows(message, data);
      }
      Fill(j, data[i..]);
      assert buffer[..|message + data| % 64] == Tail(message + data);
      message := message + data;
    }

    /** The branch of `SHA1Update` for data that completes at least one block; the answer is `i`. */
    method Blocks(j: nat, data: seq<Byte>) returns (i: nat)
      requires state.Length == 5 && buffer.Length == 64
      requires j == |message| % 64 && j + |data| > 63
      requires StateOf(state) == Absorb(H0, message) && buffer[..j] == Tail(message)
      modifies state, buffer
      ensures i <= |data| && (|message| + i) % 64 == 0 && |data| - i < 64
      ensures StateOf(state) == Absorb(H0, message + data)
    {
      hide Absorb, Compress, Words;
      var len := |data|;
      i := 64 - j;
      Fill(j, data[..i]);
      AbsorbBlock(H0, message, data[..i]);
      assert buffer[..] == buffer[..64];
      Transform(state, buffer[..]);
      ghost var q := (|message| + i) / 64;
      Aligned(|message|);
      while i + 63 < len
        invariant i <= len && |message| + i == 64 * q
        invariant StateOf(state) == Absorb(H0, message + data[..i])
        decreases len - i
      {
        AbsorbWhole(H0, message + data[..i], data[i..i + 64]);
        Transform(state, data[i..i + 64]);
        assert message + data[..i] + data[i..i + 64] == message + data[..i + 64];
        i, q := i + 64, q + 1;
      }
      assert |message + data[..i]| == 64 * q;
      AbsorbTail(H0, message + data[..i], data[i..]);
      assert message + data[..i] + data[i..] == message + data;
    }

    /** `SHA1Final`; `digest` is a buffer of twenty bytes. */
    method Final(digest: array<Byte>)
      requires Valid() && digest.Length == 20 && digest != buffer
      modifies this, state, buffer, digest
      ensures digest[..] == Sha1(old(message))
    {
      hide CountLow, CountHigh, Absorb, PadZeros, Tail, LengthField, StateOf;
      ghost var m := message;
      var finalcount := CountField();
      Update([0x80]);
      ghost var k := 0;
      PadProgress(|m|, 0);
      CountTells(|message|);
      while count0 / 8 % 64 != 56
        invariant Valid() && k <= PadZeros(|m|) && message == m + [0x80] + Zeros(k)
        invariant (count0 / 8 % 64 == 56) == (k == PadZeros(|m|))
        decreases PadZeros(|m|) - k
      {
        Update([0]);
        assert Zeros(k) + [0] == Zeros(k + 1);
        assert message == m + [0x80] + (Zeros(k) + [0]);
        k := k + 1;
        PadProgress(|m|, k);
        CountTells(|message|);
      }
      Update(finalcount);
      assert message == Pad(m);
      WriteDigest(digest);
      ghost var done := digest[..];
      forall i | 0 <= i < 5 {
        state[i] := 0;
      }
      assert digest[..] == done;
    }

    /** The bytes of `finalcount`: the high word, then the low word. */
    method CountField() returns (finalcount: seq<Byte>)
      requires count0 == CountLow(|message|) && count1 == CountHigh(|message|)
      ensures |finalcount| == 8 && finalcount == LengthField(|message|)
    {
      hide CountByte, CountLow, CountHigh, DigitByte;
      finalcount := [];
      for i := 0 to 8
        invariant |finalcount| == i && finalcount == LengthField(|message|)[..i]
      {
        CountBytes(|message|, i);
        finalcount := finalcount + [CountByte(count1, count0, i)];
      }
    }

    /** The output loop of `SHA1Final`. */
    method WriteDigest(digest: array<Byte>)
      requires state.Length == 5 && digest.Length == 20
      modifies digest
      ensures digest[..] == Digest(StateOf(state))
    {
      hide WordByte;
      for i := 0 to 20
        invariant forall k :: 0 <= k < i ==> digest[k] == WordByte(WordOf(StateOf(state), k / 4), k % 4)
      {
        digest[i] := WordByte(state[i / 4], i % 4);
      }
    }
  }

  lemma Aligned(n: nat)
    ensures (n + (64 - n % 64)) % 64 == 0 && n + (64 - n % 64) == 64 * ((n + (64 - n % 64)) / 64)
  {
  }

  lemma TailAfterBlock(m: seq<Byte>, d: seq<Byte>, i: nat)
    requires i <= |d| && (|m| + i) % 64 == 0 && |d| - i < 64
    ensures |m + d| % 64 == |d| - i && Tail(m + d) == d[i..]
  {
    assert |m + d| == (|m| + i) + (|d| - i);
  }

  lemma TailGrows(m: seq<Byte>, d: seq<Byte>)
    requires |m| % 64 + |d| < 64
    ensures |m + d| % 64 == |m| % 64 + |d| && Tail(m + d) == Tail(m) + d
  {
  }

  /** The padding loop stops after exactly `PadZeros` bytes. */
  lemma PadProgress(n: nat, k: nat)
    requires k <= PadZeros(n)
    ensures ((n + 1 + k) % 64 == 56) == (k == PadZeros(n))
  {
    DivModUnique(n + 1 + PadZeros(n) - 56 + 64, 64, (n + 1 + PadZeros(n) - 56 + 64) / 64, 0);
  }

  /** No piece is too long for the branch test of `SHA1Update` at its turn. */
  ghost predicate Fitting(pieces: seq<seq<Byte>>) {
    forall k :: 0 <= k < |pieces| ==> |Joined(pieces[..k])| % 64 + |pieces[k]| < TWO_32
  }

  /**
   * However a message is cut into pieces, hashing the pieces gives its SHA-1 digest.
   */
  method HashPieces(pieces: seq<seq<Byte>>) returns (digest: seq<Byte>)
    requires Fitting(pieces)
    ensures digest == Sha1(Joined(pieces))
  {
    hide Sha1, Absorb;
    var context := new Context();
    for n := 0 to |pieces|
      invariant context.Valid() && fresh(context) && fresh(context.state) && fresh(context.buffer)
      invariant context.message == Joined(pieces[..n])
    {
      assert pieces[..n + 1][..n] == pieces[..n];
      context.Update(pieces[n]);
    }
    assert pieces[..|pieces|] == pieces;
    var out := new Byte[20];
    context.Final(out);
    digest := out[..];
  }

  function Joined(pieces: seq<seq<Byte>>): seq<Byte> {
    if pieces == [] then [] else Joined(pieces[..|pieces| - 1]) + pieces[|pieces| - 1]
  }
}
