/** The block transform of examples/fossa/fossa.c: a ring of sixteen words, registers that rotate by name. */
module Sha1Transform {
  import opened Sha1Spec

  // ---- The rewritten round functions ---------------------------------------------------------

  function ChCode(w: Word, x: Word, y: Word): Word { (w & (x ^ y)) ^ y }
  function ParityCode(w: Word, x: Word, y: Word): Word { w ^ x ^ y }
  function MajCode(w: Word, x: Word, y: Word): Word { ((w | x) & y) | (w & x) }
  function SumCode(z: Word, f: Word, word: Word, k: Word, r: Word): Word { z + (f + word + k + r) }

  lemma ChBits(w: Word, x: Word, y: Word)
    ensures (w & (x ^ y)) ^ y == (w & x) ^ (!w & y)
  {
  }

  lemma MajBits(w: Word, x: Word, y: Word)
    ensures ((w | x) & y) | (w & x) == (w & x) ^ (w & y) ^ (x & y)
  {
  }

  lemma ChRewritten(w: Word, x: Word, y: Word)
    ensures ChCode(w, x, y) == Ch(w, x, y)
  {
    ChBits(w, x, y);
  }

  lemma ParityRewritten(w: Word, x: Word, y: Word)
    ensures ParityCode(w, x, y) == Parity(w, x, y)
  {
  }

  lemma MajRewritten(w: Word, x: Word, y: Word)
    ensures MajCode(w, x, y) == Maj(w, x, y)
  {
    MajBits(w, x, y);
  }

  /** The order in which the five summands are added does not matter. */
  lemma SumRewritten(a: Word, f: Word, e: Word, k: Word, w: Word)
    ensures SumCode(e, f, w, k, a) == Sum(a, f, e, k, w)
  {
  }

  /** A word of the block as a little-endian host loads it. */
  function LittleEndian(b0: Byte, b1: Byte, b2: Byte, b3: Byte): Word {
    ((b3 as bv32) << 24) | ((b2 as bv32) << 16) | ((b1 as bv32) << 8) | (b0 as bv32)
  }

  /** The byte swap of `blk0`: two rotations and two masks. */
  function Swapped(x: Word): Word {
    (((x << 24) | (x >> 8)) & 0xff00ff00) | (((x << 8) | (x >> 24)) & 0x00ff00ff)
  }

  lemma SwapReorders(b0: Byte, b1: Byte, b2: Byte, b3: Byte)
    ensures Swapped(LittleEndian(b0, b1, b2, b3)) == BigEndian(b0, b1, b2, b3)
  {
  }

  // ---- Schedule and rounds as whole sequences -------------------------------------------------

  /** The sixteen words in memory before `blk0` has touched them. */
  function Raw(block: seq<Byte>): (l: seq<Word>)
    requires |block| == 64
    ensures |l| == 16
  {
    seq(16, i requires 0 <= i < 16 =>
      LittleEndian(block[4 * i], block[4 * i + 1], block[4 * i + 2], block[4 * i + 3]))
  }

  /** `w` is a message schedule over the raw words `raw`, and `vs` the variables before each round. */
  ghost predicate IsTrace(raw: seq<Word>, w: seq<Word>, vs: seq<Vars>) {
    && |raw| == 16 && |w| == 80 && |vs| == 81
    && (forall t :: 0 <= t < 16 ==> w[t] == Swapped(raw[t]))
    && (forall t :: 16 <= t < 80 ==> IsNext(w, t))
    && (forall t :: 0 <= t < 80 ==> IsStep(vs, w, t))
  }

  ghost predicate IsNext(w: seq<Word>, t: nat)
    requires 16 <= t < |w|
  {
    w[t] == NextWord(w[t - 3], w[t - 8], w[t - 14], w[t - 16])
  }

  ghost predicate IsStep(vs: seq<Vars>, w: seq<Word>, t: nat)
    requires t < |w| && t + 1 < |vs|
  {
    vs[t + 1] == Round(t, vs[t], w[t])
  }

  /** `w` starts with the block and goes on by the recurrence. */
  ghost predicate IsSchedule(m: seq<Word>, w: seq<Word>)
    requires |m| == 16 <= |w|
  {
    (forall t :: 0 <= t < 16 ==> w[t] == m[t]) && forall t :: 16 <= t < |w| ==> IsNext(w, t)
  }

  lemma {:induction false} ScheduleWords(m: seq<Word>, n: nat)
    requires |m| == 16 && 16 <= n <= 80
    ensures IsSchedule(m, Schedule(m, n))
  {
    hide NextWord;
    if n > 16 {
      ScheduleWords(m, n - 1);
      ScheduleGrows(m, Schedule(m, n - 1), Schedule(m, n));
    }
  }

  lemma ScheduleGrows(m: seq<Word>, w: seq<Word>, w': seq<Word>)
    requires |m| == 16 <= |w| && IsSchedule(m, w) && |w'| == |w| + 1 && w'[..|w|] == w && IsNext(w', |w|)
    ensures IsSchedule(m, w')
  {
    hide NextWord;
    assert forall t :: 0 <= t < |w| ==> w'[t] == w[t];
    forall t | 16 <= t < |w'|
      ensures IsNext(w', t)
    {
      if t < |w| {
        assert IsNext(w, t);
      }
    }
  }

  ghost function States(h: Vars, w: seq<Word>): (vs: seq<Vars>)
    ensures |vs| == |w| + 1
  {
    seq(|w| + 1, t requires 0 <= t <= |w| => Rounds(h, w, t))
  }

  lemma TraceExists(h: Vars, block: seq<Byte>)
    requires |block| == 64
    ensures var w := Schedule(Words(block), 80);
            IsTrace(Raw(block), w, States(h, w)) && States(h, w)[0] == h
            && Compress(h, Words(block)) == Add(h, States(h, w)[80])
  {
    hide NextWord, Swapped, LittleEndian, BigEndian, Round, Add;
    var m := Words(block);
    ScheduleWords(m, 80);
    var w, vs := Schedule(m, 80), States(h, Schedule(m, 80));
    forall t | 0 <= t < 80
      ensures IsStep(vs, w, t)
    {
    }
    forall t | 0 <= t < 16
      ensures Swapped(Raw(block)[t]) == m[t]
    {
      SwapReorders(block[4 * t], block[4 * t + 1], block[4 * t + 2], block[4 * t + 3]);
    }
  }

  // ---- The ring ------------------------------------------------------------------------------

  /** Before round `i` the ring holds the last sixteen schedule words; early on, raw words ahead. */
  ghost predicate Ring(l: seq<Word>, raw: seq<Word>, w: seq<Word>, i: nat)
    requires |raw| == 16 && |w| == 80 && i <= 80
  {
    && |l| == 16
    && (forall t :: 0 <= t < i && i <= t + 16 ==> l[t % 16] == w[t])
    && (forall t :: i <= t < 16 ==> l[t] == raw[t])
  }

  /** `blk0(block, i)`. */
  method Blk0(block: array<Word>, i: nat, ghost raw: seq<Word>, ghost w: seq<Word>, ghost vs: seq<Vars>) returns (word: Word)
    requires IsTrace(raw, w, vs) && i < 16 && Ring(block[..], raw, w, i)
    modifies block
    ensures word == w[i] && Ring(block[..], raw, w, i + 1)
  {
    hide Swapped, NextWord, Round;
    block[i] := Swapped(block[i]);
    word := block[i];
  }

  /** `blk(i)`. */
  method Blk(block: array<Word>, i: nat, ghost raw: seq<Word>, ghost w: seq<Word>, ghost vs: seq<Vars>) returns (word: Word)
    requires IsTrace(raw, w, vs) && 16 <= i < 80 && Ring(block[..], raw, w, i)
    modifies block
    ensures word == w[i] && Ring(block[..], raw, w, i + 1)
  {
    hide Swapped, NextWord, Round;
    RingPlaces(i);
    assert IsNext(w, i);
    ghost var l := block[..];
    assert l[(i - 3) % 16] == w[i - 3] && l[(i - 8) % 16] == w[i - 8];
    assert l[(i - 14) % 16] == w[i - 14] && l[(i - 16) % 16] == w[i - 16];
    block[i % 16] := NextWord(block[(i + 13) % 16], block[(i + 8) % 16], block[(i + 2) % 16], block[i % 16]);
    word := block[i % 16];
    forall t | 0 <= t < i + 1 && i + 1 <= t + 16
      ensures block[..][t % 16] == w[t]
    {
      if t != i {
        OtherPlace(i, t);
        assert l[t % 16] == w[t];
      }
    }
  }

  lemma RingPlaces(i: nat)
    requires i >= 16
    ensures (i + 13) % 16 == (i - 3) % 16 && (i + 8) % 16 == (i - 8) % 16
    ensures (i + 2) % 16 == (i - 14) % 16 && i % 16 == (i - 16) % 16
  {
  }

  lemma OtherPlace(i: nat, t: nat)
    requires t < i < t + 16
    ensures t % 16 != i % 16
  {
  }

  // ---- The five round macros -------------------------------------------------------------------

  // The z update of R0 and R1, R2, R3, R4.

  function Z0(v: Word, w: Word, x: Word, y: Word, z: Word, word: Word): Word {
    SumCode(z, ChCode(w, x, y), word, 0x5a827999, Rotl5(v))
  }

  lemma Z0IsTemp(v: Word, w: Word, x: Word, y: Word, z: Word, word: Word, i: nat)
    requires i < 20
    ensures Z0(v, w, x, y, z, word) == Temp(i, Vars(v, w, x, y, z), word)
  {
    hide Rotl5, Ch, ChCode, SumCode, Sum;
    ChRewritten(w, x, y);
    SumRewritten(Rotl5(v), Ch(w, x, y), z, 0x5a827999, word);
  }

  method R0(
    block: array<Word>, v: Word, w: Word, x: Word, y: Word, z: Word, i: nat,
    ghost raw: seq<Word>, ghost ws: seq<Word>, ghost vs: seq<Vars>
  ) returns (z': Word, w': Word)
    requires IsTrace(raw, ws, vs) && i < 16 && Ring(block[..], raw, ws, i) && vs[i] == Vars(v, w, x, y, z)
    modifies block
    ensures Ring(block[..], raw, ws, i + 1) && vs[i + 1] == Vars(z', v, w', x, y)
  {
    hide Rotl30, Swapped, Ring, Temp, NextWord, Z0;
    var word := Blk0(block, i, raw, ws, vs);
    z' := Z0(v, w, x, y, z, word);
    w' := Rotl30(w);
    Z0IsTemp(v, w, x, y, z, word, i);
    assert IsStep(vs, ws, i);
  }

  method R1(
    block: array<Word>, v: Word, w: Word, x: Word, y: Word, z: Word, i: nat,
    ghost raw: seq<Word>, ghost ws: seq<Word>, ghost vs: seq<Vars>
  ) returns (z': Word, w': Word)
    requires IsTrace(raw, ws, vs) && 16 <= i < 20 && Ring(block[..], raw, ws, i) && vs[i] == Vars(v, w, x, y, z)
    modifies block
    ensures Ring(block[..], raw, ws, i + 1) && vs[i + 1] == Vars(z', v, w', x, y)
  {
    hide Rotl30, Swapped, Ring, Temp, NextWord, Z0;
    var word := Blk(block, i, raw, ws, vs);
    z' := Z0(v, w, x, y, z, word);
    w' := Rotl30(w);
    Z0IsTemp(v, w, x, y, z, word, i);
    assert IsStep(vs, ws, i);
  }

  function Z2(v: Word, w: Word, x: Word, y: Word, z: Word, word: Word): Word {
    SumCode(z, ParityCode(w, x, y), word, 0x6ed9eba1, Rotl5(v))
  }

  lemma Z2IsTemp(v: Word, w: Word, x: Word, y: Word, z: Word, word: Word, i: nat)
    requires 20 <= i < 40
    ensures Z2(v, w, x, y, z, word) == Temp(i, Vars(v, w, x, y, z), word)
  {
    hide Rotl5, Parity, ParityCode, SumCode, Sum;
    ParityRewritten(w, x, y);
    SumRewritten(Rotl5(v), Parity(w, x, y), z, 0x6ed9eba1, word);
  }

  method R2(
    block: array<Word>, v: Word, w: Word, x: Word, y: Word, z: Word, i: nat,
    ghost raw: seq<Word>, ghost ws: seq<Word>, ghost vs: seq<Vars>
  ) returns (z': Word, w': Word)
    requires IsTrace(raw, ws, vs) && 20 <= i < 40 && Ring(block[..], raw, ws, i) && vs[i] == Vars(v, w, x, y, z)
    modifies block
    ensures Ring(block[..], raw, ws, i + 1) && vs[i + 1] == Vars(z', v, w', x, y)
  {
    hide Rotl30, Swapped, Ring, Temp, NextWord, Z2;
    var word := Blk(block, i, raw, ws, vs);
    z' := Z2(v, w, x, y, z, word);
    w' := Rotl30(w);
    Z2IsTemp(v, w, x, y, z, word, i);
    assert IsStep(vs, ws, i);
  }

  function Z3(v: Word, w: Word, x: Word, y: Word, z: Word, word: Word): Word {
    SumCode(z, MajCode(w, x, y), word, 0x8f1bbcdc, Rotl5(v))
  }

  lemma Z3IsTemp(v: Word, w: Word, x: Word, y: Word, z: Word, word: Word, i: nat)
    requires 40 <= i < 60
    ensures Z3(v, w, x, y, z, word) == Temp(i, Vars(v, w, x, y, z), word)
  {
    hide Rotl5, Maj, MajCode, SumCode, Sum;
    MajRewritten(w, x, y);
    SumRewritten(Rotl5(v), Maj(w, x, y), z, 0x8f1bbcdc, word);
  }

  method R3(
    block: array<Word>, v: Word, w: Word, x: Word, y: Word, z: Word, i: nat,
    ghost raw: seq<Word>, ghost ws: seq<Word>, ghost vs: seq<Vars>
  ) returns (z': Word, w': Word)
    requires IsTrace(raw, ws, vs) && 40 <= i < 60 && Ring(block[..], raw, ws, i) && vs[i] == Vars(v, w, x, y, z)
    modifies block
    ensures Ring(block[..], raw, ws, i + 1) && vs[i + 1] == Vars(z', v, w', x, y)
  {
    hide Rotl30, Swapped, Ring, Temp, NextWord, Z3;
    var word := Blk(block, i, raw, ws, vs);
    z' := Z3(v, w, x, y, z, word);
    w' := Rotl30(w);
    Z3IsTemp(v, w, x, y, z, word, i);
    assert IsStep(vs, ws, i);
  }

  function Z4(v: Word, w: Word, x: Word, y: Word, z: Word, word: Word): Word {
    SumCode(z, ParityCode(w, x, y), word, 0xca62c1d6, Rotl5(v))
  }

  lemma Z4IsTemp(v: Word, w: Word, x: Word, y: Word, z: Word, word: Word, i: nat)
    requires 60 <= i < 80
    ensures Z4(v, w, x, y, z, word) == Temp(i, Vars(v, w, x, y, z), word)
  {
    hide Rotl5, Parity, ParityCode, SumCode, Sum;
    ParityRewritten(w, x, y);
    SumRewritten(Rotl5(v), Parity(w, x, y), z, 0xca62c1d6, word);
  }

  method R4(
    block: array<Word>, v: Word, w: Word, x: Word, y: Word, z: Word, i: nat,
    ghost raw: seq<Word>, ghost ws: seq<Word>, ghost vs: seq<Vars>
  ) returns (z': Word, w': Word)
    requires IsTrace(raw, ws, vs) && 60 <= i < 80 && Ring(block[..], raw, ws, i) && vs[i] == Vars(v, w, x, y, z)
    modifies block
    ensures Ring(block[..], raw, ws, i + 1) && vs[i + 1] == Vars(z', v, w', x, y)
  {
    hide Rotl30, Swapped, Ring, Temp, NextWord, Z4;
    var word := Blk(block, i, raw, ws, vs);
    z' := Z4(v, w, x, y, z, word);
    w' := Rotl30(w);
    Z4IsTemp(v, w, x, y, z, word, i);
    assert IsStep(vs, ws, i);
  }

  /** Rounds 0 to 19. */
  method RoundsCh(
    block: array<Word>, v: Vars, ghost raw: seq<Word>, ghost ws: seq<Word>, ghost vs: seq<Vars>
  ) returns (v': Vars)
    requires IsTrace(raw, ws, vs) && Ring(block[..], raw, ws, 0) && vs[0] == v
    modifies block
    ensures Ring(block[..], raw, ws, 20) && vs[20] == v'
  {
    hide IsTrace, Ring;
    var a, b, c, d, e := v.a, v.b, v.c, v.d, v.e;
    TraceSizes(raw, ws, vs);
    e, b := R0(block, a, b, c, d, e, 0, raw, ws, vs);
    d, a := R0(block, e, a, b, c, d, 1, raw, ws, vs);
    c, e := R0(block, d, e, a, b, c, 2, raw, ws, vs);
    b, d := R0(block, c, d, e, a, b, 3, raw, ws, vs);
    a, c := R0(block, b, c, d, e, a, 4, raw, ws, vs);
    e, b := R0(block, a, b, c, d, e, 5, raw, ws, vs);
    d, a := R0(block, e, a, b, c, d, 6, raw, ws, vs);
    c, e := R0(block, d, e, a, b, c, 7, raw, ws, vs);
    b, d := R0(block, c, d, e, a, b, 8, raw, ws, vs);
    a, c := R0(block, b, c, d, e, a, 9, raw, ws, vs);
    e, b := R0(block, a, b, c, d, e, 10, raw, ws, vs);
    d, a := R0(block, e, a, b, c, d, 11, raw, ws, vs);
    c, e := R0(block, d, e, a, b, c, 12, raw, ws, vs);
    b, d := R0(block, c, d, e, a, b, 13, raw, ws, vs);
    a, c := R0(block, b, c, d, e, a, 14, raw, ws, vs);
    e, b := R0(block, a, b, c, d, e, 15, raw, ws, vs);
    d, a := R1(block, e, a, b, c, d, 16, raw, ws, vs);
    c, e := R1(block, d, e, a, b, c, 17, raw, ws, vs);
    b, d := R1(block, c, d, e, a, b, 18, raw, ws, vs);
    a, c := R1(block, b, c, d, e, a, 19, raw, ws, vs);
    v' := Vars(a, b, c, d, e);
  }

  /** Rounds 20 to 39. */
  method RoundsParity(
    block: array<Word>, v: Vars, ghost raw: seq<Word>, ghost ws: seq<Word>, ghost vs: seq<Vars>
  ) returns (v': Vars)
    requires IsTrace(raw, ws, vs) && Ring(block[..], raw, ws, 20) && vs[20] == v
    modifies block
    ensures Ring(block[..], raw, ws, 40) && vs[40] == v'
  {
    hide IsTrace, Ring;
    var a, b, c, d, e := v.a, v.b, v.c, v.d, v.e;
    TraceSizes(raw, ws, vs);
    e, b := R2(block, a, b, c, d, e, 20, raw, ws, vs);
    d, a := R2(block, e, a, b, c, d, 21, raw, ws, vs);
    c, e := R2(block, d, e, a, b, c, 22, raw, ws, vs);
    b, d := R2(block, c, d, e, a, b, 23, raw, ws, vs);
    a, c := R2(block, b, c, d, e, a, 24, raw, ws, vs);
    e, b := R2(block, a, b, c, d, e, 25, raw, ws, vs);
    d, a := R2(block, e, a, b, c, d, 26, raw, ws, vs);
    c, e := R2(block, d, e, a, b, c, 27, raw, ws, vs);
    b, d := R2(block, c, d, e, a, b, 28, raw, ws, vs);
    a, c := R2(block, b, c, d, e, a, 29, raw, ws, vs);
    e, b := R2(block, a, b, c, d, e, 30, raw, ws, vs);
    d, a := R2(block, e, a, b, c, d, 31, raw, ws, vs);
    c, e := R2(block, d, e, a, b, c, 32, raw, ws, vs);
    b, d := R2(block, c, d, e, a, b, 33, raw, ws, vs);
    a, c := R2(block, b, c, d, e, a, 34, raw, ws, vs);
    e, b := R2(block, a, b, c, d, e, 35, raw, ws, vs);
    d, a := R2(block, e, a, b, c, d, 36, raw, ws, vs);
    c, e := R2(block, d, e, a, b, c, 37, raw, ws, vs);
    b, d := R2(block, c, d, e, a, b, 38, raw, ws, vs);
    a, c := R2(block, b, c, d, e, a, 39, raw, ws, vs);
    v' := Vars(a, b, c, d, e);
  }

  /** Rounds 40 to 59. */
  method RoundsMaj(
    block: array<Word>, v: Vars, ghost raw: seq<Word>, ghost ws: seq<Word>, ghost vs: seq<Vars>
  ) returns (v': Vars)
    requires IsTrace(raw, ws, vs) && Ring(block[..], raw, ws, 40) && vs[40] == v
    modifies block
    ensures Ring(block[..], raw, ws, 60) && vs[60] == v'
  {
    hide IsTrace, Ring;
    var a, b, c, d, e := v.a, v.b, v.c, v.d, v.e;
    TraceSizes(raw, ws, vs);
    e, b := R3(block, a, b, c, d, e, 40, raw, ws, vs);
    d, a := R3(block, e, a, b, c, d, 41, raw, ws, vs);
    c, e := R3(block, d, e, a, b, c, 42, raw, ws, vs);
    b, d := R3(block, c, d, e, a, b, 43, raw, ws, vs);
    a, c := R3(block, b, c, d, e, a, 44, raw, ws, vs);
    e, b := R3(block, a, b, c, d, e, 45, raw, ws, vs);
    d, a := R3(block, e, a, b, c, d, 46, raw, ws, vs);
    c, e := R3(block, d, e, a, b, c, 47, raw, ws, vs);
    b, d := R3(block, c, d, e, a, b, 48, raw, ws, vs);
    a, c := R3(block, b, c, d, e, a, 49, raw, ws, vs);
    e, b := R3(block, a, b, c, d, e, 50, raw, ws, vs);
    d, a := R3(block, e, a, b, c, d, 51, raw, ws, vs);
    c, e := R3(block, d, e, a, b, c, 52, raw, ws, vs);
    b, d := R3(block, c, d, e, a, b, 53, raw, ws, vs);
    a, c := R3(block, b, c, d, e, a, 54, raw, ws, vs);
    e, b := R3(block, a, b, c, d, e, 55, raw, ws, vs);
    d, a := R3(block, e, a, b, c, d, 56, raw, ws, vs);
    c, e := R3(block, d, e, a, b, c, 57, raw, ws, vs);
    b, d := R3(block, c, d, e, a, b, 58, raw, ws, vs);
    a, c := R3(block, b, c, d, e, a, 59, raw, ws, vs);
    v' := Vars(a, b, c, d, e);
  }

  /** Rounds 60 to 79. */
  method RoundsParityAgain(
    block: array<Word>, v: Vars, ghost raw: seq<Word>, ghost ws: seq<Word>, ghost vs: seq<Vars>
  ) returns (v': Vars)
    requires IsTrace(raw, ws, vs) && Ring(block[..], raw, ws, 60) && vs[60] == v
    modifies block
    ensures Ring(block[..], raw, ws, 80) && vs[80] == v'
  {
    hide IsTrace, Ring;
    var a, b, c, d, e := v.a, v.b, v.c, v.d, v.e;
    TraceSizes(raw, ws, vs);
    e, b := R4(block, a, b, c, d, e, 60, raw, ws, vs);
    d, a := R4(block, e, a, b, c, d, 61, raw, ws, vs);
    c, e := R4(block, d, e, a, b, c, 62, raw, ws, vs);
    b, d := R4(block, c, d, e, a, b, 63, raw, ws, vs);
    a, c := R4(block, b, c, d, e, a, 64, raw, ws, vs);
    e, b := R4(block, a, b, c, d, e, 65, raw, ws, vs);
    d, a := R4(block, e, a, b, c, d, 66, raw, ws, vs);
    c, e := R4(block, d, e, a, b, c, 67, raw, ws, vs);
    b, d := R4(block, c, d, e, a, b, 68, raw, ws, vs);
    a, c := R4(block, b, c, d, e, a, 69, raw, ws, vs);
    e, b := R4(block, a, b, c, d, e, 70, raw, ws, vs);
    d, a := R4(block, e, a, b, c, d, 71, raw, ws, vs);
    c, e := R4(block, d, e, a, b, c, 72, raw, ws, vs);
    b, d := R4(block, c, d, e, a, b, 73, raw, ws, vs);
    a, c := R4(block, b, c, d, e, a, 74, raw, ws, vs);
    e, b := R4(block, a, b, c, d, e, 75, raw, ws, vs);
    d, a := R4(block, e, a, b, c, d, 76, raw, ws, vs);
    c, e := R4(block, d, e, a, b, c, 77, raw, ws, vs);
    b, d := R4(block, c, d, e, a, b, 78, raw, ws, vs);
    a, c := R4(block, b, c, d, e, a, 79, raw, ws, vs);
    v' := Vars(a, b, c, d, e);
  }

  lemma TraceSizes(raw: seq<Word>, ws: seq<Word>, vs: seq<Vars>)
    requires IsTrace(raw, ws, vs)
    ensures |raw| == 16 && |ws| == 80 && |vs| == 81
  {
  }

  ghost function StateOf(state: array<Word>): Vars
    requires state.Length == 5
    reads state
  {
    Vars(state[0], state[1], state[2], state[3], state[4])
  }

  /** `SHA1Transform`: one block of FIPS 180-4 compression, in place on the state. */
  method Transform(state: array<Word>, buffer: seq<Byte>)
    requires state.Length == 5 && |buffer| == 64
    modifies state
    ensures StateOf(state) == Compress(old(StateOf(state)), Words(buffer))
  {
    hide IsTrace, Ring, Compress, Schedule, States, Words, Raw, Plus;
    var block := new Word[16];
    ghost var h := StateOf(state);
    ghost var raw, ws := Raw(buffer), Schedule(Words(buffer), 80);
    ghost var vs := States(h, ws);
    TraceExists(h, buffer);
    Load(block, buffer);
    RingStart(raw, ws);
    var v := Vars(state[0], state[1], state[2], state[3], state[4]);
    v := RoundsCh(block, v, raw, ws, vs);
    v := RoundsParity(block, v, raw, ws, vs);
    v := RoundsMaj(block, v, raw, ws, vs);
    v := RoundsParityAgain(block, v, raw, ws, vs);
    state[0] := Plus(state[0], v.a);
    state[1] := Plus(state[1], v.b);
    state[2] := Plus(state[2], v.c);
    state[3] := Plus(state[3], v.d);
    state[4] := Plus(state[4], v.e);
  }

  lemma RingStart(raw: seq<Word>, w: seq<Word>)
    requires |raw| == 16 && |w| == 80
    ensures Ring(raw, raw, w, 0)
  {
  }

  /** The `memcpy` into the union of bytes and words. */
  method Load(block: array<Word>, buffer: seq<Byte>)
    requires block.Length == 16 && |buffer| == 64
    modifies block
    ensures block[..] == Raw(buffer)
  {
    hide LittleEndian;
    forall i | 0 <= i < 16 {
      block[i] := LittleEndian(buffer[4 * i], buffer[4 * i + 1], buffer[4 * i + 2], buffer[4 * i + 3]);
    }
  }
}
