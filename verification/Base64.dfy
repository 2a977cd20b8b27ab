/** Base64 (section 4 of RFC 4648) as coded in examples/fossa/fossa.c. */
module Base64 {
  import opened Arithmetic
  import opened Bytes

  const PAD: byte := 61

  /** What `from_b64` answers for a byte outside the alphabet, and for `=`. */
  const INVALID := 255
  const PADDING := 200

  /** The 64-character table of `base64_encode`. */
  function Digit(v: nat): byte
    requires v < 64
  {
    if v < 26 then 65 + v
    else if v < 52 then 97 + (v - 26)
    else if v < 62 then 48 + (v - 52)
    else if v == 62 then 43
    else 47
  }

  /** The inverse table; only the low seven bits of the byte are looked at. */
  function FromB64(ch: byte): byte {
    var c := if ch < 128 then ch else ch - 128;
    if 65 <= c <= 90 then c - 65
    else if 97 <= c <= 122 then c - 97 + 26
    else if 48 <= c <= 57 then c - 48 + 52
    else if c == 43 then 62
    else if c == 47 then 63
    else if c == 61 then PADDING
    else INVALID
  }

  /** Four digits of a 24-bit group, most significant first. */
  function Group(n: nat): (r: seq<byte>)
    requires n < 0x100_0000
    ensures |r| == 4
  {
    [Digit(n / 0x4_0000), Digit(n / 0x1000 % 64), Digit(n / 64 % 64), Digit(n % 64)]
  }

  /** Three bytes as one 24-bit number. */
  function Pack(a: int, b: int, c: int): int { a * 0x1_0000 + b * 0x100 + c }

  /** The encoding as the RFC words it: 24-bit groups, the last one zero-extended and padded. */
  function Encoded(src: seq<byte>): seq<byte> {
    if |src| == 0 then []
    else if |src| == 1 then Group(Pack(src[0], 0, 0))[..2] + [PAD, PAD]
    else if |src| == 2 then Group(Pack(src[0], src[1], 0))[..3] + [PAD]
    else Group(Pack(src[0], src[1], src[2])) + Encoded(src[3..])
  }

  /** The guard of the decoder loop: four bytes of the alphabet, `=` included. */
  predicate Readable(s: seq<byte>)
    requires |s| >= 4
  {
    FromB64(s[0]) != INVALID && FromB64(s[1]) != INVALID && FromB64(s[2]) != INVALID && FromB64(s[3]) != INVALID
  }

  /** What the decoder loop makes of `s`: the bytes it stores and how much of `s` it consumes. */
  function Decoded(s: seq<byte>): (r: (seq<byte>, nat))
    ensures r.1 <= |s| && 4 * |r.0| <= 3 * r.1
  {
    if |s| < 4 || !Readable(s) then ([], 0)
    else
      var a, b, c, d := FromB64(s[0]), FromB64(s[1]), FromB64(s[2]), FromB64(s[3]);
      if a == PADDING || b == PADDING then ([], 4)
      else if c == PADDING then ([First(a, b)], 4)
      else if d == PADDING then ([First(a, b), Second(b, c)], 4)
      else
        var rest := Decoded(s[4..]);
        ([First(a, b), Second(b, c), Third(c, d)] + rest.0, 4 + rest.1)
  }

  // `a >> 2`, `(a & 3) << 4 | b >> 4`, `(b & 15) << 2 | c >> 6` and `c & 63`.
  function Six0(a: byte): (v: nat) ensures v < 64 { a / 4 }
  function Six1(a: byte, b: byte): (v: nat) ensures v < 64 { a % 4 * 16 + b / 16 }
  function Six2(b: byte, c: byte): (v: nat) ensures v < 64 { b % 16 * 4 + c / 64 }
  function Six3(c: byte): (v: nat) ensures v < 64 { c % 64 }

  // `a << 2 | b >> 4`, `b << 4 | c >> 2` and `c << 6 | d`, each cut to one byte.
  function First(a: byte, b: byte): byte { (a * 4 + b / 16) % 0x100 }
  function Second(b: byte, c: byte): byte { (b * 16 + c / 4) % 0x100 }
  function Third(c: byte, d: byte): byte { (c * 64 + d) % 0x100 }

  lemma DigitInverse(v: nat)
    requires v < 64
    ensures FromB64(Digit(v)) == v
  {
  }

  lemma PadIsNotADigit()
    ensures FromB64(PAD) == PADDING
  {
  }

  lemma {:induction false} EncodedLength(src: seq<byte>)
    ensures |Encoded(src)| == (|src| + 2) / 3 * 4
  {
    hide Group, Pack;
    if |src| >= 3 {
      assert (|src| + 2) / 3 == 1 + (|src[3..]| + 2) / 3;
      EncodedLength(src[3..]);
    }
  }

  /** One full group in front of `rest` decodes to its three bytes. */
  lemma DecodeGroup(a: byte, b: byte, c: byte, rest: seq<byte>)
    ensures Decoded(Group(Pack(a, b, c)) + rest) == ([a, b, c] + Decoded(rest).0, 4 + Decoded(rest).1)
  {
    hide Digit, FromB64, First, Second, Third, Six0, Six1, Six2, Six3;
    GroupDigits(a, b, c);
    SplitFirst(a, b);
    SplitSecond(a, b, c);
    SplitThird(b, c);
    DigitInverse(Six0(a));
    DigitInverse(Six1(a, b));
    DigitInverse(Six2(b, c));
    DigitInverse(Six3(c));
    assert (Group(Pack(a, b, c)) + rest)[4..] == rest;
  }

  /** The padded last group of one or two bytes. */
  lemma DecodePadded(a: byte, b: byte)
    ensures Decoded(Group(Pack(a, 0, 0))[..2] + [PAD, PAD]) == ([a], 4)
    ensures Decoded(Group(Pack(a, b, 0))[..3] + [PAD]) == ([a, b], 4)
  {
    hide Digit, FromB64, First, Second, Third, Six0, Six1, Six2, Six3;
    GroupDigits(a, 0, 0);
    SplitFirst(a, 0);
    SplitSecond(a, 0, 0);
    SplitThird(0, 0);
    GroupDigits(a, b, 0);
    SplitFirst(a, b);
    SplitSecond(a, b, 0);
    SplitThird(b, 0);
    DigitInverse(Six0(a));
    DigitInverse(Six1(a, 0));
    DigitInverse(Six1(a, b));
    DigitInverse(Six2(b, 0));
    PadIsNotADigit();
  }

  /** Decoding an encoding gives the bytes back and consumes the whole encoding. */
  lemma {:induction false} RoundTrip(src: seq<byte>)
    ensures Decoded(Encoded(src)) == (src, |Encoded(src)|)
  {
    hide Decoded, Group;
    if |src| == 0 {
      DecodedStop([], 0, 0);
    } else if |src| <= 2 {
      DecodePadded(src[0], src[|src| - 1]);
      EncodedLength(src);
      assert src == if |src| == 1 then [src[0]] else [src[0], src[1]];
    } else {
      RoundTrip(src[3..]);
      DecodeGroup(src[0], src[1], src[2], Encoded(src[3..]));
      assert src == [src[0], src[1], src[2]] + src[3..];
    }
  }

  /** The four digits of a group as the C expressions compute them from its three bytes. */
  lemma GroupDigits(a: byte, b: byte, c: byte)
    ensures Group(Pack(a, b, c))
         == [Digit(Six0(a)), Digit(Six1(a, b)), Digit(Six2(b, c)), Digit(Six3(c))]
  {
    hide Digit, Six0, Six1, Six2, Six3, Pack;
    HighDigits(a, b, c);
    LowDigits(a, b, c);
  }

  lemma HighDigits(a: byte, b: byte, c: byte)
    ensures Pack(a, b, c) / 0x4_0000 == Six0(a) && Pack(a, b, c) / 0x1000 % 64 == Six1(a, b)
  {
    var a1, a0, b1, b0 := a / 4, a % 4, b / 16, b % 16;
    DivModUnique(Pack(a, b, c), 0x4_0000, a1, a0 * 0x1_0000 + b * 0x100 + c);
    DivModUnique(Pack(a, b, c), 0x1000, a * 16 + b1, b0 * 0x100 + c);
    DivModUnique(a * 16 + b1, 64, a1, a0 * 16 + b1);
  }

  lemma LowDigits(a: byte, b: byte, c: byte)
    ensures Pack(a, b, c) / 64 % 64 == Six2(b, c) && Pack(a, b, c) % 64 == Six3(c)
  {
    var b1, b0, c1, c0 := b / 16, b % 16, c / 64, c % 64;
    DivModUnique(Pack(a, b, c), 64, a * 0x400 + b * 4 + c1, c0);
    DivModUnique(a * 0x400 + b * 4 + c1, 64, a * 16 + b1, b0 * 4 + c1);
  }

  // The decoder's shifts recover the three bytes from those digits.
  lemma SplitFirst(a: byte, b: byte)
    ensures First(Six0(a), Six1(a, b)) == a
  {
    DivModUnique(a % 4 * 16 + b / 16, 16, a % 4, b / 16);
  }

  lemma SplitSecond(a: byte, b: byte, c: byte)
    ensures Second(Six1(a, b), Six2(b, c)) == b
  {
    DivModUnique(b % 16 * 4 + c / 64, 4, b % 16, c / 64);
    DivModUnique((a % 4 * 16 + b / 16) * 16 + b % 16, 0x100, a % 4, b);
  }

  lemma SplitThird(b: byte, c: byte)
    ensures Third(Six2(b, c), Six3(c)) == c
  {
    DivModUnique((b % 16 * 4 + c / 64) * 64 + c % 64, 0x100, b % 16, c);
  }

  /** Where the encoder stands: `j` digits written for `i` bytes read, and the next group. */
  ghost predicate EncodedFrom(src: seq<byte>, i: nat, j: nat) {
    i <= |src| && j <= |Encoded(src)| && Encoded(src)[j..] == Encoded(src[i..])
  }

  lemma EncodedStep(src: seq<byte>, i: nat, j: nat)
    requires EncodedFrom(src, i, j) && i < |src|
    ensures var e, a := Encoded(src), src[i];
            var b, c := if i + 1 >= |src| then 0 else src[i + 1], if i + 2 >= |src| then 0 else src[i + 2];
            && |e| >= j + 4 && e[j] == Digit(Six0(a)) && e[j + 1] == Digit(Six1(a, b))
            && (if i + 1 < |src| then e[j + 2] == Digit(Six2(b, c)) else |e| == j + 4 && e[j + 2] == PAD)
            && (if i + 2 < |src| then e[j + 3] == Digit(Six3(c)) else |e| == j + 4 && e[j + 3] == PAD)
            && (i + 3 <= |src| ==> EncodedFrom(src, i + 3, j + 4))
  {
    hide Digit, Six0, Six1, Six2, Six3, Group, Pack;
    var e, t := Encoded(src), src[i..];
    GroupDigits(t[0], if |t| >= 2 then t[1] else 0, if |t| >= 3 then t[2] else 0);
    var r := Encoded(t);
    assert e[j] == r[0] && e[j + 1] == r[1] && e[j + 2] == r[2] && e[j + 3] == r[3];
    if i + 3 <= |src| {
      assert t[3..] == src[i + 3..] && e[j + 4..] == r[4..];
    }
  }

  lemma EncodedStart(src: seq<byte>)
    ensures EncodedFrom(src, 0, 0) && |Encoded(src)| == (|src| + 2) / 3 * 4
  {
    EncodedLength(src);
    assert src[0..] == src;
  }

  lemma EncodedEnd(src: seq<byte>, j: nat)
    requires EncodedFrom(src, |src|, j)
    ensures j == |Encoded(src)|
  {
    assert src[|src|..] == [];
  }

  /** `base64_encode`: fills `dst` with the encoding and a terminating NUL. */
  method Encode(src: seq<byte>, dst: array<byte>)
    requires dst.Length > (|src| + 2) / 3 * 4
    modifies dst
    ensures |Encoded(src)| < dst.Length
    ensures dst[..|Encoded(src)|] == Encoded(src) && dst[|Encoded(src)|] == 0
    ensures forall k :: |Encoded(src)| < k < dst.Length ==> dst[k] == old(dst[k])
  {
    hide Digit, Encoded, Six0, Six1, Six2, Six3, EncodedFrom;
    ghost var e := Encoded(src);
    var i, j := 0, 0;
    ghost var n := 0;
    EncodedStart(src);
    while i < |src|
      invariant 0 <= j <= |e|
      invariant i <= |src| ==> j == 4 * n && EncodedFrom(src, i, j)
      invariant i > |src| ==> |e| == 4 * n && |e| - j < 4 && forall k :: j <= k < |e| ==> e[k] == PAD
      invariant forall k :: 0 <= k < j ==> dst[k] == e[k]
      invariant forall k :: |e| < k < dst.Length ==> dst[k] == old(dst[k])
    {
      var a := src[i];
      var b := if i + 1 >= |src| then 0 else src[i + 1];
      var c := if i + 2 >= |src| then 0 else src[i + 2];
      EncodedStep(src, i, j);
      dst[j] := Digit(Six0(a));
      j := j + 1;
      dst[j] := Digit(Six1(a, b));
      j := j + 1;
      if i + 1 < |src| {
        dst[j] := Digit(Six2(b, c));
        j := j + 1;
      }
      if i + 2 < |src| {
        dst[j] := Digit(Six3(c));
        j := j + 1;
      }
      i, n := i + 3, n + 1;
    }
    if i == |src| {
      EncodedEnd(src, j);
    }
    while j % 4 != 0
      invariant 0 <= j <= |e| == 4 * n && |e| - j < 4
      invariant forall k :: j <= k < |e| ==> e[k] == PAD
      invariant forall k :: 0 <= k < j ==> dst[k] == e[k]
      invariant forall k :: |e| < k < dst.Length ==> dst[k] == old(dst[k])
      decreases |e| - j
    {
      dst[j] := PAD;
      j := j + 1;
    }
    dst[j] := 0;
    assert dst[..j] == e;
  }

  /** Where the decoder stands: `out` bytes stored for `s` bytes of input consumed. */
  ghost predicate DecodedFrom(src: seq<byte>, s: nat, out: nat) {
    && s <= |src| && out <= |Decoded(src).0| && 4 * out <= 3 * s
    && Decoded(src).0[out..] == Decoded(src[s..]).0
    && Decoded(src).1 == s + Decoded(src[s..]).1
  }

  lemma DecodedStep(src: seq<byte>, s: nat, out: nat)
    requires DecodedFrom(src, s, out) && s + 4 <= |src| && Readable(src[s..])
    ensures var r := Decoded(src);
            var a, b, c, d := FromB64(src[s]), FromB64(src[s + 1]), FromB64(src[s + 2]), FromB64(src[s + 3]);
            if a == PADDING || b == PADDING then |r.0| == out && r.1 == s + 4
            else
              && |r.0| >= out + 1 && r.0[out] == First(a, b)
              && if c == PADDING then |r.0| == out + 1 && r.1 == s + 4
                 else
                   && |r.0| >= out + 2 && r.0[out + 1] == Second(b, c)
                   && if d == PADDING then |r.0| == out + 2 && r.1 == s + 4
                      else |r.0| >= out + 3 && r.0[out + 2] == Third(c, d) && DecodedFrom(src, s + 4, out + 3)
  {
    hide FromB64, First, Second, Third;
    var r, t := Decoded(src), src[s..];
    var q := Decoded(t);
    assert t[4..] == src[s + 4..];
    assert forall k :: 0 <= k < |q.0| ==> r.0[out + k] == q.0[k];
    assert |q.0| >= 3 ==> r.0[out + 3..] == q.0[3..];
  }

  lemma DecodedStart(src: seq<byte>)
    ensures DecodedFrom(src, 0, 0) && |Decoded(src).0| <= |src| / 4 * 3
  {
    assert src[0..] == src;
    DecodedQuads(src);
  }

  /** Only whole groups of four bytes are consumed. */
  lemma {:induction false} DecodedQuads(s: seq<byte>)
    ensures Decoded(s).1 % 4 == 0 && |Decoded(s).0| <= |s| / 4 * 3
  {
    hide FromB64, First, Second, Third;
    if |s| >= 4 {
      DecodedQuads(s[4..]);
    }
  }

  lemma DecodedStop(src: seq<byte>, s: nat, out: nat)
    requires DecodedFrom(src, s, out) && (|src| - s < 4 || !Readable(src[s..]))
    ensures |Decoded(src).0| == out && Decoded(src).1 == s
  {
  }

  /** `base64_decode`: stores the decoded bytes and a NUL in `dst`, answers how much was consumed. */
  method Decode(src: seq<byte>, dst: array<byte>) returns (consumed: nat)
    requires dst.Length > |src| / 4 * 3
    modifies dst
    ensures consumed == Decoded(src).1
    ensures |Decoded(src).0| < dst.Length
    ensures dst[..|Decoded(src).0|] == Decoded(src).0 && dst[|Decoded(src).0|] == 0
  {
    hide Decoded, DecodedFrom, FromB64, First, Second, Third;
    ghost var r := Decoded(src);
    var s, out := 0, 0;
    DecodedStart(src);
    while true
      invariant 0 <= s <= |src| && DecodedFrom(src, s, out) && out <= |r.0|
      invariant forall k :: 0 <= k < out ==> dst[k] == r.0[k]
      decreases |src| - s
    {
      if |src| - s < 4 || !Readable(src[s..]) {
        DecodedStop(src, s, out);
        break;
      }
      DecodedStep(src, s, out);
      var a, b, c, d := FromB64(src[s]), FromB64(src[s + 1]), FromB64(src[s + 2]), FromB64(src[s + 3]);
      s := s + 4;
      if a == PADDING || b == PADDING {
        break;
      }
      dst[out] := First(a, b);
      out := out + 1;
      if c == PADDING {
        break;
      }
      dst[out] := Second(b, c);
      out := out + 1;
      if d == PADDING {
        break;
      }
      dst[out] := Third(c, d);
      out := out + 1;
    }
    dst[out] := 0;
    assert out == |r.0| && forall k :: 0 <= k < out ==> dst[..out][k] == r.0[k];
    assert dst[..out] == r.0;
    consumed := s;
  }

  // ---- The alphabet and the groups, as the standard has them --------------------------------------

  /** Table 1 of RFC 4648. */
  lemma AlphabetIs(v: nat)
    ensures v < 26 ==> Digit(v) as char == "ABCDEFGHIJKLMNOPQRSTUVWXYZ"[v]
    ensures v < 26 ==> Digit(26 + v) as char == "abcdefghijklmnopqrstuvwxyz"[v]
    ensures v < 10 ==> Digit(52 + v) as char == "0123456789"[v]
    ensures v < 2 ==> Digit(62 + v) as char == "+/"[v]
  {
  }

  /** A byte stands for `v` if it is its digit; the code also takes it with the highest bit set. */
  lemma DigitOf(ch: byte, v: nat)
    requires v < 64
    ensures FromB64(ch) == v <==> ch == Digit(v) || ch == Digit(v) + 128
    ensures FromB64(ch) == PADDING <==> ch == 61 || ch == 61 + 128
    ensures FromB64(ch) < 64 || FromB64(ch) == PADDING || FromB64(ch) == INVALID
  {
  }

  /** Four digits as one 24-bit number. */
  function Quad(a: nat, b: nat, c: nat, d: nat): nat { a * 0x4_0000 + b * 0x1000 + c * 0x40 + d }

  /** Four digits decode to the three bytes of their 24-bit number. */
  lemma DecodesAGroup(s: seq<byte>)
    requires |s| >= 4 && forall k :: 0 <= k < 4 ==> FromB64(s[k]) < 64
    ensures var n, rest := Quad(FromB64(s[0]), FromB64(s[1]), FromB64(s[2]), FromB64(s[3])), Decoded(s[4..]);
            Decoded(s) == ([n / 0x1_0000, n / 0x100 % 0x100, n % 0x100] + rest.0, 4 + rest.1)
  {
    hide FromB64, First, Second, Third, Quad;
    var a, b, c, d := FromB64(s[0]), FromB64(s[1]), FromB64(s[2]), FromB64(s[3]);
    TopByte(a, b, c, d);
    MiddleByte(a, b, c, d);
    LowByte(a, b, c, d);
  }

  /** Padding ends the decoding with the one or two whole bytes there are. */
  lemma DecodesTheLast(s: seq<byte>)
    requires |s| >= 4 && Readable(s) && FromB64(s[0]) < 64 && FromB64(s[1]) < 64
    ensures FromB64(s[2]) == PADDING ==>
              Decoded(s) == ([Quad(FromB64(s[0]), FromB64(s[1]), 0, 0) / 0x1_0000], 4)
    ensures FromB64(s[2]) < 64 && FromB64(s[3]) == PADDING ==>
              var n := Quad(FromB64(s[0]), FromB64(s[1]), FromB64(s[2]), 0);
              Decoded(s) == ([n / 0x1_0000, n / 0x100 % 0x100], 4)
  {
    hide FromB64, First, Second, Third, Quad;
    var a, b, c := FromB64(s[0]), FromB64(s[1]), FromB64(s[2]);
    TopByte(a, b, 0, 0);
    if c < 64 {
      TopByte(a, b, c, 0);
      MiddleByte(a, b, c, 0);
    }
  }

  /** Decoding ends, with nothing consumed, exactly at fewer than four bytes or a foreign one among four. */
  lemma DecodesNothing(s: seq<byte>)
    ensures Decoded(s).1 == 0 <==> |s| < 4 || !Readable(s)
    ensures Decoded(s).1 == 0 ==> Decoded(s).0 == []
  {
    hide FromB64, First, Second, Third, Readable;
  }

  lemma TopByte(a: byte, b: byte, c: byte, d: byte)
    requires a < 64 && b < 64 && c < 64 && d < 64
    ensures Quad(a, b, c, d) / 0x1_0000 == First(a, b)
  {
    var high, low := b / 16, b % 16;
    DivModUnique(Quad(a, b, c, d), 0x1_0000, a * 4 + high, low * 0x1000 + c * 0x40 + d);
  }

  lemma MiddleByte(a: byte, b: byte, c: byte, d: byte)
    requires a < 64 && b < 64 && c < 64 && d < 64
    ensures Quad(a, b, c, d) / 0x100 % 0x100 == Second(b, c)
  {
    var b1, b0, c1, c0 := b / 16, b % 16, c / 4, c % 4;
    DivModUnique(Quad(a, b, c, d), 0x100, a * 0x400 + b * 16 + c1, c0 * 0x40 + d);
    DivModUnique(a * 0x400 + b * 16 + c1, 0x100, a * 4 + b1, b0 * 16 + c1);
    DivModUnique(b * 16 + c1, 0x100, b1, b0 * 16 + c1);
  }

  lemma LowByte(a: byte, b: byte, c: byte, d: byte)
    requires a < 64 && b < 64 && c < 64 && d < 64
    ensures Quad(a, b, c, d) % 0x100 == Third(c, d)
  {
    var c1, c0 := c / 4, c % 4;
    DivModUnique(Quad(a, b, c, d), 0x100, a * 0x400 + b * 16 + c1, c0 * 0x40 + d);
    DivModUnique(c * 64 + d, 0x100, c1, c0 * 0x40 + d);
  }
}
