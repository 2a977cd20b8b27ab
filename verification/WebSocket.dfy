/**
 * WebSocket frames (section 5.2 of RFC 6455) as sent by `ns_send_ws_header` and cut out of the
 * receive buffer by `deliver_websocket_data`, examples/fossa/fossa.c.
 */
module WebSocket {
  import opened Bytes
  import opened Wrappers
  import opened Mbuf

  const OP_CLOSE := 8
  const TWO_64 := 0x1_0000_0000_0000_0000

  // ---- Masking ------------------------------------------------------------------------------

  function Pow2(n: nat): nat { if n == 0 then 1 else 2 * Pow2(n - 1) }

  /** Exclusive or of the lowest `n` bits. */
  function XorBits(n: nat, a: nat, b: nat): nat {
    if n == 0 then 0 else (a + b) % 2 + 2 * XorBits(n - 1, a / 2, b / 2)
  }

  lemma {:induction false} XorBound(n: nat, a: nat, b: nat)
    ensures XorBits(n, a, b) < Pow2(n)
  {
    if n > 0 {
      XorBound(n - 1, a / 2, b / 2);
    }
  }

  lemma {:induction false} XorTwice(n: nat, a: nat, b: nat)
    requires a < Pow2(n)
    ensures XorBits(n, XorBits(n, a, b), b) == a
  {
    if n > 0 {
      var x, half := XorBits(n, a, b), XorBits(n - 1, a / 2, b / 2);
      LowBit((a + b) % 2, half);
      LowBitTwice(x, a, b);
      XorTwice(n - 1, a / 2, b / 2);
    }
  }

  lemma LowBit(bit: nat, half: nat)
    requires bit < 2
    ensures (bit + 2 * half) % 2 == bit && (bit + 2 * half) / 2 == half
  {
  }

  lemma LowBitTwice(x: nat, a: nat, b: nat)
    requires x % 2 == (a + b) % 2
    ensures (x + b) % 2 == a % 2
  {
  }

  /** Bit `k` of `x`, the lowest one first. */
  function Bit(x: nat, k: nat): nat
    decreases k
  {
    if k == 0 then x % 2 else Bit(x / 2, k - 1)
  }

  /** A bit is set exactly when one of the two operands has it. */
  lemma {:induction false} XorBitwise(n: nat, a: nat, b: nat, k: nat)
    requires k < n
    ensures Bit(XorBits(n, a, b), k) == if Bit(a, k) == Bit(b, k) then 0 else 1
    decreases k
  {
    LowBit((a + b) % 2, XorBits(n - 1, a / 2, b / 2));
    if k > 0 {
      XorBitwise(n - 1, a / 2, b / 2, k - 1);
    }
  }

  function Xor(a: byte, b: byte): byte {
    XorBound(8, a, b);
    assert Pow2(8) == 0x100;
    XorBits(8, a, b)
  }

  lemma XorInverse(a: byte, b: byte)
    ensures Xor(Xor(a, b), b) == a
  {
    assert Pow2(8) == 0x100;
    XorTwice(8, a, b);
  }

  /** Section 5.3 of RFC 6455: the same operation masks and unmasks. */
  function Masked(key: seq<byte>, data: seq<byte>): (r: seq<byte>)
    requires |key| == 4
    ensures |r| == |data|
  {
    seq(|data|, i requires 0 <= i < |data| => Xor(data[i], key[i % 4]))
  }

  lemma MaskedTwice(key: seq<byte>, data: seq<byte>)
    requires |key| == 4
    ensures Masked(key, Masked(key, data)) == data
  {
    hide Xor;
    forall i | 0 <= i < |data|
      ensures Xor(Xor(data[i], key[i % 4]), key[i % 4]) == data[i]
    {
      XorInverse(data[i], key[i % 4]);
    }
  }

  /** Byte `i` of masked data is byte `i` of the data exclusive-or key byte `i` modulo 4, bit by bit. */
  lemma MaskedBits(key: seq<byte>, data: seq<byte>, i: nat, k: nat)
    requires |key| == 4 && i < |data| && k < 8
    ensures Bit(Masked(key, data)[i], k) == if Bit(data[i], k) == Bit(key[i % 4], k) then 0 else 1
  {
    hide Bit, XorBits;
    XorBitwise(8, data[i], key[i % 4], k);
  }

  // ---- Frames -------------------------------------------------------------------------------

  /** A frame on the wire; servers send no mask. */
  datatype Frame = Frame(flags: byte, mask: Option<seq<byte>>, data: seq<byte>) {
    predicate Valid() { (mask.Some? ==> |mask.value| == 4) && |data| + 14 < TWO_64 }
  }

  /** Final fragment of a message that is not a continuation. */
  predicate IsFragment(flags: byte) { flags < 128 || flags % 16 == 0 }

  /** The second header byte and the extended length, as `ns_send_ws_header` chooses them. */
  function LengthField(length: nat, maskBit: byte): seq<byte>
    requires length < TWO_64 && (maskBit == 0 || maskBit == 128)
  {
    if length < 126 then [maskBit + length]
    else if length < 65535 then [maskBit + 126] + PutBe16(length)
    else [maskBit + 127] + PutBe32(length / 0x1_0000_0000) + PutBe32(length % 0x1_0000_0000)
  }

  function MaskKey(mask: Option<seq<byte>>): seq<byte> { if mask.Some? then mask.value else [] }

  function Header(f: Frame): seq<byte>
    requires f.Valid()
  {
    [f.flags] + LengthField(|f.data|, if f.mask.Some? then 128 else 0) + MaskKey(f.mask)
  }

  function Encoded(f: Frame): seq<byte>
    requires f.Valid()
  {
    Header(f) + if f.mask.Some? then Masked(f.mask.value, f.data) else f.data
  }

  /** What the user's handler is given. */
  datatype Message = Message(flags: byte, data: seq<byte>)

  function MessageOf(f: Frame): Message { Message(f.flags, f.data) }

  // ---- One pass of the deliver loop ---------------------------------------------------------

  /** header length, data length and mask length as read from the first bytes; 0 0 0 when too few. */
  datatype Lengths = Lengths(header: nat, data: nat, mask: nat)

  function ReadLengths(b: seq<byte>): (r: Lengths)
    ensures r.header == 0 || 2 + r.mask <= r.header
    ensures r.header == 0 ==> r.data == 0
    ensures r.data < TWO_64 && r.header <= 14 && (r.mask == 0 || r.mask == 4)
  {
    if |b| < 2 then Lengths(0, 0, 0)
    else
      var len: nat, mask := b[1] % 128, if b[1] >= 128 then 4 else 0;
      if len < 126 && |b| >= mask then Lengths(2 + mask, len, mask)
      else if len == 126 && |b| >= 4 + mask then Lengths(4 + mask, GetBe16(b[2..]), mask)
      else if |b| >= 10 + mask then
        Lengths(10 + mask, 0x1_0000_0000 * (GetBe32(b[2..]) as int) + GetBe32(b[6..]) as int, mask)
      else Lengths(0, 0, mask)
  }

  /**
   * With defragmentation on, a buffer that starts like a continuation frame is taken to start
   * with a partly joined message: its flags, a 32-bit size, and that many bytes. If they are
   * all there, the frame is looked for behind them.
   */
  predicate Shifts(noDefrag: bool, b: seq<byte>) {
    !noDefrag && |b| >= 5 && b[0] % 16 == 0 && |b| >= 5 + GetLe32(b[1..5])
  }

  /**
   * Incomplete: not yet a whole frame. Defragmenting: the defragmentation path, whose effect
   * is not part of this model. Wild: the 64-bit sum of header and data length wrapped, so that the C code
   * takes a short frame for one whose data reaches past the buffer.
   */
  datatype Step =
    | Incomplete
    | Defragmenting
    | Wild
    | Delivered(message: Message, rest: seq<byte>)

  function StepOf(noDefrag: bool, b: seq<byte>): (r: Step)
    ensures r.Delivered? ==> |r.rest| < |b|
  {
    if Shifts(noDefrag, b) then Defragmenting else FrameStep(noDefrag, b)
  }

  /** The same where no shift takes place. */
  function FrameStep(noDefrag: bool, b: seq<byte>): (r: Step)
    ensures r.Delivered? ==> |r.rest| < |b|
  {
    var l := ReadLengths(b);
    var frameLen := (l.header + l.data) % TWO_64;
    if frameLen == 0 || frameLen > |b| then Incomplete
    else if IsFragment(b[0]) && !noDefrag then Defragmenting
    else if l.header + l.data >= TWO_64 then Wild
    else Delivered(Message(b[0], Payload(b, l)), b[frameLen..])
  }

  /** The data of a whole frame, unmasked. */
  function Payload(b: seq<byte>, l: Lengths): seq<byte>
    requires 2 + l.mask <= l.header && l.header + l.data <= |b| && (l.mask == 0 || l.mask == 4)
  {
    var data := b[l.header..l.header + l.data];
    if l.mask == 4 then Masked(b[l.header - 4..l.header], data) else data
  }

  // ---- The stream ---------------------------------------------------------------------------

  /** The do-while loop over the receive buffer: what it hands over, what it leaves, how it ends. */
  function Drained(noDefrag: bool, b: seq<byte>): (seq<Message>, seq<byte>, Step)
    decreases |b|
  {
    var step := StepOf(noDefrag, b);
    if step.Delivered? then
      var (messages, rest, last) := Drained(noDefrag, step.rest);
      ([step.message] + messages, rest, last)
    else ([], b, step)
  }

  /** Frames whose flags this receiver hands over unassembled. */
  ghost predicate Acceptable(noDefrag: bool, frames: seq<Frame>) {
    forall f :: f in frames ==> f.Valid() && (noDefrag || !IsFragment(f.flags))
  }

  ghost function Stream(frames: seq<Frame>): seq<byte>
    requires forall f :: f in frames ==> f.Valid()
  {
    if frames == [] then [] else Encoded(frames[0]) + Stream(frames[1..])
  }

  function Messages(frames: seq<Frame>): seq<Message> {
    seq(|frames|, i requires 0 <= i < |frames| => MessageOf(frames[i]))
  }

  /** How many whole frames `b`, the start of a stream, holds, and what is left behind them. */
  ghost function Cut(frames: seq<Frame>, b: seq<byte>): (r: (nat, seq<byte>))
    requires forall f :: f in frames ==> f.Valid()
    ensures r.0 <= |frames| && (r.0 < |frames| ==> |r.1| < |Encoded(frames[r.0])|)
  {
    if frames == [] || |b| < |Encoded(frames[0])| then (0, b)
    else
      var (k, rest) := Cut(frames[1..], b[|Encoded(frames[0])|..]);
      (1 + k, rest)
  }

  /** The header of a whole frame reads back. */
  lemma HeaderReadsBack(f: Frame, rest: seq<byte>)
    requires f.Valid()
    ensures var l := ReadLengths(Header(f) + rest);
            l == Lengths(|Header(f)|, |f.data|, |MaskKey(f.mask)|)
  {
    hide PutBe16, PutBe32, GetBe16, GetBe32;
    var n, bit: byte := |f.data|, if f.mask.Some? then 128 else 0;
    var key := MaskKey(f.mask);
    var b := Header(f) + rest;
    if n < 126 {
    } else if n < 65535 {
      Be16RoundTrip(n);
      assert b == [f.flags, bit + 126] + (PutBe16(n) + (key + rest));
      assert b[2..] == PutBe16(n) + (key + rest);
    } else {
      var hi, lo := n / 0x1_0000_0000, n % 0x1_0000_0000;
      Be32RoundTrip(hi);
      Be32RoundTrip(lo);
      assert b == [f.flags, bit + 127] + (PutBe32(hi) + (PutBe32(lo) + (key + rest)));
      assert b[2..] == PutBe32(hi) + (PutBe32(lo) + (key + rest));
      assert b[6..] == PutBe32(lo) + (key + rest);
    }
  }

  /** A whole frame at the front of the buffer is delivered and cut off. */
  lemma WholeFrame(noDefrag: bool, f: Frame, rest: seq<byte>)
    requires Acceptable(noDefrag, [f])
    ensures f.Valid() && StepOf(noDefrag, Encoded(f) + rest) == Delivered(MessageOf(f), rest)
  {
    hide LengthField, ReadLengths, Xor, Masked, GetLe32;
    assert f in [f];
    HeaderStarts(f);
    var wire := if f.mask.Some? then Masked(f.mask.value, f.data) else f.data;
    var b, h := Encoded(f) + rest, |Header(f)|;
    assert b == Header(f) + (wire + rest);
    HeaderReadsBack(f, wire + rest);
    assert b[h..h + |f.data|] == wire && b[h + |f.data|..] == rest;
    if f.mask.Some? {
      assert b[h - 4..h] == f.mask.value;
      MaskedTwice(f.mask.value, f.data);
    }
  }

  /** What is delivered of the bytes on the wire: themselves, or unmasked with the key in front of them. */
  lemma DeliveredBits(noDefrag: bool, b: seq<byte>, i: nat, k: nat)
    requires StepOf(noDefrag, b).Delivered? && i < |StepOf(noDefrag, b).message.data| && k < 8
    ensures var l, data := ReadLengths(b), StepOf(noDefrag, b).message.data;
            && |data| == l.data && l.header + l.data <= |b| && b[0] == StepOf(noDefrag, b).message.flags
            && Bit(data[i], k)
               == if b[1] < 128 || Bit(b[l.header - 4 + i % 4], k) == 0 then Bit(b[l.header + i], k)
                  else 1 - Bit(b[l.header + i], k)
  {
    hide Bit, Masked, GetLe32, GetBe16, GetBe32;
    var l := ReadLengths(b);
    BitIs(b[l.header + i], k);
    if l.mask == 4 {
      MaskedBits(b[l.header - 4..l.header], b[l.header..l.header + l.data], i, k);
      BitIs(b[l.header - 4 + i % 4], k);
    }
  }

  lemma {:induction false} BitIs(x: nat, k: nat)
    ensures Bit(x, k) == 0 || Bit(x, k) == 1
    decreases k
  {
    if k > 0 {
      BitIs(x / 2, k - 1);
    }
  }

  const HELLO: seq<byte> := [0x48, 0x65, 0x6c, 0x6c, 0x6f]

  /** The examples of section 5.7 of RFC 6455: "Hello" without and with a mask. */
  lemma StandardExamples(noDefrag: bool)
    ensures StepOf(noDefrag, [0x81, 0x05, 0x48, 0x65, 0x6c, 0x6c, 0x6f]) == Delivered(Message(0x81, HELLO), [])
    ensures StepOf(noDefrag, [0x81, 0x85, 0x37, 0xfa, 0x21, 0x3d, 0x7f, 0x9f, 0x4d, 0x51, 0x58])
         == Delivered(Message(0x81, HELLO), [])
  {
    hide StepOf, Masked, Xor;
    var plain, masked := Frame(0x81, None, HELLO), Frame(0x81, Some([0x37, 0xfa, 0x21, 0x3d]), HELLO);
    HelloMasked();
    WholeFrame(noDefrag, plain, []);
    WholeFrame(noDefrag, masked, []);
    assert Encoded(plain) + [] == [0x81, 0x05, 0x48, 0x65, 0x6c, 0x6c, 0x6f];
    assert Header(masked) == [0x81, 0x85, 0x37, 0xfa, 0x21, 0x3d];
    assert Encoded(masked) + [] == [0x81, 0x85, 0x37, 0xfa, 0x21, 0x3d, 0x7f, 0x9f, 0x4d, 0x51, 0x58];
  }

  /** The headers of its examples of 256 bytes and of 64 KiB. */
  lemma LongHeaders(data: seq<byte>)
    ensures |data| == 256 ==> Header(Frame(0x82, None, data)) == [0x82, 0x7e, 0x01, 0x00]
    ensures |data| == 65536 ==> Header(Frame(0x82, None, data)) == [0x82, 0x7f, 0, 0, 0, 0, 0, 1, 0, 0]
  {
  }

  lemma HelloMasked()
    ensures Masked([0x37, 0xfa, 0x21, 0x3d], HELLO) == [0x7f, 0x9f, 0x4d, 0x51, 0x58]
  {
    hide XorBits;
    HelloFirst();
    HelloSecond();
    HelloThird();
    HelloFourth();
    HelloFifth();
  }

  lemma HelloFirst()
    ensures XorBits(8, 0x48, 0x37) == 0x7f
  {
    hide XorBits;
    XorNext(0, 0, 0);
    XorNext(8, 72, 55); XorNext(7, 36, 27); XorNext(6, 18, 13); XorNext(5, 9, 6);
    XorNext(4, 4, 3); XorNext(3, 2, 1); XorNext(2, 1, 0); XorNext(1, 0, 0);
  }

  lemma HelloSecond()
    ensures XorBits(8, 0x65, 0xfa) == 0x9f
  {
    hide XorBits;
    XorNext(0, 0, 0);
    XorNext(8, 101, 250); XorNext(7, 50, 125); XorNext(6, 25, 62); XorNext(5, 12, 31);
    XorNext(4, 6, 15); XorNext(3, 3, 7); XorNext(2, 1, 3); XorNext(1, 0, 1);
  }

  lemma HelloThird()
    ensures XorBits(8, 0x6c, 0x21) == 0x4d
  {
    hide XorBits;
    XorNext(0, 0, 0);
    XorNext(8, 108, 33); XorNext(7, 54, 16); XorNext(6, 27, 8); XorNext(5, 13, 4);
    XorNext(4, 6, 2); XorNext(3, 3, 1); XorNext(2, 1, 0); XorNext(1, 0, 0);
  }

  lemma HelloFourth()
    ensures XorBits(8, 0x6c, 0x3d) == 0x51
  {
    hide XorBits;
    XorNext(0, 0, 0);
    XorNext(8, 108, 61); XorNext(7, 54, 30); XorNext(6, 27, 15); XorNext(5, 13, 7);
    XorNext(4, 6, 3); XorNext(3, 3, 1); XorNext(2, 1, 0); XorNext(1, 0, 0);
  }

  lemma HelloFifth()
    ensures XorBits(8, 0x6f, 0x37) == 0x58
  {
    hide XorBits;
    XorNext(0, 0, 0);
    XorNext(8, 111, 55); XorNext(7, 55, 27); XorNext(6, 27, 13); XorNext(5, 13, 6);
    XorNext(4, 6, 3); XorNext(3, 3, 1); XorNext(2, 1, 0); XorNext(1, 0, 0);
  }

  lemma XorNext(n: nat, a: nat, b: nat)
    ensures XorBits(n, a, b) == if n == 0 then 0 else (a + b) % 2 + 2 * XorBits(n - 1, a / 2, b / 2)
  {
  }

  lemma HeaderStarts(f: Frame)
    requires f.Valid()
    ensures var h := Header(f);
            && |h| >= 2 && h[0] == f.flags && |MaskKey(f.mask)| + 2 <= |h| <= 14
            && h[|h| - |MaskKey(f.mask)|..] == MaskKey(f.mask)
  {
  }

  /** A strict prefix of a frame is left alone, if and only if it is not taken for a partly joined message. */
  lemma PartialFrame(noDefrag: bool, f: Frame, n: nat)
    requires f.Valid() && n < |Encoded(f)|
    ensures var b := Encoded(f)[..n];
            StepOf(noDefrag, b) == if Shifts(noDefrag, b) then Defragmenting else Incomplete
    ensures Acceptable(noDefrag, [f]) ==> StepOf(noDefrag, Encoded(f)[..n]) == Incomplete
  {
    hide LengthField, ReadLengths, Masked, GetLe32;
    HeaderStarts(f);
    var b, h := Encoded(f)[..n], |Header(f)|;
    if n >= h {
      assert b == Header(f) + b[h..];
      HeaderReadsBack(f, b[h..]);
    } else {
      PartialHeader(f, n);
    }
    if Acceptable(noDefrag, [f]) {
      assert f in [f];
      assert n > 0 ==> b[0] == f.flags;
    }
  }

  /**
   * The start of a continuation frame of 65535 zeros: its length bytes read as a size of 127,
   * and the zeros behind that as a whole frame of two bytes.
   */
  lemma PrefixTakenForMessage()
    ensures var f := Frame(0, None, seq(65535, _ => 0));
            && f.Valid() && |Encoded(f)| == 65545
            && var b := Encoded(f)[..200];
            && StepOf(false, b) == Defragmenting && StepOf(true, b) == Incomplete
            && GetLe32(b[1..5]) == 127 && ReadLengths(b[132..]) == Lengths(2, 0, 0)
  {
    var zeros: seq<byte> := seq(65535, _ => 0);
    var f := Frame(0, None, zeros);
    hide ReadLengths, StepOf, Masked;
    ZerosHeader(f);
    var b := Encoded(f)[..200];
    assert b[..10] == Header(f) && b[1..5] == [127, 0, 0, 0];
    assert b[132] == zeros[122] && b[133] == zeros[123];
    TwoZeros(b[132..]);
    PartialFrame(false, f, 200);
    PartialFrame(true, f, 200);
  }

  lemma ZerosHeader(f: Frame)
    requires f.Valid() && f.flags == 0 && f.mask == None && |f.data| == 65535
    ensures Header(f) == [0, 127, 0, 0, 0, 0, 0, 0, 255, 255]
  {
  }

  lemma TwoZeros(b: seq<byte>)
    requires |b| >= 2 && b[0] == 0 && b[1] == 0
    ensures ReadLengths(b) == Lengths(2, 0, 0)
  {
  }

  lemma PartialHeader(f: Frame, n: nat)
    requires f.Valid() && n < |Header(f)|
    ensures var l := ReadLengths(Header(f)[..n]);
            l.header + l.data == 0 || n < l.header + l.data < TWO_64
    ensures Encoded(f)[..n] == Header(f)[..n]
  {
    hide GetBe16, GetBe32;
    Be16Length(|f.data|);
  }

  lemma Be16Length(n: nat)
    ensures n < 0x1_0000 ==> |PutBe16(n)| == 2
    ensures n < 0x1_0000_0000 ==> |PutBe32(n)| == 4
  {
  }

  /** The loop on the start of a stream delivers exactly the whole frames, in order. */
  lemma {:induction false} DrainedPrefix(noDefrag: bool, frames: seq<Frame>, b: seq<byte>)
    requires Acceptable(noDefrag, frames) && b <= Stream(frames)
    ensures var (k, rest) := Cut(frames, b);
            Drained(noDefrag, b) == (Messages(frames[..k]), rest, Incomplete) && rest <= Stream(frames[k..])
    decreases |frames|
  {
    hide Encoded, StepOf;
    if frames == [] {
      EmptyIncomplete(noDefrag);
      assert frames[..0] == [] && frames[0..] == [] && Messages([]) == [] && b == [];
      assert Drained(noDefrag, b) == ([], b, Incomplete);
    } else if |b| < |Encoded(frames[0])| {
      assert b == Encoded(frames[0])[..|b|] && Acceptable(noDefrag, [frames[0]]);
      PartialFrame(noDefrag, frames[0], |b|);
      assert frames[..0] == [] && frames[0..] == frames && Messages([]) == [];
      assert Drained(noDefrag, b) == ([], b, Incomplete);
    } else {
      var f, tail, size := frames[0], frames[1..], |Encoded(frames[0])|;
      var c := b[size..];
      assert b == Encoded(f) + c;
      assert c <= Stream(tail);
      assert Acceptable(noDefrag, [f]);
      WholeFrame(noDefrag, f, c);
      DrainedPrefix(noDefrag, tail, c);
      var k := Cut(tail, c).0;
      MessagesCons(frames, k);
    }
  }

  lemma MessagesCons(frames: seq<Frame>, k: nat)
    requires frames != [] && k < |frames|
    ensures Messages(frames[..k + 1]) == [MessageOf(frames[0])] + Messages(frames[1..][..k])
    ensures frames[k + 1..] == frames[1..][k..]
  {
  }

  lemma EmptyIncomplete(noDefrag: bool)
    ensures StepOf(noDefrag, []) == Incomplete
  {
  }

  /** Receiving: each chunk is appended to what is left, then the loop runs. */
  ghost function Received(noDefrag: bool, left: seq<byte>, chunks: seq<seq<byte>>): (seq<Message>, seq<byte>)
    decreases |chunks|
  {
    if chunks == [] then ([], left)
    else
      var (first, rest, _) := Drained(noDefrag, left + chunks[0]);
      var (more, final) := Received(noDefrag, rest, chunks[1..]);
      (first + more, final)
  }

  /** Cutting in two goes: the rest of the first is where the second goes on. */
  lemma {:induction false} CutInTwo(frames: seq<Frame>, b: seq<byte>, c: seq<byte>)
    requires forall f :: f in frames ==> f.Valid()
    ensures var (k, rest) := Cut(frames, b);
            var (j, last) := Cut(frames[k..], rest + c);
            Cut(frames, b + c) == (k + j, last)
    decreases |frames|
  {
    hide Encoded;
    if frames == [] || |b| < |Encoded(frames[0])| {
      assert frames[0..] == frames;
    } else {
      var size, k := |Encoded(frames[0])|, Cut(frames[1..], b[|Encoded(frames[0])|..]).0;
      assert (b + c)[size..] == b[size..] + c;
      assert frames[1..][k..] == frames[1 + k..];
      CutInTwo(frames[1..], b[size..], c);
    }
  }

  /**
   * Any cutting of the start of a stream into chunks delivers exactly the whole frames in it,
   * in order, and keeps the bytes of the unfinished one.
   */
  lemma {:induction false} ChunksDeliver(noDefrag: bool, frames: seq<Frame>, left: seq<byte>, chunks: seq<seq<byte>>)
    requires Acceptable(noDefrag, frames) && left + Join(chunks) <= Stream(frames)
    requires Cut(frames, left) == (0, left)
    ensures var (k, rest) := Cut(frames, left + Join(chunks));
            Received(noDefrag, left, chunks) == (Messages(frames[..k]), rest)
    decreases |chunks|
  {
    hide Encoded, Drained, Cut, Stream;
    if chunks == [] {
      assert left + Join(chunks) == left;
      assert frames[..0] == [] && Messages(frames[..0]) == [];
    } else {
      var b, more := left + chunks[0], Join(chunks[1..]);
      assert left + Join(chunks) == b + more;
      PrefixOf(b, more, Stream(frames));
      DrainedPrefix(noDefrag, frames, b);
      var (k, rest) := Cut(frames, b);
      CutInTwo(frames, b, []);
      CutInTwo(frames, b, more);
      assert rest + [] == rest && b + [] == b;
      RestOfStream(frames, b, more);
      ChunksDeliver(noDefrag, frames[k..], rest, chunks[1..]);
      var j := Cut(frames[k..], rest + more).0;
      MessagesSplit(frames, k, j);
    }
  }

  lemma PrefixOf<T>(a: seq<T>, b: seq<T>, c: seq<T>)
    requires a + b <= c
    ensures a <= c
  {
    assert a == (a + b)[..|a|];
  }

  lemma MessagesSplit(frames: seq<Frame>, k: nat, j: nat)
    requires k + j <= |frames|
    ensures Messages(frames[..k + j]) == Messages(frames[..k]) + Messages(frames[k..][..j])
  {
  }

  /** What is left of a chunk continues the stream of the frames not yet delivered. */
  lemma {:induction false} RestOfStream(frames: seq<Frame>, b: seq<byte>, more: seq<byte>)
    requires (forall f :: f in frames ==> f.Valid()) && b + more <= Stream(frames)
    ensures var (k, rest) := Cut(frames, b); rest + more <= Stream(frames[k..])
    decreases |frames|
  {
    hide Encoded;
    if frames == [] || |b| < |Encoded(frames[0])| {
      assert frames[0..] == frames;
    } else {
      var size, k := |Encoded(frames[0])|, Cut(frames[1..], b[|Encoded(frames[0])|..]).0;
      assert (b + more)[size..] == b[size..] + more;
      assert Stream(frames)[size..] == Stream(frames[1..]);
      assert frames[1..][k..] == frames[1 + k..];
      RestOfStream(frames[1..], b[size..], more);
    }
  }

  /** The whole stream, in any cutting, delivers every frame and leaves nothing. */
  lemma StreamDelivered(noDefrag: bool, frames: seq<Frame>, chunks: seq<seq<byte>>)
    requires Acceptable(noDefrag, frames) && Join(chunks) == Stream(frames)
    ensures Received(noDefrag, [], chunks) == (Messages(frames), [])
  {
    hide Encoded, Received, Cut;
    CutNothing(frames);
    assert [] + Join(chunks) == Stream(frames);
    ChunksDeliver(noDefrag, frames, [], chunks);
    CutAll(frames);
    assert frames[..|frames|] == frames;
  }

  lemma CutNothing(frames: seq<Frame>)
    requires forall f :: f in frames ==> f.Valid()
    ensures Cut(frames, []) == (0, [])
  {
  }

  lemma {:induction false} CutAll(frames: seq<Frame>)
    requires forall f :: f in frames ==> f.Valid()
    ensures Cut(frames, Stream(frames)) == (|frames|, [])
    decreases |frames|
  {
    hide Encoded;
    if frames != [] {
      assert Stream(frames)[|Encoded(frames[0])|..] == Stream(frames[1..]);
      CutAll(frames[1..]);
    }
  }

  // ---- The connection -----------------------------------------------------------------------

  /**
   * The close check of `deliver_websocket_data` looks at the first byte of the buffer after
   * the frame has been removed: the next frame's, or, with nothing left, the stale byte of
   * this one. So a close frame is noticed when it is alone in the buffer or followed by another.
   */
  function SeesClose(message: Message, rest: seq<byte>): bool {
    (if rest == [] then message.flags else rest[0]) % 16 == OP_CLOSE
  }

  /** Some turn of the loop over the receive buffer sets the flag. */
  function SawClose(noDefrag: bool, b: seq<byte>): bool
    decreases |b|
  {
    var step := StepOf(noDefrag, b);
    step.Delivered? && (SeesClose(step.message, step.rest) || SawClose(noDefrag, step.rest))
  }

  predicate IsClose(f: Frame) { f.flags % 16 == OP_CLOSE }

  /** One of the frames from `i` up to `j` is a close frame. */
  ghost predicate CloseIn(frames: seq<Frame>, i: nat, j: nat) {
    exists m :: i <= m < j && m < |frames| && IsClose(frames[m])
  }

  predicate StartsClose(b: seq<byte>) { b != [] && b[0] % 16 == OP_CLOSE }

  lemma FirstByte(f: Frame, rest: seq<byte>)
    requires f.Valid()
    ensures Encoded(f) != [] && (Encoded(f) + rest)[0] == f.flags && (StartsClose(Encoded(f) + rest) <==> IsClose(f))
  {
    hide LengthField, Masked;
  }

  lemma SawStep(noDefrag: bool, f: Frame, c: seq<byte>)
    requires Acceptable(noDefrag, [f])
    ensures f.Valid()
    ensures SawClose(noDefrag, Encoded(f) + c) <==> (if c == [] then IsClose(f) else StartsClose(c)) || SawClose(noDefrag, c)
  {
    hide Encoded, StepOf;
    WholeFrame(noDefrag, f, c);
    assert f in [f];
  }

  /**
   * The flag after the loop has run on the start of a stream: set exactly when a whole frame
   * other than the first is a close frame, or the bytes left over start with one, or nothing
   * is left over and the last whole frame is one.
   */
  lemma {:induction false} FlagIs(noDefrag: bool, frames: seq<Frame>, b: seq<byte>)
    requires Acceptable(noDefrag, frames) && b <= Stream(frames)
    ensures var (k, rest) := Cut(frames, b);
            SawClose(noDefrag, b)
            <==> k > 0 && (CloseIn(frames, 1, k) || if rest == [] then IsClose(frames[k - 1]) else StartsClose(rest))
    decreases |frames|
  {
    hide Encoded, StepOf, IsClose, StartsClose, SawClose;
    if frames == [] || |b| < |Encoded(frames[0])| {
      NoFrameNoFlag(noDefrag, frames, b);
    } else {
      var f, tail, size := frames[0], frames[1..], |Encoded(frames[0])|;
      var c := b[size..];
      assert b == Encoded(f) + c && c <= Stream(tail);
      assert Acceptable(noDefrag, [f]);
      SawStep(noDefrag, f, c);
      FlagIs(noDefrag, tail, c);
      var (k, rest) := Cut(tail, c);
      CloseShift(frames, k);
      if k > 0 {
        FirstByte(tail[0], c[|Encoded(tail[0])|..]);
        assert c == Encoded(tail[0]) + c[|Encoded(tail[0])|..];
      }
    }
  }

  lemma NoFrameNoFlag(noDefrag: bool, frames: seq<Frame>, b: seq<byte>)
    requires Acceptable(noDefrag, frames) && b <= Stream(frames) && (frames == [] || |b| < |Encoded(frames[0])|)
    ensures !SawClose(noDefrag, b)
  {
    hide Encoded, StepOf;
    if frames == [] {
      EmptyIncomplete(noDefrag);
    } else {
      assert b == Encoded(frames[0])[..|b|] && Acceptable(noDefrag, [frames[0]]);
      PartialFrame(noDefrag, frames[0], |b|);
    }
  }

  lemma CloseShift(frames: seq<Frame>, k: nat)
    requires frames != [] && k < |frames|
    ensures CloseIn(frames, 1, k + 1) <==> (k > 0 && IsClose(frames[1..][0])) || CloseIn(frames[1..], 1, k)
  {
    var tail := frames[1..];
    assert forall m :: 0 <= m < |tail| ==> tail[m] == frames[m + 1];
    if CloseIn(frames, 1, k + 1) {
      var m :| 1 <= m < k + 1 && IsClose(frames[m]);
      assert IsClose(tail[m - 1]);
    }
    if k > 0 && IsClose(tail[0]) {
      assert IsClose(frames[1]);
    }
    if CloseIn(tail, 1, k) {
      var m :| 1 <= m < k && m < |tail| && IsClose(tail[m]);
      assert IsClose(frames[m + 1]);
    }
  }

  /**
   * Exactly when the flag disagrees with what was delivered. A delivered close frame is missed
   * when it is the first and only one, something follows it, and what is left over does not
   * start with one; the flag is set for nothing when none was delivered and what is left over
   * starts with one.
   */
  lemma CloseMissedOrEarly(noDefrag: bool, frames: seq<Frame>, b: seq<byte>)
    requires Acceptable(noDefrag, frames) && b <= Stream(frames)
    ensures var (k, rest) := Cut(frames, b);
            && (CloseIn(frames, 0, k) && !SawClose(noDefrag, b)
                <==> k > 0 && IsClose(frames[0]) && !CloseIn(frames, 1, k) && (k > 1 || rest != []) && !StartsClose(rest))
            && (!CloseIn(frames, 0, k) && SawClose(noDefrag, b) <==> k > 0 && !CloseIn(frames, 0, k) && StartsClose(rest))
  {
    hide Encoded, IsClose, SawClose, Cut;
    FlagIs(noDefrag, frames, b);
    var (k, rest) := Cut(frames, b);
    if k > 0 {
      assert CloseIn(frames, 0, k) <==> IsClose(frames[0]) || CloseIn(frames, 1, k);
      assert k > 1 && IsClose(frames[k - 1]) ==> CloseIn(frames, 1, k);
    }
  }

  // ---- The flag over a whole stream ---------------------------------------------------------

  /** Some chunk of a run sets the flag. */
  ghost function Noticed(noDefrag: bool, left: seq<byte>, chunks: seq<seq<byte>>): bool
    decreases |chunks|
  {
    chunks != [] && (SawClose(noDefrag, left + chunks[0]) || Noticed(noDefrag, Drained(noDefrag, left + chunks[0]).1, chunks[1..]))
  }

  /** What one chunk does to a run over a stream. */
  lemma ChunkStep(noDefrag: bool, frames: seq<Frame>, left: seq<byte>, chunks: seq<seq<byte>>)
    requires Acceptable(noDefrag, frames) && left + Join(chunks) == Stream(frames) && chunks != []
    ensures var b := left + chunks[0];
            var (k, rest) := Cut(frames, b);
            && b <= Stream(frames) && Drained(noDefrag, b).1 == rest && Cut(frames[k..], rest) == (0, rest)
            && rest + Join(chunks[1..]) == Stream(frames[k..]) && Acceptable(noDefrag, frames[k..])
  {
    hide Encoded, Drained, Cut, Stream;
    var b, more := left + chunks[0], Join(chunks[1..]);
    assert left + Join(chunks) == b + more;
    PrefixOf(b, more, Stream(frames));
    DrainedPrefix(noDefrag, frames, b);
    CutInTwo(frames, b, []);
    assert Cut(frames, b).1 + [] == Cut(frames, b).1 && b + [] == b;
    RestIsAll(frames, b, more);
  }

  lemma {:induction false} RestIsAll(frames: seq<Frame>, b: seq<byte>, more: seq<byte>)
    requires (forall f :: f in frames ==> f.Valid()) && b + more == Stream(frames)
    ensures var (k, rest) := Cut(frames, b); rest + more == Stream(frames[k..])
    decreases |frames|
  {
    hide Encoded;
    if frames == [] || |b| < |Encoded(frames[0])| {
      assert frames[0..] == frames;
    } else {
      var size, k := |Encoded(frames[0])|, Cut(frames[1..], b[|Encoded(frames[0])|..]).0;
      assert (b + more)[size..] == b[size..] + more;
      assert Stream(frames)[size..] == Stream(frames[1..]);
      assert frames[1..][k..] == frames[1 + k..];
      RestIsAll(frames[1..], b[size..], more);
    }
  }

  /** The chunk that takes the stream from `before` to `after` sets the flag. */
  ghost predicate SetBetween(frames: seq<Frame>, before: seq<byte>, after: seq<byte>)
    requires forall f :: f in frames ==> f.Valid()
  {
    var k, (k', rest) := Cut(frames, before).0, Cut(frames, after);
    k < k' && (CloseIn(frames, k + 1, k') || if rest == [] then IsClose(frames[k' - 1]) else StartsClose(rest))
  }

  /** What is left of a chunk, for a stream that need not be over. */
  lemma PartStep(noDefrag: bool, frames: seq<Frame>, done: seq<byte>, chunks: seq<seq<byte>>)
    requires Acceptable(noDefrag, frames) && chunks != [] && done + Join(chunks) <= Stream(frames)
    ensures var (k, left) := Cut(frames, done);
            var b := left + chunks[0];
            && done + chunks[0] + Join(chunks[1..]) == done + Join(chunks)
            && Drained(noDefrag, b).1 == Cut(frames, done + chunks[0]).1
            && (SawClose(noDefrag, b) <==> SetBetween(frames, done, done + chunks[0]))
  {
    hide Encoded, Drained, Cut, Stream, IsClose, StartsClose, SawClose;
    var (k, left) := Cut(frames, done);
    var b, more, tail := left + chunks[0], Join(chunks[1..]), frames[k..];
    assert done + Join(chunks) == done + chunks[0] + more == done + (chunks[0] + more);
    PrefixOf(done + chunks[0], more, Stream(frames));
    RestOfStream(frames, done, chunks[0]);
    CutInTwo(frames, done, chunks[0]);
    assert Acceptable(noDefrag, tail);
    DrainedPrefix(noDefrag, tail, b);
    FlagIs(noDefrag, tail, b);
    CloseFrom(frames, k, Cut(tail, b).0);
  }

  lemma CloseFrom(frames: seq<Frame>, k: nat, j: nat)
    requires k + j <= |frames|
    ensures CloseIn(frames, k + 1, k + j) <==> CloseIn(frames[k..], 1, j)
    ensures j > 0 ==> IsClose(frames[k + j - 1]) == IsClose(frames[k..][j - 1])
  {
    if CloseIn(frames, k + 1, k + j) {
      var m :| k + 1 <= m < k + j && IsClose(frames[m]);
      assert IsClose(frames[k..][m - k]);
    }
    if CloseIn(frames[k..], 1, j) {
      var m :| 1 <= m < j && IsClose(frames[k..][m]);
      assert IsClose(frames[k + m]);
    }
  }

  /**
   * Exactly when the flag is set over a stream cut into chunks: when some chunk completes
   * frames of which one but the first of the chunk is a close frame, or the last is and ends
   * the chunk, or behind which a close frame starts in the same chunk.
   */
  lemma {:induction false} NoticedIff(noDefrag: bool, frames: seq<Frame>, done: seq<byte>, chunks: seq<seq<byte>>)
    requires Acceptable(noDefrag, frames) && done + Join(chunks) <= Stream(frames)
    ensures Noticed(noDefrag, Cut(frames, done).1, chunks)
       <==> exists c :: 0 <= c < |chunks| && SetBetween(frames, done + Join(chunks[..c]), done + Join(chunks[..c + 1]))
    decreases |chunks|
  {
    hide Encoded, Drained, Cut, Stream, SawClose, SetBetween;
    if chunks != [] {
      var first, rest := chunks[0], chunks[1..];
      PartStep(noDefrag, frames, done, chunks);
      NoticedIff(noDefrag, frames, done + first, rest);
      assert done + Join(chunks[..0]) == done;
      forall c | 0 <= c <= |rest|
        ensures done + Join(chunks[..c + 1]) == done + first + Join(rest[..c])
      {
        assert chunks[..c + 1][1..] == rest[..c] && chunks[..c + 1][0] == first;
        assert done + (first + Join(rest[..c])) == done + first + Join(rest[..c]);
      }
      assert done + first == done + first + Join(rest[..0]);
      BoundaryShift(frames, done, chunks);
    }
  }

  lemma BoundaryShift(frames: seq<Frame>, done: seq<byte>, chunks: seq<seq<byte>>)
    requires (forall f :: f in frames ==> f.Valid()) && chunks != []
    requires forall c :: 0 <= c <= |chunks| - 1 ==> done + Join(chunks[..c + 1]) == done + chunks[0] + Join(chunks[1..][..c])
    requires done + Join(chunks[..0]) == done && done + chunks[0] + Join(chunks[1..][..0]) == done + chunks[0]
    ensures (exists c :: 0 <= c < |chunks| && SetBetween(frames, done + Join(chunks[..c]), done + Join(chunks[..c + 1])))
       <==> SetBetween(frames, done, done + chunks[0])
            || exists c :: 0 <= c < |chunks| - 1
                        && SetBetween(frames, done + chunks[0] + Join(chunks[1..][..c]), done + chunks[0] + Join(chunks[1..][..c + 1]))
  {
    hide SetBetween, Join;
    var first, rest := chunks[0], chunks[1..];
    assert done + Join(chunks[..0 + 1]) == done + first;
    if c :| 0 <= c < |chunks| && SetBetween(frames, done + Join(chunks[..c]), done + Join(chunks[..c + 1])) {
      if c > 0 {
        assert done + Join(chunks[..c - 1 + 1]) == done + first + Join(rest[..c - 1]);
        assert SetBetween(frames, done + first + Join(rest[..c - 1]), done + first + Join(rest[..c - 1 + 1]));
      }
    }
    if SetBetween(frames, done, done + first) {
      assert SetBetween(frames, done + Join(chunks[..0]), done + Join(chunks[..0 + 1]));
    }
    if c :| 0 <= c < |chunks| - 1 && SetBetween(frames, done + first + Join(rest[..c]), done + first + Join(rest[..c + 1])) {
      assert SetBetween(frames, done + Join(chunks[..c + 1]), done + Join(chunks[..c + 1 + 1]));
    }
  }

  /** A close frame that ends the stream is noticed, however the stream is cut. */
  lemma {:induction false} FinalCloseNoticed(noDefrag: bool, frames: seq<Frame>, left: seq<byte>, chunks: seq<seq<byte>>)
    requires Acceptable(noDefrag, frames) && left + Join(chunks) == Stream(frames) && Cut(frames, left) == (0, left)
    requires frames != [] && IsClose(frames[|frames| - 1])
    ensures Noticed(noDefrag, left, chunks)
    decreases |chunks|
  {
    hide Encoded, Drained, Stream, Cut, SawClose;
    CutAll(frames);
    assert left + [] == left;
    if chunks != [] {
      var b := left + chunks[0];
      var (k, rest) := Cut(frames, b);
      ChunkStep(noDefrag, frames, left, chunks);
      FlagIs(noDefrag, frames, b);
      if k == |frames| {
        NothingLeft(rest, Join(chunks[1..]), frames, k);
      } else {
        assert frames[k..][|frames| - k - 1] == frames[|frames| - 1];
        FinalCloseNoticed(noDefrag, frames[k..], rest, chunks[1..]);
      }
    }
  }

  lemma NothingLeft(rest: seq<byte>, more: seq<byte>, frames: seq<Frame>, k: nat)
    requires k == |frames| && (forall f :: f in frames ==> f.Valid()) && rest + more == Stream(frames[k..])
    ensures rest == []
  {
    assert frames[k..] == [];
  }

  /** The flag is never set by a stream without close frames. */
  lemma {:induction false} NoticedIsClose(noDefrag: bool, frames: seq<Frame>, left: seq<byte>, chunks: seq<seq<byte>>)
    requires Acceptable(noDefrag, frames) && left + Join(chunks) == Stream(frames) && Noticed(noDefrag, left, chunks)
    ensures CloseIn(frames, 0, |frames|)
    decreases |chunks|
  {
    hide Encoded, Drained, Stream, Cut, SawClose, IsClose;
    var b := left + chunks[0];
    var (k, rest) := Cut(frames, b);
    ChunkStep(noDefrag, frames, left, chunks);
    if SawClose(noDefrag, b) {
      FlagIs(noDefrag, frames, b);
      if rest != [] && StartsClose(rest) {
        StartIsFrame(frames[k..], rest, Join(chunks[1..]));
        assert IsClose(frames[k]);
      } else if CloseIn(frames, 1, k) {
        var m :| 1 <= m < k && IsClose(frames[m]);
      }
    } else {
      NoticedIsClose(noDefrag, frames[k..], rest, chunks[1..]);
      var m :| 0 <= m < |frames[k..]| && IsClose(frames[k..][m]);
      assert IsClose(frames[k + m]);
    }
  }

  lemma StartIsFrame(frames: seq<Frame>, rest: seq<byte>, more: seq<byte>)
    requires (forall f :: f in frames ==> f.Valid()) && rest + more == Stream(frames) && StartsClose(rest)
    ensures frames != [] && IsClose(frames[0])
  {
    hide Encoded;
    FirstByte(frames[0], Stream(frames[1..]));
    assert (rest + more)[0] == rest[0];
  }

  /**
   * A close frame and a text frame behind it: in one chunk the close frame is missed, in two
   * it is noticed.
   */
  lemma CutMatters()
    ensures !Noticed(false, [], [[136, 0, 129, 1, 65]])
    ensures Noticed(false, [], [[136, 0], [129, 1, 65]])
  {
    hide Encoded, SawClose, Drained, IsClose, StartsClose;
    var one: seq<byte>, close: seq<byte>, text: seq<byte> := [136, 0, 129, 1, 65], [136, 0], [129, 1, 65];
    CutExample();
    var none: seq<seq<byte>> := [];
    assert [] + one == one && [] + close == close && [] + text == text;
    assert [one][1..] == none && [close, text][1..] == [text];
  }

  lemma CutExample()
    ensures !SawClose(false, [136, 0, 129, 1, 65])
    ensures SawClose(false, [136, 0]) && Drained(false, [136, 0]).1 == []
  {
    hide Encoded, SawClose, StepOf;
    var close, text := Frame(136, None, []), Frame(129, None, [65]);
    assert Encoded(close) == [136, 0] && Encoded(text) == [129, 1, 65] by { ExampleFrames(); }
    assert [136, 0] + [129, 1, 65] == [136, 0, 129, 1, 65] && [136, 0] + [] == [136, 0] && [129, 1, 65] + [] == [129, 1, 65];
    SawStep(false, close, []);
    SawStep(false, close, [129, 1, 65]);
    SawStep(false, text, []);
    EmptyIncomplete(false);
    NoFrameNoFlag(false, [], []);
    WholeFrame(false, close, []);
  }

  lemma ExampleFrames()
    ensures Encoded(Frame(136, None, [])) == [136, 0] && Encoded(Frame(129, None, [65])) == [129, 1, 65]
  {
  }

  class Connection {
    const noDefrag: bool
    const recv: Buffer
    var delivered: seq<Message>
    var sendAndClose: bool

    constructor (noDefrag: bool)
      ensures this.noDefrag == noDefrag && delivered == [] && !sendAndClose
      ensures fresh(recv) && fresh(recv.buf) && recv.Valid() && recv.Contents() == []
    {
      this.noDefrag := noDefrag;
      recv := new Buffer(0);
      delivered, sendAndClose := [], false;
    }

    /** `deliver_websocket_data`; the answer is what the code would do. */
    method Deliver() returns (step: Step)
      requires recv.Valid()
      modifies this`delivered, this`sendAndClose, recv`len, recv.buf
      ensures recv.Valid() && step == StepOf(noDefrag, old(recv.Contents()))
      ensures step.Incomplete? ==>
                recv.Contents() == old(recv.Contents()) && delivered == old(delivered)
                && sendAndClose == old(sendAndClose)
      ensures !step.Delivered? && !step.Incomplete? ==>
                old(delivered) <= delivered && (old(sendAndClose) ==> sendAndClose)
      ensures step.Delivered? ==>
                && recv.Contents() == step.rest && delivered == old(delivered) + [step.message]
                && sendAndClose == (old(sendAndClose) || SeesClose(step.message, step.rest))
    {
      hide Payload, ReadLengths, GetLe32;
      ghost var b := recv.Contents();
      if Shifts(noDefrag, recv.buf[..recv.len]) {
        return Defragmenting;
      }
      var l := ReadLengths(recv.buf[..recv.len]);
      var frameLen := (l.header + l.data) % TWO_64;
      if frameLen == 0 || frameLen > recv.len {
        return Incomplete;
      }
      if IsFragment(recv.buf[0]) && !noDefrag {
        return Defragmenting;
      }
      if l.header + l.data >= TWO_64 {
        return Wild;
      }
      assert frameLen == l.header + l.data;
      var message := TakeMessage(l);
      delivered := delivered + [message];
      recv.Remove(frameLen);
      if recv.buf[0] % 16 == OP_CLOSE {
        sendAndClose := true;
      }
      step := Delivered(message, recv.buf[..recv.len]);
    }

    /** Flags and data of the frame at the front, its data unmasked in place. */
    method TakeMessage(l: Lengths) returns (message: Message)
      requires recv.Valid() && 2 + l.mask <= l.header && l.header + l.data <= recv.len
      requires l.mask == 0 || l.mask == 4
      modifies recv.buf
      ensures message == Message(old(recv.buf[0]), Payload(old(recv.Contents()), l))
      ensures recv.buf[0] == old(recv.buf[0])
      ensures recv.Contents()[l.header + l.data..] == old(recv.Contents())[l.header + l.data..]
    {
      hide Xor, Masked;
      ghost var b := recv.Contents();
      var end := l.header + l.data;
      Slice(recv.buf, recv.len, l.header, end);
      Slice(recv.buf, recv.len, end, recv.len);
      if l.mask > 0 {
        Slice(recv.buf, recv.len, l.header - 4, l.header);
        ghost var tail := recv.buf[end..];
        Unmask(l.header, l.data);
        assert recv.buf[end..recv.len] == recv.buf[end..][..recv.len - end] == tail[..recv.len - end] == b[end..];
        Slice(recv.buf, recv.len, end, recv.len);
      }
      message := Message(recv.buf[0], recv.buf[l.header..end]);
    }

    /** The mask loop, in place. */
    method Unmask(header: nat, length: nat)
      requires recv.Valid() && 6 <= header <= header + length <= recv.len
      modifies recv.buf
      ensures recv.buf[..header] == old(recv.buf[..header])
      ensures recv.buf[header + length..] == old(recv.buf[header + length..])
      ensures recv.buf[0] == old(recv.buf[0])
      ensures recv.buf[header..header + length]
           == Masked(old(recv.buf[header - 4..header]), old(recv.buf[header..header + length]))
    {
      hide Xor;
      ghost var was := recv.buf[..];
      for i := 0 to length
        invariant forall k :: 0 <= k < recv.buf.Length && !(header <= k < header + i) ==> recv.buf[k] == was[k]
        invariant forall k :: 0 <= k < i ==> recv.buf[header + k] == Xor(was[header + k], was[header - 4 + k % 4])
      {
        recv.buf[header + i] := Xor(recv.buf[header + i], recv.buf[header - 4 + i % 4]);
      }
      assert was[header - 4..header] == old(recv.buf[header - 4..header]);
    }

    /**
     * NS_RECV: the chunk read from the socket, then the loop. Where it ends on a path that is
     * not modelled, what was delivered and flagged before that stands.
     */
    method Receive(chunk: seq<byte>) returns (last: Step)
      requires recv.Valid()
      modifies this`delivered, this`sendAndClose, recv, recv.buf
      ensures recv.Valid() && (recv.buf == old(recv.buf) || fresh(recv.buf))
      ensures last == Drained(noDefrag, old(recv.Contents()) + chunk).2
      ensures last.Incomplete? ==>
                var (messages, rest, _) := Drained(noDefrag, old(recv.Contents()) + chunk);
                && delivered == old(delivered) + messages && recv.Contents() == rest
                && sendAndClose == (old(sendAndClose) || SawClose(noDefrag, old(recv.Contents()) + chunk))
      ensures old(delivered) + Drained(noDefrag, old(recv.Contents()) + chunk).0 <= delivered
      ensures old(sendAndClose) || SawClose(noDefrag, old(recv.Contents()) + chunk) ==> sendAndClose
    {
      hide StepOf, Drained, SawClose;
      recv.Append(chunk);
      ghost var all, saw := Drained(noDefrag, recv.Contents()), old(sendAndClose) || SawClose(noDefrag, recv.Contents());
      ghost var got: seq<Message> := [];
      DrainedStep(noDefrag, recv.Contents());
      last := Deliver();
      if last.Delivered? {
        got := [last.message];
      }
      while last.Delivered?
        invariant recv.Valid() && (recv.buf == old(recv.buf) || fresh(recv.buf))
        invariant last.Delivered? || last.Incomplete? ==> delivered == old(delivered) + got
        invariant old(delivered) + got <= delivered && (saw && !last.Delivered? ==> sendAndClose)
        invariant last.Delivered? ==>
                    var (messages, rest, end) := Drained(noDefrag, recv.Contents());
                    all == (got + messages, rest, end)
        invariant !last.Delivered? ==> all.0 == got && all.2 == last
        invariant last.Incomplete? ==> all.1 == recv.Contents()
        invariant last.Delivered? ==> saw == (sendAndClose || SawClose(noDefrag, recv.Contents()))
        invariant last.Incomplete? ==> saw == sendAndClose
        decreases last.Delivered?, recv.len
      {
        DrainedStep(noDefrag, recv.Contents());
        last := Deliver();
        if last.Delivered? {
          ghost var more := Drained(noDefrag, last.rest).0;
          assert got + ([last.message] + more) == got + [last.message] + more;
          got := got + [last.message];
        } else {
          assert got + [] == got;
        }
      }
    }
  }

  lemma Slice(buf: array<byte>, len: nat, i: nat, j: nat)
    requires i <= j <= len <= buf.Length
    ensures buf[..len][i..j] == buf[i..j] && (j == len ==> buf[..len][i..] == buf[i..j])
  {
  }

  lemma DrainedStep(noDefrag: bool, b: seq<byte>)
    ensures var step := StepOf(noDefrag, b);
            var (messages, rest, end) := Drained(noDefrag, b);
            if step.Delivered? then
              var (m, r, e) := Drained(noDefrag, step.rest);
              messages == [step.message] + m && rest == r && end == e
            else messages == [] && rest == b && end == step
    ensures var step := StepOf(noDefrag, b);
            SawClose(noDefrag, b) <==> step.Delivered? && (SeesClose(step.message, step.rest) || SawClose(noDefrag, step.rest))
  {
    hide StepOf;
  }

  // ---- The sender ---------------------------------------------------------------------------

  /** `ns_send_ws_header`. */
  method WsHeader(op: int, length: nat) returns (header: seq<byte>)
    requires length < TWO_64
    ensures header == [128 + op % 16] + LengthField(length, 0)
  {
    hide PutBe16, PutBe32;
    header := [128 + op % 16];
    if length < 126 {
      header := header + [length];
    } else if length < 65535 {
      header := header + [126] + PutBe16(length);
    } else {
      header := header + [127] + PutBe32(length / 0x1_0000_0000);
      header := header + PutBe32(length % 0x1_0000_0000);
    }
  }

  /** `ns_send_websocket_frame`, the part that fills the send buffer. */
  method SendFrame(send: Buffer, op: int, data: seq<byte>)
    requires send.Valid() && |data| + 14 < TWO_64
    modifies send, send.buf
    ensures send.Valid() && (send.buf == old(send.buf) || fresh(send.buf))
    ensures send.Contents() == old(send.Contents()) + Encoded(Frame(128 + op % 16, None, data))
  {
    hide LengthField;
    ghost var was := send.Contents();
    var header := WsHeader(op, |data|);
    send.Append(header);
    send.Append(data);
    assert Header(Frame(128 + op % 16, None, data)) == header;
    assert send.Contents() == was + (header + data);
  }
}
