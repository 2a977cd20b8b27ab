/**
 * The datagrams of section 3 of RFC 7252, written out byte by byte, against the parser
 * `ns_coap_parse` of examples/fossa/fossa.c: which bytes it accepts, as what message, and
 * which it rejects for what.
 */
module CoapWire {
  import opened Bytes
  import opened CoapOptions
  import opened Coap

  // ---- Datagrams ----------------------------------------------------------------------------------

  /** An option delta or length: in its nibble, in one more byte, or in two. */
  datatype Field = Short(v: byte) | OneMore(e: byte) | TwoMore(high: byte, low: byte) {
    predicate Valid() { Short? ==> v < 13 }

    function Nibble(): byte {
      match this
      case Short(v) => v
      case OneMore(_) => 13
      case TwoMore(_, _) => 14
    }

    function Extra(): seq<byte> {
      match this
      case Short(_) => []
      case OneMore(e) => [e]
      case TwoMore(high, low) => [high, low]
    }

    /** The code keeps the sum in 16 bits. */
    function Value(): u16 {
      match this
      case Short(v) => v
      case OneMore(e) => 13 + e
      case TwoMore(high, low) => ToU16(269 + 256 * (high as int) + low as int)
    }
  }

  datatype Piece = Piece(delta: Field, length: Field, value: seq<byte>) {
    predicate Valid() { delta.Valid() && length.Valid() && |value| == length.Value() }

    function Wire(): seq<byte>
      requires Valid()
    {
      [delta.Nibble() * 16 + length.Nibble()] + (delta.Extra() + (length.Extra() + value))
    }
  }

  predicate AllValid(pieces: seq<Piece>) { forall k :: 0 <= k < |pieces| ==> pieces[k].Valid() }

  function Pieces(pieces: seq<Piece>): seq<byte>
    requires AllValid(pieces)
  {
    if pieces == [] then [] else pieces[0].Wire() + Pieces(pieces[1..])
  }

  /** The number before the first piece, plus the deltas up to the last. */
  function LastNumber(pieces: seq<Piece>, previous: u16): u16 {
    if pieces == [] then previous else LastNumber(pieces[1..], ToU16(pieces[0].delta.Value() as int + previous))
  }

  function OptionsOf(pieces: seq<Piece>, previous: u16): seq<Opt> {
    if pieces == [] then []
    else
      var number := ToU16(pieces[0].delta.Value() as int + previous);
      [Opt(number, pieces[0].value)] + OptionsOf(pieces[1..], number)
  }

  datatype Ending = NoMarker | Marked(payload: seq<byte>) {
    function Wire(): seq<byte> { if NoMarker? then [] else [0xff] + payload }
  }

  /** Version 1; the message id as its two bytes. */
  datatype Head = Head(msgType: byte, codeClass: byte, codeDetail: byte, idHigh: byte, idLow: byte, token: seq<byte>) {
    predicate Valid() { msgType < 4 && codeClass < 8 && codeDetail < 32 && |token| <= 8 }

    function Wire(): seq<byte>
      requires Valid()
    {
      [64 + msgType * 16 + |token|, codeClass * 32 + codeDetail, idHigh, idLow] + token
    }

    function Message(): Msg { Msg(msgType, codeClass, codeDetail, 256 * (idHigh as int) + idLow as int, token, [], []) }

    function Flags(): int {
      TYPE_FIELD + CODE_CLASS_FIELD + CODE_DETAIL_FIELD + MSG_ID_FIELD + if token != [] then TOKEN_FIELD else 0
    }
  }

  datatype Datagram = Datagram(head: Head, pieces: seq<Piece>, ending: Ending) {
    predicate Valid() { head.Valid() && AllValid(pieces) }

    function Wire(): seq<byte>
      requires Valid()
    {
      head.Wire() + (Pieces(pieces) + ending.Wire())
    }

    function Message(): Msg {
      head.Message().(options := Built(OptionsOf(pieces, 0)), payload := if ending.Marked? then ending.payload else [])
    }

    /** The options bit is set by anything behind the token, a lone marker included. */
    function Flags(): int {
      head.Flags()
      + (if pieces != [] || ending.Marked? then OPTIONS_FIELD else 0)
      + (if ending.Marked? && ending.payload != [] then PAYLOAD_FIELD else 0)
    }
  }

  // ---- Options ------------------------------------------------------------------------------------

  lemma FieldReads(f: Field, rest: seq<byte>)
    requires f.Valid()
    ensures ReadExt(f.Extra() + rest, f.Nibble()) == (true, f.Value(), |f.Extra()|)
    ensures f.Nibble() < 15 && (f.Extra() + rest)[|f.Extra()|..] == rest
  {
  }

  lemma PieceReads(p: Piece, rest: seq<byte>, previous: u16)
    requires p.Valid()
    ensures var s := p.Wire() + rest;
            && s[0] != MARKER && !HasFifteen(s[0])
            && ReadOne(s, previous) == One(Opt(ToU16(p.delta.Value() as int + previous), p.value), rest)
  {
    hide Field.Extra, Field.Nibble, Field.Value, Field.Valid, ReadExt, ToU16;
    var s := p.Wire() + rest;
    FieldReads(p.delta, p.length.Extra() + (p.value + rest));
    FieldReads(p.length, p.value + rest);
    assert s[1..] == p.delta.Extra() + (p.length.Extra() + (p.value + rest));
    Halves(p.delta.Nibble(), p.length.Nibble());
    assert (p.value + rest)[..|p.value|] == p.value && (p.value + rest)[|p.value|..] == rest;
  }

  lemma Halves(a: byte, b: byte)
    requires a < 15 && b < 15
    ensures (a * 16 + b) / 16 == a && (a * 16 + b) % 16 == b && a * 16 + b < 255 && !HasFifteen(a * 16 + b)
  {
  }

  /** The reserved nibble. */
  predicate HasFifteen(first: byte) { first >= 240 || exists high :: 0 <= high < 16 && first == Fifteen(high) }

  function Fifteen(high: int): int { 16 * high + 15 }

  lemma FifteenIs(first: byte)
    ensures HasFifteen(first) <==> first / 16 == 15 || first % 16 == 15
  {
    if first % 16 == 15 {
      assert first == Fifteen(first / 16);
    }
  }

  /** What stands behind whole options and is none: nothing, or the marker. */
  predicate AtEnd(s: seq<byte>) { s == [] || s[0] == 0xff }

  /** An option that the datagram does not hold wholly. */
  ghost predicate Cut(s: seq<byte>) {
    s != [] && exists p: Piece :: p.Valid() && IsStart(s, p.Wire())
  }

  predicate IsStart(s: seq<byte>, whole: seq<byte>) { |s| < |whole| && whole[..|s|] == s }

  lemma PiecesFront(pieces: seq<Piece>, rest: seq<byte>)
    requires AllValid(pieces)
    ensures if pieces == [] then Pieces(pieces) + rest == rest
            else AllValid(pieces[1..]) && Pieces(pieces) + rest == pieces[0].Wire() + (Pieces(pieces[1..]) + rest)
  {
    hide Piece.Wire, Piece.Valid;
  }

  lemma {:induction false} PiecesRead(pieces: seq<Piece>, rest: seq<byte>, previous: u16)
    requires AllValid(pieces)
    ensures var r, tail := ReadOptions(Pieces(pieces) + rest, previous), ReadOptions(rest, LastNumber(pieces, previous));
            if tail.Failed? then r == tail else r == Read(OptionsOf(pieces, previous) + tail.added, tail.rest)
    decreases |pieces|
  {
    hide ReadOne, Piece.Wire, Piece.Valid, ToU16, Pieces, HasFifteen;
    PiecesFront(pieces, rest);
    if pieces != [] {
      var p, more := pieces[0], pieces[1..];
      var behind := Pieces(more) + rest;
      PieceReads(p, behind, previous);
      var number := ToU16(p.delta.Value() as int + previous);
      PiecesRead(more, rest, number);
      var tail := ReadOptions(rest, LastNumber(more, number));
      if tail.Read? {
        assert [Opt(number, p.value)] + (OptionsOf(more, number) + tail.added) == OptionsOf(pieces, previous) + tail.added;
      }
    }
  }

  /** Reading on, the parser finds a field wherever it finds a value. */
  lemma FieldFound(s: seq<byte>, nibble: byte) returns (f: Field)
    requires nibble < 15 && ReadExt(s, nibble).0
    ensures f.Valid() && f.Nibble() == nibble && f.Value() == ReadExt(s, nibble).1 && |f.Extra()| == ReadExt(s, nibble).2
    ensures s == f.Extra() + s[|f.Extra()|..]
  {
    f := if nibble == 13 then OneMore(s[0]) else if nibble == 14 then TwoMore(s[0], s[1]) else Short(nibble);
  }

  /** Where the bytes of a field are missing, some field starts like what is there. */
  lemma FieldCut(s: seq<byte>, nibble: byte) returns (f: Field)
    requires nibble < 15 && !ReadExt(s, nibble).0
    ensures f.Valid() && f.Nibble() == nibble && IsStart(s, f.Extra())
  {
    f := if nibble == 13 then OneMore(0) else TwoMore(if s == [] then 0 else s[0], 0);
  }

  lemma PieceFound(s: seq<byte>, previous: u16) returns (p: Piece)
    requires s != [] && ReadOne(s, previous).One?
    ensures p.Valid() && s == p.Wire() + ReadOne(s, previous).rest
  {
    hide Field.Extra, Field.Nibble, Field.Value, Field.Valid, ReadExt, ToU16;
    var d, l, s1 := s[0] / 16, s[0] % 16, s[1..];
    var delta := FieldFound(s1, d);
    var s2 := s1[|delta.Extra()|..];
    var length := FieldFound(s2, l);
    var s3 := s2[|length.Extra()|..];
    p := Piece(delta, length, s3[..length.Value()]);
    assert s3 == p.value + s3[|p.value|..] && s == [s[0]] + s1;
    WireFront(p, s3[|p.value|..]);
  }

  lemma WireFront(p: Piece, rest: seq<byte>)
    requires p.Valid()
    ensures p.Wire() + rest == [p.delta.Nibble() * 16 + p.length.Nibble()] + (p.delta.Extra() + (p.length.Extra() + (p.value + rest)))
  {
    hide Field.Extra, Field.Nibble, Field.Value, Field.Valid;
  }

  function Blank(n: nat): seq<byte> { seq(n, _ => 0) }

  /** Where an option fails for want of bytes, it is a cut one. */
  lemma PieceCut(s: seq<byte>, previous: u16)
    requires s != [] && !HasFifteen(s[0]) && ReadOne(s, previous).OneFailed?
    ensures Cut(s) && ReadOne(s, previous) == OneFailed(NOT_ENOUGH_DATA)
  {
    hide Field.Extra, Field.Nibble, Field.Value, Field.Valid, ReadExt, ToU16, HasFifteen, Cut;
    FifteenIs(s[0]);
    var d, l, s1 := s[0] / 16, s[0] % 16, s[1..];
    assert s == [s[0]] + s1;
    if !ReadExt(s1, d).0 {
      var delta := FieldCut(s1, d);
      var length := AnyField(l);
      CutInDelta(s, s1, Piece(delta, length, Blank(length.Value())));
    } else {
      var delta := FieldFound(s1, d);
      var s2 := s1[|delta.Extra()|..];
      if !ReadExt(s2, l).0 {
        var length := FieldCut(s2, l);
        CutInLength(s, s2, Piece(delta, length, Blank(length.Value())));
      } else {
        var length := FieldFound(s2, l);
        var s3 := s2[|length.Extra()|..];
        CutInValue(s, s3, Piece(delta, length, s3 + Blank(length.Value() - |s3|)));
      }
    }
  }

  lemma CutInDelta(s: seq<byte>, s1: seq<byte>, p: Piece)
    requires p.Valid() && IsStart(s1, p.delta.Extra()) && s == [p.delta.Nibble() * 16 + p.length.Nibble()] + s1
    ensures Cut(s)
  {
    hide Field.Extra, Field.Nibble, Field.Value, Field.Valid, IsStart;
    StartBehind([s[0]], s1, p.delta.Extra(), p.length.Extra() + p.value);
  }

  lemma CutInLength(s: seq<byte>, s2: seq<byte>, p: Piece)
    requires p.Valid() && IsStart(s2, p.length.Extra())
    requires s == [p.delta.Nibble() * 16 + p.length.Nibble()] + (p.delta.Extra() + s2)
    ensures Cut(s)
  {
    hide Field.Extra, Field.Nibble, Field.Value, Field.Valid, IsStart;
    var front := [s[0]] + p.delta.Extra();
    StartBehind(front, s2, p.length.Extra(), p.value);
    assert s == front + s2 && p.Wire() == front + (p.length.Extra() + p.value);
  }

  lemma CutInValue(s: seq<byte>, s3: seq<byte>, p: Piece)
    requires p.Valid() && IsStart(s3, p.value)
    requires s == [p.delta.Nibble() * 16 + p.length.Nibble()] + (p.delta.Extra() + (p.length.Extra() + s3))
    ensures Cut(s)
  {
    hide Field.Extra, Field.Nibble, Field.Value, Field.Valid, IsStart;
    var front := [s[0]] + p.delta.Extra() + p.length.Extra();
    StartBehind(front, s3, p.value, []);
    assert s == front + s3 && p.Wire() == front + (p.value + []);
  }

  lemma AnyField(nibble: byte) returns (f: Field)
    requires nibble < 15
    ensures f.Valid() && f.Nibble() == nibble
  {
    f := if nibble == 13 then OneMore(0) else if nibble == 14 then TwoMore(0, 0) else Short(nibble);
  }

  lemma StartBehind(front: seq<byte>, s: seq<byte>, whole: seq<byte>, rest: seq<byte>)
    requires IsStart(s, whole)
    ensures IsStart(front + s, front + (whole + rest))
  {
  }

  /** A cut option is not read. */
  lemma CutFails(s: seq<byte>, previous: u16)
    requires Cut(s)
    ensures s != [] && !HasFifteen(s[0]) && s[0] != MARKER && ReadOne(s, previous) == OneFailed(NOT_ENOUGH_DATA)
  {
    hide ReadOne, Piece.Wire, Piece.Valid, HasFifteen;
    var p: Piece :| p.Valid() && IsStart(s, p.Wire());
    var u := p.Wire()[|s|..];
    assert p.Wire() == s + u && p.Wire() + [] == p.Wire();
    PieceReads(p, [], previous);
    assert s[0] == p.Wire()[0];
    if ReadOne(s, previous).One? {
      var q := PieceFound(s, previous);
      var rest := ReadOne(s, previous).rest;
      assert s + u == q.Wire() + (rest + u);
      PieceReads(q, rest + u, previous);
    } else {
      PieceCut(s, previous);
    }
  }

  /** What the option loop makes of its bytes, and where it stops. */
  lemma {:induction false} PiecesFound(s: seq<byte>, previous: u16) returns (pieces: seq<Piece>, t: seq<byte>)
    ensures AllValid(pieces) && s == Pieces(pieces) + t
    ensures var r := ReadOptions(s, previous);
            if r.Read? then AtEnd(t) && r == Read(OptionsOf(pieces, previous), t)
            else t != [] && !AtEnd(t) && r.flag == (if HasFifteen(t[0]) then FORMAT_ERROR else NOT_ENOUGH_DATA) && (HasFifteen(t[0]) || Cut(t))
    decreases |s|
  {
    hide Piece.Wire, Piece.Valid, HasFifteen, Cut, ReadOne, Pieces, ToU16;
    PiecesFront([], s);
    if AtEnd(s) {
      pieces, t := [], s;
    } else if ReadOne(s, previous).OneFailed? {
      pieces, t := [], s;
      if HasFifteen(s[0]) {
        FifteenFails(s, previous);
      } else {
        PieceCut(s, previous);
      }
    } else {
      var one := ReadOne(s, previous);
      var p := PieceFound(s, previous);
      PieceReads(p, one.rest, previous);
      var more;
      more, t := PiecesFound(one.rest, one.o.number);
      pieces := [p] + more;
      assert pieces[1..] == more;
      PiecesFront(pieces, t);
    }
  }

  lemma FifteenFails(s: seq<byte>, previous: u16)
    requires s != [] && HasFifteen(s[0])
    ensures ReadOne(s, previous) == OneFailed(FORMAT_ERROR)
  {
    FifteenIs(s[0]);
  }

  // ---- Whole datagrams ----------------------------------------------------------------------------

  lemma HeadReads(h: Head, s: seq<byte>)
    requires h.Valid()
    ensures Parsed(h.Wire() + s) == ParsedBody(s, h.Flags(), h.Message())
  {
    hide ParsedBody;
    var b := h.Wire() + s;
    FirstByte(h.msgType, |h.token|);
    CodeByte(h.codeClass, h.codeDetail);
    assert b[0] == 64 + h.msgType * 16 + |h.token| && b[1] == h.codeClass * 32 + h.codeDetail;
    assert b[2..][0] == h.idHigh && b[2..][1] == h.idLow;
    assert b[4..4 + |h.token|] == h.token && b[4 + |h.token|..] == s;
  }

  /** Every datagram is accepted, as its message. */
  lemma DatagramIsAccepted(d: Datagram)
    requires d.Valid()
    ensures Parsed(d.Wire()) == (d.Flags(), d.Message())
  {
    hide Head.Wire, Head.Flags, Head.Valid, Pieces, OptionsOf, Built, Parsed, ReadOptions;
    var s := Pieces(d.pieces) + d.ending.Wire();
    HeadReads(d.head, s);
    PiecesRead(d.pieces, d.ending.Wire(), 0);
    EndReads(d.ending.Wire(), LastNumber(d.pieces, 0));
    NoPieces(d.pieces);
    assert OptionsOf(d.pieces, 0) + [] == OptionsOf(d.pieces, 0);
  }

  lemma EndReads(s: seq<byte>, previous: u16)
    requires AtEnd(s)
    ensures ReadOptions(s, previous) == Read([], s)
  {
  }

  lemma NoPieces(pieces: seq<Piece>)
    requires AllValid(pieces)
    ensures pieces == [] ==> Pieces(pieces) == [] && Built(OptionsOf(pieces, 0)) == []
    ensures pieces != [] ==> Pieces(pieces) != []
  {
  }

  // Why a datagram is rejected, from its bytes.

  predicate TooShort(b: seq<byte>) { |b| < 4 }

  predicate OtherVersion(b: seq<byte>) { |b| >= 4 && !(64 <= b[0] < 128) }

  /** A token length of 9 to 15. */
  ghost predicate LongToken(b: seq<byte>) {
    |b| >= 4 && exists t, k :: 0 <= t < 4 && 9 <= k < 16 && b[0] == FirstOf(t, k)
  }

  ghost predicate CutToken(b: seq<byte>) {
    |b| >= 4 && exists t, k :: 0 <= t < 4 && 0 <= k <= 8 && b[0] == FirstOf(t, k) && |b| < 4 + k
  }

  function FirstOf(t: int, k: int): int { 64 + 16 * t + k }

  /** Behind a head and whole options stands a byte with the reserved nibble, which is not the marker. */
  ghost predicate Reserved15(b: seq<byte>) {
    exists h: Head, pieces, t :: Stands(b, h, pieces, t) && !AtEnd(t) && HasFifteen(t[0])
  }

  ghost predicate CutPiece(b: seq<byte>) {
    exists h: Head, pieces, t :: Stands(b, h, pieces, t) && Cut(t)
  }

  predicate Stands(b: seq<byte>, h: Head, pieces: seq<Piece>, t: seq<byte>) {
    h.Valid() && AllValid(pieces) && b == h.Wire() + (Pieces(pieces) + t)
  }

  ghost predicate IsDatagram(b: seq<byte>) { exists d: Datagram :: d.Valid() && b == d.Wire() }

  /** The flag word has an error bit, and which. */
  predicate Says(flags: int, error: int) { error <= flags < error + 0x10000 }

  /** What a head and options say about the answer, by what stands behind them. */
  lemma StandsAnswer(b: seq<byte>, h: Head, pieces: seq<Piece>, t: seq<byte>)
    requires Stands(b, h, pieces, t)
    ensures Cut(t) ==> Parsed(b).0 == h.Flags() + NOT_ENOUGH_DATA
    ensures !AtEnd(t) && HasFifteen(t[0]) ==> Parsed(b).0 == h.Flags() + FORMAT_ERROR
    ensures AtEnd(t) ==> Parsed(b).0 < ERROR && IsDatagram(b)
    ensures 0 <= h.Flags() < 0x10000
  {
    hide Head.Wire, Head.Valid, Pieces, OptionsOf, Built, Parsed, ReadOptions, Cut, HasFifteen, ReadOne;
    HeadReads(h, Pieces(pieces) + t);
    var last := LastNumber(pieces, 0);
    PiecesRead(pieces, t, 0);
    if Cut(t) {
      CutFails(t, last);
      FailingFirst(t, last);
    } else if AtEnd(t) {
      var d := Datagram(h, pieces, if t == [] then NoMarker else Marked(t[1..]));
      assert d.ending.Wire() == t;
      assert d.Valid() && b == d.Wire();
      DatagramIsAccepted(d);
    } else if HasFifteen(t[0]) {
      FifteenFails(t, last);
      FailingFirst(t, last);
    }
  }

  lemma FailingFirst(t: seq<byte>, previous: u16)
    requires t != [] && t[0] != MARKER && ReadOne(t, previous).OneFailed?
    ensures ReadOptions(t, previous) == Failed(ReadOne(t, previous).flag)
  {
    hide ReadOne;
  }

  /** Bytes with a whole head and token, taken apart. */
  lemma HeadFound(b: seq<byte>) returns (h: Head, s: seq<byte>)
    requires |b| >= 4 && 64 <= b[0] < 128 && b[0] % 16 <= 8 && |b| >= 4 + b[0] % 16
    ensures h.Valid() && b == h.Wire() + s
  {
    var k := b[0] % 16;
    h := Head(b[0] / 16 - 4, b[1] / 32, b[1] % 32, b[2], b[3], b[4..4 + k]);
    s := b[4 + k..];
    assert b == [b[0], b[1], b[2], b[3]] + b[4..4 + k] + s;
  }

  lemma FirstOfIs(first: byte, t: int, k: int)
    requires 0 <= t < 4 && 0 <= k < 16 && first == FirstOf(t, k)
    ensures 64 <= first < 128 && first % 16 == k && first / 64 == 1
  {
  }

  lemma FirstParts(first: byte)
    requires 64 <= first < 128
    ensures first == FirstOf(first / 16 - 4, first % 16) && 0 <= first / 16 - 4 < 4 && first / 64 == 1
  {
  }

  /**
   * The answer for every sequence of bytes: no error bit exactly for the datagrams of the
   * standard and a lone marker, and each error bit exactly for its kind of defect.
   */
  lemma AnswersAreExact(b: seq<byte>)
    ensures Parsed(b).0 < ERROR <==> IsDatagram(b)
    ensures Says(Parsed(b).0, IGNORE) <==> OtherVersion(b)
    ensures Says(Parsed(b).0, FORMAT_ERROR) <==> LongToken(b) || Reserved15(b)
    ensures Says(Parsed(b).0, NOT_ENOUGH_DATA) <==> TooShort(b) || CutToken(b) || CutPiece(b)
  {
    hide Parsed, Head.Wire, Head.Valid, Head.Flags, Pieces, AllValid, Cut, HasFifteen, Datagram.Wire;
    HeaderAnswer(b);
    if Reserved15(b) {
      var h: Head, pieces, t :| Stands(b, h, pieces, t) && !AtEnd(t) && HasFifteen(t[0]);
      StandsAnswer(b, h, pieces, t);
    }
    if CutPiece(b) {
      var h: Head, pieces, t :| Stands(b, h, pieces, t) && Cut(t);
      StandsAnswer(b, h, pieces, t);
    }
    if IsDatagram(b) {
      var d: Datagram :| d.Valid() && b == d.Wire();
      DatagramIsAccepted(d);
      AcceptedFlags(d);
    }
    if WholeHead(b) {
      var h, s := HeadFound(b);
      var pieces, t := PiecesFound(s, 0);
      assert Stands(b, h, pieces, t);
      StandsAnswer(b, h, pieces, t);
    }
  }

  predicate WholeHead(b: seq<byte>) { |b| >= 4 && 64 <= b[0] < 128 && b[0] % 16 <= 8 && |b| >= 4 + b[0] % 16 }

  lemma AcceptedFlags(d: Datagram)
    ensures 0 <= d.Flags() < ERROR
  {
  }

  lemma HeaderAnswer(b: seq<byte>)
    ensures TooShort(b) ==> Says(Parsed(b).0, NOT_ENOUGH_DATA)
    ensures OtherVersion(b) ==> Says(Parsed(b).0, IGNORE)
    ensures LongToken(b) ==> Says(Parsed(b).0, FORMAT_ERROR)
    ensures CutToken(b) ==> Says(Parsed(b).0, NOT_ENOUGH_DATA)
    ensures WholeHead(b) || TooShort(b) || OtherVersion(b) || LongToken(b) || CutToken(b)
    ensures WholeHead(b) ==> !TooShort(b) && !OtherVersion(b) && !LongToken(b) && !CutToken(b)
  {
    hide ParsedBody;
    if |b| >= 4 && 64 <= b[0] < 128 {
      FirstParts(b[0]);
    }
    forall t, k | 0 <= t < 4 && 0 <= k < 16 && |b| >= 4 && b[0] == FirstOf(t, k)
      ensures 64 <= b[0] < 128 && b[0] % 16 == k && b[0] / 64 == 1
    {
      FirstOfIs(b[0], t, k);
    }
  }

  /** A marker with nothing behind it, which the standard calls a format error, is accepted. */
  lemma LoneMarkerAccepted(h: Head)
    requires h.Valid()
    ensures Parsed(h.Wire() + [0xff]) == (h.Flags() + OPTIONS_FIELD, h.Message())
  {
    hide Head.Wire, Head.Flags, Head.Valid, Parsed, Pieces, OptionsOf, Built;
    var d := Datagram(h, [], Marked([]));
    NoPieces([]);
    assert d.ending.Wire() == [0xff] && [] + [0xff] == [0xff];
    DatagramIsAccepted(d);
  }

  /** The truncated datagram 44 01 00 07, and one with a 2-byte token, two options and a payload. */
  lemma Examples()
    ensures Says(Parsed([0x44, 0x01, 0x00, 0x07]).0, NOT_ENOUGH_DATA)
    ensures Parsed([0x52, 0x45, 0x12, 0x34, 0xa1, 0xa2, 0xb2, 0x61, 0x62, 0x11, 0x07, 0xff, 0x78]).1
         == Msg(1, 2, 5, 0x1234, [0xa1, 0xa2], [Opt(11, [0x61, 0x62]), Opt(12, [0x07])], [0x78])
  {
    hide Parsed;
    var cut: seq<byte> := [0x44, 0x01, 0x00, 0x07];
    assert cut[0] == FirstOf(0, 4);
    assert CutToken(cut);
    AnswersAreExact(cut);
    ExampleDatagram();
  }

  lemma ExampleDatagram()
    ensures Parsed([0x52, 0x45, 0x12, 0x34, 0xa1, 0xa2, 0xb2, 0x61, 0x62, 0x11, 0x07, 0xff, 0x78]).1
         == Msg(1, 2, 5, 0x1234, [0xa1, 0xa2], [Opt(11, [0x61, 0x62]), Opt(12, [0x07])], [0x78])
  {
    hide Parsed, Coap.ReadOne, Coap.ReadOptions;
    var h := Head(1, 2, 5, 0x12, 0x34, [0xa1, 0xa2]);
    var p1, p2 := Piece(Short(11), Short(2), [0x61, 0x62]), Piece(Short(1), Short(1), [0x07]);
    var d := Datagram(h, [p1, p2], Marked([0x78]));
    assert p1.Wire() == [0xb2, 0x61, 0x62] && p2.Wire() == [0x11, 0x07];
    assert [p1, p2][1..] == [p2] && [p2][1..] == [];
    assert Pieces([p2]) == [0x11, 0x07] && Pieces([p1, p2]) == [0xb2, 0x61, 0x62, 0x11, 0x07];
    assert d.Wire() == [0x52, 0x45, 0x12, 0x34, 0xa1, 0xa2, 0xb2, 0x61, 0x62, 0x11, 0x07, 0xff, 0x78];
    DatagramIsAccepted(d);
    var opts := [Opt(11, [0x61, 0x62]), Opt(12, [0x07])];
    assert OptionsOf([p2], 11) == [Opt(12, [0x07])];
    assert OptionsOf([p1, p2], 0) == opts;
    BuiltInOrder(opts);
  }
}
