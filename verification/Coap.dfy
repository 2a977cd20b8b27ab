/**
 * CoAP messages (sections 3 and 3.1 of RFC 7252) as examples/fossa/fossa.c composes and
 * parses them. A flag word is a sum of distinct bits, each set at most once.
 */
module Coap {
  import opened Bytes
  import opened CoapOptions

  const TYPE_FIELD := 0x2
  const CODE_CLASS_FIELD := 0x4
  const CODE_DETAIL_FIELD := 0x8
  const MSG_ID_FIELD := 0x10
  const TOKEN_FIELD := 0x20
  const OPTIONS_FIELD := 0x40
  const PAYLOAD_FIELD := 0x80
  const ERROR := 0x10000
  const FORMAT_ERROR := ERROR + 0x20000
  const IGNORE := ERROR + 0x40000
  const NOT_ENOUGH_DATA := ERROR + 0x80000

  const MSG_MAX := 3

  /** The largest delta or length the option header can hold. */
  const EXT_MAX := 0xffff + 269

  const MARKER: byte := 0xff

  datatype Msg = Msg(
    msgType: byte,
    codeClass: byte,
    codeDetail: byte,
    msgId: u16,
    token: seq<byte>,
    options: seq<Opt>,
    payload: seq<byte>
  )

  const EMPTY := Msg(0, 0, 0, 0, [], [], [])

  // ---- Composing ----------------------------------------------------------------------------

  /** `coap_get_ext_opt_size`. */
  function ExtSize(v: nat): nat {
    if 13 <= v <= 0xff + 13 then 1 else if 0xff + 13 < v <= EXT_MAX then 2 else 0
  }

  // `coap_split_opt` and `coap_add_opt_info`: the nibble of a delta or length, and its extension.
  function Base(v: nat): byte {
    if v < 13 then v else if v <= 0xff + 13 then 13 else if v <= EXT_MAX then 14 else 0
  }

  function Ext(v: nat): (e: seq<byte>)
    ensures |e| == ExtSize(v)
  {
    if 13 <= v <= 0xff + 13 then [v - 13]
    else if 0xff + 13 < v <= EXT_MAX then PutBe16(v - 269)
    else []
  }

  /** One option, `delta` behind the one before. */
  function OneOption(delta: nat, value: seq<byte>): seq<byte> {
    [Base(delta) * 16 + Base(|value|)] + Ext(delta) + Ext(|value|) + value
  }

  /** The option part of a message whose options are in order. */
  function OptionBytes(options: seq<Opt>, previous: u32): seq<byte>
    requires InOrder(options, previous)
  {
    if options == [] then []
    else OneOption(options[0].number - previous, options[0].value) + OptionBytes(options[1..], options[0].number)
  }

  predicate InOrder(options: seq<Opt>, previous: u32) {
    options != [] ==> previous <= options[0].number && InOrder(options[1..], options[0].number)
  }

  function FixedHeader(m: Msg): seq<byte>
    requires HeaderFits(m)
  {
    [64 + m.msgType * 16 + |m.token|, m.codeClass * 32 + m.codeDetail] + PutBe16(m.msgId)
  }

  function PayloadBytes(payload: seq<byte>): seq<byte> {
    if payload == [] then [] else [MARKER] + payload
  }

  predicate HeaderFits(m: Msg) {
    m.msgType <= MSG_MAX && |m.token| <= 8 && m.codeClass <= 7 && m.codeDetail <= 31
  }

  /** What `ns_coap_compose` writes. */
  function Written(m: Msg): seq<byte>
    requires HeaderFits(m) && InOrder(m.options, 0)
  {
    FixedHeader(m) + m.token + OptionBytes(m.options, 0) + PayloadBytes(m.payload)
  }

  /** The option check of `coap_calculate_packet_size`, and the size it adds up. */
  function OptionsSize(options: seq<Opt>): (r: (bool, nat)) {
    if options == [] then (true, 0)
    else
      var o := options[0];
      if (|options| > 1 && o.number > options[1].number) || |o.value| > EXT_MAX || o.number > EXT_MAX then (false, 0)
      else
        var (ok, size) := OptionsSize(options[1..]);
        (ok, 1 + ExtSize(o.number) + ExtSize(|o.value|) + |o.value| + size)
  }

  /** `coap_calculate_packet_size`: an error word, or 0 and the number of bytes reserved. */
  function Reserved(m: Msg): (int, nat) {
    if m.msgType > MSG_MAX then (ERROR + TYPE_FIELD, 0)
    else if |m.token| > 8 then (ERROR + TOKEN_FIELD, 0)
    else if m.codeClass > 7 then (ERROR + CODE_CLASS_FIELD, 0)
    else if m.codeDetail > 31 then (ERROR + CODE_DETAIL_FIELD, 0)
    else
      var (ok, size) := OptionsSize(m.options);
      if !ok then (ERROR + OPTIONS_FIELD, 0)
      else (0, 4 + |m.token| + (if m.payload != [] then |m.payload| + 1 else 0) + size)
  }

  /** The messages `ns_coap_compose` accepts. */
  predicate Composable(m: Msg) { Reserved(m).0 == 0 }

  predicate AtMost(options: seq<Opt>, max: nat) {
    forall i :: 0 <= i < |options| ==> options[i].number <= max && |options[i].value| <= max
  }

  /** Accepted are exactly the messages whose fields fit and whose options are in order and encodable. */
  lemma {:induction false} OptionsAccepted(options: seq<Opt>, previous: u32)
    requires options != [] ==> previous <= options[0].number
    ensures OptionsSize(options).0 <==> InOrder(options, previous) && AtMost(options, EXT_MAX)
  {
    hide ExtSize;
    if options != [] {
      var o, rest := options[0], options[1..];
      assert options == [o] + rest;
      if |options| > 1 && o.number > rest[0].number {
      } else {
        OptionsAccepted(rest, o.number);
        assert AtMost(options, EXT_MAX) <==> o.number <= EXT_MAX && |o.value| <= EXT_MAX && AtMost(rest, EXT_MAX);
      }
    }
  }

  lemma ComposableMeans(m: Msg)
    ensures Composable(m) <==> HeaderFits(m) && InOrder(m.options, 0) && AtMost(m.options, EXT_MAX)
  {
    hide OptionsSize, InOrder, AtMost;
    OptionsAccepted(m.options, 0);
  }

  /** Which error word a message gets: that of its first field that does not fit, the options last. */
  lemma WhichError(m: Msg)
    ensures Reserved(m).0 == ERROR + 0x2 <==> m.msgType > 3
    ensures Reserved(m).0 == ERROR + 0x20 <==> m.msgType <= 3 && |m.token| > 8
    ensures Reserved(m).0 == ERROR + 0x4 <==> m.msgType <= 3 && |m.token| <= 8 && m.codeClass > 7
    ensures Reserved(m).0 == ERROR + 0x8 <==> m.msgType <= 3 && |m.token| <= 8 && m.codeClass <= 7 && m.codeDetail > 31
    ensures Reserved(m).0 == ERROR + 0x40 <==> HeaderFits(m) && !(InOrder(m.options, 0) && AtMost(m.options, 0xffff + 269))
    ensures Reserved(m).0 in {0, ERROR + 0x2, ERROR + 0x20, ERROR + 0x4, ERROR + 0x8, ERROR + 0x40}
  {
    hide OptionsSize, InOrder, AtMost;
    OptionsAccepted(m.options, 0);
  }

  // ---- Reserved and written -------------------------------------------------------------------

  /** No option takes a longer extension for its number than for its delta. */
  predicate TightNumbers(options: seq<Opt>, previous: u32)
    requires InOrder(options, previous)
  {
    options != [] ==>
      && ExtSize(options[0].number) == ExtSize(options[0].number - previous)
      && TightNumbers(options[1..], options[0].number)
  }

  lemma ExtSizeGrows(a: nat, b: nat)
    requires a <= b <= EXT_MAX
    ensures ExtSize(a) <= ExtSize(b)
  {
  }

  lemma {:induction false} OptionsFit(options: seq<Opt>, previous: u32)
    requires InOrder(options, previous) && OptionsSize(options).0
    ensures |OptionBytes(options, previous)| <= OptionsSize(options).1
    ensures |OptionBytes(options, previous)| == OptionsSize(options).1 <==> TightNumbers(options, previous)
  {
    hide ExtSize, Base, Ext;
    if options != [] {
      ExtSizeGrows(options[0].number - previous, options[0].number);
      OptionsFit(options[1..], options[0].number);
    }
  }

  /** How many of the reserved bytes `ns_coap_compose` leaves unwritten. */
  function Slack(m: Msg): int
    requires HeaderFits(m) && InOrder(m.options, 0)
  {
    Reserved(m).1 - |Written(m)|
  }

  /**
   * The reservation goes by option numbers, the writing by deltas: it always suffices, and it
   * is exact if and only if no number needs a longer extension than its delta.
   */
  lemma WrittenFits(m: Msg)
    requires Composable(m)
    ensures HeaderFits(m) && InOrder(m.options, 0)
    ensures Slack(m) >= 0
    ensures Slack(m) == 0 <==> TightNumbers(m.options, 0)
  {
    hide OptionsSize, InOrder, AtMost, OptionBytes, TightNumbers, PutBe16;
    ComposableMeans(m);
    OptionsFit(m.options, 0);
    Be16RoundTrip(m.msgId);
  }

  // ---- Parsing --------------------------------------------------------------------------------

  /** `coap_get_ext_opt` at the front of `s`: the 16-bit value and the bytes it took, if they are there. */
  function ReadExt(s: seq<byte>, nibble: byte): (r: (bool, u16, nat))
    ensures r.0 ==> r.2 <= |s|
  {
    if nibble == 13 then if |s| >= 1 then (true, s[0] as int + 13, 1) else (false, 0, 0)
    else if nibble == 14 then
      if |s| >= 2 then (true, ToU16(GetBe16(s) as int + 269), 2) else (false, 0, 0)
    else (true, nibble, 0)
  }

  /** The parsed options in the order of the bytes, and what follows them; or the error. */
  datatype OptionsRead = Failed(flag: int) | Read(added: seq<Opt>, rest: seq<byte>)

  /** One round of the option loop: the option's number and value, and what follows it. */
  datatype OneRead = OneFailed(flag: int) | One(o: Opt, rest: seq<byte>)

  function ReadOne(s: seq<byte>, previous: u16): (r: OneRead)
    requires s != []
    ensures r.One? ==> |r.rest| < |s| && r.o.number < 0x1_0000 && |r.o.value| < 0x1_0000
    ensures r.OneFailed? ==> r.flag == FORMAT_ERROR || r.flag == NOT_ENOUGH_DATA
  {
    ReadFields(s[0] / 16, s[0] % 16, s[1..], previous)
  }

  /** The same behind the first byte, with its two nibbles. */
  function ReadFields(d: byte, l: byte, s1: seq<byte>, previous: u16): (r: OneRead)
    ensures r.One? ==> |r.rest| <= |s1| && r.o.number < 0x1_0000 && |r.o.value| < 0x1_0000
    ensures r.OneFailed? ==> r.flag == FORMAT_ERROR || r.flag == NOT_ENOUGH_DATA
  {
    if d == 15 || l == 15 then OneFailed(FORMAT_ERROR)
    else
      var (ok1, delta, n1) := ReadExt(s1, d);
      if !ok1 then OneFailed(NOT_ENOUGH_DATA)
      else
        var s2 := s1[n1..];
        var (ok2, length, n2) := ReadExt(s2, l);
        if !ok2 || length > |s2| - n2 then OneFailed(NOT_ENOUGH_DATA)
        else One(Opt(ToU16(delta as int + previous), s2[n2..][..length]), s2[n2..][length..])
  }

  /** The loop of `coap_get_options`. */
  function ReadOptions(s: seq<byte>, previous: u16): (r: OptionsRead)
    decreases |s|
  {
    if s == [] || s[0] == MARKER then Read([], s)
    else
      var one := ReadOne(s, previous);
      if one.OneFailed? then Failed(one.flag)
      else
        var r := ReadOptions(one.rest, one.o.number);
        if r.Failed? then r else Read([one.o] + r.added, r.rest)
  }

  /** `ns_coap_parse`: the flag word and the message fields it fills in. */
  function Parsed(b: seq<byte>): (int, Msg) {
    if |b| < 4 then (NOT_ENOUGH_DATA, EMPTY)
    else if b[0] / 64 != 1 then (IGNORE, EMPTY)
    else
      var m := EMPTY.(msgType := b[0] / 16 % 4);
      var tkl := b[0] % 16;
      if tkl > 8 then (TYPE_FIELD + FORMAT_ERROR, m)
      else
        var m := m.(codeClass := b[1] / 32, codeDetail := b[1] % 32, msgId := GetBe16(b[2..]));
        var flags := TYPE_FIELD + CODE_CLASS_FIELD + CODE_DETAIL_FIELD + MSG_ID_FIELD;
        if 4 + tkl > |b| then (flags + NOT_ENOUGH_DATA, m)
        else
          var m := m.(token := b[4..4 + tkl]);
          var flags := if tkl != 0 then flags + TOKEN_FIELD else flags;
          ParsedBody(b[4 + tkl..], flags, m)
  }

  /** Options and payload. */
  function ParsedBody(s: seq<byte>, flags: int, m: Msg): (int, Msg) {
    if s == [] then (flags, m)
    else
      var r := ReadOptions(s, 0);
      if r.Failed? then (flags + r.flag, m)
      else
        var m := m.(options := Built(r.added));
        var flags := flags + OPTIONS_FIELD;
        if |r.rest| <= 1 then (flags, m)
        else (flags + PAYLOAD_FIELD, m.(payload := r.rest[1..]))
  }

  /** The flag word of a message parsed without error. */
  function FlagsOf(m: Msg): int {
    TYPE_FIELD + CODE_CLASS_FIELD + CODE_DETAIL_FIELD + MSG_ID_FIELD
    + (if m.token != [] then TOKEN_FIELD else 0)
    + (if m.options != [] || m.payload != [] then OPTIONS_FIELD else 0)
    + (if m.payload != [] then PAYLOAD_FIELD else 0)
  }

  // ---- Round trip -------------------------------------------------------------------------------

  lemma ExtReadsBack(v: nat, rest: seq<byte>)
    requires v < 0x1_0000
    ensures ReadExt(Ext(v) + rest, Base(v)) == (true, v, |Ext(v)|)
    ensures Base(v) <= 14 && (Ext(v) + rest)[|Ext(v)|..] == rest
  {
    hide PutBe16, GetBe16;
    if 0xff + 13 < v {
      Be16RoundTrip(v - 269);
    }
  }

  /** An option written behind `previous` is read back, whatever follows it. */
  lemma OneReadsBack(o: Opt, previous: u16, rest: seq<byte>)
    requires previous <= o.number < 0x1_0000 && |o.value| < 0x1_0000
    ensures var s := OneOption(o.number - previous, o.value) + rest;
            s[0] != MARKER && ReadOne(s, previous) == One(o, rest)
  {
    hide Base, Ext, ReadFields;
    var delta, length := o.number - previous, |o.value|;
    var s := OneOption(delta, o.value) + rest;
    FieldsReadBack(o, previous, rest);
    Nibbles(Base(delta), Base(length));
    assert s == [Base(delta) * 16 + Base(length)] + (Ext(delta) + (Ext(length) + (o.value + rest)));
    assert s[1..] == Ext(delta) + (Ext(length) + (o.value + rest));
  }

  lemma FieldsReadBack(o: Opt, previous: u16, rest: seq<byte>)
    requires previous <= o.number < 0x1_0000 && |o.value| < 0x1_0000
    ensures var delta, length := o.number - previous, |o.value|;
            && Base(delta) < 15 && Base(length) < 15
            && ReadFields(Base(delta), Base(length), Ext(delta) + (Ext(length) + (o.value + rest)), previous)
               == One(o, rest)
  {
    hide Base, Ext, ReadExt;
    var delta, length := o.number - previous, |o.value|;
    ExtReadsBack(delta, Ext(length) + (o.value + rest));
    ExtReadsBack(length, o.value + rest);
    assert (o.value + rest)[..length] == o.value && (o.value + rest)[length..] == rest;
  }

  lemma Nibbles(a: byte, b: byte)
    requires a < 15 && b < 15
    ensures (a * 16 + b) / 16 == a && (a * 16 + b) % 16 == b && a * 16 + b < 255
  {
  }

  /** Options read back in front of anything. */
  lemma {:induction false} OptionsReadBack(options: seq<Opt>, previous: u16, rest: seq<byte>)
    requires InOrder(options, previous) && AtMost(options, 0xffff)
    ensures var r := ReadOptions(OptionBytes(options, previous) + rest, previous);
            var tail := ReadOptions(rest, if options == [] then previous else options[|options| - 1].number);
            if tail.Failed? then r == tail else r == Read(options + tail.added, tail.rest)
  {
    hide OneOption, ReadOne, OptionBytes;
    OptionBytesBefore(options, previous, rest);
    if options != [] {
      var o, more := options[0], options[1..];
      OneReadsBack(o, previous, OptionBytes(more, o.number) + rest);
      assert forall i :: 0 <= i < |more| ==> more[i] == options[i + 1];
      OptionsReadBack(more, o.number, rest);
      assert more != [] ==> more[|more| - 1] == options[|options| - 1];
      var tail := ReadOptions(rest, options[|options| - 1].number);
      if tail.Read? {
        assert [o] + (more + tail.added) == options + tail.added;
      }
    }
  }

  lemma OptionBytesBefore(options: seq<Opt>, previous: u32, rest: seq<byte>)
    requires InOrder(options, previous)
    ensures OptionBytes(options, previous) + rest
         == if options == [] then rest
            else OneOption(options[0].number - previous, options[0].value) + (OptionBytes(options[1..], options[0].number) + rest)
  {
    hide OneOption;
  }

  lemma {:induction false} OrderedIsSorted(options: seq<Opt>, previous: u32)
    requires InOrder(options, previous)
    ensures Sorted(options) && forall i :: 0 <= i < |options| ==> previous <= options[i].number
  {
    if options != [] {
      OrderedIsSorted(options[1..], options[0].number);
      assert forall i :: 0 < i < |options| ==> options[i] == options[1..][i - 1];
    }
  }

  /** The fixed header and the token read back. */
  lemma HeaderReadsBack(m: Msg, s: seq<byte>)
    requires HeaderFits(m)
    ensures Parsed(FixedHeader(m) + m.token + s)
         == ParsedBody(s, FlagsOf(m.(options := [], payload := [])), m.(options := [], payload := []))
  {
    hide PutBe16, GetBe16, ParsedBody;
    var t := |m.token|;
    var b := FixedHeader(m) + m.token + s;
    Be16RoundTrip(m.msgId);
    assert b[2..] == PutBe16(m.msgId) + (m.token + s);
    assert b[0] == 64 + m.msgType * 16 + t && b[1] == m.codeClass * 32 + m.codeDetail;
    FirstByte(m.msgType, t);
    CodeByte(m.codeClass, m.codeDetail);
    assert b[4..4 + t] == m.token && b[4 + t..] == s;
  }

  lemma FirstByte(a: nat, t: nat)
    requires a <= 3 && t <= 8
    ensures var x := 64 + a * 16 + t; x / 64 == 1 && x / 16 % 4 == a && x % 16 == t
  {
  }

  lemma CodeByte(c: nat, d: nat)
    requires c <= 7 && d <= 31
    ensures (c * 32 + d) / 32 == c && (c * 32 + d) % 32 == d
  {
  }

  /** Parsing never yields an option number or length beyond 16 bits. */
  lemma {:induction false} ParsedOptionsSmall(s: seq<byte>, previous: u16)
    ensures ReadOptions(s, previous).Read? ==> AtMost(ReadOptions(s, previous).added, 0xffff)
    decreases |s|
  {
    hide ReadOne;
    if s != [] && s[0] != MARKER {
      var one := ReadOne(s, previous);
      if one.One? {
        ParsedOptionsSmall(one.rest, one.o.number);
      }
    }
  }

  lemma {:induction false} BuiltSmall(added: seq<Opt>, max: nat)
    requires AtMost(added, max)
    ensures AtMost(Built(added), max)
  {
    hide FirstAbove;
    if added != [] {
      BuiltSmall(added[..|added| - 1], max);
      InsertedSmall(Built(added[..|added| - 1]), added[|added| - 1], max);
    }
  }

  lemma InsertedSmall(list: seq<Opt>, o: Opt, max: nat)
    requires AtMost(list, max) && AtMost([o], max)
    ensures AtMost(Inserted(list, o), max)
  {
    hide FirstAbove;
    assert [o][0] == o;
  }

  lemma ParsedSmall(b: seq<byte>)
    ensures AtMost(Parsed(b).1.options, 0xffff)
  {
    hide ReadOptions, Built, ReadExt, GetBe16;
    if |b| >= 4 && 4 + b[0] % 16 <= |b| {
      var s := b[4 + b[0] % 16..];
      ParsedOptionsSmall(s, 0);
      if ReadOptions(s, 0).Read? {
        BuiltSmall(ReadOptions(s, 0).added, 0xffff);
      }
    }
  }

  /** Options and payload read back, with nothing behind them. */
  lemma BodyReadsBack(m: Msg, flags: int, m0: Msg)
    requires InOrder(m.options, 0) && AtMost(m.options, 0xffff)
    ensures ParsedBody(OptionBytes(m.options, 0) + PayloadBytes(m.payload), flags, m0)
         == (flags + (if m.options != [] || m.payload != [] then OPTIONS_FIELD else 0)
                   + (if m.payload != [] then PAYLOAD_FIELD else 0),
             if m.options == [] && m.payload == [] then m0
             else if m.payload == [] then m0.(options := m.options)
             else m0.(options := m.options, payload := m.payload))
  {
    hide OneOption, Built;
    var s := OptionBytes(m.options, 0) + PayloadBytes(m.payload);
    OptionsReadBack(m.options, 0, PayloadBytes(m.payload));
    OrderedIsSorted(m.options, 0);
    BuiltInOrder(m.options);
    assert m.options + [] == m.options;
    if m.options != [] {
      assert |OneOption(m.options[0].number, m.options[0].value)| > 0 by {
        OneNotEmpty(m.options[0].number, m.options[0].value);
      }
    }
  }

  lemma OneNotEmpty(delta: nat, value: seq<byte>)
    ensures OneOption(delta, value) != []
  {
  }

  /**
   * Parsing the bytes that compose writes gives the message back with no error flag, exactly
   * when every option number and length fits 16 bits.
   */
  lemma RoundTrip(m: Msg)
    requires Composable(m)
    ensures HeaderFits(m) && InOrder(m.options, 0)
    ensures Parsed(Written(m)) == (FlagsOf(m), m) <==> AtMost(m.options, 0xffff)
  {
    hide Parsed, ParsedBody, FixedHeader, OptionBytes, InOrder, AtMost, Reserved;
    ComposableMeans(m);
    ParsedSmall(Written(m));
    if AtMost(m.options, 0xffff) {
      var s, m0 := OptionBytes(m.options, 0) + PayloadBytes(m.payload), m.(options := [], payload := []);
      assert Written(m) == FixedHeader(m) + m.token + s;
      HeaderReadsBack(m, s);
      BodyReadsBack(m, FlagsOf(m0), m0);
    }
  }

  /**
   * The buffer that compose leaves holds `Slack(m)` more bytes of unknown content behind the
   * written ones. It reads back as the message, whatever those bytes are, exactly when there
   * are none and the options fit 16 bits: when no option number needs a longer extension
   * than its delta.
   */
  lemma BufferRoundTrip(m: Msg)
    requires Composable(m)
    ensures HeaderFits(m) && InOrder(m.options, 0) && Slack(m) >= 0
    ensures (forall fill: seq<byte> :: |fill| == Slack(m) ==> Parsed(Written(m) + fill) == (FlagsOf(m), m))
       <==> AtMost(m.options, 0xffff) && TightNumbers(m.options, 0)
  {
    hide Parsed, Written, InOrder, AtMost, Reserved, FlagsOf, TightNumbers, Slack;
    ComposableMeans(m);
    WrittenFits(m);
    var zeros := seq(Slack(m), _ => 0 as byte);
    RoundTrip(m);
    assert Written(m) + [] == Written(m);
    ParsedSmall(Written(m) + zeros);
    if AtMost(m.options, 0xffff) && !TightNumbers(m.options, 0) {
      SlackSpoils(m, zeros);
    }
  }

  /** Zero bytes behind a message read as further options, or as more payload. */
  lemma SlackSpoils(m: Msg, zeros: seq<byte>)
    requires HeaderFits(m) && InOrder(m.options, 0) && AtMost(m.options, 0xffff)
    requires zeros != [] && zeros[0] == 0
    ensures Parsed(Written(m) + zeros) != (FlagsOf(m), m)
  {
    hide FixedHeader, OptionBytes, InOrder, ReadOptions, ReadOne, Built, Parsed;
    var p, m0 := PayloadBytes(m.payload) + zeros, m.(options := [], payload := []);
    var s := OptionBytes(m.options, 0) + p;
    assert Written(m) + zeros == FixedHeader(m) + m.token + s;
    HeaderReadsBack(m, s);
    OptionsReadBack(m.options, 0, p);
    var last := if m.options == [] then 0 else m.options[|m.options| - 1].number;
    if m.payload != [] {
      MarkerEnds(p, last);
      assert p[1..] == m.payload + zeros;
      OrderedIsSorted(m.options, 0);
      BuiltInOrder(m.options);
      assert m.options + [] == m.options;
      assert |p[1..]| != |m.payload|;
    } else {
      ZeroIsAnOption(p, last);
      var r := ReadOptions(p, last);
      if r.Read? {
        BuiltLength(m.options + r.added);
      }
    }
  }

  lemma MarkerEnds(p: seq<byte>, previous: u16)
    requires p != [] && p[0] == MARKER
    ensures ReadOptions(p, previous) == Read([], p)
  {
  }

  lemma ZeroIsAnOption(p: seq<byte>, previous: u16)
    requires p != [] && p[0] == 0
    ensures var r := ReadOptions(p, previous);
            (r.Read? ==> |r.added| > 0) && (r.Failed? ==> r.flag >= ERROR)
  {
    OptionErrors(p, previous);
  }

  lemma {:induction false} OptionErrors(s: seq<byte>, previous: u16)
    ensures var r := ReadOptions(s, previous);
            r.Failed? ==> r.flag == FORMAT_ERROR || r.flag == NOT_ENOUGH_DATA
    decreases |s|
  {
    hide ReadOne;
    if s != [] && s[0] != MARKER {
      var one := ReadOne(s, previous);
      if one.One? {
        OptionErrors(one.rest, one.o.number);
      }
    }
  }

  lemma {:induction false} BuiltLength(added: seq<Opt>)
    ensures |Built(added)| == |added|
  {
    if added != [] {
      BuiltLength(added[..|added| - 1]);
    }
  }

  /** Two options of ordinary numbers already leave a byte of slack. */
  lemma SlackExample()
    ensures var m := EMPTY.(options := [Opt(11, []), Opt(15, [])]);
            Composable(m) && HeaderFits(m) && InOrder(m.options, 0) && Slack(m) == 1
  {
    var m := EMPTY.(options := [Opt(11, []), Opt(15, [])]);
    assert m.options[1..] == [Opt(15, [])];
    assert InOrder(m.options[1..], 11) && m.options[1..][1..] == [];
    assert OptionsSize([Opt(15, [])]) == (true, 2);
    assert OptionsSize(m.options) == (true, 3);
    assert OptionBytes([Opt(15, [])], 11) == OneOption(4, []);
    assert |OptionBytes(m.options, 0)| == 2;
  }

  /** Option numbers from 65536 on, which the composer accepts and the parser cannot hold. */
  lemma WideNumberExample(number: u32)
    requires 0xffff < number <= EXT_MAX
    ensures var m := EMPTY.(options := [Opt(number, [])]);
            Composable(m) && HeaderFits(m) && InOrder(m.options, 0) && Parsed(Written(m)) != (FlagsOf(m), m)
  {
    hide Parsed, Written, FlagsOf, Reserved;
    var m := EMPTY.(options := [Opt(number, [])]);
    ComposableMeans(m);
    RoundTrip(m);
    assert m.options[0].number > 0xffff;
  }
}
