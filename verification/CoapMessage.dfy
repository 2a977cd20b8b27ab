/** `ns_coap_compose` and `ns_coap_parse` on a message object and a buffer. */
module CoapMessage {
  import opened Bytes
  import opened Mbuf
  import opened CoapOptions
  import opened Coap

  /** Writes bytes at `ptr`; `start` is where the message begins. */
  method Put(io: Buffer, ghost start: nat, ptr: nat, bytes: seq<byte>) returns (next: nat)
    requires io.Valid() && start <= ptr && ptr + |bytes| <= io.len
    modifies io.buf
    ensures next == ptr + |bytes|
    ensures io.buf[..start] == old(io.buf[..start])
    ensures io.buf[start..next] == old(io.buf[start..ptr]) + bytes
  {
    forall k | 0 <= k < |bytes| {
      io.buf[ptr + k] := bytes[k];
    }
    next := ptr + |bytes|;
  }

  lemma WrittenBehind(buf: array<byte>, len: nat, start: nat, written: seq<byte>)
    requires start + |written| <= len <= buf.Length && buf[start..start + |written|] == written
    ensures buf[..start] + written <= buf[..len]
  {
    assert buf[..start + |written|] == buf[..start] + buf[start..start + |written|];
    assert buf[..len][..start + |written|] == buf[..start + |written|];
  }

  /** `struct ns_coap_message`. */
  class Message {
    var msgType: byte
    var codeClass: byte
    var codeDetail: byte
    var msgId: u16
    var token: seq<byte>
    var payload: seq<byte>
    const list: OptionList

    constructor ()
      ensures fresh(list) && list.Valid() && list.nodes == [] && View() == EMPTY
    {
      msgType, codeClass, codeDetail, msgId, token, payload := 0, 0, 0, 0, [], [];
      list := new OptionList();
    }

    ghost function View(): Msg
      reads this, list
    {
      Msg(msgType, codeClass, codeDetail, msgId, token, list.Contents(), payload)
    }

    /** `coap_calculate_packet_size`. */
    method CalculatePacketSize() returns (res: int, size: nat)
      requires list.Valid()
      ensures res == Reserved(View()).0 && (res == 0 ==> size == Reserved(View()).1)
    {
      hide OptsOf, ExtSize;
      size := 4;
      if msgType > MSG_MAX {
        return ERROR + TYPE_FIELD, size;
      }
      if |token| > 8 {
        return ERROR + TOKEN_FIELD, size;
      }
      if codeClass > 7 {
        return ERROR + CODE_CLASS_FIELD, size;
      }
      if codeDetail > 31 {
        return ERROR + CODE_DETAIL_FIELD, size;
      }
      size := size + |token|;
      if payload != [] {
        size := size + |payload| + 1;
      }
      ghost var base, k, all := size, 0, list.Contents();
      OptsOfNodes(list.nodes);
      assert all[0..] == all;
      var opt := list.options;
      while opt != null
        invariant k <= |all| && opt == if k < |all| then list.nodes[k] else null
        invariant OptionsSize(all).0 == OptionsSize(all[k..]).0
        invariant OptionsSize(all).0 ==> base + OptionsSize(all).1 == size + OptionsSize(all[k..]).1
        decreases |all| - k
      {
        assert all[k..][0] == all[k] && all[k..][1..] == all[k + 1..] && (k + 1 < |all| ==> all[k..][1] == all[k + 1]);
        size := size + 1 + ExtSize(opt.number) + ExtSize(|opt.value|);
        if (opt.next != null && opt.number > opt.next.number) || |opt.value| > EXT_MAX || opt.number > EXT_MAX {
          return ERROR + OPTIONS_FIELD, size;
        }
        size := size + |opt.value|;
        opt := opt.next;
        k := k + 1;
      }
      assert all[k..] == [];
      res := 0;
    }

    /**
     * `ns_coap_compose`: appends the reserved number of bytes to the buffer, of which those
     * of the message come first; nothing on an error.
     */
    method Compose(io: Buffer) returns (res: int)
      requires list.Valid() && io.Valid()
      modifies io, io.buf
      ensures io.Valid() && (io.buf == old(io.buf) || fresh(io.buf)) && res == Reserved(View()).0
      ensures res != 0 ==> io.Contents() == old(io.Contents())
      ensures res == 0 ==>
                && HeaderFits(View()) && InOrder(View().options, 0)
                && old(io.Contents()) + Written(View()) <= io.Contents()
                && |io.Contents()| == |old(io.Contents())| + Reserved(View()).1
    {
      hide Reserved, HeaderFits, InOrder, Written, OptsOf;
      var size;
      res, size := CalculatePacketSize();
      if res != 0 {
        return;
      }
      ghost var m := View();
      var start := io.len;
      WrittenFits(m);
      io.AppendSpace(size);
      ghost var before := io.buf[..start];
      assert before == old(io.Contents()) by {
        assert io.Contents()[..start] == before;
      }
      WriteMessage(io, start);
      WrittenBehind(io.buf, io.len, start, Written(m));
    }

    /** The writing part of `ns_coap_compose`, front to back from `start`. */
    method WriteMessage(io: Buffer, start: nat)
      requires list.Valid() && io.Valid() && start <= io.len && Composable(View())
      requires HeaderFits(View()) && InOrder(View().options, 0) && start + |Written(View())| <= io.len
      modifies io.buf
      ensures io.buf[..start] == old(io.buf[..start])
      ensures io.buf[start..start + |Written(View())|] == Written(View())
    {
      hide Reserved, OptsOf, OptionBytes, InOrder, FixedHeader, PayloadBytes;
      ghost var m := View();
      ComposableMeans(m);
      HeaderSize(m);
      ghost var h, o, p := FixedHeader(m), OptionBytes(m.options, 0), PayloadBytes(payload);
      assert Written(m) == h + token + o + p;
      var ptr := WriteHeader(io, start);
      ptr := Put(io, start, ptr, token);
      assert io.buf[start..ptr] == h + token;
      ptr := WriteOptions(io, start, ptr);
      assert io.buf[start..ptr] == h + token + o;
      ptr := WritePayload(io, start, ptr);
    }

    /** The payload marker and the payload, if there is one. */
    method WritePayload(io: Buffer, start: nat, at: nat) returns (ptr: nat)
      requires io.Valid() && start <= at && at + |PayloadBytes(payload)| <= io.len
      modifies io.buf
      ensures io.buf[..start] == old(io.buf[..start]) && ptr == at + |PayloadBytes(payload)|
      ensures io.buf[start..ptr] == old(io.buf[start..at]) + PayloadBytes(payload)
    {
      ptr := at;
      ghost var head := io.buf[start..at];
      if payload != [] {
        ptr := Put(io, start, ptr, [MARKER]);
        ptr := Put(io, start, ptr, payload);
        assert head + [MARKER] + payload == head + ([MARKER] + payload);
      } else {
        assert head + [] == head;
      }
    }

    /** Version, type and token length; code; message id. */
    method WriteHeader(io: Buffer, start: nat) returns (ptr: nat)
      requires io.Valid() && HeaderFits(View()) && start + 4 <= io.len
      modifies io.buf
      ensures io.buf[..start] == old(io.buf[..start]) && ptr == start + 4
      ensures |FixedHeader(View())| == 4 && io.buf[start..ptr] == FixedHeader(View())
    {
      hide PutBe16;
      Be16RoundTrip(msgId);
      ptr := Put(io, start, start, [64 + msgType * 16 + |token|]);
      ptr := Put(io, start, ptr, [codeClass * 32 + codeDetail]);
      ptr := Put(io, start, ptr, PutBe16(msgId));
    }

    /** One round of the option loop of `ns_coap_compose`. */
    method WriteOne(io: Buffer, start: nat, at: nat, delta: nat, value: seq<byte>) returns (ptr: nat)
      requires io.Valid() && start <= at && delta <= EXT_MAX && |value| <= EXT_MAX
      requires at + |OneOption(delta, value)| <= io.len
      modifies io.buf
      ensures io.buf[..start] == old(io.buf[..start]) && ptr == at + |OneOption(delta, value)|
      ensures io.buf[start..ptr] == old(io.buf[start..at]) + OneOption(delta, value)
    {
      hide Base, Ext, ExtSize;
      BaseFits(delta);
      BaseFits(|value|);
      ghost var head := io.buf[start..at];
      var first := [Base(delta) * 16 + Base(|value|)];
      ptr := Put(io, start, at, first);
      ptr := Put(io, start, ptr, Ext(delta));
      assert io.buf[start..ptr] == head + (first + Ext(delta));
      ptr := Put(io, start, ptr, Ext(|value|));
      assert io.buf[start..ptr] == head + (first + Ext(delta) + Ext(|value|));
      ptr := Put(io, start, ptr, value);
    }

    /** The option loop of `ns_coap_compose`. */
    method WriteOptions(io: Buffer, start: nat, at: nat) returns (ptr: nat)
      requires list.Valid() && io.Valid() && start <= at
      requires InOrder(list.Contents(), 0) && AtMost(list.Contents(), EXT_MAX)
      requires at + |OptionBytes(list.Contents(), 0)| <= io.len
      modifies io.buf
      ensures io.buf[..start] == old(io.buf[..start])
      ensures ptr == at + |OptionBytes(list.Contents(), 0)|
      ensures io.buf[start..ptr] == old(io.buf[start..at]) + OptionBytes(list.Contents(), 0)
    {
      hide OptsOf, OneOption, OptionBytes, InOrder, AtMost;
      ghost var k, all, head := 0, list.Contents(), io.buf[start..at];
      ghost var done: seq<byte> := [];
      OptsOfNodes(list.nodes);
      assert all[0..] == all && done + OptionBytes(all, 0) == OptionBytes(all, 0);
      ptr := at;
      var opt, previous := list.options, 0;
      while opt != null
        invariant k <= |all| && opt == if k < |all| then list.nodes[k] else null
        invariant 0 <= previous < 0x1_0000_0000 && InOrder(all[k..], previous)
        invariant done + OptionBytes(all[k..], previous) == OptionBytes(all, 0)
        invariant ptr == at + |done| && io.buf[start..ptr] == head + done && io.buf[..start] == old(io.buf[..start])
        decreases |all| - k
      {
        BytesOfNext(all, k, previous, done);
        ghost var one := OneOption(all[k].number - previous, all[k].value);
        ptr := WriteOne(io, start, ptr, opt.number - previous, opt.value);
        assert head + done + one == head + (done + one);
        done := done + one;
        previous := opt.number;
        opt := opt.next;
        k := k + 1;
      }
      assert done == OptionBytes(all, 0) by { NoBytes(all, k, previous, done); }
    }

    lemma BytesOfNext(all: seq<Opt>, k: nat, previous: u32, done: seq<byte>)
      requires k < |all| && InOrder(all[k..], previous) && AtMost(all, EXT_MAX)
      ensures previous <= all[k].number <= EXT_MAX && |all[k].value| <= EXT_MAX && InOrder(all[k + 1..], all[k].number)
      ensures var one := OneOption(all[k].number - previous, all[k].value);
              done + OptionBytes(all[k..], previous) == done + one + OptionBytes(all[k + 1..], all[k].number)
    {
      hide OneOption;
      assert all[k..][0] == all[k] && all[k..][1..] == all[k + 1..];
    }

    lemma NoBytes(all: seq<Opt>, k: nat, previous: u32, done: seq<byte>)
      requires k == |all|
      ensures InOrder(all[k..], previous) && done + OptionBytes(all[k..], previous) == done
    {
      assert all[k..] == [];
    }

    /** `ns_coap_parse`. */
    method Parse(io: Buffer) returns (flags: int)
      requires io.Valid() && list.Valid()
      modifies this, list, list.nodes
      ensures list.Valid() && (flags, View()) == Parsed(io.Contents())
    {
      hide ParsedBody, GetBe16, OptsOf;
      list.Free();
      OptsOfNodes(list.nodes);
      msgType, codeClass, codeDetail, msgId, token, payload := 0, 0, 0, 0, [], [];
      var b := io.buf[..io.len];
      if |b| < 4 {
        return NOT_ENOUGH_DATA;
      }
      if b[0] / 64 != 1 {
        return IGNORE;
      }
      msgType := b[0] / 16 % 4;
      flags := TYPE_FIELD;
      var tkl := b[0] % 16;
      if tkl > 8 {
        return flags + FORMAT_ERROR;
      }
      codeClass, codeDetail := b[1] / 32, b[1] % 32;
      flags := flags + CODE_CLASS_FIELD + CODE_DETAIL_FIELD;
      msgId := GetBe16(b[2..]);
      flags := flags + MSG_ID_FIELD;
      var ptr := 4;
      if tkl != 0 {
        if ptr + tkl > |b| {
          return flags + NOT_ENOUGH_DATA;
        }
        token := b[ptr..ptr + tkl];
        ptr := ptr + tkl;
        flags := flags + TOKEN_FIELD;
      }
      assert token == b[4..4 + tkl] && ptr == 4 + tkl;
      flags := ParseBody(b, ptr, flags);
    }

    /** The part of `ns_coap_parse` behind the token. */
    method ParseBody(b: seq<byte>, at: nat, flags: int) returns (res: int)
      requires list.Valid() && list.nodes == [] && payload == [] && at <= |b|
      modifies this`payload, list
      ensures list.Valid() && (res, View()) == ParsedBody(b[at..], flags, old(View()))
    {
      hide ReadOptions, Built, OptsOf;
      OptsOfNodes(list.nodes);
      res := flags;
      var ptr := at;
      if ptr == |b| {
        return;
      }
      var error;
      error, ptr := GetOptions(b, ptr);
      if error != 0 {
        return flags + error;
      }
      res := res + OPTIONS_FIELD;
      if ptr == |b| {
        return;
      }
      assert b[ptr..][1..] == b[ptr + 1..];
      ptr := ptr + 1;
      if |b| - ptr != 0 {
        payload := b[ptr..];
        res := res + PAYLOAD_FIELD;
      }
    }

    /** The option loop of `coap_get_options`; on an error all options are dropped. */
    method GetOptions(b: seq<byte>, at: nat) returns (error: int, ptr: nat)
      requires list.Valid() && list.nodes == [] && at < |b|
      modifies list
      ensures list.Valid() && at <= ptr <= |b|
      ensures var r := ReadOptions(b[at..], 0);
              if r.Failed? then error == r.flag && error != 0 && list.Contents() == []
              else error == 0 && list.Contents() == Built(r.added) && b[ptr..] == r.rest
    {
      hide Inserted, OptsOf, ReadOne, ReadOptions, Built, list.Valid, Continues;
      error, ptr := 0, at;
      var previous: u16 := 0;
      ghost var added: seq<Opt> := [];
      ghost var all := ReadOptions(b[at..], 0);
      ReadStart(all);
      OptsOfNodes(list.nodes);
      while ptr < |b| && b[ptr] != MARKER
        invariant at <= ptr <= |b| && list.Valid() && error == 0
        invariant list.Contents() == Built(added) && fresh(list.nodes)
        invariant Continues(all, added, ReadOptions(b[ptr..], previous))
        decreases |b| - ptr
      {
        ghost var s := b[ptr..];
        ReadStep(all, added, s, previous);
        var number, length, width := 0, 0, 0;
        error, number, length, width := ReadHead(b, ptr, previous);
        if error != 0 {
          break;
        }
        ptr := ptr + width;
        var fits := ptr + length <= |b|;
        var _, _ := list.Add(number, if fits then b[ptr..ptr + length] else []);
        if !fits {
          error := NOT_ENOUGH_DATA;
          break;
        }
        assert b[ptr..][..length] == b[ptr..ptr + length] && b[ptr..][length..] == b[ptr + length..];
        ghost var o := Opt(number, b[ptr..ptr + length]);
        BuiltStep(added, o);
        added := added + [o];
        previous := number;
        ptr := ptr + length;
      }
      if error != 0 {
        list.Free();
        OptsOfNodes(list.nodes);
      } else {
        ReadEnd(all, added, b[ptr..], previous);
      }
    }
  }

  lemma HeaderSize(m: Msg)
    requires HeaderFits(m)
    ensures |FixedHeader(m)| == 4
  {
  }

  lemma BaseFits(v: nat)
    ensures Base(v) < 15
  {
  }

  lemma BuiltStep(added: seq<Opt>, o: Opt)
    ensures Built(added + [o]) == Inserted(Built(added), o)
  {
    assert (added + [o])[..|added|] == added;
  }

  lemma ReadStart(all: OptionsRead)
    ensures Built([]) == [] && Continues(all, [], all)
  {
    if all.Read? {
      assert [] + all.added == all.added;
    }
  }

  lemma ReadEnd(all: OptionsRead, added: seq<Opt>, s: seq<byte>, previous: u16)
    requires (s == [] || s[0] == MARKER) && Continues(all, added, ReadOptions(s, previous))
    ensures all == Read(added, s)
  {
    assert added + [] == added;
  }

  /** Reading on by one option keeps the whole. */
  lemma ReadStep(all: OptionsRead, added: seq<Opt>, s: seq<byte>, previous: u16)
    requires s != [] && s[0] != MARKER && Continues(all, added, ReadOptions(s, previous))
    ensures var one := ReadOne(s, previous);
            if one.OneFailed? then all == Failed(one.flag)
            else Continues(all, added + [one.o], ReadOptions(one.rest, one.o.number))
  {
    hide ReadOne;
    var one := ReadOne(s, previous);
    if one.One? {
      var r := ReadOptions(one.rest, one.o.number);
      if r.Read? {
        assert added + ([one.o] + r.added) == added + [one.o] + r.added;
      }
    }
  }

  /** What has been read so far, and what reading on gives, make up the whole. */
  ghost predicate Continues(all: OptionsRead, added: seq<Opt>, more: OptionsRead) {
    all == if more.Failed? then more else Read(added + more.added, more.rest)
  }

  /** The part of an option in front of its value: number, length and how many bytes it takes. */
  method ReadHead(b: seq<byte>, ptr: nat, previous: u16) returns (error: int, number: u16, length: u16, width: nat)
    requires ptr < |b|
    ensures error == 0 ==> ptr + width <= |b|
    ensures var one := ReadOne(b[ptr..], previous);
            if error != 0 then one == OneFailed(error)
            else if ptr + width + length > |b| then one == OneFailed(NOT_ENOUGH_DATA)
            else one == One(Opt(number, b[ptr + width..][..length]), b[ptr + width..][length..])
  {
    hide ReadExt, ToU16;
    error, number, length, width := 0, 0, 0, 0;
    ghost var s := b[ptr..];
    var d, l := b[ptr] / 16, b[ptr] % 16;
    if d == 15 || l == 15 {
      return FORMAT_ERROR, 0, 0, 0;
    }
    var at := ptr + 1;
    var (ok1, delta, n1) := ReadExt(b[at..], d);
    assert b[ptr..][1..] == b[at..];
    if !ok1 {
      return NOT_ENOUGH_DATA, 0, 0, 0;
    }
    assert b[at..][n1..] == b[at + n1..];
    at := at + n1;
    var (ok2, len, n2) := ReadExt(b[at..], l);
    if !ok2 {
      return NOT_ENOUGH_DATA, 0, 0, 0;
    }
    assert b[at..][n2..] == b[at + n2..];
    at := at + n2;
    number, length, width := ToU16(delta as int + previous), len, at - ptr;
  }
}
