/**
 * The bodies of the CONNECT and RESEND commands: built in src/commands_creator.c, read back
 * by the handlers in src/net_com.c.
 */
module PeerPackets {
  import opened Arithmetic
  import opened Bytes
  import opened Wrappers

  datatype Connect = Connect(name: seq<byte>, addr: seq<byte>, fullType: seq<byte>, port: u32) {
    ghost predicate Valid() { IsCString(name) && IsCString(addr) && IsCString(fullType) }
  }

  datatype Resend = Resend(to: seq<byte>, cmd: byte, data: seq<byte>) {
    ghost predicate Valid() { IsCString(to) }
  }

  /** A string with its terminating NUL, in front of `rest`. */
  function Terminated(s: seq<byte>, rest: seq<byte>): seq<byte> { s + [0] + rest }

  function ConnectBody(c: Connect): seq<byte> {
    Terminated(c.name, Terminated(c.addr, Terminated(c.fullType, PutLe32(c.port))))
  }

  function ResendBody(c: Resend): seq<byte> { Terminated(c.to, [c.cmd] + c.data) }

  /** `createCmdConnectPacket`. */
  method CreateConnect(name: seq<byte>, addr: seq<byte>, fullType: seq<byte>, port: u32) returns (packet: array<byte>)
    requires IsCString(name) && IsCString(addr) && IsCString(fullType)
    ensures fresh(packet) && packet[..] == ConnectBody(Connect(name, addr, fullType, port))
  {
    hide PutLe32;
    packet := new byte[|name| + 1 + |fullType| + 1 + |addr| + 1 + 4](_ => 0);
    Le32RoundTrip(port, []);
    var ptr := PutString(packet, 0, name);
    ptr := PutString(packet, ptr, addr);
    ptr := PutString(packet, ptr, fullType);
    ghost var strings := packet[..ptr];
    CopyInto(packet, ptr, PutLe32(port));
    assert packet[..] == strings + PutLe32(port);
    StringsJoin(name, addr, fullType, PutLe32(port));
  }

  /** `memcpy` of a string into zeroed bytes; its NUL is there already. */
  method PutString(packet: array<byte>, ptr: nat, s: seq<byte>) returns (next: nat)
    requires ptr + |s| + 1 <= packet.Length && forall k :: ptr <= k < packet.Length ==> packet[k] == 0
    modifies packet
    ensures next == ptr + |s| + 1 && packet[..next] == old(packet[..ptr]) + Terminated(s, [])
    ensures forall k :: next <= k < packet.Length ==> packet[k] == 0
  {
    CopyInto(packet, ptr, s);
    next := ptr + |s| + 1;
    assert packet[..ptr + |s|] == old(packet[..ptr]) + s;
    forall k | ptr + |s| <= k < packet.Length
      ensures packet[k] == 0
    {
      assert packet[..][k] == old(packet[ptr + |s|..])[k - ptr - |s|] == old(packet[k]);
    }
  }

  lemma StringsJoin(name: seq<byte>, addr: seq<byte>, fullType: seq<byte>, rest: seq<byte>)
    ensures [] + Terminated(name, []) + Terminated(addr, []) + Terminated(fullType, []) + rest
         == Terminated(name, Terminated(addr, Terminated(fullType, rest)))
  {
  }

  /** `createCmdResendPacket`. */
  method CreateResend(to: seq<byte>, cmd: byte, data: seq<byte>) returns (packet: array<byte>)
    requires IsCString(to)
    ensures fresh(packet) && packet[..] == ResendBody(Resend(to, cmd, data))
  {
    packet := new byte[|to| + 1 + 1 + |data|](_ => 0);
    CopyInto(packet, 0, Terminated(to, []));
    var ptr := |to| + 1;
    packet[ptr] := cmd;
    ptr := ptr + 1;
    CopyInto(packet, ptr, data);
  }

  /** `strlen` finds the end of the string that was put there, whatever follows it. */
  lemma {:induction false} TerminatedLength(s: seq<byte>, rest: seq<byte>)
    requires IsCString(s)
    ensures StrLen(Terminated(s, rest)) == |s|
  {
    if s != [] {
      assert Terminated(s, rest)[1..] == Terminated(s[1..], rest);
      TerminatedLength(s[1..], rest);
    }
  }

  /** The string at the front of `d` and what is behind its NUL; None when there is no NUL. */
  function CutString(d: seq<byte>): (r: Option<(seq<byte>, seq<byte>)>)
    ensures r.Some? ==> IsCString(r.value.0) && d == Terminated(r.value.0, r.value.1)
  {
    var n := StrLen(d);
    if n == |d| then None else Some((d[..n], d[n + 1..]))
  }

  lemma CutIsOnlyReading(s: seq<byte>, rest: seq<byte>)
    requires IsCString(s)
    ensures CutString(Terminated(s, rest)) == Some((s, rest))
  {
    TerminatedLength(s, rest);
    var d := Terminated(s, rest);
    assert d[..|s|] == s && d[|s| + 1..] == rest;
  }

  /** What `cmd_connect_cb` takes out of a body; None when it would read behind its end. */
  function ReadConnect(d: seq<byte>): Option<Connect> {
    var name := CutString(d);
    if name.None? then None
    else
      var addr := CutString(name.value.1);
      if addr.None? then None
      else
        var fullType := CutString(addr.value.1);
        if fullType.None? || |fullType.value.1| < 4 then None
        else Some(Connect(name.value.0, addr.value.0, fullType.value.0, GetLe32(fullType.value.1)))
  }

  /** What `cmd_resend_cb` takes out of a body. */
  function ReadResend(d: seq<byte>): Option<Resend> {
    var to := CutString(d);
    if to.None? || to.value.1 == [] then None
    else Some(Resend(to.value.0, to.value.1[0], to.value.1[1..]))
  }

  lemma Le32RoundTrip(n: u32, rest: seq<byte>)
    ensures |PutLe32(n)| == 4 && GetLe32(PutLe32(n) + rest) == n
  {
    var d1: nat := n / 0x100;
    var d2: nat := d1 / 0x100;
    var d3: nat := d2 / 0x100;
    ByBytes(n);
    Le32Sum(n % 0x100, d1 % 0x100, d2 % 0x100, d3, rest);
    assert n == n % 0x100 + 0x100 * (d1 % 0x100) + 0x1_0000 * (d2 % 0x100) + 0x100_0000 * d3;
  }

  lemma Le32Sum(b0: byte, b1: byte, b2: byte, b3: byte, rest: seq<byte>)
    ensures GetLe32([b0, b1, b2, b3] + rest) == b0 + 0x100 * b1 + 0x1_0000 * b2 + 0x100_0000 * b3
  {
  }

  lemma ByBytes(n: nat)
    ensures n / 0x1_0000 == n / 0x100 / 0x100 && n / 0x100_0000 == n / 0x100 / 0x100 / 0x100
  {
    DivTwice(n, 0x100, 0x100);
    DivTwice(n, 0x1_0000, 0x100);
  }

  lemma Le32Back(s: seq<byte>)
    requires |s| >= 4
    ensures PutLe32(GetLe32(s)) == s[..4]
  {
    var n: nat := GetLe32(s);
    var q2: nat := s[2] as int + 0x100 * (s[3] as int);
    var q1: nat := s[1] as int + 0x100 * q2;
    assert n == s[0] as int + 0x100 * q1;
    DivModUnique(n, 0x100, q1, s[0]);
    DivModUnique(q1, 0x100, q2, s[1]);
    DivModUnique(q2, 0x100, s[3], s[2]);
    ByBytes(n);
  }

  /** The handler reads `c` exactly from the bodies that begin with the bytes of `c`. */
  lemma ConnectRoundTrip(d: seq<byte>, c: Connect)
    ensures ReadConnect(d) == Some(c) <==> c.Valid() && ConnectBody(c) <= d
  {
    hide CutString, PutLe32, GetLe32;
    if c.Valid() && ConnectBody(c) <= d {
      var port := PutLe32(c.port);
      var tail := d[|ConnectBody(c)|..];
      assert d == ConnectBody(c) + tail;
      TerminatedAppend(c.fullType, port, tail);
      TerminatedAppend(c.addr, Terminated(c.fullType, port), tail);
      TerminatedAppend(c.name, Terminated(c.addr, Terminated(c.fullType, port)), tail);
      CutIsOnlyReading(c.fullType, port + tail);
      CutIsOnlyReading(c.addr, Terminated(c.fullType, port + tail));
      CutIsOnlyReading(c.name, Terminated(c.addr, Terminated(c.fullType, port + tail)));
      Le32RoundTrip(c.port, tail);
    }
    if ReadConnect(d) == Some(c) {
      var rest := CutString(CutString(CutString(d).value.1).value.1).value.1;
      Le32Back(rest);
      assert rest == PutLe32(c.port) + rest[4..];
      TerminatedAppend(c.fullType, PutLe32(c.port), rest[4..]);
      TerminatedAppend(c.addr, Terminated(c.fullType, PutLe32(c.port)), rest[4..]);
      TerminatedAppend(c.name, Terminated(c.addr, Terminated(c.fullType, PutLe32(c.port))), rest[4..]);
      assert d == ConnectBody(c) + rest[4..];
    }
  }

  lemma TerminatedAppend(s: seq<byte>, rest: seq<byte>, tail: seq<byte>)
    ensures Terminated(s, rest) + tail == Terminated(s, rest + tail)
  {
  }

  /** Receiver, command and data come back, and from no other body. */
  lemma ResendRoundTrip(d: seq<byte>, c: Resend)
    ensures ReadResend(d) == Some(c) <==> c.Valid() && d == ResendBody(c)
  {
    hide CutString;
    if c.Valid() && d == ResendBody(c) {
      CutIsOnlyReading(c.to, [c.cmd] + c.data);
    }
    if ReadResend(d) == Some(c) {
      var rest := CutString(d).value.1;
      assert rest == [rest[0]] + rest[1..];
    }
  }

  /** One string of a body: `ptr` moves behind its NUL. */
  method NextString(data: seq<byte>, ptr: nat) returns (r: Option<seq<byte>>, next: nat)
    requires ptr <= |data|
    ensures r.None? <==> CutString(data[ptr..]).None?
    ensures r.Some? ==> ptr < next <= |data| && CutString(data[ptr..]) == Some((r.value, data[next..]))
  {
    var n := StrLen(data[ptr..]);
    next := ptr;
    if ptr + n == |data| {
      return None, ptr;
    }
    next := ptr + n + 1;
    r := Some(data[ptr..ptr + n]);
    assert data[ptr..][..n] == data[ptr..ptr + n] && data[ptr..][n + 1..] == data[next..];
  }

  /** The parsing of `cmd_connect_cb`. */
  method ParseConnect(data: seq<byte>) returns (r: Option<Connect>)
    ensures r == ReadConnect(data)
  {
    hide CutString, GetLe32;
    var name, ptr := NextString(data, 0);
    assert data[0..] == data;
    if name.None? {
      return None;
    }
    var addr, fullType;
    addr, ptr := NextString(data, ptr);
    if addr.None? {
      return None;
    }
    fullType, ptr := NextString(data, ptr);
    if fullType.None? || |data| - ptr < 4 {
      return None;
    }
    r := Some(Connect(name.value, addr.value, fullType.value, GetLe32(data[ptr..])));
  }

  /** The parsing of `cmd_resend_cb`. */
  method ParseResend(data: seq<byte>) returns (r: Option<Resend>)
    ensures r == ReadResend(data)
  {
    hide CutString;
    var to, ptr := NextString(data, 0);
    assert data[0..] == data;
    if to.None? || ptr == |data| {
      return None;
    }
    var cmd := data[ptr];
    ptr := ptr + 1;
    r := Some(Resend(to.value, cmd, data[ptr..]));
  }

  /** "ab" at "1.2" with type "t" and port 9000; and command 129 with data 7, 8 for "ab". */
  lemma BodyExamples()
    ensures ConnectBody(Connect([97, 98], [49, 46, 50], [116], 9000)) == [97, 98, 0, 49, 46, 50, 0, 116, 0, 0x28, 0x23, 0, 0]
    ensures ResendBody(Resend([97, 98], 129, [7, 8])) == [97, 98, 0, 129, 7, 8]
  {
  }
}
