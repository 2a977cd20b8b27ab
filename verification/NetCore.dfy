/** Packet framing of src/net_core.c. */
module NetCore {
  import opened Bytes
  import opened Wrappers

  /** From-length byte and command byte. */
  const PACKET_HEADER_ADD_SIZE := 2

  /** Where a packet came from; filled in by the receiver, not part of the packet. */
  datatype Source = Source(addr: seq<byte>, port: int, mtu: int)

  /** A peer name as the packets carry it; its length is a `uint8_t`. */
  type Name = s: seq<byte> | |s| < 0x100

  /** The parsed packet, `ksnCorePacketData`; `from` includes its terminating NUL. */
  datatype PacketData = PacketData(source: Source, from: Name, cmd: byte, data: seq<byte>)

  /** A name with its NUL at the end and nowhere else. */
  ghost predicate IsTerminated(from: seq<byte>) {
    from != [] && from[|from| - 1] == 0 && 0 !in from[..|from| - 1]
  }

  /** from length, from, command, data. */
  function Packet(cmd: byte, from: seq<byte>, data: seq<byte>): seq<byte> {
    [ToU8(|from|)] + from + [cmd] + data
  }

  /** `ksnCoreCreatePacketFrom`. */
  method CreatePacketFrom(cmd: byte, from: seq<byte>, data: seq<byte>) returns (packet: array<byte>)
    ensures fresh(packet) && packet[..] == Packet(cmd, from, data)
  {
    var ptr := 0;
    packet := new byte[|from| + |data| + PACKET_HEADER_ADD_SIZE];
    packet[ptr] := ToU8(|from|);
    ptr := ptr + 1;
    CopyInto(packet, ptr, from);
    ptr := ptr + |from|;
    packet[ptr] := cmd;
    ptr := ptr + 1;
    assert packet[..ptr] == [ToU8(|from|)] + from + [cmd];
    CopyInto(packet, ptr, data);
    assert packet[..] == [ToU8(|from|)] + from + [cmd] + data;
  }

  /** What the parser makes of `packet`. */
  function Parsed(source: Source, packet: seq<byte>): Option<PacketData> {
    if packet == [] then None
    else
      var n := packet[0];
      if n == 0 || n + PACKET_HEADER_ADD_SIZE > |packet| || packet[n] != 0 || 0 in packet[1..n] then None
      else Some(PacketData(source, packet[1..n + 1], packet[n + 1], packet[n + 2..]))
  }

  /** `ksnCoreParsePacket`; a received packet is never empty (ksnCoreProcessPacket, recvlen > 0). */
  method ParsePacket(source: Source, packet: seq<byte>) returns (rd: Option<PacketData>)
    requires packet != []
    ensures rd == Parsed(source, packet)
  {
    rd := None;
    var ptr := 0;
    var fromLen := packet[0];
    ptr := ptr + 1;
    if fromLen != 0 && fromLen + PACKET_HEADER_ADD_SIZE <= |packet| && packet[ptr + fromLen - 1] == 0 {
      var from := packet[ptr..ptr + fromLen];
      ptr := ptr + fromLen;
      assert from[..fromLen - 1] == packet[1..fromLen] && from[fromLen - 1] == 0;
      if StrLen(from) + 1 == fromLen {
        var cmd := packet[ptr];
        ptr := ptr + 1;
        rd := Some(PacketData(source, from, cmd, packet[ptr..]));
      } else if StrLen(from) < fromLen - 1 {
        assert from[StrLen(from)] in from[..fromLen - 1];
      }
    }
  }

  /** A frame is read back exactly when its name is terminated and fits the length byte. */
  lemma FrameRoundTrip(source: Source, cmd: byte, from: seq<byte>, data: seq<byte>)
    ensures (var r := Parsed(source, Packet(cmd, from, data));
             r.Some? && r.value.from == from && r.value.cmd == cmd && r.value.data == data)
       <==> IsTerminated(from) && |from| < 0x100
  {
    var p := Packet(cmd, from, data);
    if |from| < 0x100 {
      assert p[1..|from| + 1] == from;
      assert |from| > 0 ==> p[1..|from|] == from[..|from| - 1] && p[|from|] == from[|from| - 1];
      assert p[|from| + 2..] == data;
    }
  }

  /** The parser accepts nothing but frames. */
  lemma ParsedIsFrame(source: Source, packet: seq<byte>)
    requires Parsed(source, packet).Some?
    ensures var rd := Parsed(source, packet).value;
            && IsTerminated(rd.from) && rd.source == source
            && packet == Packet(rd.cmd, rd.from, rd.data)
  {
    var n := packet[0];
    assert packet[1..n + 1][..n - 1] == packet[1..n];
    assert packet == [packet[0]] + packet[1..n + 1] + [packet[n + 1]] + packet[n + 2..];
  }

  /** The frame of command 129 from "ab" with the data 7, 8. */
  lemma FrameExample()
    ensures Packet(129, [97, 98, 0], [7, 8]) == [3, 97, 98, 0, 129, 7, 8]
  {
  }
}
