/** Sending (src/net_core.c) and command dispatch with its split recursion (src/net_com.c). */
module NetCom {
  import opened Bytes
  import opened Wrappers
  import opened NetCore
  import opened NetSplit

  const CMD_VPN: byte := 7
  const CMD_SPLIT: byte := 68
  const CMD_L0: byte := 70

  // ---- The termination measure --------------------------------------------------------------

  /** The bytes held in the fragment map. */
  ghost function StoreBytes(store: Store): nat
    decreases |store|
  {
    if store == map[] then 0
    else
      var k :| k in store;
      |store[k]| + StoreBytes(store - {k})
  }

  lemma {:induction false} StoreBytesRemove(store: Store, k: seq<byte>)
    requires k in store
    ensures StoreBytes(store) == |store[k]| + StoreBytes(store - {k})
    decreases |store|
  {
    var c :| c in store && StoreBytes(store) == |store[c]| + StoreBytes(store - {c});
    if c != k {
      StoreBytesRemove(store - {c}, k);
      StoreBytesRemove(store - {k}, c);
      assert store - {c} - {k} == store - {k} - {c};
    }
  }

  lemma StoreBytesAdd(store: Store, k: seq<byte>, v: seq<byte>)
    ensures StoreBytes(store[k := v]) <= StoreBytes(store) + |v|
  {
    var added := store[k := v];
    StoreBytesRemove(added, k);
    if k in store {
      StoreBytesRemove(store, k);
      assert added - {k} == store - {k};
    } else {
      assert added - {k} == store;
    }
  }

  /** Removing the fragments of a packet frees its bytes and the command byte. */
  lemma {:induction false} StoreBytesRebuilt(store: Store, from: Name, number: u16, n: nat)
    requires n <= LAST_PACKET_FLAG && forall i: nat :: i < n ==> Key(from, number, i) in store
    requires n > 0 ==> store[Key(from, number, 0)] != []
    ensures StoreBytes(store - Keys(from, number, n)) + |Rebuilt(store, from, number, n)| + (if n > 0 then 1 else 0)
         == StoreBytes(store)
  {
    hide Key;
    if n == 0 {
      NoKeys(from, number);
      assert store - {} == store;
    } else {
      StoreBytesRebuilt(store, from, number, n - 1);
      KeysStep(from, number, n - 1);
      var before, key := store - Keys(from, number, n - 1), Key(from, number, n - 1);
      StoreBytesRemove(before, key);
      assert before - {key} == store - Keys(from, number, n);
    }
  }

  /** Each level of the recursion has at least five bytes less to work on. */
  lemma CombineDrops(st: Fragments, rd: PacketData, now: real)
    requires WellFormed(rd) && HasCommands(st.store)
    ensures var (st', rds) := Combined(st, rd, now);
            rds.Some? ==> StoreBytes(st'.store) + |rds.value.data| + 5 <= StoreBytes(st.store) + |rd.data|
  {
    hide Key, Keys;
    AddKeepsCommands(st, rd, now);
    var added := AfterAdd(st, rd, now);
    StoreBytesAdd(map[], RdKey(rd), rd.data[4..]);
    StoreBytesAdd(st.store, RdKey(rd), rd.data[4..]);
    assert StoreBytes(added) <= StoreBytes(st.store) + |rd.data| - 4;
    if Combined(st, rd, now).1.Some? {
      StoreBytesRebuilt(added, rd.from, PacketNumber(rd.data), SubNumber(rd.data) + 1);
    }
  }

  // ---- Dispatch -----------------------------------------------------------------------------

  /** A packet reaches the handler of its command, or the user's event callback. */
  datatype Delivery = ToHandler(rd: PacketData) | ToUser(rd: PacketData)

  /**
   * State, deliveries and return value of a call. Malformed: a (possibly nested) CMD_SPLIT
   * packet is too short, and the C code would read outside it.
   */
  datatype Outcome =
    | Done(st: Fragments, deliveries: seq<Delivery>, processed: int)
    | Malformed

  /**
   * `ksnCommandCheck`. `accepts` tells which packets the handlers of the other commands
   * report as processed.
   */
  ghost function Checked(accepts: PacketData -> bool, st: Fragments, rd: PacketData, now: real): (r: Outcome)
    requires HasCommands(st.store)
    ensures r.Done? ==> HasCommands(r.st.store)
    decreases StoreBytes(st.store) + |rd.data|, 1
  {
    if rd.cmd == CMD_SPLIT then SplitHandled(accepts, st, rd, now)
    else if accepts(rd) then Done(st, [ToHandler(rd)], 1)
    else Done(st, [], 0)
  }

  /** `cmd_split_cb`. */
  ghost function SplitHandled(accepts: PacketData -> bool, st: Fragments, rd: PacketData, now: real): (r: Outcome)
    requires HasCommands(st.store)
    ensures r.Done? ==> HasCommands(r.st.store) && r.processed != 0
    decreases StoreBytes(st.store) + |rd.data|, 0
  {
    if !WellFormed(rd) then Malformed
    else
      CombinedKeepsCommands(st, rd, now);
      CombineDrops(st, rd, now);
      var (st', rds) := Combined(st, rd, now);
      if rds.None? then Done(st', [], 1)
      else
        var r := Checked(accepts, st', rds.value, now);
        if r.Done? && r.processed == 0 then Done(r.st, r.deliveries + [ToUser(rds.value)], 2) else r
  }

  /** `ksnCoreProcessPacket` on a decrypted packet, as far as teonet packets go. */
  ghost function Processed(
    accepts: PacketData -> bool, st: Fragments, source: Source, packet: seq<byte>, encrypted: bool, now: real
  ): (r: Outcome)
    requires HasCommands(st.store)
    ensures r.Done? ==> HasCommands(r.st.store)
  {
    var parsed := Parsed(source, packet);
    if parsed.None? || !(encrypted || parsed.value.cmd == CMD_L0) then Done(st, [], 1)
    else
      var r := Checked(accepts, st, parsed.value, now);
      if r.Done? && r.processed == 0 then Done(r.st, r.deliveries + [ToUser(parsed.value)], 0) else r
  }

  /**
   * Nothing but a frame with a terminated name has an effect, and in the clear nothing but
   * an L0 command. Anything else is answered as processed.
   */
  lemma OnlyFrames(
    accepts: PacketData -> bool, st: Fragments, source: Source, packet: seq<byte>, encrypted: bool, now: real
  )
    requires HasCommands(st.store)
    ensures var r := Processed(accepts, st, source, packet, encrypted, now);
            if exists from, cmd, data :: IsFrame(packet, from, cmd, data) && (encrypted || cmd == 70)
            then exists from, cmd, data :: IsFrame(packet, from, cmd, data) && HandedOver(r, accepts, st, PacketData(source, from, cmd, data), now)
            else r == Done(st, [], 1)
  {
    hide Checked, Parsed, Packet, IsTerminated;
    var parsed := Parsed(source, packet);
    if parsed.Some? {
      var rd := parsed.value;
      ParsedIsFrame(source, packet);
      assert IsFrame(packet, rd.from, rd.cmd, rd.data);
    }
    if from, cmd, data :| IsFrame(packet, from, cmd, data) && (encrypted || cmd == 70) {
      FrameRoundTrip(source, cmd, from, data);
      var rd := PacketData(source, from, cmd, data);
      assert parsed == Some(rd);
      assert HandedOver(Processed(accepts, st, source, packet, encrypted, now), accepts, st, rd, now);
    }
  }

  ghost predicate IsFrame(packet: seq<byte>, from: seq<byte>, cmd: byte, data: seq<byte>) {
    |from| < 0x100 && IsTerminated(from) && packet == Packet(cmd, from, data)
  }

  /** The handlers get the packet first; the user gets it exactly when none of them takes it. */
  ghost predicate HandedOver(r: Outcome, accepts: PacketData -> bool, st: Fragments, rd: PacketData, now: real)
    requires HasCommands(st.store)
  {
    var checked := Checked(accepts, st, rd, now);
    r == if checked.Done? && checked.processed == 0 then checked.(deliveries := checked.deliveries + [ToUser(rd)]) else checked
  }

  /** CMD_SPLIT is an envelope: it is never delivered itself, at any depth. */
  lemma {:induction false} SplitIsNeverDelivered(accepts: PacketData -> bool, st: Fragments, rd: PacketData, now: real)
    requires HasCommands(st.store)
    ensures var r := Checked(accepts, st, rd, now);
            r.Done? ==> forall i :: 0 <= i < |r.deliveries| ==> r.deliveries[i].rd.cmd != CMD_SPLIT
    ensures var r := Checked(accepts, st, rd, now);
            r.Done? && rd.cmd == CMD_SPLIT ==> r.processed != 0
    decreases StoreBytes(st.store) + |rd.data|
  {
    hide Combined, HasCommands;
    if rd.cmd == CMD_SPLIT && WellFormed(rd) {
      CombinedKeepsCommands(st, rd, now);
      CombineDrops(st, rd, now);
      var (st', rds) := Combined(st, rd, now);
      if rds.Some? {
        SplitIsNeverDelivered(accepts, st', rds.value, now);
      }
    }
  }

  /** `ksnCommandClass` with the fragment map and a log of what was delivered. */
  class Commands {
    const accepts: PacketData -> bool
    const splitter: Splitter
    var log: seq<Delivery>

    constructor (accepts: PacketData -> bool)
      ensures this.accepts == accepts && log == [] && fresh(splitter) && splitter.store == map[]
    {
      this.accepts := accepts;
      splitter := new Splitter();
      log := [];
    }

    /** What a call has to leave behind: exactly the specified state, log and answer. */
    twostate predicate Did(r: Outcome, processed: int, malformed: bool)
      reads this, splitter
    {
      && malformed == r.Malformed?
      && (r.Done? ==> splitter.State() == r.st && log == old(log) + r.deliveries && processed == r.processed)
    }

    method CommandCheck(rd: PacketData, now: real) returns (processed: int, malformed: bool)
      requires HasCommands(splitter.store)
      modifies this`log, splitter`store, splitter`lastAdded
      ensures Did(Checked(accepts, old(splitter.State()), rd, now), processed, malformed)
      decreases StoreBytes(splitter.store) + |rd.data|, 1
    {
      processed, malformed := 0, false;
      if rd.cmd == CMD_SPLIT {
        processed, malformed := SplitCallback(rd, now);
      } else if accepts(rd) {
        log := log + [ToHandler(rd)];
        processed := 1;
      }
    }

    method SplitCallback(rd: PacketData, now: real) returns (processed: int, malformed: bool)
      requires HasCommands(splitter.store)
      modifies this`log, splitter`store, splitter`lastAdded
      ensures Did(SplitHandled(accepts, old(splitter.State()), rd, now), processed, malformed)
      decreases StoreBytes(splitter.store) + |rd.data|, 0
    {
      hide Combined, WellFormed, HasCommands;
      processed, malformed := 0, false;
      if !WellFormed(rd) {
        malformed := true;
        return;
      }
      CombinedKeepsCommands(splitter.State(), rd, now);
      CombineDrops(splitter.State(), rd, now);
      var rds := splitter.Combine(rd, now);
      if rds.Some? {
        processed, malformed := CommandCheck(rds.value, now);
        if !malformed && processed == 0 {
          log := log + [ToUser(rds.value)];
          processed := 2;
        }
      } else {
        processed := 1;
      }
    }

    method ProcessPacket(source: Source, packet: seq<byte>, encrypted: bool, now: real)
        returns (processed: int, malformed: bool)
      requires HasCommands(splitter.store) && packet != []
      modifies this`log, splitter`store, splitter`lastAdded
      ensures Did(Processed(accepts, old(splitter.State()), source, packet, encrypted, now), processed, malformed)
    {
      processed, malformed := 0, false;
      var rd := ParsePacket(source, packet);
      if rd.Some? && (encrypted || rd.value.cmd == CMD_L0) {
        processed, malformed := CommandCheck(rd.value, now);
        if !malformed && processed == 0 {
          log := log + [ToUser(rd.value)];
        }
      } else {
        processed := 1;
      }
    }
  }

  // ---- Sending ------------------------------------------------------------------------------

  /** The packets that carry one command. */
  ghost function Wire(name: Name, number: u16, cmd: byte, data: seq<byte>): seq<seq<byte>> {
    if cmd != CMD_VPN && |data| > MAX_DATA_LEN then
      seq(Count(data), i requires 0 <= i < Count(data) => Packet(CMD_SPLIT, name, Body(cmd, data, number, i)))
    else [Packet(cmd, name, data)]
  }

  /** `ksnCoreClass`, as far as sending goes. */
  class Core {
    const name: Name
    const splitter: Splitter
    var sent: seq<seq<byte>>

    constructor (name: Name)
      ensures this.name == name && sent == [] && fresh(splitter)
    {
      this.name := name;
      splitter := new Splitter();
      sent := [];
    }

    /** `ksnCoreSendto`: -1 and nothing sent when the data is too large. */
    method Sendto(cmd: byte, data: seq<byte>) returns (result: int)
      modifies this`sent, splitter`packetNumber
      ensures result == (if |data| <= MAX_PACKET_LEN - MAX_DATA_LEN then 0 else -1)
      ensures result == -1 ==> sent == old(sent) && splitter.packetNumber == old(splitter.packetNumber)
      ensures result == 0 ==> sent == old(sent) + Wire(name, old(splitter.packetNumber), cmd, data)
    {
      hide Body, SubPacket, Count, Packet;
      result := 0;
      if |data| <= MAX_PACKET_LEN - MAX_DATA_LEN {
        ghost var number := splitter.packetNumber;
        var packets: seq<seq<byte>> := [];
        if cmd != CMD_VPN {
          packets := splitter.SplitPacket(cmd, data);
        }
        CountPositive(data);
        if packets != [] {
          ghost var wire := Wire(name, number, cmd, data);
          for i := 0 to |packets|
            invariant |wire| == |packets| == Count(data)
            invariant sent == old(sent) + wire[..i]
          {
            SubPacketLayout(cmd, data, number, i);
            var dataLen: int := GetLe16(packets[i]);
            var packet := CreatePacketFrom(CMD_SPLIT, name, packets[i][2..2 + dataLen + 4]);
            assert wire[..i + 1] == wire[..i] + [wire[i]];
            sent := sent + [packet[..]];
          }
        } else {
          var packet := CreatePacketFrom(cmd, name, data);
          sent := sent + [packet[..]];
        }
      } else {
        result := -1;
      }
    }
  }

  lemma CountPositive(data: seq<byte>)
    ensures |data| > MAX_DATA_LEN ==> Count(data) >= 2
  {
  }

  /** The length field in front of a buffer is the length of its payload. */
  lemma SubPacketLayout(cmd: byte, data: seq<byte>, number: u16, i: nat)
    requires i < Count(data)
    ensures var s, b := SubPacket(cmd, data, number, i), Body(cmd, data, number, i);
            && |s| >= 2 && GetLe16(s) + 6 == |s| && s[2..2 + GetLe16(s) + 4] == b
  {
    hide Flagged, Chunk, Count, PutLe16, GetLe16;
    ChunkLength(data, i);
    var length := ToU16(|Payload(cmd, data, i)|);
    Le16RoundTrip(length);
    Le16Length(length);
    Le16Length(number);
    Le16Length(Flagged(ToU16(i), i == Count(data) - 1));
    Le16Prefix(PutLe16(length), Body(cmd, data, number, i));
  }
}
