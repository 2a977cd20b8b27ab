/** Large packets: cutting and reassembly, src/net_split.c. */
module NetSplit {
  import opened Bytes
  import opened Wrappers
  import opened NetCore

  const MAX_DATA_LEN := 448
  const MAX_PACKET_LEN := 5 * 1024 * 1024
  const LAST_PACKET_FLAG := 0x8000
  const FLUSH_AFTER := 10.0

  // ---- Cutting -----------------------------------------------------------------------------

  /** The number of fragments of a large packet. */
  function Count(data: seq<byte>): nat {
    |data| / MAX_DATA_LEN + if |data| % MAX_DATA_LEN != 0 then 1 else 0
  }

  /** The slice of `data` that fragment `i` carries. */
  function Chunk(data: seq<byte>, i: nat): seq<byte>
    requires i < Count(data)
  {
    data[MAX_DATA_LEN * i..if i == Count(data) - 1 then |data| else MAX_DATA_LEN * (i + 1)]
  }

  /** What fragment `i` stores: its slice, and the command behind the first one. */
  function Payload(cmd: byte, data: seq<byte>, i: nat): seq<byte>
    requires i < Count(data)
  {
    Chunk(data, i) + if i == 0 then [cmd] else []
  }

  /** The fragment index with the last-packet bit or-ed in. */
  function Flagged(i: u16, last: bool): u16 {
    if last && i < LAST_PACKET_FLAG then i + LAST_PACKET_FLAG else i
  }

  /** The data of the CMD_SPLIT packet that carries fragment `i`. */
  function Body(cmd: byte, data: seq<byte>, packetNumber: u16, i: nat): seq<byte>
    requires i < Count(data)
  {
    PutLe16(packetNumber) + PutLe16(Flagged(ToU16(i), i == Count(data) - 1)) + Payload(cmd, data, i)
  }

  /** A buffer of `ksnSplitPacket`: the payload length in front of the body. */
  function SubPacket(cmd: byte, data: seq<byte>, packetNumber: u16, i: nat): seq<byte>
    requires i < Count(data)
  {
    PutLe16(ToU16(|Payload(cmd, data, i)|)) + Body(cmd, data, packetNumber, i)
  }

  lemma FlaggedField(i: u16, last: bool)
    requires i < LAST_PACKET_FLAG
    ensures (Flagged(i, last) >= LAST_PACKET_FLAG) == last && Flagged(i, last) % LAST_PACKET_FLAG == i
  {
  }

  /** Every slice but the last is full, and the last one is not empty. */
  lemma ChunkLength(data: seq<byte>, i: nat)
    requires i < Count(data)
    ensures |Chunk(data, i)| == (if i == Count(data) - 1 then |data| - MAX_DATA_LEN * i else MAX_DATA_LEN)
    ensures 1 <= |Chunk(data, i)| <= MAX_DATA_LEN && MAX_DATA_LEN * i + |Chunk(data, i)| <= |data|
  {
  }

  /** The slices before fragment `n`, joined. */
  function JoinChunks(data: seq<byte>, n: nat): seq<byte>
    requires n <= Count(data)
  {
    if n == 0 then [] else JoinChunks(data, n - 1) + Chunk(data, n - 1)
  }

  lemma CountZero(data: seq<byte>)
    requires Count(data) == 0
    ensures data == []
  {
  }

  lemma {:induction false} ChunksArePrefix(data: seq<byte>, n: nat)
    requires n <= Count(data)
    ensures JoinChunks(data, n) == data[..if n == Count(data) then |data| else MAX_DATA_LEN * n]
  {
    hide Count;
    if n > 0 {
      ChunkLength(data, n - 1);
      ChunksArePrefix(data, n - 1);
      var from := MAX_DATA_LEN * (n - 1);
      assert data[..from] + Chunk(data, n - 1) == data[..from + |Chunk(data, n - 1)|];
    } else if Count(data) == 0 {
      CountZero(data);
    }
  }

  /** Nothing is lost by cutting. */
  lemma ChunksCover(data: seq<byte>)
    ensures JoinChunks(data, Count(data)) == data
  {
    ChunksArePrefix(data, Count(data));
  }

  /** What the length limit of `ksnCoreSendto` guarantees: indices never reach the flag bit. */
  lemma CountBound(data: seq<byte>)
    requires |data| <= MAX_PACKET_LEN - MAX_DATA_LEN
    ensures Count(data) <= 11702 < LAST_PACKET_FLAG
  {
  }

  /** The two packets of 449 bytes, byte by byte. */
  lemma SplitExample(cmd: byte, full: seq<byte>, last: byte)
    requires |full| == 448
    ensures var data := full + [last];
            && Count(data) == 2
            && Body(cmd, data, 0x0102, 0) == [2, 1, 0, 0] + full + [cmd]
            && Body(cmd, data, 0x0102, 1) == [2, 1, 1, 0x80, last]
  {
    var data := full + [last];
    assert Chunk(data, 0) == full && Chunk(data, 1) == [last];
  }

  // ---- The fragment map --------------------------------------------------------------------

  /** from length, from, packet number, sub-packet number. */
  function Key(from: Name, packetNumber: u16, sub: u16): seq<byte> {
    [|from|] + from + PutLe16(packetNumber) + PutLe16(sub)
  }

  lemma KeyInjective(f1: Name, p1: u16, s1: u16, f2: Name, p2: u16, s2: u16)
    ensures Key(f1, p1, s1) == Key(f2, p2, s2) <==> f1 == f2 && p1 == p2 && s1 == s2
  {
    var k1, k2 := Key(f1, p1, s1), Key(f2, p2, s2);
    if k1 == k2 {
      assert k1[0] == |f1| && k2[0] == |f2|;
      var n := |f1|;
      assert k1[1..n + 1] == f1 && k2[1..n + 1] == f2;
      assert k1[n + 1..n + 3] == PutLe16(p1) && k2[n + 1..n + 3] == PutLe16(p2);
      assert k1[n + 3..] == PutLe16(s1) && k2[n + 3..] == PutLe16(s2);
      Le16RoundTrip(p1);
      Le16RoundTrip(p2);
      Le16RoundTrip(s1);
      Le16RoundTrip(s2);
    }
  }

  lemma KeyExample()
    ensures Key([97, 98, 0], 0x0102, 5) == [3, 97, 98, 0, 2, 1, 5, 0]
  {
  }

  /** The keys of the first `n` fragments of a message. */
  ghost function Keys(from: Name, packetNumber: u16, n: nat): set<seq<byte>>
    requires n <= LAST_PACKET_FLAG
  {
    set i: nat | i < n :: Key(from, packetNumber, i)
  }

  lemma KeysStep(from: Name, packetNumber: u16, n: nat)
    requires n < LAST_PACKET_FLAG
    ensures Keys(from, packetNumber, n + 1) == Keys(from, packetNumber, n) + {Key(from, packetNumber, n)}
    ensures Key(from, packetNumber, n) !in Keys(from, packetNumber, n)
  {
    hide Key;
    forall i: nat | i < n
      ensures Key(from, packetNumber, i) != Key(from, packetNumber, n)
    {
      KeyInjective(from, packetNumber, i, from, packetNumber, n);
    }
  }

  type Store = map<seq<byte>, seq<byte>>

  /** The stored state of `ksnSplitClass` that reassembly uses. */
  datatype Fragments = Fragments(store: Store, lastAdded: real)

  /** No stored first fragment is empty: its last byte is the command. */
  ghost predicate HasCommands(store: Store) {
    forall from: Name, n: u16 {:trigger Key(from, n, 0)} :: Key(from, n, 0) in store ==> store[Key(from, n, 0)] != []
  }

  // The two header numbers of a CMD_SPLIT packet.
  function PacketNumber(data: seq<byte>): u16 requires |data| >= 4 { GetLe16(data) }
  function SubField(data: seq<byte>): u16 requires |data| >= 4 { GetLe16(data[2..]) }
  predicate IsLast(data: seq<byte>) requires |data| >= 4 { SubField(data) >= LAST_PACKET_FLAG }
  function SubNumber(data: seq<byte>): u16 requires |data| >= 4 { SubField(data) % LAST_PACKET_FLAG }

  /** A CMD_SPLIT packet the C code can read without leaving the packet. */
  predicate WellFormed(rd: PacketData) {
    |rd.data| >= 4 && (SubNumber(rd.data) == 0 ==> |rd.data| >= 5)
  }

  function RdKey(rd: PacketData): seq<byte>
    requires |rd.data| >= 4
  {
    Key(rd.from, PacketNumber(rd.data), SubNumber(rd.data))
  }

  /** The map after the flush and the add. */
  function AfterAdd(st: Fragments, rd: PacketData, now: real): Store
    requires |rd.data| >= 4
  {
    (if now - st.lastAdded > FLUSH_AFTER then map[] else st.store)[RdKey(rd) := rd.data[4..]]
  }

  /** How many fragments of a message are there without a gap, counting from the first, up to `n`. */
  ghost function Present(store: Store, from: Name, packetNumber: u16, n: nat): (j: nat)
    requires n <= LAST_PACKET_FLAG
    ensures j <= n && forall i: nat :: i < j ==> Key(from, packetNumber, i) in store
    ensures j < n ==> Key(from, packetNumber, j) !in store
  {
    if n == 0 then 0
    else
      var j := Present(store, from, packetNumber, n - 1);
      if j == n - 1 && Key(from, packetNumber, n - 1) in store then n else j
  }

  /** The stored fragments joined, without the command byte at the end of the first. */
  ghost function Rebuilt(store: Store, from: Name, packetNumber: u16, n: nat): seq<byte>
    requires n <= LAST_PACKET_FLAG && forall i: nat :: i < n ==> Key(from, packetNumber, i) in store
    requires n > 0 ==> store[Key(from, packetNumber, 0)] != []
  {
    if n == 0 then []
    else
      var s := store[Key(from, packetNumber, n - 1)];
      if n == 1 then s[..|s| - 1] else Rebuilt(store, from, packetNumber, n - 1) + s
  }

  /**
   * One call of `ksnSplitCombine`. A last-flagged fragment removes the stored run of
   * fragments up to the first gap; it yields a packet when there is no gap.
   */
  ghost function Combined(st: Fragments, rd: PacketData, now: real): (Fragments, Option<PacketData>)
    requires WellFormed(rd) && HasCommands(st.store)
  {
    AddKeepsCommands(st, rd, now);
    var added := AfterAdd(st, rd, now);
    var from, number := rd.from, PacketNumber(rd.data);
    if !IsLast(rd.data) then (Fragments(added, now), None)
    else
      var n := SubNumber(rd.data) + 1;
      var j := Present(added, from, number, n);
      var rest := Fragments(added - Keys(from, number, j), now);
      if j < n then (rest, None)
      else
        var first := added[Key(from, number, 0)];
        (rest, Some(PacketData(rd.source, from, first[|first| - 1], Rebuilt(added, from, number, n))))
  }

  lemma AddKeepsCommands(st: Fragments, rd: PacketData, now: real)
    requires WellFormed(rd) && HasCommands(st.store)
    ensures HasCommands(AfterAdd(st, rd, now))
  {
    hide Key;
    var added := AfterAdd(st, rd, now);
    forall from: Name, n: u16 | Key(from, n, 0) in added
      ensures added[Key(from, n, 0)] != []
    {
      KeyInjective(from, n, 0, rd.from, PacketNumber(rd.data), SubNumber(rd.data));
    }
  }

  lemma CombinedKeepsCommands(st: Fragments, rd: PacketData, now: real)
    requires WellFormed(rd) && HasCommands(st.store)
    ensures HasCommands(Combined(st, rd, now).0.store)
  {
    hide Key, Keys, Rebuilt;
    AddKeepsCommands(st, rd, now);
  }

  /** `ksnSplitClass`. */
  class Splitter {
    var store: Store
    var packetNumber: u16
    var lastAdded: real

    constructor ()
      ensures store == map[] && packetNumber == 0 && lastAdded == 0.0
    {
      store, packetNumber, lastAdded := map[], 0, 0.0;
    }

    ghost function State(): Fragments
      reads this
    {
      Fragments(store, lastAdded)
    }

    /** `ksnSplitPacket`: nothing for a small packet, else the fragments under a fresh number. */
    method SplitPacket(cmd: byte, packet: seq<byte>) returns (packets: seq<seq<byte>>)
      modifies this`packetNumber
      ensures |packet| <= MAX_DATA_LEN ==> packets == [] && packetNumber == old(packetNumber)
      ensures |packet| > MAX_DATA_LEN ==>
                && |packets| == Count(packet) && packetNumber == ToU16(old(packetNumber) + 1)
                && forall i :: 0 <= i < |packets| ==> packets[i] == SubPacket(cmd, packet, old(packetNumber), i)
    {
      hide SubPacket, Body, Payload, Flagged;
      packets := [];
      if |packet| > MAX_DATA_LEN {
        var number := packetNumber;
        packetNumber := ToU16(packetNumber + 1);
        ghost var next := packetNumber;
        var n := Count(packet);
        for i := 0 to n
          invariant |packets| == i && packetNumber == next
          invariant forall k :: 0 <= k < i ==> packets[k] == SubPacket(cmd, packet, number, k)
        {
          var one := OneSubPacket(cmd, packet, number, i);
          packets := packets + [one];
        }
      }
    }

    /** The loop body of `ksnSplitPacket`: one buffer, written front to back. */
    static method OneSubPacket(cmd: byte, packet: seq<byte>, number: u16, i: nat) returns (buffer: seq<byte>)
      requires i < Count(packet)
      ensures buffer == SubPacket(cmd, packet, number, i)
    {
      hide PutLe16, Flagged, Count;
      ChunkLength(packet, i);
      var isLast := i == Count(packet) - 1;
      var dataLen := ToU16(if isLast then |packet| - MAX_DATA_LEN * i else MAX_DATA_LEN);
      assert dataLen == |Chunk(packet, i)| && packet[MAX_DATA_LEN * i..MAX_DATA_LEN * i + dataLen] == Chunk(packet, i);
      buffer := PutLe16(ToU16(if i != 0 then dataLen else dataLen + 1));
      buffer := buffer + PutLe16(number);
      buffer := buffer + PutLe16(Flagged(ToU16(i), isLast));
      buffer := buffer + packet[MAX_DATA_LEN * i..MAX_DATA_LEN * i + dataLen];
      if i == 0 {
        buffer := buffer + [cmd];
      }
    }

    /** The loop of `ksnSplitCombine`: takes the fragments 0 to `sub` out of the map, up to the first gap. */
    method TakeRun(from: Name, number: u16, sub: u16) returns (whole: bool, cmd: byte, data: seq<byte>)
      requires HasCommands(store) && sub < LAST_PACKET_FLAG
      modifies this`store
      ensures var j := Present(old(store), from, number, sub + 1);
              store == old(store) - Keys(from, number, j) && whole == (j == sub + 1)
      ensures whole ==>
                var first := old(store)[Key(from, number, 0)];
                cmd == first[|first| - 1] && data == Rebuilt(old(store), from, number, sub + 1)
    {
      hide Key, Keys;
      ghost var was := store;
      cmd, data := 0, [];
      var i := 0;
      NoKeys(from, number);
      while i <= sub
        invariant i <= sub + 1
        invariant forall k: nat :: k < i ==> Key(from, number, k) in was
        invariant store == was - Keys(from, number, i)
        invariant i > 0 ==> was[Key(from, number, 0)] != []
        invariant i > 0 ==> cmd == was[Key(from, number, 0)][|was[Key(from, number, 0)]| - 1]
        invariant data == Rebuilt(was, from, number, i)
      {
        KeysStep(from, number, i);
        var key := Key(from, number, i);
        if key !in store {
          whole := false;
          return;
        }
        var fragment := store[key];
        if i == 0 {
          cmd := fragment[|fragment| - 1];
          fragment := fragment[..|fragment| - 1];
        }
        data := data + fragment;
        store := store - {key};
        i := i + 1;
      }
      whole := true;
    }

    /** `ksnSplitCombine`. */
    method Combine(rd: PacketData, now: real) returns (rds: Option<PacketData>)
      requires WellFormed(rd) && HasCommands(store)
      modifies this`store, this`lastAdded
      ensures (State(), rds) == Combined(old(State()), rd, now)
    {
      hide Key, Keys, GetLe16, Present, Rebuilt;
      rds := None;
      var number, sub := PacketNumber(rd.data), SubNumber(rd.data);
      AddKeepsCommands(State(), rd, now);
      if now - lastAdded > FLUSH_AFTER {
        store := map[];
      }
      store := store[Key(rd.from, number, sub) := rd.data[4..]];
      lastAdded := now;
      if IsLast(rd.data) {
        var whole, cmd, data := TakeRun(rd.from, number, sub);
        if !whole {
          return;
        }
        rds := Some(PacketData(rd.source, rd.from, cmd, data));
      }
    }
  }

  lemma NoKeys(from: Name, packetNumber: u16)
    ensures Keys(from, packetNumber, 0) == {}
  {
  }
}
