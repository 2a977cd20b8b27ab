/** From `ksnCoreSendto` on one host to the handler or the user callback on another. */
module EndToEnd {
  import opened Bytes
  import opened Wrappers
  import opened NetCore
  import opened NetSplit
  import opened Reassembly
  import opened NetCom

  /** Processing packets in the order they arrive, `times[i]` being when packet `i` does. */
  ghost function ProcessedAll(
    accepts: PacketData -> bool, st: Fragments, source: Source, packets: seq<seq<byte>>, times: seq<real>
  ): (r: Outcome)
    requires HasCommands(st.store) && |times| == |packets|
    ensures r.Done? ==> HasCommands(r.st.store)
    decreases |packets|
  {
    if packets == [] then Done(st, [], 0)
    else
      var n := |packets| - 1;
      var before := ProcessedAll(accepts, st, source, packets[..n], times[..n]);
      if before.Malformed? then Malformed
      else
        var r := Processed(accepts, before.st, source, packets[n], true, times[n]);
        if r.Malformed? then Malformed else Done(r.st, before.deliveries + r.deliveries, r.processed)
  }

  /** The first `k` fragments of `m` as arrivals. */
  ghost function Fragmented(m: Message, source: Source, times: seq<real>, k: nat): seq<Arrival>
    requires m.Valid() && k <= Count(m.data) && k <= |times|
  {
    seq(k, i requires 0 <= i < k => Arrival(FragmentData(m, source, i), times[i]))
  }

  ghost function FragmentData(m: Message, source: Source, i: nat): PacketData
    requires m.Valid() && i < Count(m.data)
  {
    PacketData(source, m.from, CMD_SPLIT, Body(m.cmd, m.data, m.number, i))
  }

  lemma FragmentsAdmissible(m: Message, source: Source, times: seq<real>, k: nat)
    requires m.Valid() && k < Count(m.data) && k <= |times|
    ensures AllAdmissible(m, Fragmented(m, source, times, k))
    ensures forall i: nat :: i < k ==> HasFragment(m, Fragmented(m, source, times, k), i)
  {
    hide Body, Payload;
    var run := Fragmented(m, source, times, k);
    forall i | 0 <= i < k
      ensures WellFormed(run[i].rd) && IsFragment(m, run[i].rd, i) && HasFragment(m, run, i)
    {
      BodyFields(m, i);
      assert IsFragment(m, run[i].rd, i);
    }
  }

  /** The frame of a packet with a terminated name parses to that packet. */
  lemma FrameParsed(rd: PacketData)
    requires IsTerminated(rd.from)
    ensures Parsed(rd.source, Packet(rd.cmd, rd.from, rd.data)) == Some(rd)
  {
    hide Packet;
    FrameRoundTrip(rd.source, rd.cmd, rd.from, rd.data);
    ParsedIsFrame(rd.source, Packet(rd.cmd, rd.from, rd.data));
  }

  /** All fragments but the last are stored and deliver nothing. */
  lemma {:induction false} FragmentsQuiet(
    accepts: PacketData -> bool, st: Fragments, m: Message, source: Source, times: seq<real>, k: nat
  )
    requires HasCommands(st.store) && m.Valid() && IsTerminated(m.from) && m.cmd != CMD_VPN
    requires |m.data| > MAX_DATA_LEN && k < Count(m.data) && k <= |times|
    ensures AllWellFormed(Fragmented(m, source, times, k))
    ensures var r := ProcessedAll(accepts, st, source, Wire(m.from, m.number, m.cmd, m.data)[..k], times[..k]);
            r.Done? && r.st == Receive(st, Fragmented(m, source, times, k)) && r.deliveries == []
  {
    hide Body, Payload, Packet, Processed, Combined, WellFormed, IsTerminated, HasFragment, Admissible, IsFragment;
    FragmentsAdmissible(m, source, times, k);
    if k > 0 {
      FragmentsQuiet(accepts, st, m, source, times, k - 1);
      var wire, rd := Wire(m.from, m.number, m.cmd, m.data), FragmentData(m, source, k - 1);
      var run := Fragmented(m, source, times, k - 1);
      assert wire[..k][..k - 1] == wire[..k - 1] && times[..k][..k - 1] == times[..k - 1];
      FragmentProcessed(accepts, Receive(st, run), m, source, k - 1, times[k - 1]);
      ReceiveSnoc(st, run, Arrival(rd, times[k - 1]));
      assert Fragmented(m, source, times, k) == run + [Arrival(rd, times[k - 1])];
    }
  }

  lemma FragmentProcessed(accepts: PacketData -> bool, st: Fragments, m: Message, source: Source, k: nat, now: real)
    requires HasCommands(st.store) && m.Valid() && IsTerminated(m.from) && k < Count(m.data) - 1
    ensures var rd := FragmentData(m, source, k);
            && WellFormed(rd)
            && Processed(accepts, st, source, Packet(rd.cmd, rd.from, rd.data), true, now) == Done(Combined(st, rd, now).0, [], 1)
  {
    hide Body, Payload, Packet, Parsed, Combined, WellFormed, IsTerminated, Checked;
    var rd := FragmentData(m, source, k);
    FrameParsed(rd);
    FragmentQuiet(accepts, st, m, Arrival(rd, now), k);
  }

  lemma FragmentQuiet(accepts: PacketData -> bool, st: Fragments, m: Message, a: Arrival, k: nat)
    requires HasCommands(st.store) && m.Valid() && k < Count(m.data) - 1
    requires a.rd == FragmentData(m, a.rd.source, k)
    ensures WellFormed(a.rd)
    ensures Checked(accepts, st, a.rd, a.now) == Done(Combined(st, a.rd, a.now).0, [], 1)
  {
    hide Body, Payload;
    BodyFields(m, k);
    OwnArrival(m, st, a, k, k);
  }

  /** The single delivery of a packet: to its handler if that accepts it, else to the user. */
  function Delivered(accepts: PacketData -> bool, rd: PacketData): Delivery {
    if accepts(rd) then ToHandler(rd) else ToUser(rd)
  }

  /**
   * What `ksnCoreSendto` puts on the wire for any command but CMD_SPLIT, of any length it
   * accepts, is delivered exactly once with the sender's name, command and bytes, whatever
   * the receiver's fragment map held, when it arrives in order and without a ten-second gap.
   */
  lemma SentIsDelivered(
    accepts: PacketData -> bool, st: Fragments, source: Source, name: Name, number: u16, cmd: byte, data: seq<byte>,
    times: seq<real>
  )
    requires HasCommands(st.store) && IsTerminated(name) && cmd != CMD_SPLIT
    requires |data| <= MAX_PACKET_LEN - MAX_DATA_LEN
    requires |times| == |Wire(name, number, cmd, data)|
    requires forall i :: 0 < i < |times| ==> times[i] - times[i - 1] <= FLUSH_AFTER
    ensures var r := ProcessedAll(accepts, st, source, Wire(name, number, cmd, data), times);
            r.Done? && r.deliveries == [Delivered(accepts, PacketData(source, name, cmd, data))]
  {
    hide Body, Payload, Packet, Parsed, Combined, WellFormed, IsTerminated, Checked, Receive, Prompt, AllAdmissible, HasFragment;
    hide Admissible;
    var wire, rd := Wire(name, number, cmd, data), PacketData(source, name, cmd, data);
    if cmd != CMD_VPN && |data| > MAX_DATA_LEN {
      var m := Message(name, number, cmd, data);
      CountBound(data);
      CountPositive(data);
      var n := Count(data);
      var run, last := Fragmented(m, source, times, n - 1), Arrival(FragmentData(m, source, n - 1), times[n - 1]);
      FragmentsQuiet(accepts, st, m, source, times, n - 1);
      FragmentsAdmissible(m, source, times, n - 1);
      PromptRun(m, source, times);
      Reassembled(m, st, run, last);
      FrameParsed(last.rd);
      LastDelivers(accepts, Receive(st, run), last, rd);
    } else {
      SingleDelivers(accepts, st, rd, times[0]);
      assert wire[..0] == [] && times[..0] == [];
    }
  }

  /** A command in a single packet. */
  lemma SingleDelivers(accepts: PacketData -> bool, st: Fragments, rd: PacketData, now: real)
    requires HasCommands(st.store) && IsTerminated(rd.from) && rd.cmd != CMD_SPLIT
    ensures var r := Processed(accepts, st, rd.source, Packet(rd.cmd, rd.from, rd.data), true, now);
            r.Done? && r.st == st && r.deliveries == [Delivered(accepts, rd)]
  {
    hide Packet, Parsed;
    FrameParsed(rd);
  }

  lemma PromptRun(m: Message, source: Source, times: seq<real>)
    requires m.Valid() && |times| == Count(m.data)
    requires forall i :: 0 < i < |times| ==> times[i] - times[i - 1] <= FLUSH_AFTER
    ensures var n := Count(m.data);
            Prompt(Fragmented(m, source, times, n - 1) + [Arrival(FragmentData(m, source, n - 1), times[n - 1])])
  {
    hide Body;
    var n := Count(m.data);
    var run := Fragmented(m, source, times, n - 1) + [Arrival(FragmentData(m, source, n - 1), times[n - 1])];
    assert forall i :: 0 <= i < n ==> run[i].now == times[i];
  }

  lemma LastDelivers(accepts: PacketData -> bool, st: Fragments, last: Arrival, rd: PacketData)
    requires HasCommands(st.store) && WellFormed(last.rd) && last.rd.cmd == CMD_SPLIT && rd.cmd != CMD_SPLIT
    requires Combined(st, last.rd, last.now).1 == Some(rd)
    ensures var r := Checked(accepts, st, last.rd, last.now);
            r.Done? && r.processed != 0 && r.deliveries == [Delivered(accepts, rd)]
  {
    hide Combined;
    CombinedKeepsCommands(st, last.rd, last.now);
    CombineDrops(st, last.rd, last.now);
    var st' := Combined(st, last.rd, last.now).0;
    var inner := Checked(accepts, st', rd, last.now);
    assert inner == if accepts(rd) then Done(st', [ToHandler(rd)], 1) else Done(st', [], 0);
    assert SplitHandled(accepts, st, last.rd, last.now)
        == if inner.processed == 0 then Done(st', [] + [ToUser(rd)], 2) else inner;
  }

  // ---- Amidst the packets of other senders ----------------------------------------------------

  /** What arrives: the next packet of one sender's command, or any packet that is not a frame of that sender. */
  datatype Reception =
    | Own(now: real)
    | Other(source: Source, packet: seq<byte>, encrypted: bool, now: real)

  predicate Foreign(name: Name, r: Reception) {
    r.Other? ==> Parsed(r.source, r.packet).None? || Parsed(r.source, r.packet).value.from != name
  }

  function CountOwn(traffic: seq<Reception>): nat {
    if traffic == [] then 0 else (if traffic[0].Own? then 1 else 0) + CountOwn(traffic[1..])
  }

  /** Deliveries from the sender's own packets and from the others; or the packet the C code cannot read. */
  datatype Mixed =
    | Mixed(st: Fragments, own: seq<Delivery>, others: seq<Delivery>)
    | OwnMalformed
    | OtherMalformed

  ghost function ProcessedMixed(
    accepts: PacketData -> bool, st: Fragments, source: Source, wire: seq<seq<byte>>, traffic: seq<Reception>
  ): Mixed
    requires HasCommands(st.store) && CountOwn(traffic) == |wire|
    decreases |traffic|
  {
    if traffic == [] then Mixed(st, [], [])
    else if traffic[0].Own? then
      var r := Processed(accepts, st, source, wire[0], true, traffic[0].now);
      if r.Malformed? then OwnMalformed
      else
        var more := ProcessedMixed(accepts, r.st, source, wire[1..], traffic[1..]);
        if more.Mixed? then more.(own := r.deliveries + more.own) else more
    else
      var a := traffic[0];
      var r := Processed(accepts, st, a.source, a.packet, a.encrypted, a.now);
      if r.Malformed? then OtherMalformed
      else
        var more := ProcessedMixed(accepts, r.st, source, wire, traffic[1..]);
        if more.Mixed? then more.(others := r.deliveries + more.others) else more
  }

  ghost predicate InOrder(traffic: seq<Reception>) {
    forall k, l :: 0 <= k <= l < |traffic| ==> traffic[k].now <= traffic[l].now
  }

  /** From one of the sender's packets to its next no more than ten seconds pass. */
  ghost predicate OwnPrompt(traffic: seq<Reception>) {
    forall k, l :: 0 <= k < l < |traffic| && traffic[k].Own? && traffic[l].Own? && OtherFrom(traffic, k + 1, l)
                   ==> traffic[l].now - traffic[k].now <= FLUSH_AFTER
  }

  /** The packets at `k` up to `l` are all of others. */
  ghost predicate OtherFrom(traffic: seq<Reception>, k: nat, l: nat) {
    forall i :: k <= i < l && i < |traffic| ==> traffic[i].Other?
  }

  /** The next of the sender's packets is there ten seconds after `since` at the latest. */
  ghost predicate NextBy(traffic: seq<Reception>, since: real) {
    exists k :: 0 <= k < |traffic| && traffic[k].Own? && OtherFrom(traffic, 0, k) && traffic[k].now - since <= FLUSH_AFTER
  }

  lemma TimesTail(traffic: seq<Reception>)
    requires traffic != [] && InOrder(traffic) && OwnPrompt(traffic)
    ensures InOrder(traffic[1..]) && OwnPrompt(traffic[1..])
  {
    var tail := traffic[1..];
    assert forall k :: 0 <= k < |tail| ==> tail[k] == traffic[k + 1];
    forall k, l | 0 <= k < l < |tail| && tail[k].Own? && tail[l].Own? && OtherFrom(tail, k + 1, l)
      ensures tail[l].now - tail[k].now <= FLUSH_AFTER
    {
      forall i | k + 2 <= i < l + 1
        ensures traffic[i].Other?
      {
        assert tail[i - 1].Other?;
      }
      assert OtherFrom(traffic, k + 2, l + 1);
    }
  }

  /** Behind one of the sender's packets the next is not late. */
  lemma {:induction false} NextOwn(traffic: seq<Reception>, k: nat)
    requires 0 < k <= |traffic| && CountOwn(traffic[k..]) > 0 && OwnPrompt(traffic)
    requires traffic[0].Own? && OtherFrom(traffic, 1, k)
    ensures NextBy(traffic[1..], traffic[0].now)
    decreases |traffic| - k
  {
    if traffic[k].Own? {
      var tail := traffic[1..];
      assert tail[k - 1] == traffic[k];
      assert OtherFrom(tail, 0, k - 1);
    } else {
      assert traffic[k..][1..] == traffic[k + 1..];
      NextOwn(traffic, k + 1);
    }
  }

  /** A packet of another leaves the next own one as early as it was, and is early itself. */
  lemma NextStays(traffic: seq<Reception>, since: real)
    requires traffic != [] && traffic[0].Other? && NextBy(traffic, since) && InOrder(traffic)
    ensures NextBy(traffic[1..], since) && traffic[0].now - since <= FLUSH_AFTER
  {
    var k :| 0 <= k < |traffic| && traffic[k].Own? && OtherFrom(traffic, 0, k) && traffic[k].now - since <= FLUSH_AFTER;
    var tail := traffic[1..];
    assert tail[k - 1] == traffic[k] && OtherFrom(tail, 0, k - 1);
    assert traffic[0].now <= traffic[k].now;
  }

  lemma NextIsFirst(traffic: seq<Reception>, since: real)
    requires traffic != [] && traffic[0].Own? && NextBy(traffic, since)
    ensures traffic[0].now - since <= FLUSH_AFTER
  {
  }

  /** However deep it is nested, a packet of another sender touches no fragment of `m`. */
  lemma {:induction false} OtherKeeps(accepts: PacketData -> bool, m: Message, st: Fragments, rd: PacketData, now: real)
    requires m.Valid() && HasCommands(st.store) && rd.from != m.from
    ensures var r := Checked(accepts, st, rd, now);
            r.Done? ==>
              && (r.st.lastAdded == st.lastAdded || r.st.lastAdded == now)
              && (now - st.lastAdded <= FLUSH_AFTER ==> forall arrived :: HoldsAtLeast(m, st.store, arrived) ==> HoldsAtLeast(m, r.st.store, arrived))
    decreases StoreBytes(st.store) + |rd.data|
  {
    hide NetSplit.Key, Payload, Stored;
    if rd.cmd == CMD_SPLIT && WellFormed(rd) {
      CombinedKeepsCommands(st, rd, now);
      CombineDrops(st, rd, now);
      CombinedTime(st, Arrival(rd, now));
      OtherCombined(m, st, rd, now);
      var (st', rds) := Combined(st, rd, now);
      if rds.Some? {
        OtherKeeps(accepts, m, st', rds.value, now);
      }
    }
  }

  lemma OtherCombined(m: Message, st: Fragments, rd: PacketData, now: real)
    requires m.Valid() && HasCommands(st.store) && rd.from != m.from && WellFormed(rd)
    ensures var (st', rds) := Combined(st, rd, now);
            && (rds.Some? ==> rds.value.from == rd.from)
            && (now - st.lastAdded <= FLUSH_AFTER ==> forall arrived :: HoldsAtLeast(m, st.store, arrived) ==> HoldsAtLeast(m, st'.store, arrived))
  {
    hide NetSplit.Key, Payload, Rebuilt;
    var st' := Combined(st, rd, now).0;
    if now - st.lastAdded <= FLUSH_AFTER {
      forall arrived, i: nat | HoldsAtLeast(m, st.store, arrived) && i in arrived
        ensures i < Count(m.data) - 1 && Stored(m, st'.store, i)
      {
        assert Stored(m, st.store, i);
        ForeignArrival(m, st, Arrival(rd, now), i);
      }
    }
  }

  lemma OtherProcessed(accepts: PacketData -> bool, m: Message, st: Fragments, a: Reception)
    requires m.Valid() && HasCommands(st.store) && a.Other? && Foreign(m.from, a)
    ensures var r := Processed(accepts, st, a.source, a.packet, a.encrypted, a.now);
            r.Done? ==>
              && (r.st.lastAdded == st.lastAdded || r.st.lastAdded == a.now)
              && (a.now - st.lastAdded <= FLUSH_AFTER ==> forall arrived :: HoldsAtLeast(m, st.store, arrived) ==> HoldsAtLeast(m, r.st.store, arrived))
  {
    hide HoldsAtLeast, Parsed, Checked;
    if Parsed(a.source, a.packet).Some? {
      OtherKeeps(accepts, m, st, Parsed(a.source, a.packet).value, a.now);
    }
  }

  /** Without own packets nothing is delivered from own packets. */
  lemma {:induction false} NoneOwn(accepts: PacketData -> bool, st: Fragments, source: Source, traffic: seq<Reception>)
    requires HasCommands(st.store) && CountOwn(traffic) == 0
    ensures var r := ProcessedMixed(accepts, st, source, [], traffic);
            r.OtherMalformed? || (r.Mixed? && r.own == [])
    decreases |traffic|
  {
    hide Processed;
    if traffic != [] {
      var a := traffic[0];
      var r := Processed(accepts, st, a.source, a.packet, a.encrypted, a.now);
      if r.Done? {
        NoneOwn(accepts, r.st, source, traffic[1..]);
      }
    }
  }

  /** The numbers below `j`. */
  function Below(j: nat): (s: set<nat>)
    ensures forall i: nat :: i in s <==> i < j
  {
    if j == 0 then {} else Below(j - 1) + {j - 1}
  }

  /** An own fragment that is not the last: it is stored, and nothing is delivered. */
  lemma OwnStored(accepts: PacketData -> bool, m: Message, st: Fragments, source: Source, j: nat, now: real)
    requires HasCommands(st.store) && m.Valid() && IsTerminated(m.from) && j < Count(m.data) - 1
    requires HoldsAtLeast(m, st.store, Below(j)) && (j > 0 ==> now - st.lastAdded <= FLUSH_AFTER)
    ensures var r := Processed(accepts, st, source, Packet(CMD_SPLIT, m.from, Body(m.cmd, m.data, m.number, j)), true, now);
            r.Done? && r.deliveries == [] && r.st.lastAdded == now && HoldsAtLeast(m, r.st.store, Below(j + 1))
  {
    hide Body, Payload, Packet, Processed, Combined, WellFormed, IsTerminated, HoldsAtLeast;
    var rd := FragmentData(m, source, j);
    var a := Arrival(rd, now);
    FragmentProcessed(accepts, st, m, source, j, now);
    CombinedTime(st, a);
    assert IsFragment(m, a.rd, j);
    FragmentNumber(m, a, j);
    assert j == 0 ==> Below(j) == {};
    ArrivalHolds(m, st, a, Below(j));
    assert Below(j) + {j} == Below(j + 1);
  }

  /** The last one: the command is delivered. */
  lemma OwnCompletes(accepts: PacketData -> bool, m: Message, st: Fragments, source: Source, now: real)
    requires HasCommands(st.store) && m.Valid() && IsTerminated(m.from) && m.cmd != CMD_SPLIT
    requires HoldsAtLeast(m, st.store, Below(Count(m.data) - 1)) && now - st.lastAdded <= FLUSH_AFTER
    ensures var n := Count(m.data) - 1;
            var r := Processed(accepts, st, source, Packet(CMD_SPLIT, m.from, Body(m.cmd, m.data, m.number, n)), true, now);
            r.Done? && r.deliveries == [Delivered(accepts, Whole(m, source))]
  {
    hide Body, Payload, Packet, Parsed, Combined, WellFormed, IsTerminated, Checked, Stored;
    var n := Count(m.data) - 1;
    var rd := FragmentData(m, source, n);
    FrameParsed(rd);
    LastArrival(m, st, Arrival(rd, now));
    assert forall i: nat :: i < n ==> i in Below(n) && Stored(m, st.store, i);
    LastDelivers(accepts, st, Arrival(rd, now), Whole(m, source));
  }

  /** From fragment `j` on, with those before it stored since no more than ten seconds. */
  lemma {:induction false} MixedDelivers(
    accepts: PacketData -> bool, m: Message, st: Fragments, source: Source, j: nat, traffic: seq<Reception>, since: real
  )
    requires HasCommands(st.store) && m.Valid() && IsTerminated(m.from) && m.cmd != CMD_SPLIT && m.cmd != CMD_VPN
    requires |m.data| > MAX_DATA_LEN && j < Count(m.data) && CountOwn(traffic) == Count(m.data) - j
    requires InOrder(traffic) && OwnPrompt(traffic) && forall k :: 0 <= k < |traffic| ==> Foreign(m.from, traffic[k])
    requires HoldsAtLeast(m, st.store, Below(j)) && (j > 0 ==> since <= st.lastAdded && NextBy(traffic, since))
    requires j > 0 ==> forall k :: 0 <= k < |traffic| ==> since <= traffic[k].now
    ensures var r := ProcessedMixed(accepts, st, source, Wire(m.from, m.number, m.cmd, m.data)[j..], traffic);
            r.OtherMalformed? || (r.Mixed? && r.own == [Delivered(accepts, Whole(m, source))])
    decreases |traffic|
  {
    hide Body, Payload, Packet, Parsed, Processed, HoldsAtLeast, IsTerminated, InOrder, OwnPrompt, NextBy, Foreign, Whole;
    var wire := Wire(m.from, m.number, m.cmd, m.data);
    var a, tail := traffic[0], traffic[1..];
    TimesTail(traffic);
    assert forall k :: 0 <= k < |tail| ==> tail[k] == traffic[k + 1];
    if a.Own? {
      assert wire[j..][0] == wire[j] && wire[j..][1..] == wire[j + 1..];
      if j > 0 {
        NextIsFirst(traffic, since);
      }
      if j < Count(m.data) - 1 {
        OwnStored(accepts, m, st, source, j, a.now);
        var st' := Processed(accepts, st, source, wire[j], true, a.now).st;
        NextOwn(traffic, 1);
        FirstIsEarliest(traffic);
        MixedDelivers(accepts, m, st', source, j + 1, tail, a.now);
      } else {
        OwnCompletes(accepts, m, st, source, a.now);
        var st' := Processed(accepts, st, source, wire[j], true, a.now).st;
        assert wire[j + 1..] == [];
        NoneOwn(accepts, st', source, tail);
      }
    } else {
      OtherProcessed(accepts, m, st, a);
      var r := Processed(accepts, st, a.source, a.packet, a.encrypted, a.now);
      if j > 0 {
        NextStays(traffic, since);
      } else {
        NothingHeld(m, st);
        if r.Done? {
          NothingHeld(m, r.st);
        }
      }
      if r.Done? {
        MixedDelivers(accepts, m, r.st, source, j, tail, since);
      }
    }
  }

  lemma NothingHeld(m: Message, st: Fragments)
    requires m.Valid()
    ensures Below(0) == {} && HoldsAtLeast(m, st.store, Below(0))
  {
  }

  lemma FirstIsEarliest(traffic: seq<Reception>)
    requires traffic != [] && InOrder(traffic)
    ensures forall k :: 0 <= k < |traffic| ==> traffic[0].now <= traffic[k].now
  {
  }

  /**
   * The same amidst any packets of other senders, nested split packets included: what is
   * sent is delivered exactly once, unless one of those others cannot be read by the C code.
   * The channel of the sender itself keeps order, so nothing of its own comes in between.
   */
  lemma SentIsDeliveredAmidst(
    accepts: PacketData -> bool, st: Fragments, source: Source, name: Name, number: u16, cmd: byte, data: seq<byte>,
    traffic: seq<Reception>
  )
    requires HasCommands(st.store) && IsTerminated(name) && cmd != CMD_SPLIT
    requires |data| <= MAX_PACKET_LEN - MAX_DATA_LEN
    requires CountOwn(traffic) == |Wire(name, number, cmd, data)|
    requires InOrder(traffic) && OwnPrompt(traffic) && forall k :: 0 <= k < |traffic| ==> Foreign(name, traffic[k])
    ensures var r := ProcessedMixed(accepts, st, source, Wire(name, number, cmd, data), traffic);
            r.OtherMalformed? || (r.Mixed? && r.own == [Delivered(accepts, PacketData(source, name, cmd, data))])
  {
    hide InOrder, OwnPrompt, Foreign, ProcessedMixed, HoldsAtLeast, IsTerminated;
    var wire := Wire(name, number, cmd, data);
    if cmd != CMD_VPN && |data| > MAX_DATA_LEN {
      var m := Message(name, number, cmd, data);
      CountBound(data);
      CountPositive(data);
      NothingHeld(m, st);
      assert wire[0..] == wire;
      MixedDelivers(accepts, m, st, source, 0, traffic, 0.0);
    } else {
      SmallDelivered(accepts, st, PacketData(source, name, cmd, data), traffic);
    }
  }

  lemma {:induction false} SmallDelivered(accepts: PacketData -> bool, st: Fragments, rd: PacketData, traffic: seq<Reception>)
    requires HasCommands(st.store) && IsTerminated(rd.from) && rd.cmd != CMD_SPLIT && CountOwn(traffic) == 1
    ensures var r := ProcessedMixed(accepts, st, rd.source, [Packet(rd.cmd, rd.from, rd.data)], traffic);
            r.OtherMalformed? || (r.Mixed? && r.own == [Delivered(accepts, rd)])
    decreases |traffic|
  {
    hide Packet, Processed, IsTerminated;
    var a := traffic[0];
    if a.Own? {
      SingleDelivers(accepts, st, rd, a.now);
      NoneOwn(accepts, st, rd.source, traffic[1..]);
      assert [Packet(rd.cmd, rd.from, rd.data)][1..] == [];
    } else {
      var r := Processed(accepts, st, a.source, a.packet, a.encrypted, a.now);
      if r.Done? {
        SmallDelivered(accepts, r.st, rd, traffic[1..]);
      }
    }
  }
}
