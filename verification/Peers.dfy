/**
 * Peer lifecycle: the ARP table (src/net_arp.c), disconnect handling (src/net_com.c), the
 * dead-peer sweep (src/ev_mgr.c) and reconnect requests with their timers (src/net_recon.c).
 *
 * A callback-queue record gets a fresh id, fires once (type 0 on timeout, type 1 when it is
 * executed by id) and is then gone. A hash map is iterated in no particular order.
 */
module Peers {

  type Name = string
  type Id = nat

  /** Silence in seconds after which a peer is disconnected: CHECK_EVENTS_AFTER + 2.5. */
  const DEAD_AFTER := 11.5 + 2.5

  /** The ARP entry fields that matter here; mode is -1 for this host, 1 for the r-host. */
  datatype Arp = Arp(mode: int, lastActivity: real, addr: Name, port: int)

  /** What the handlers here read of a received packet. */
  datatype Packet = Packet(from: Name, addr: Name, port: int, cmd: nat, dataLen: nat)

  const CMD_NONE := 0
  const CMD_HOST_INFO := 90

  datatype Command =
    | Reconnect(to: Name, peer: Name)   // CMD_RECONNECT
    | Bye(to: Name)                     // CMD_DISCONNECTED to a dead peer
    | Answer(to: Name, peer: Name)      // CMD_RECONNECT_ANSWER
    | Connect(to: Name, peer: Name, addr: Name, port: int)  // CMD_CONNECT: connect to this peer there

  /** `rHost` is empty when there is no r-host; `rAddr` and `rPort` are where one is configured to be. */
  datatype Net = Net(
    arp: map<Name, Arp>,
    rHost: Name,
    rAddr: Name,
    rPort: int,
    requests: map<Name, Id>,      // the reconnect map: peer to callback-queue id
    timers: map<Id, Name>,        // pending callback-queue records of reconnect requests
    nextId: Id,
    sent: seq<Command>,
    disconnected: seq<Name>       // EV_K_DISCONNECTED events, by the name in `rd->from`
  )

  /** Requests and pending timers correspond one to one. */
  ghost predicate Valid(n: Net) {
    && (forall p :: p in n.requests ==> n.requests[p] in n.timers && n.timers[n.requests[p]] == p)
    && (forall i :: i in n.timers ==> n.timers[i] in n.requests && n.requests[n.timers[i]] == i)
    && (forall i :: i in n.timers ==> i < n.nextId)
  }

  predicate HasRHost(n: Net) { n.rHost != "" && n.rHost in n.arp }

  // ---- What each operation does -------------------------------------------------------------

  /** `ksnReconnectSend`: 0 sent, 1 already in progress, -1 no r-host. */
  function Requested(n: Net, peer: Name): (Net, int) {
    if !HasRHost(n) then (n, -1)
    else if peer in n.requests then (n, 1)
    else
      (n.(requests := n.requests[peer := n.nextId],
          timers := n.timers[n.nextId := peer],
          nextId := n.nextId + 1,
          sent := n.sent + [Reconnect(n.rHost, peer)]), 0)
  }

  /** A timer record fires: it is gone, and `ksnReconnectCQueCallback` runs. */
  function Fired(n: Net, id: Id, timeout: bool): Net
    requires id in n.timers
  {
    var peer := n.timers[id];
    var ended := n.(timers := n.timers - {id}, requests := n.requests - {peer});
    if timeout && peer !in n.arp then Requested(ended, peer).0 else ended
  }

  /** `ksnReconnectProcessAnswer`. */
  function Answered(n: Net, peer: Name): Net {
    if peer in n.requests && n.requests[peer] in n.timers then Fired(n, n.requests[peer], false) else n
  }

  /** `ksnCoreSendCmdto` to a peer of this network. */
  function Told(n: Net, c: Command): Net { if c.to in n.arp then n.(sent := n.sent + [c]) else n }

  /**
   * `ksnReconnectProcess` on the r-host: the two are told of each other and where the other
   * is, or the sender that the peer is not here.
   */
  function AskedToReconnect(n: Net, rd: Packet, peer: Name): Net {
    if peer !in n.arp then Told(n, Answer(rd.from, peer))
    else if peer != rd.from then
      Told(Told(n, Connect(rd.from, peer, n.arp[peer].addr, n.arp[peer].port)), Connect(peer, rd.from, rd.addr, rd.port))
    else n
  }

  /**
   * `cmd_disconnected_cb`: a name in the data overrides the sender's. The C code looks for it
   * even in a packet without data; then `data` is the string that happens to stand behind it.
   */
  function Disconnected(n: Net, from: Name, data: Name): Net {
    var peer := if data != "" then data else from;
    var isRHost := n.rHost != "" && n.rHost == from;
    var asked := if isRHost then n.(rHost := "") else Requested(n, peer).0;
    asked.(disconnected := asked.disconnected + [from], arp := asked.arp - {peer})
  }

  /** A packet from where the r-host is configured to be, or an answer to a connect from its port. */
  predicate FromRHost(n: Net, rd: Packet) {
    && n.rHost == "" && n.rPort == rd.port
    && (((rd.cmd == CMD_NONE || rd.cmd == CMD_HOST_INFO) && rd.dataLen == 2) || n.rAddr == rd.addr)
  }

  /** A packet from a peer: `ksnCoreCheckNewPeer`, then its last activity is set. */
  function Seen(n: Net, rd: Packet, now: real): Net {
    if rd.from !in n.arp then
      if FromRHost(n, rd) then
        n.(rHost := rd.from, rAddr := rd.addr, arp := n.arp[rd.from := Arp(1, now, rd.addr, rd.port)])
      else n.(arp := n.arp[rd.from := Arp(0, now, rd.addr, rd.port)])
    else if rd.cmd == CMD_NONE && rd.dataLen == 2 then
      n.(rHost := rd.from, arp := n.arp[rd.from := n.arp[rd.from].(mode := 1, lastActivity := now)])
    else n.(arp := n.arp[rd.from := n.arp[rd.from].(lastActivity := now)])
  }

  /** A peer whose silence has lasted too long; this host itself never qualifies. */
  predicate Dead(n: Net, peer: Name, now: real) {
    peer in n.arp && n.arp[peer].mode >= 0 && now - n.arp[peer].lastActivity > DEAD_AFTER
  }

  /** `check_connected_cb` on a dead peer: say goodbye, then disconnect it here. */
  function Removed(n: Net, peer: Name): Net {
    Disconnected(n.(sent := n.sent + [Bye(peer)]), peer, "")
  }

  // ---- Runs ---------------------------------------------------------------------------------

  datatype Event =
    | PeerSeen(rd: Packet, now: real)
    | PeerDisconnected(from: Name, data: Name)
    | PeerDead(peer: Name)
    | TimerFires(id: Id)
    | AnswerArrives(peer: Name)
    | RequestArrives(rd: Packet, peer: Name)

  /** A timer that is not pending does not fire. */
  function Next(n: Net, e: Event): Net {
    match e
    case PeerSeen(rd, now) => Seen(n, rd, now)
    case PeerDisconnected(from, data) => Disconnected(n, from, data)
    case PeerDead(peer) => Removed(n, peer)
    case TimerFires(id) => if id in n.timers then Fired(n, id, true) else n
    case AnswerArrives(peer) => Answered(n, peer)
    case RequestArrives(rd, peer) => AskedToReconnect(n, rd, peer)
  }

  function Run(n: Net, events: seq<Event>): Net
    decreases |events|
  {
    if events == [] then n else Run(Next(n, events[0]), events[1..])
  }

  lemma RequestKeepsValid(n: Net, peer: Name)
    requires Valid(n)
    ensures Valid(Requested(n, peer).0)
  {
  }

  lemma FireKeepsValid(n: Net, id: Id, timeout: bool)
    requires Valid(n) && id in n.timers
    ensures Valid(Fired(n, id, timeout))
  {
    var peer := n.timers[id];
    RequestKeepsValid(n.(timers := n.timers - {id}, requests := n.requests - {peer}), peer);
  }

  lemma StepKeepsValid(n: Net, e: Event)
    requires Valid(n)
    ensures Valid(Next(n, e))
  {
    hide Requested, Fired, HasRHost;
    match e
    case PeerSeen(_, _) =>
    case PeerDisconnected(from, data) => RequestKeepsValid(n, if data != "" then data else from);
    case PeerDead(peer) => RequestKeepsValid(n.(sent := n.sent + [Bye(peer)]), peer);
    case TimerFires(id) =>
      if id in n.timers {
        FireKeepsValid(n, id, true);
      }
    case AnswerArrives(peer) =>
      if peer in n.requests {
        FireKeepsValid(n, n.requests[peer], false);
      }
    case RequestArrives(_, _) =>
  }

  /** In every run, requests and timers stay one to one. */
  lemma {:induction false} RunKeepsValid(n: Net, events: seq<Event>)
    requires Valid(n)
    ensures Valid(Run(n, events))
    decreases |events|
  {
    if events != [] {
      StepKeepsValid(n, events[0]);
      RunKeepsValid(Next(n, events[0]), events[1..]);
    }
  }

  /** The only ways a pending request ends. */
  predicate Ends(n: Net, e: Event, peer: Name) {
    match e
    case TimerFires(id) => id in n.timers && n.timers[id] == peer && (peer in n.arp || !HasRHost(n))
    case AnswerArrives(p) => p == peer
    case _ => false
  }

  /**
   * A request ends exactly when its timer finds the peer connected or no r-host, or when the
   * answer for it arrives. Otherwise it goes on: under the same id, or, when its timer
   * fired, under a fresh one with a second CMD_RECONNECT sent.
   */
  lemma RequestEnds(n: Net, e: Event, peer: Name)
    requires Valid(n) && peer in n.requests
    ensures peer !in Next(n, e).requests <==> Ends(n, e, peer)
    ensures !Ends(n, e, peer) ==>
              if e == TimerFires(n.requests[peer]) then
                && Next(n, e).requests[peer] == n.nextId
                && Next(n, e).sent == n.sent + [Reconnect(n.rHost, peer)]
              else Next(n, e).requests[peer] == n.requests[peer]
  {
  }

  /** A request that was pending and is not any more was ended at some step of the run. */
  lemma {:induction false} RequestEndsInRun(n: Net, events: seq<Event>, peer: Name)
    requires Valid(n) && peer in n.requests && peer !in Run(n, events).requests
    ensures exists k :: 0 <= k < |events| && Ends(Run(n, events[..k]), events[k], peer)
    decreases |events|
  {
    var n' := Next(n, events[0]);
    RequestEnds(n, events[0], peer);
    if peer !in n'.requests {
      assert events[..0] == [];
      assert Ends(Run(n, events[..0]), events[0], peer);
    } else {
      StepKeepsValid(n, events[0]);
      RequestEndsInRun(n', events[1..], peer);
      var k :| 0 <= k < |events| - 1 && Ends(Run(n', events[1..][..k]), events[1..][k], peer);
      assert events[..k + 1][0] == events[0] && events[..k + 1][1..] == events[1..][..k];
      assert Ends(Run(n, events[..k + 1]), events[k + 1], peer);
    }
  }

  // ---- Who is heard --------------------------------------------------------------------------

  /**
   * A packet leaves its sender in the table, heard now; a known peer keeps its address and
   * port, a new one gets those of the packet. No other entry changes, and nothing is sent.
   */
  lemma SeenEntry(n: Net, rd: Packet, now: real)
    ensures var n' := Seen(n, rd, now);
            && rd.from in n'.arp && n'.arp[rd.from].lastActivity == now
            && (rd.from in n.arp ==> n'.arp[rd.from].addr == n.arp[rd.from].addr && n'.arp[rd.from].port == n.arp[rd.from].port)
            && (rd.from !in n.arp ==> n'.arp[rd.from].addr == rd.addr && n'.arp[rd.from].port == rd.port)
            && (forall p :: p != rd.from ==> (p in n'.arp <==> p in n.arp) && (p in n.arp ==> n'.arp[p] == n.arp[p]))
            && n'.sent == n.sent && n'.requests == n.requests && n'.timers == n.timers && n'.disconnected == n.disconnected
  {
  }

  /** It becomes the r-host's entry exactly when its sender is made the r-host; this host's entry aside. */
  lemma SeenMode(n: Net, rd: Packet, now: real)
    ensures var n' := Seen(n, rd, now);
            n'.arp[rd.from].mode == if Makes(n, PeerSeen(rd, now), rd.from) then 1 else if rd.from in n.arp then n.arp[rd.from].mode else 0
  {
  }

  predicate Hears(e: Event, p: Name) { e.PeerSeen? && e.rd.from == p }

  /** The event takes `p` out of the table: a disconnect that names it, or its removal as dead. */
  predicate Drops(e: Event, p: Name) {
    (e.PeerDisconnected? && p == (if e.data != "" then e.data else e.from)) || (e.PeerDead? && e.peer == p)
  }

  /** Peer `p` was last heard at time `t`, at step `k`, and not dropped since. */
  predicate LastHeard(events: seq<Event>, k: nat, p: Name, t: real) {
    && k < |events| && Hears(events[k], p) && events[k].now == t
    && forall j :: k < j < |events| ==> !Hears(events[j], p) && !Drops(events[j], p)
  }

  predicate Untouched(events: seq<Event>, p: Name) {
    forall j :: 0 <= j < |events| ==> !Hears(events[j], p) && !Drops(events[j], p)
  }

  predicate HeardAt(n: Net, p: Name, t: real) { p in n.arp && n.arp[p].lastActivity == t }

  lemma StepHears(n: Net, e: Event, p: Name, t: real)
    ensures HeardAt(Next(n, e), p, t)
       <==> (Hears(e, p) && e.now == t) || (!Hears(e, p) && !Drops(e, p) && HeardAt(n, p, t))
  {
  }

  lemma {:induction false} RunSnoc(n: Net, events: seq<Event>, e: Event)
    ensures Run(n, events + [e]) == Next(Run(n, events), e)
    decreases |events|
  {
    hide Next;
    var all := events + [e];
    if events == [] {
      assert all[1..] == [];
    } else {
      assert all[1..] == events[1..] + [e];
      RunSnoc(Next(n, events[0]), events[1..], e);
    }
  }

  /** In every run the table holds a peer, with a time, exactly when it was last heard then and not dropped since. */
  lemma {:induction false} TableInRun(n: Net, events: seq<Event>, p: Name, t: real)
    ensures HeardAt(Run(n, events), p, t)
       <==> (exists k :: LastHeard(events, k, p, t)) || (HeardAt(n, p, t) && Untouched(events, p))
    decreases |events|
  {
    hide Run, Next, HeardAt;
    if events == [] {
      NoEvents(n);
    } else {
      var m := |events| - 1;
      var before, e := events[..m], events[m];
      assert events == before + [e];
      RunSnoc(n, before, e);
      TableInRun(n, before, p, t);
      StepHears(Run(n, before), e, p, t);
      HeardSnoc(before, e, p, t);
    }
  }

  lemma NoEvents(n: Net)
    ensures Run(n, []) == n
  {
  }

  lemma HeardSnoc(before: seq<Event>, e: Event, p: Name, t: real)
    ensures var all := before + [e];
            && ((exists k :: LastHeard(all, k, p, t))
                <==> (Hears(e, p) && e.now == t) || (!Hears(e, p) && !Drops(e, p) && exists k :: LastHeard(before, k, p, t)))
            && (Untouched(all, p) <==> Untouched(before, p) && !Hears(e, p) && !Drops(e, p))
  {
    hide Drops;
    var all, m := before + [e], |before|;
    assert all[m] == e && forall j :: 0 <= j < m ==> all[j] == before[j];
    if k: nat :| LastHeard(all, k, p, t) {
      assert k < m ==> LastHeard(before, k, p, t);
    }
    if Hears(e, p) && e.now == t {
      assert LastHeard(all, m, p, t);
    }
    if !Hears(e, p) && !Drops(e, p) {
      if k: nat :| LastHeard(before, k, p, t) {
        assert LastHeard(all, k, p, t);
      }
    }
  }

  /** A peer that was heard, and not dropped since, is not dead for fourteen seconds; so no sweep removes it. */
  lemma HeardIsAlive(n: Net, events: seq<Event>, k: nat, p: Name, t: real, now: real, removed: seq<Name>)
    requires LastHeard(events, k, p, t) && now <= t + 14.0
    ensures HeardAt(Run(n, events), p, t) && p !in DeadPeers(Run(n, events), now)
    ensures IsSweep(Run(n, events), removed, now) ==> p !in removed
  {
    hide Run, IsSweep;
    TableInRun(n, events, p, t);
    if IsSweep(Run(n, events), removed, now) {
      SweepIsOfDead(Run(n, events), removed, now);
      assert p in removed ==> p in Names(removed);
    }
  }

  // ---- Who is the r-host ----------------------------------------------------------------------

  /**
   * The event makes `p` the r-host: a known peer by an empty answer, a new one when there is
   * no r-host and it comes from the configured port, with such an answer or from the
   * configured address.
   */
  predicate Makes(n: Net, e: Event, p: Name) {
    && e.PeerSeen? && e.rd.from == p
    && if p in n.arp then e.rd.cmd == 0 && e.rd.dataLen == 2
       else n.rHost == "" && e.rd.port == n.rPort && (e.rd.addr == n.rAddr || (e.rd.dataLen == 2 && e.rd.cmd in {0, 90}))
  }

  predicate Unmakes(e: Event, p: Name) { (e.PeerDisconnected? && e.from == p) || (e.PeerDead? && e.peer == p) }

  /** From step `k` on `p` stays the r-host: it does not disconnect and no other is made it. */
  predicate StaysRHost(n: Net, events: seq<Event>, k: nat, p: Name) {
    forall j :: k <= j < |events| ==> !Unmakes(events[j], p) && !MakesOther(Run(n, events[..j]), events[j], p)
  }

  predicate MakesOther(n: Net, e: Event, p: Name) { e.PeerSeen? && e.rd.from != p && Makes(n, e, e.rd.from) }

  lemma StepRHost(n: Net, e: Event, p: Name)
    requires p != ""
    ensures Next(n, e).rHost == p <==> Makes(n, e, p) || (n.rHost == p && !Unmakes(e, p) && !MakesOther(n, e, p))
  {
  }

  /** In every run, a peer is the r-host exactly when it was made so at some step, or was it at the start, and stayed it. */
  lemma {:induction false} RHostInRun(n: Net, events: seq<Event>, p: Name)
    requires p != ""
    ensures Run(n, events).rHost == p
       <==> (n.rHost == p && StaysRHost(n, events, 0, p))
            || exists k :: 0 <= k < |events| && Makes(Run(n, events[..k]), events[k], p) && StaysRHost(n, events, k + 1, p)
    decreases |events|
  {
    hide Run, Next, Makes, Unmakes, MakesOther;
    if events == [] {
      NoEvents(n);
    } else {
      var m := |events| - 1;
      var before, e := events[..m], events[m];
      assert events == before + [e];
      RunSnoc(n, before, e);
      RHostInRun(n, before, p);
      StepRHost(Run(n, before), e, p);
      forall j | 0 <= j < m
        ensures before[..j] == events[..j] && before[j] == events[j]
      {
      }
      forall k: nat | k <= m
        ensures StaysRHost(n, events, k, p)
           <==> StaysRHost(n, before, k, p) && !Unmakes(e, p) && !MakesOther(Run(n, before), e, p)
      {
        StaysSnoc(n, before, e, k, p);
      }
      assert StaysRHost(n, events, m + 1, p);
      if k :| 0 <= k < m && Makes(Run(n, before[..k]), before[k], p) && StaysRHost(n, before, k + 1, p) {
        assert Makes(Run(n, events[..k]), events[k], p);
      }
      if k :| 0 <= k < |events| && Makes(Run(n, events[..k]), events[k], p) && StaysRHost(n, events, k + 1, p) {
        assert k < m ==> Makes(Run(n, before[..k]), before[k], p);
      }
    }
  }

  lemma StaysSnoc(n: Net, before: seq<Event>, e: Event, k: nat, p: Name)
    requires k <= |before|
    ensures StaysRHost(n, before + [e], k, p)
       <==> StaysRHost(n, before, k, p) && !Unmakes(e, p) && !MakesOther(Run(n, before), e, p)
  {
    hide Run, Unmakes, MakesOther;
    var all, m := before + [e], |before|;
    assert all[m] == e && all[..m] == before;
    assert forall j :: 0 <= j < m ==> all[j] == before[j] && all[..j] == before[..j];
  }

  /** What the removal of a dead peer sends: the goodbye, and the request to the r-host if one is due. */
  lemma RemovalSays(n: Net, peer: Name)
    ensures Removed(n, peer).sent
         == n.sent + [Bye(peer)]
            + if n.rHost != "" && n.rHost in n.arp && n.rHost != peer && peer !in n.requests then [Reconnect(n.rHost, peer)] else []
  {
  }

  /** A disconnect leaves a pending request exactly when there was one, or an r-host other than the sender to ask. */
  lemma DisconnectAsks(n: Net, from: Name, data: Name)
    ensures var peer := if data != "" then data else from;
            var n' := Disconnected(n, from, data);
            && peer !in n'.arp && (forall p :: p in n.arp && p != peer ==> p in n'.arp && n'.arp[p] == n.arp[p])
            && (peer in n'.requests <==> peer in n.requests || (HasRHost(n) && from != n.rHost))
            && n'.disconnected == n.disconnected + [from]
  {
  }

  /**
   * A peer that is lost while an r-host is connected is followed up: after any further run it
   * is still being reconnected, unless its request was ended at some step since.
   */
  lemma LostPeerIsFollowedUp(n: Net, from: Name, data: Name, events: seq<Event>)
    requires Valid(n) && HasRHost(n) && from != n.rHost
    ensures var peer := if data != "" then data else from;
            var lost := Disconnected(n, from, data);
            || peer in Run(lost, events).requests
            || exists k :: 0 <= k < |events| && Ends(Run(lost, events[..k]), events[k], peer)
  {
    hide Run, Ends, HasRHost;
    var peer := if data != "" then data else from;
    DisconnectAsks(n, from, data);
    StepKeepsValid(n, PeerDisconnected(from, data));
    var lost := Disconnected(n, from, data);
    if peer !in Run(lost, events).requests {
      RequestEndsInRun(lost, events, peer);
    }
  }

  /**
   * The dialogue of a peer with its r-host. If the r-host does not know the other peer, its
   * one answer ends the request; if it does, exactly these two are told of each other.
   */
  lemma ReconnectDialogue(n: Net, rHost: Net, rd: Packet, peer: Name)
    requires Valid(n) && peer in n.requests && rd.from in rHost.arp && rd.from != peer
    ensures var told := AskedToReconnect(rHost, rd, peer);
            && told == rHost.(sent := told.sent)
            && if peer in rHost.arp then
                 told.sent == rHost.sent + [Connect(rd.from, peer, rHost.arp[peer].addr, rHost.arp[peer].port),
                                            Connect(peer, rd.from, rd.addr, rd.port)]
               else told.sent == rHost.sent + [Answer(rd.from, peer)]
                    && Next(n, AnswerArrives(peer)).requests == n.requests - {peer}
                    && Next(n, AnswerArrives(peer)).timers == n.timers - {n.requests[peer]}
  {
    if peer in rHost.arp {
      var c1 := Connect(rd.from, peer, rHost.arp[peer].addr, rHost.arp[peer].port);
      var c2 := Connect(peer, rd.from, rd.addr, rd.port);
      assert rHost.sent + [c1] + [c2] == rHost.sent + [c1, c2];
    }
  }

  /** How many CMD_RECONNECT were sent. */
  function Reconnects(sent: seq<Command>): nat {
    if sent == [] then 0 else Reconnects(sent[..|sent| - 1]) + if sent[|sent| - 1].Reconnect? then 1 else 0
  }

  lemma ReconnectsSnoc(sent: seq<Command>, c: Command)
    ensures Reconnects(sent + [c]) == Reconnects(sent) + if c.Reconnect? then 1 else 0
  {
    assert (sent + [c])[..|sent|] == sent;
  }

  lemma RequestCounts(n: Net, peer: Name)
    ensures var n' := Requested(n, peer).0; Reconnects(n'.sent) - Reconnects(n.sent) == n'.nextId - n.nextId
  {
    hide Reconnects;
    ReconnectsSnoc(n.sent, Reconnect(n.rHost, peer));
  }

  lemma StepCountsRequests(n: Net, e: Event)
    ensures Reconnects(Next(n, e).sent) - Reconnects(n.sent) == Next(n, e).nextId - n.nextId
  {
    hide Reconnects, Requested;
    match e
    case PeerSeen(_, _) =>
    case PeerDisconnected(from, data) => RequestCounts(n, if data != "" then data else from);
    case PeerDead(peer) =>
      ReconnectsSnoc(n.sent, Bye(peer));
      RequestCounts(n.(sent := n.sent + [Bye(peer)]), peer);
    case TimerFires(id) =>
      if id in n.timers {
        RequestCounts(n.(timers := n.timers - {id}, requests := n.requests - {n.timers[id]}), n.timers[id]);
      }
    case AnswerArrives(_) =>
    case RequestArrives(rd, peer) =>
      ReconnectsSnoc(n.sent, Answer(rd.from, peer));
      if peer in n.arp {
        var c1 := Connect(rd.from, peer, n.arp[peer].addr, n.arp[peer].port);
        var c2 := Connect(peer, rd.from, rd.addr, rd.port);
        ReconnectsSnoc(n.sent, c1);
        ReconnectsSnoc(n.sent, c2);
        ReconnectsSnoc(n.sent + [c1], c2);
      }
  }

  /** In every run each CMD_RECONNECT sent has a queue record of its own, and each record one command. */
  lemma {:induction false} RunCountsRequests(n: Net, events: seq<Event>)
    ensures Reconnects(Run(n, events).sent) - Reconnects(n.sent) == Run(n, events).nextId - n.nextId
    decreases |events|
  {
    if events != [] {
      StepCountsRequests(n, events[0]);
      RunCountsRequests(Next(n, events[0]), events[1..]);
    }
  }

  /** The answer of `ksnReconnectSend` tells whether a command went out, with a record under a fresh id, and why not. */
  lemma RequestAnswer(n: Net, peer: Name)
    ensures var (n', result) := Requested(n, peer);
            && (result == 0 <==> n'.sent == n.sent + [Reconnect(n.rHost, peer)])
            && (result == 0 ==> peer !in n.requests && n'.requests == n.requests[peer := n.nextId] && n'.timers[n.nextId] == peer && n'.nextId > n.nextId)
            && (result != 0 ==> n' == n && (result == 1 <==> peer in n.requests && n.rHost != "" && n.rHost in n.arp) && (result == 1 || result == -1))
            && n'.arp == n.arp && n'.rHost == n.rHost
  {
  }

  /** Asking again while a request is pending changes nothing. */
  lemma SecondRequestIsNoOp(n: Net, peer: Name)
    requires peer in n.requests || Requested(n, peer).1 == 0
    ensures var asked := if peer in n.requests then n else Requested(n, peer).0;
            Requested(asked, peer) == (asked, if HasRHost(asked) then 1 else -1)
  {
  }

  // ---- The sweep ----------------------------------------------------------------------------

  ghost function DeadPeers(n: Net, now: real): set<Name> {
    set p | p in n.arp && Dead(n, p, now)
  }

  /** A sequence of removals, each of a peer dead at that time. */
  ghost predicate IsSweep(n: Net, removed: seq<Name>, now: real)
    decreases |removed|
  {
    removed != [] ==> Dead(n, removed[0], now) && IsSweep(Removed(n, removed[0]), removed[1..], now)
  }

  ghost function Swept(n: Net, removed: seq<Name>): Net
    decreases |removed|
  {
    if removed == [] then n else Swept(Removed(n, removed[0]), removed[1..])
  }

  ghost predicate Distinct(s: seq<Name>) {
    forall i, j :: 0 <= i < j < |s| ==> s[i] != s[j]
  }

  /** The names in a sequence of removals. */
  ghost function Names(removed: seq<Name>): set<Name> { set p | p in removed }

  lemma RemovedLeavesFewer(n: Net, peer: Name, now: real)
    requires Dead(n, peer, now)
    ensures DeadPeers(Removed(n, peer), now) == DeadPeers(n, now) - {peer} && peer in DeadPeers(n, now)
  {
  }

  /** Removals take exactly the named entries out of the table and report each of them. */
  lemma {:induction false} SweptState(n: Net, removed: seq<Name>)
    ensures Swept(n, removed).arp == n.arp - Names(removed)
    ensures Swept(n, removed).disconnected == n.disconnected + removed
    decreases |removed|
  {
    if removed == [] {
      assert n.arp - Names(removed) == n.arp;
    } else {
      var first, n' := removed[0], Removed(n, removed[0]);
      assert n'.arp == n.arp - {first} && n'.disconnected == n.disconnected + [first];
      SweptState(n', removed[1..]);
      assert removed == [first] + removed[1..];
      assert Names(removed) == {first} + Names(removed[1..]);
      assert n.arp - {first} - Names(removed[1..]) == n.arp - Names(removed);
      assert n.disconnected + [first] + removed[1..] == n.disconnected + removed;
    }
  }

  /** No peer is removed twice, and only dead ones are. */
  lemma {:induction false} SweepIsOfDead(n: Net, removed: seq<Name>, now: real)
    requires IsSweep(n, removed, now)
    ensures Distinct(removed) && Names(removed) <= DeadPeers(n, now)
    decreases |removed|
  {
    hide Dead, Removed, DeadPeers;
    if removed != [] {
      RemovedLeavesFewer(n, removed[0], now);
      SweepIsOfDead(Removed(n, removed[0]), removed[1..], now);
      assert removed == [removed[0]] + removed[1..];
      assert Names(removed) == {removed[0]} + Names(removed[1..]);
      assert removed[0] !in Names(removed[1..]);
    }
  }

  lemma {:induction false} DistinctSize(s: seq<Name>)
    requires Distinct(s)
    ensures |Names(s)| == |s|
  {
    if s != [] {
      DistinctSize(s[1..]);
      assert Names(s) == {s[0]} + Names(s[1..]);
    }
  }

  lemma NothingSwept(n: Net, now: real)
    ensures IsSweep(n, [], now) && Swept(n, []) == n
  {
  }

  /**
   * A completed sweep, in any order, leaves exactly this host and the peers heard from in
   * time, reports every dead peer once, and takes as many removals as there were dead peers.
   */
  lemma CompleteSweep(n: Net, removed: seq<Name>, now: real)
    requires IsSweep(n, removed, now) && DeadPeers(Swept(n, removed), now) == {}
    ensures Swept(n, removed).arp == map p | p in n.arp && !Dead(n, p, now) :: n.arp[p]
    ensures Swept(n, removed).disconnected == n.disconnected + removed
    ensures Distinct(removed) && Names(removed) == DeadPeers(n, now)
    ensures |removed| == |DeadPeers(n, now)| <= |n.arp|
  {
    hide Swept, IsSweep, DeadPeers, Dead;
    var dead := DeadPeers(n, now);
    SweptState(n, removed);
    SweepIsOfDead(n, removed, now);
    DeadWithout(n, Swept(n, removed), Names(removed), now);
    SameSet(Names(removed), dead);
    AliveArp(n, now);
    DistinctSize(removed);
    SubsetSize(dead, n.arp.Keys);
  }

  lemma SameSet<T>(a: set<T>, b: set<T>)
    requires a <= b && b - a == {}
    ensures a == b
  {
    forall x | x in b
      ensures x in a
    {
      assert x !in b - a;
    }
  }

  lemma DeadWithout(n: Net, n': Net, gone: set<Name>, now: real)
    requires n'.arp == n.arp - gone
    ensures DeadPeers(n', now) == DeadPeers(n, now) - gone
  {
  }

  lemma AliveArp(n: Net, now: real)
    ensures n.arp - DeadPeers(n, now) == map p | p in n.arp && !Dead(n, p, now) :: n.arp[p]
    ensures DeadPeers(n, now) <= n.arp.Keys
  {
  }

  lemma {:induction false} SubsetSize<T>(a: set<T>, b: set<T>)
    requires a <= b
    ensures |a| <= |b|
  {
    if a != {} {
      var x :| x in a;
      SubsetSize(a - {x}, b - {x});
    }
  }

  lemma {:induction false} SweepSnoc(n: Net, removed: seq<Name>, peer: Name, now: real)
    requires IsSweep(n, removed, now) && Dead(Swept(n, removed), peer, now)
    ensures IsSweep(n, removed + [peer], now)
    ensures Swept(n, removed + [peer]) == Removed(Swept(n, removed), peer)
    decreases |removed|
  {
    if removed == [] {
      assert removed + [peer] == [peer];
      assert [peer][1..] == [];
    } else {
      assert (removed + [peer])[1..] == removed[1..] + [peer];
      SweepSnoc(Removed(n, removed[0]), removed[1..], peer, now);
    }
  }

  lemma {:induction false} SweepKeepsValid(n: Net, removed: seq<Name>)
    requires Valid(n)
    ensures Valid(Swept(n, removed))
    decreases |removed|
  {
    if removed != [] {
      StepKeepsValid(n, PeerDead(removed[0]));
      SweepKeepsValid(Removed(n, removed[0]), removed[1..]);
    }
  }

  // ---- The event manager with its state updated in place ------------------------------------

  class Mesh {
    var arp: map<Name, Arp>
    var rHost: Name
    var rAddr: Name
    const rPort: int
    var requests: map<Name, Id>
    var timers: map<Id, Name>
    var nextId: Id
    var sent: seq<Command>
    var disconnected: seq<Name>

    ghost function View(): Net
      reads this
    {
      Net(arp, rHost, rAddr, rPort, requests, timers, nextId, sent, disconnected)
    }

    constructor (host: Name, addr: Name, port: int, rAddr: Name, rPort: int)
      ensures View() == Net(map[host := Arp(-1, 0.0, addr, port)], "", rAddr, rPort, map[], map[], 0, [], []) && Valid(View())
    {
      arp, rHost := map[host := Arp(-1, 0.0, addr, port)], "";
      this.rAddr, this.rPort := rAddr, rPort;
      requests, timers, nextId := map[], map[], 0;
      sent, disconnected := [], [];
    }

    /** `ksnReconnectSend`. */
    method ReconnectSend(peer: Name) returns (result: int)
      modifies this
      ensures (View(), result) == Requested(old(View()), peer)
    {
      result := 0;
      if rHost != "" && rHost in arp {
        if peer !in requests {
          sent := sent + [Reconnect(rHost, peer)];
          var id := nextId;
          nextId := nextId + 1;
          requests := requests[peer := id];
          timers := timers[id := peer];
        } else {
          result := 1;
        }
      } else {
        result := -1;
      }
    }

    /** The callback queue fires record `id` and drops it; `ksnReconnectCQueCallback` runs. */
    method CQueCallback(id: Id, timeout: bool)
      requires id in timers
      modifies this
      ensures View() == Fired(old(View()), id, timeout)
    {
      var peer := timers[id];
      timers := timers - {id};
      requests := requests - {peer};
      if timeout && peer !in arp {
        var _ := ReconnectSend(peer);
      }
    }

    /** `ksnReconnectProcessAnswer`. */
    method ProcessAnswer(peer: Name)
      requires Valid(View())
      modifies this
      ensures View() == Answered(old(View()), peer) && Valid(View())
    {
      FireIfPending(View(), peer);
      if peer in requests {
        CQueCallback(requests[peer], false);
      }
    }

    method SendCmdto(c: Command)
      modifies this`sent
      ensures View() == Told(old(View()), c)
    {
      if c.to in arp {
        sent := sent + [c];
      }
    }

    /** `ksnReconnectProcess`, with `send_cmd_connected_cb`. */
    method ReconnectProcess(rd: Packet, peer: Name)
      modifies this`sent
      ensures View() == AskedToReconnect(old(View()), rd, peer)
    {
      if peer !in arp {
        SendCmdto(Answer(rd.from, peer));
      } else if peer != rd.from {
        SendCmdto(Connect(rd.from, peer, arp[peer].addr, arp[peer].port));
        SendCmdto(Connect(peer, rd.from, rd.addr, rd.port));
      }
    }

    /** `cmd_disconnected_cb`. */
    method CmdDisconnected(from: Name, data: Name)
      modifies this
      ensures View() == Disconnected(old(View()), from, data)
    {
      var peer := from;
      if data != "" {
        peer := data;
      }
      var isRHost := rHost != "" && rHost == from;
      if isRHost {
        rHost := "";
      }
      if !isRHost {
        var _ := ReconnectSend(peer);
      }
      disconnected := disconnected + [from];
      arp := arp - {peer};
    }

    /** `ksnCoreCheckNewPeer` and the update of the last activity behind it. */
    method CheckNewPeer(rd: Packet, now: real)
      modifies this
      ensures View() == Seen(old(View()), rd, now)
    {
      if rd.from !in arp {
        var mode := 0;
        if rHost == "" && rPort == rd.port
           && (((rd.cmd == CMD_NONE || rd.cmd == CMD_HOST_INFO) && rd.dataLen == 2) || rAddr == rd.addr) {
          rHost := rd.from;
          rAddr := rd.addr;
          mode := 1;
        }
        arp := arp[rd.from := Arp(mode, 0.0, rd.addr, rd.port)];
      } else if rd.cmd == CMD_NONE && rd.dataLen == 2 {
        rHost := rd.from;
        arp := arp[rd.from := arp[rd.from].(mode := 1)];
      }
      arp := arp[rd.from := arp[rd.from].(lastActivity := now)];
    }

    /** `check_connected_cb`: true when the peer was dead and has been removed. */
    method CheckConnected(peer: Name, now: real) returns (removed: bool)
      requires peer in arp && arp[peer].mode >= 0
      modifies this
      ensures removed == Dead(old(View()), peer, now)
      ensures View() == if removed then Removed(old(View()), peer) else old(View())
    {
      removed := false;
      if now - arp[peer].lastActivity > DEAD_AFTER {
        sent := sent + [Bye(peer)];
        CmdDisconnected(peer, "");
        removed := true;
      }
    }

    /**
     * One run of `idle_activity_cb` over `ksnetArpGetAll`: entries in any order, up to the
     * first one removed. The watcher stops when none was.
     */
    method IdleActivity(now: real) returns (stopped: bool, ghost removed: Name)
      modifies this
      ensures stopped == (DeadPeers(old(View()), now) == {})
      ensures stopped ==> View() == old(View())
      ensures !stopped ==> Dead(old(View()), removed, now) && View() == Removed(old(View()), removed)
    {
      var rest := arp.Keys;
      removed := "";
      while rest != {}
        invariant rest <= arp.Keys && View() == old(View())
        invariant forall p :: p in arp && p !in rest ==> !Dead(View(), p, now)
        decreases |rest|
      {
        var peer :| peer in rest;
        rest := rest - {peer};
        if arp[peer].mode >= 0 {
          var gone := CheckConnected(peer, now);
          if gone {
            assert peer in DeadPeers(old(View()), now);
            return false, peer;
          }
        }
      }
      stopped := true;
    }

    /** The idle watcher at a fixed time: run after run until it stops itself. */
    method SweepUntilStopped(now: real) returns (runs: nat)
      requires Valid(View())
      modifies this
      ensures Valid(View())
      ensures arp == map p | p in old(arp) && !Dead(old(View()), p, now) :: old(arp)[p]
      ensures runs == |DeadPeers(old(View()), now)| + 1 <= |old(arp)| + 1
      ensures exists removed :: Distinct(removed) && Names(removed) == DeadPeers(old(View()), now)
                             && disconnected == old(disconnected) + removed
    {
      hide Swept, IsSweep, Removed;
      ghost var n := View();
      ghost var removed: seq<Name> := [];
      var stopped := false;
      runs := 0;
      NothingSwept(n, now);
      while !stopped
        invariant IsSweep(n, removed, now) && View() == Swept(n, removed)
        invariant stopped ==> DeadPeers(View(), now) == {}
        invariant runs == |removed| + if stopped then 1 else 0
        decreases |DeadPeers(View(), now)|, !stopped
      {
        ghost var before := View();
        ghost var peer;
        stopped, peer := IdleActivity(now);
        if !stopped {
          SweepSnoc(n, removed, peer, now);
          removed := removed + [peer];
          RemovedLeavesFewer(before, peer, now);
        }
        runs := runs + 1;
      }
      CompleteSweep(n, removed, now);
      SweepKeepsValid(n, removed);
    }
  }

  lemma FireIfPending(n: Net, peer: Name)
    requires Valid(n)
    ensures Valid(Answered(n, peer)) && (peer in n.requests ==> n.requests[peer] in n.timers)
  {
    StepKeepsValid(n, AnswerArrives(peer));
  }
}
