/**
 * What a receiver makes of the fragments of one message when they arrive in any order, mixed
 * with fragments of other messages and senders, on top of any stale map contents.
 */
module Reassembly {
  import opened Bytes
  import opened Wrappers
  import opened NetCore
  import opened NetSplit

  /** A CMD_SPLIT packet handed to `ksnSplitCombine` at a given time. */
  datatype Arrival = Arrival(rd: PacketData, now: real)

  /** One message as its sender cut it. */
  datatype Message = Message(from: Name, number: u16, cmd: byte, data: seq<byte>) {
    ghost predicate Valid() { 2 <= Count(data) <= LAST_PACKET_FLAG }

    ghost function Key(i: nat): seq<byte>
      requires i < LAST_PACKET_FLAG
    {
      NetSplit.Key(from, number, i)
    }
  }

  /** `rd` carries the packet number and sender of `m`. */
  ghost predicate Ours(m: Message, rd: PacketData)
    requires |rd.data| >= 4
  {
    rd.from == m.from && PacketNumber(rd.data) == m.number
  }

  /** `rd` is fragment `i` of `m`. */
  ghost predicate IsFragment(m: Message, rd: PacketData, i: nat)
    requires m.Valid() && i < Count(m.data)
  {
    rd.from == m.from && rd.data == Body(m.cmd, m.data, m.number, i)
  }

  /** Reading a body back gives the header numbers it was built from. */
  lemma BodyFields(m: Message, i: nat)
    requires m.Valid() && i < Count(m.data)
    ensures var b := Body(m.cmd, m.data, m.number, i);
            && |b| >= 5 && PacketNumber(b) == m.number && SubNumber(b) == i
            && IsLast(b) == (i == Count(m.data) - 1) && b[4..] == Payload(m.cmd, m.data, i)
  {
    hide Flagged, Chunk, Count, PutLe16, GetLe16;
    var b := Body(m.cmd, m.data, m.number, i);
    var field := Flagged(ToU16(i), i == Count(m.data) - 1);
    ChunkLength(m.data, i);
    Le16RoundTrip(m.number);
    Le16RoundTrip(field);
    FlaggedField(i, i == Count(m.data) - 1);
    Le16Length(m.number);
    Le16Length(field);
    assert b == PutLe16(m.number) + PutLe16(field) + Payload(m.cmd, m.data, i);
    Le16Prefix(PutLe16(m.number), PutLe16(field) + Payload(m.cmd, m.data, i));
    assert b == PutLe16(m.number) + (PutLe16(field) + Payload(m.cmd, m.data, i));
    Le16Prefix(PutLe16(field), Payload(m.cmd, m.data, i));
    assert b[2..] == PutLe16(field) + Payload(m.cmd, m.data, i);
  }

  /**
   * The arrivals a run may hold: any well-formed fragment of another message, and any
   * fragment of `m` but the last-flagged one (repeats allowed).
   */
  ghost predicate Admissible(m: Message, a: Arrival)
    requires m.Valid()
  {
    && WellFormed(a.rd)
    && (Ours(m, a.rd) ==> exists i: nat :: i < Count(m.data) - 1 && IsFragment(m, a.rd, i))
  }

  ghost predicate AllWellFormed(run: seq<Arrival>) {
    forall k :: 0 <= k < |run| ==> WellFormed(run[k].rd)
  }

  ghost predicate AllAdmissible(m: Message, run: seq<Arrival>)
    requires m.Valid()
  {
    AllWellFormed(run) && forall k :: 0 <= k < |run| ==> Admissible(m, run[k])
  }

  /** No more than ten seconds between one add and the next. */
  ghost predicate Prompt(run: seq<Arrival>) {
    forall k :: 0 < k < |run| ==> run[k].now - run[k - 1].now <= FLUSH_AFTER
  }

  ghost function Receive(st: Fragments, run: seq<Arrival>): (st': Fragments)
    requires HasCommands(st.store) && AllWellFormed(run)
    ensures HasCommands(st'.store)
    ensures st'.lastAdded == if run == [] then st.lastAdded else run[|run| - 1].now
    decreases |run|
  {
    if run == [] then st
    else
      CombinedKeepsCommands(st, run[0].rd, run[0].now);
      CombinedTime(st, run[0]);
      Receive(Combined(st, run[0].rd, run[0].now).0, run[1..])
  }

  /** Fragment `i` of `m` is stored. */
  ghost predicate Stored(m: Message, store: Store, i: nat)
    requires m.Valid() && i < Count(m.data)
  {
    m.Key(i) in store && store[m.Key(i)] == Payload(m.cmd, m.data, i)
  }

  /** Exactly the fragments in `arrived` are stored for `m`, last-flagged one aside. */
  ghost predicate Holds(m: Message, store: Store, arrived: set<nat>)
    requires m.Valid()
  {
    && (forall i :: i in arrived ==> i < Count(m.data) - 1 && Stored(m, store, i))
    && (forall i: nat :: i < Count(m.data) && i !in arrived ==> m.Key(i) !in store)
  }

  /** Weaker: at least those, whatever else is there. */
  ghost predicate HoldsAtLeast(m: Message, store: Store, arrived: set<nat>)
    requires m.Valid()
  {
    forall i :: i in arrived ==> i < Count(m.data) - 1 && Stored(m, store, i)
  }

  /** A fragment of another message leaves every key of `m` as it was, or the flush takes it. */
  lemma ForeignArrival(m: Message, st: Fragments, a: Arrival, i: nat)
    requires m.Valid() && HasCommands(st.store) && WellFormed(a.rd) && !Ours(m, a.rd)
    requires i < Count(m.data)
    ensures SameOrFlushed(m, st, a, i)
  {
    hide NetSplit.Key, Rebuilt;
    var number, n := PacketNumber(a.rd.data), SubNumber(a.rd.data);
    KeyInjective(m.from, m.number, i, a.rd.from, number, n);
    forall k: nat | k <= n
      ensures m.Key(i) != NetSplit.Key(a.rd.from, number, k)
    {
      KeyInjective(m.from, m.number, i, a.rd.from, number, k);
    }
  }

  /** Fragment `i` of `m` is stored after the arrival just as before, or dropped by the flush. */
  ghost predicate SameOrFlushed(m: Message, st: Fragments, a: Arrival, i: nat)
    requires m.Valid() && HasCommands(st.store) && WellFormed(a.rd) && i < Count(m.data)
  {
    var store := Combined(st, a.rd, a.now).0.store;
    if a.now - st.lastAdded > FLUSH_AFTER then m.Key(i) !in store
    else
      && (m.Key(i) in store <==> m.Key(i) in st.store)
      && (m.Key(i) in store ==> store[m.Key(i)] == st.store[m.Key(i)])
  }

  /** A fragment of `m` is stored, and touches no other fragment of `m`. */
  lemma OwnArrival(m: Message, st: Fragments, a: Arrival, k: nat, i: nat)
    requires m.Valid() && HasCommands(st.store) && k < Count(m.data) - 1 && IsFragment(m, a.rd, k)
    requires WellFormed(a.rd) && i < Count(m.data)
    ensures Combined(st, a.rd, a.now).1.None?
    ensures Stored(m, Combined(st, a.rd, a.now).0.store, k)
    ensures i != k ==> SameOrFlushed(m, st, a, i)
  {
    hide NetSplit.Key, Body, Payload;
    BodyFields(m, k);
    KeyInjective(m.from, m.number, i, m.from, m.number, k);
  }

  /** The numbers of the fragments of `m` in a run, the last-flagged one aside. */
  ghost function Arrived(m: Message, run: seq<Arrival>): set<nat>
    requires m.Valid()
  {
    set i: nat | i < Count(m.data) - 1 && HasFragment(m, run, i)
  }

  ghost predicate HasFragment(m: Message, run: seq<Arrival>, i: nat)
    requires m.Valid() && i < Count(m.data)
  {
    exists k :: 0 <= k < |run| && IsFragment(m, run[k].rd, i)
  }

  lemma ArrivedStep(m: Message, run: seq<Arrival>)
    requires m.Valid() && run != []
    ensures Arrived(m, run) == Arrived(m, [run[0]]) + Arrived(m, run[1..])
  {
    hide IsFragment;
    forall i: nat | i < Count(m.data) - 1
      ensures HasFragment(m, run, i) <==> HasFragment(m, [run[0]], i) || HasFragment(m, run[1..], i)
    {
      if HasFragment(m, run, i) {
        var k :| 0 <= k < |run| && IsFragment(m, run[k].rd, i);
        if k == 0 {
          assert IsFragment(m, [run[0]][0].rd, i);
        } else {
          assert IsFragment(m, run[1..][k - 1].rd, i);
        }
      }
      if HasFragment(m, [run[0]], i) {
        assert IsFragment(m, run[0].rd, i);
      }
      if HasFragment(m, run[1..], i) {
        var k :| 0 <= k < |run| - 1 && IsFragment(m, run[1..][k].rd, i);
        assert IsFragment(m, run[k + 1].rd, i);
      }
    }
  }

  /** One arrival adds its own number, or nothing, to what is held. */
  lemma ArrivalHolds(m: Message, st: Fragments, a: Arrival, arrived: set<nat>)
    requires m.Valid() && HasCommands(st.store) && Admissible(m, a)
    requires arrived == {} || a.now - st.lastAdded <= FLUSH_AFTER
    ensures HoldsAtLeast(m, st.store, arrived)
        ==> HoldsAtLeast(m, Combined(st, a.rd, a.now).0.store, arrived + Arrived(m, [a]))
    ensures Holds(m, st.store, arrived)
        ==> Holds(m, Combined(st, a.rd, a.now).0.store, arrived + Arrived(m, [a]))
  {
    hide NetSplit.Key, Body, Payload, Combined, IsFragment;
    var store := Combined(st, a.rd, a.now).0.store;
    var arrived' := arrived + Arrived(m, [a]);
    if Ours(m, a.rd) {
      var k: nat :| k < Count(m.data) - 1 && IsFragment(m, a.rd, k);
      FragmentNumber(m, a, k);
      forall i: nat | i < Count(m.data)
        ensures i == k ==> Stored(m, Combined(st, a.rd, a.now).0.store, i)
        ensures i != k ==> SameOrFlushed(m, st, a, i)
      {
        OwnArrival(m, st, a, k, i);
      }
    } else {
      ForeignHasNoNumber(m, a);
      forall i: nat | i < Count(m.data)
        ensures SameOrFlushed(m, st, a, i)
      {
        ForeignArrival(m, st, a, i);
      }
    }
    assert forall i: nat :: i < Count(m.data) ==> Stored(m, store, i) || SameOrFlushed(m, st, a, i);
    if HoldsAtLeast(m, st.store, arrived) {
      forall i | i in arrived'
        ensures i < Count(m.data) - 1 && Stored(m, store, i)
      {
        if i in arrived {
          assert Stored(m, st.store, i);
        }
      }
    }
    if Holds(m, st.store, arrived) {
      assert HoldsAtLeast(m, st.store, arrived);
      forall i: nat | i < Count(m.data) && i !in arrived'
        ensures m.Key(i) !in store
      {
        assert SameOrFlushed(m, st, a, i);
      }
    }
  }

  lemma FragmentNumber(m: Message, a: Arrival, k: nat)
    requires m.Valid() && k < Count(m.data) - 1 && IsFragment(m, a.rd, k)
    ensures Arrived(m, [a]) == {k}
  {
    hide Body, Payload;
    BodyFields(m, k);
    forall i: nat | i < Count(m.data) - 1 && HasFragment(m, [a], i)
      ensures i == k
    {
      BodyFields(m, i);
    }
    assert IsFragment(m, [a][0].rd, k);
  }

  lemma ForeignHasNoNumber(m: Message, a: Arrival)
    requires m.Valid() && WellFormed(a.rd) && !Ours(m, a.rd)
    ensures Arrived(m, [a]) == {}
  {
    hide Body, Payload;
    forall i: nat | i < Count(m.data) - 1
      ensures !HasFragment(m, [a], i)
    {
      BodyFields(m, i);
    }
  }

  lemma CombinedTime(st: Fragments, a: Arrival)
    requires WellFormed(a.rd) && HasCommands(st.store)
    ensures Combined(st, a.rd, a.now).0.lastAdded == a.now
  {
    hide NetSplit.Key, Rebuilt;
  }

  /** What is held grows by what arrives; only the first arrival may come after a long silence. */
  lemma {:induction false} RunHolds(m: Message, st: Fragments, run: seq<Arrival>, arrived: set<nat>)
    requires m.Valid() && HasCommands(st.store) && AllAdmissible(m, run) && Prompt(run)
    requires arrived == {} || run == [] || run[0].now - st.lastAdded <= FLUSH_AFTER
    ensures HoldsAtLeast(m, st.store, arrived)
        ==> HoldsAtLeast(m, Receive(st, run).store, arrived + Arrived(m, run))
    ensures Holds(m, st.store, arrived)
        ==> Holds(m, Receive(st, run).store, arrived + Arrived(m, run))
    decreases |run|
  {
    hide NetSplit.Key, Body, Payload, Holds, HoldsAtLeast, Admissible, IsFragment, WellFormed, Combined;
    if run == [] {
      assert Arrived(m, run) == {};
      assert arrived + {} == arrived;
    } else {
      var a := run[0];
      ArrivedStep(m, run);
      ArrivalHolds(m, st, a, arrived);
      CombinedKeepsCommands(st, a.rd, a.now);
      CombinedTime(st, a);
      var st' := Combined(st, a.rd, a.now).0;
      RunHolds(m, st', run[1..], arrived + Arrived(m, [a]));
      assert arrived + Arrived(m, [a]) + Arrived(m, run[1..]) == arrived + Arrived(m, run);
    }
  }

  /** From the stored payloads the packet comes out as it went in. */
  lemma {:induction false} RebuiltIsJoined(m: Message, store: Store, n: nat)
    requires m.Valid() && n <= Count(m.data) && forall i: nat :: i < n ==> Stored(m, store, i)
    ensures forall i: nat :: i < n ==> NetSplit.Key(m.from, m.number, i) in store
    ensures n > 0 ==> |store[NetSplit.Key(m.from, m.number, 0)]| >= 2
    ensures Rebuilt(store, m.from, m.number, n) == JoinChunks(m.data, n)
  {
    hide NetSplit.Key, Chunk, Count;
    if n > 0 {
      assert Stored(m, store, n - 1) && Stored(m, store, 0);
      ChunkLength(m.data, 0);
      RebuiltIsJoined(m, store, n - 1);
      var s := store[m.Key(n - 1)];
      if n == 1 {
        assert s[..|s| - 1] == Chunk(m.data, 0);
        assert JoinChunks(m.data, 1) == JoinChunks(m.data, 0) + Chunk(m.data, 0);
      }
    }
  }

  /** What the map holds when a packet that arrives at `now` is added. */
  ghost function Kept(st: Fragments, now: real): Store { if now - st.lastAdded > FLUSH_AFTER then map[] else st.store }

  ghost function Whole(m: Message, source: Source): PacketData { PacketData(source, m.from, m.cmd, m.data) }

  /** What is stored under the keys of `m`, whatever it is, has the sizes of its fragments. */
  ghost predicate SameSizes(m: Message, store: Store)
    requires m.Valid()
  {
    forall i: nat :: i < Count(m.data) - 1 && m.Key(i) in store ==> |store[m.Key(i)]| == |Payload(m.cmd, m.data, i)|
  }

  /**
   * The arrival of the last-flagged fragment. It yields a packet exactly when something is
   * stored under every other key of the message; the packet is the one sent when those are
   * its own fragments, and, where stale ones have the same sizes, only then.
   */
  lemma LastArrival(m: Message, st: Fragments, last: Arrival)
    requires m.Valid() && HasCommands(st.store) && IsFragment(m, last.rd, Count(m.data) - 1)
    ensures WellFormed(last.rd)
    ensures var n, kept := Count(m.data), Kept(st, last.now);
            var (st', rds) := Combined(st, last.rd, last.now);
            var own := forall i: nat :: i < n - 1 ==> Stored(m, kept, i);
            && (rds.Some? <==> forall i: nat :: i < n - 1 ==> m.Key(i) in kept)
            && (rds.Some? ==> st'.store == kept - Keys(m.from, m.number, n))
            && (own ==> rds == Some(Whole(m, last.rd.source)))
            && (SameSizes(m, kept) && rds == Some(Whole(m, last.rd.source)) ==> own)
  {
    hide NetSplit.Key, Body, Payload, Rebuilt;
    var n, kept := Count(m.data), Kept(st, last.now);
    BodyFields(m, n - 1);
    AddKeepsCommands(st, last.rd, last.now);
    var added := AfterAdd(st, last.rd, last.now);
    forall i: nat | i < n - 1
      ensures m.Key(i) != m.Key(n - 1)
    {
      KeyInjective(m.from, m.number, i, m.from, m.number, n - 1);
    }
    if forall i: nat :: i < n - 1 ==> m.Key(i) in kept {
      KeysHold(m);
      assert forall i: nat :: i < n ==> m.Key(i) in added;
      assert added - Keys(m.from, m.number, n) == kept - Keys(m.from, m.number, n);
      LastCompletes(m, kept, added);
    } else {
      var i: nat :| i < n - 1 && m.Key(i) !in kept;
      assert m.Key(i) !in added && !Stored(m, kept, i);
    }
  }

  lemma KeysHold(m: Message)
    requires m.Valid()
    ensures m.Key(Count(m.data) - 1) in Keys(m.from, m.number, Count(m.data))
  {
    hide NetSplit.Key;
  }

  lemma LastCompletes(m: Message, before: Store, added: Store)
    requires m.Valid() && HasCommands(added) && forall i: nat :: i < Count(m.data) - 1 ==> m.Key(i) in before
    requires added == before[m.Key(Count(m.data) - 1) := Payload(m.cmd, m.data, Count(m.data) - 1)]
    requires forall i: nat :: i < Count(m.data) - 1 ==> m.Key(i) != m.Key(Count(m.data) - 1)
    ensures var n := Count(m.data);
            && (forall i: nat :: i < n ==> NetSplit.Key(m.from, m.number, i) in added)
            && var first, data := added[NetSplit.Key(m.from, m.number, 0)], Rebuilt(added, m.from, m.number, n);
            && ((forall i: nat :: i < n - 1 ==> Stored(m, before, i)) ==> first[|first| - 1] == m.cmd && data == m.data)
            && (SameSizes(m, before) && first[|first| - 1] == m.cmd && data == m.data
                ==> forall i: nat :: i < n - 1 ==> Stored(m, before, i))
  {
    hide NetSplit.Key, Payload;
    var n := Count(m.data);
    forall i: nat | i < n
      ensures NetSplit.Key(m.from, m.number, i) in added
      ensures added[m.Key(i)] == if i == n - 1 then Payload(m.cmd, m.data, i) else before[m.Key(i)]
    {
      assert i < n - 1 ==> m.Key(i) in before;
      assert NetSplit.Key(m.from, m.number, i) == m.Key(i);
    }
    assert added[m.Key(0)] != [];
    var first, data := added[NetSplit.Key(m.from, m.number, 0)], Rebuilt(added, m.from, m.number, n);
    ChunksCover(m.data);
    if forall i: nat :: i < n - 1 ==> Stored(m, before, i) {
      forall i: nat | i < n
        ensures Stored(m, added, i)
      {
        if i < n - 1 {
          assert Stored(m, before, i);
        }
      }
      RebuiltIsJoined(m, added, n);
      assert Stored(m, added, 0);
      FirstPayload(m);
    }
    if SameSizes(m, before) && first[|first| - 1] == m.cmd && data == m.data {
      assert forall i: nat :: i < n ==> |added[m.Key(i)]| == |Payload(m.cmd, m.data, i)|;
      RebuiltOnlyFrom(m, added, n);
      forall i: nat | i < n - 1
        ensures Stored(m, before, i)
      {
        assert Stored(m, added, i);
      }
    }
  }

  lemma FirstPayload(m: Message)
    requires m.Valid()
    ensures var p := Payload(m.cmd, m.data, 0); p == Chunk(m.data, 0) + [m.cmd] && p[|p| - 1] == m.cmd
  {
  }

  lemma NextPayload(m: Message, i: nat)
    requires m.Valid() && 0 < i < Count(m.data)
    ensures Payload(m.cmd, m.data, i) == Chunk(m.data, i)
  {
  }

  /** Fragments of the right sizes that join to the message are its own. */
  lemma {:induction false} RebuiltOnlyFrom(m: Message, store: Store, n: nat)
    requires m.Valid() && 0 < n <= Count(m.data) && forall i: nat :: i < n ==> NetSplit.Key(m.from, m.number, i) in store
    requires forall i: nat :: i < n ==> |store[NetSplit.Key(m.from, m.number, i)]| == |Payload(m.cmd, m.data, i)|
    requires var first := store[NetSplit.Key(m.from, m.number, 0)]; first != [] && first[|first| - 1] == m.cmd
    requires Rebuilt(store, m.from, m.number, n) == JoinChunks(m.data, n)
    ensures forall i: nat :: i < n ==> Stored(m, store, i)
  {
    hide NetSplit.Key, Chunk, Count, Payload;
    var s := store[m.Key(n - 1)];
    FirstPayload(m);
    if n == 1 {
      assert JoinChunks(m.data, 1) == [] + Chunk(m.data, 0);
      assert s == s[..|s| - 1] + [m.cmd];
    } else {
      NextPayload(m, n - 1);
      var r, j, c := Rebuilt(store, m.from, m.number, n - 1), JoinChunks(m.data, n - 1), Chunk(m.data, n - 1);
      assert r + s == j + c && |s| == |c|;
      assert r == (r + s)[..|r|] && s == (r + s)[|r|..] && j == (j + c)[..|j|] && c == (j + c)[|j|..];
      RebuiltOnlyFrom(m, store, n - 1);
      assert Stored(m, store, n - 1);
    }
  }

  /**
   * Reassembly. Whatever the map held, whatever else arrives in between and in whatever
   * order: when all other fragments have arrived, the last-flagged one yields the command
   * and bytes that were split, and removes exactly the keys of this message.
   */
  lemma Reassembled(m: Message, st: Fragments, run: seq<Arrival>, last: Arrival)
    requires m.Valid() && HasCommands(st.store) && AllAdmissible(m, run)
    requires IsFragment(m, last.rd, Count(m.data) - 1) && Prompt(run + [last])
    requires forall i: nat :: i < Count(m.data) - 1 ==> HasFragment(m, run, i)
    ensures WellFormed(last.rd)
    ensures var before := Receive(st, run);
            var (after, rds) := Combined(before, last.rd, last.now);
            && rds == Some(PacketData(last.rd.source, m.from, m.cmd, m.data))
            && after.store == before.store - Keys(m.from, m.number, Count(m.data))
  {
    hide NetSplit.Key, Body, Payload, Combined, IsFragment, Admissible, WellFormed;
    PromptPrefix(run, last);
    assert HoldsAtLeast(m, st.store, {});
    RunHolds(m, st, run, {});
    assert {} + Arrived(m, run) == Arrived(m, run);
    assert HasFragment(m, run, 0);
    var before := Receive(st, run);
    forall i: nat | i < Count(m.data) - 1
      ensures Stored(m, before.store, i)
    {
      assert i in Arrived(m, run);
    }
    LastArrival(m, before, last);
  }

  lemma PromptPrefix(run: seq<Arrival>, last: Arrival)
    requires Prompt(run + [last])
    ensures Prompt(run) && (run != [] ==> last.now - run[|run| - 1].now <= FLUSH_AFTER)
  {
    var all := run + [last];
    assert forall k :: 0 <= k < |run| ==> all[k] == run[k];
    assert run != [] ==> all[|run|].now - all[|run| - 1].now <= FLUSH_AFTER;
  }

  // ---- The exact condition ------------------------------------------------------------------

  /** A fragment of any message of this sender and packet number that is stored under key `i`. */
  ghost predicate Brings(m: Message, a: Arrival, i: nat) {
    WellFormed(a.rd) && Ours(m, a.rd) && SubNumber(a.rd.data) == i
  }

  /** No silence of more than ten seconds behind arrival `k`. */
  ghost predicate PromptFrom(run: seq<Arrival>, k: int) {
    forall j :: 0 <= k < j < |run| ==> run[j].now - run[j - 1].now <= FLUSH_AFTER
  }

  /**
   * Something is stored under key `i` when the last arrival of `all` is added: it came before
   * that, or it was there at the start, and since then there was no long silence and no
   * last-flagged fragment of this sender and packet number took it out.
   */
  ghost predicate Held(m: Message, st: Fragments, all: seq<Arrival>, i: nat)
    requires m.Valid() && all != [] && i < Count(m.data)
    decreases |all|, 2
  {
    || (exists k :: 0 <= k < |all| - 1 && Brings(m, all[k], i) && KeptFrom(m, st, all, k, i))
    || (m.Key(i) in st.store && all[0].now - st.lastAdded <= FLUSH_AFTER && KeptFrom(m, st, all, 0, i))
  }

  /** From arrival `k` on there is no long silence and none that takes key `i` out. */
  ghost predicate KeptFrom(m: Message, st: Fragments, all: seq<Arrival>, k: nat, i: nat)
    requires m.Valid() && all != [] && i < Count(m.data)
    decreases |all|, 1
  {
    PromptFrom(all, k) && forall j: nat :: k <= j < |all| - 1 ==> !Takes(m, st, all, j, i)
  }

  /**
   * Arrival `j` is last-flagged and takes out key `i`: it takes the keys up to its own number,
   * as far as they are all there.
   */
  ghost predicate Takes(m: Message, st: Fragments, all: seq<Arrival>, j: nat, i: nat)
    requires m.Valid() && j < |all| - 1 && i < Count(m.data)
    decreases |all|, 0
  {
    && WellFormed(all[j].rd) && Ours(m, all[j].rd) && IsLast(all[j].rd.data) && i <= SubNumber(all[j].rd.data)
    && forall h: nat :: h <= i ==> Brings(m, all[j], h) || Held(m, st, all[..j + 1], h)
  }

  /** Arrival `a` puts in its own key, touches no other, and may take keys out if it is last-flagged. */
  lemma ArrivalLeaves(m: Message, st: Fragments, a: Arrival, i: nat)
    requires m.Valid() && HasCommands(st.store) && WellFormed(a.rd) && i < Count(m.data)
    ensures m.Key(i) in Combined(st, a.rd, a.now).0.store
       <==> (Brings(m, a, i) || m.Key(i) in Kept(st, a.now))
            && !(Ours(m, a.rd) && IsLast(a.rd.data) && i <= SubNumber(a.rd.data)
                 && forall h: nat :: h <= i ==> Brings(m, a, h) || m.Key(h) in Kept(st, a.now))
  {
    hide NetSplit.Key, Rebuilt, GetLe16;
    if Ours(m, a.rd) {
      var sub := SubNumber(a.rd.data);
      var added := AfterAdd(st, a.rd, a.now);
      forall h: nat | h <= i
        ensures m.Key(h) in added <==> Brings(m, a, h) || m.Key(h) in Kept(st, a.now)
      {
        KeyInjective(m.from, m.number, h, m.from, m.number, sub);
      }
      if IsLast(a.rd.data) {
        TakenKeys(m, added, sub + 1, i);
      }
    } else {
      ForeignArrival(m, st, a, i);
    }
  }

  /** The run that is taken out goes up to the first gap. */
  lemma TakenKeys(m: Message, store: Store, n: nat, i: nat)
    requires m.Valid() && n <= LAST_PACKET_FLAG && i < Count(m.data)
    ensures m.Key(i) in Keys(m.from, m.number, Present(store, m.from, m.number, n))
       <==> i < n && forall h: nat :: h <= i ==> m.Key(h) in store
  {
    hide NetSplit.Key, Present;
    assert forall h: nat :: h <= i ==> m.Key(h) == NetSplit.Key(m.from, m.number, h);
    var j := Present(store, m.from, m.number, n);
    if m.Key(i) in Keys(m.from, m.number, j) {
      var k: nat :| k < j && m.Key(i) == NetSplit.Key(m.from, m.number, k);
      KeyInjective(m.from, m.number, i, m.from, m.number, k);
    }
  }

  lemma {:induction false} ReceiveSnoc(st: Fragments, run: seq<Arrival>, a: Arrival)
    requires HasCommands(st.store) && AllWellFormed(run) && WellFormed(a.rd)
    ensures AllWellFormed(run + [a])
    ensures Receive(st, run + [a]) == Combined(Receive(st, run), a.rd, a.now).0
    decreases |run|
  {
    hide WellFormed, Combined;
    if run == [] {
      assert run + [a] == [a];
      CombinedKeepsCommands(st, a.rd, a.now);
    } else {
      CombinedKeepsCommands(st, run[0].rd, run[0].now);
      assert (run + [a])[1..] == run[1..] + [a];
      assert (run + [a])[0] == run[0];
      ReceiveSnoc(Combined(st, run[0].rd, run[0].now).0, run[1..], a);
    }
  }

  /** What is stored is brought, flushed and taken out as `Held` says, over every run. */
  lemma {:induction false} HeldIsStored(m: Message, st: Fragments, run: seq<Arrival>, last: Arrival, i: nat)
    requires m.Valid() && HasCommands(st.store) && AllWellFormed(run) && i < Count(m.data)
    ensures m.Key(i) in Kept(Receive(st, run), last.now) <==> Held(m, st, run + [last], i)
    decreases |run|
  {
    hide NetSplit.Key, Combined, Brings, Held, Takes, WellFormed, Receive;
    var all := run + [last];
    if run == [] {
      FirstHeld(m, st, last, i);
      assert all == [last];
    } else {
      var n := |run| - 1;
      var before, a := run[..n], run[n];
      assert run == before + [a] && AllWellFormed(before);
      ReceiveSnoc(st, before, a);
      CombinedTime(Receive(st, before), a);
      ArrivalLeaves(m, Receive(st, before), a, i);
      forall h: nat | h <= i
        ensures m.Key(h) in Kept(Receive(st, before), a.now) <==> Held(m, st, run, h)
      {
        HeldIsStored(m, st, before, a, h);
      }
      assert all[..n + 1] == run && all[n] == a;
      TakesIs(m, st, all, n, i);
      HeldStep(m, st, all, i);
    }
  }

  lemma FirstHeld(m: Message, st: Fragments, last: Arrival, i: nat)
    requires m.Valid() && i < Count(m.data)
    ensures m.Key(i) in Kept(Receive(st, []), last.now) <==> Held(m, st, [last], i)
    requires HasCommands(st.store)
  {
    hide NetSplit.Key;
  }

  lemma TakesIs(m: Message, st: Fragments, all: seq<Arrival>, j: nat, i: nat)
    requires m.Valid() && j < |all| - 1 && i < Count(m.data)
    ensures Takes(m, st, all, j, i)
       <==> && WellFormed(all[j].rd) && Ours(m, all[j].rd) && IsLast(all[j].rd.data) && i <= SubNumber(all[j].rd.data)
            && forall h: nat :: h <= i ==> Brings(m, all[j], h) || Held(m, st, all[..j + 1], h)
  {
    hide Held, Brings, WellFormed;
  }

  /** `Held` one arrival at a time. */
  lemma HeldStep(m: Message, st: Fragments, all: seq<Arrival>, i: nat)
    requires m.Valid() && |all| > 1 && i < Count(m.data)
    ensures var n := |all| - 1;
            Held(m, st, all, i)
            <==> all[n].now - all[n - 1].now <= FLUSH_AFTER
                 && (Brings(m, all[n - 1], i) || Held(m, st, all[..n], i)) && !Takes(m, st, all, n - 1, i)
  {
    hide NetSplit.Key, Brings, Takes, KeptFrom;
    var n := |all| - 1;
    var less := all[..n];
    forall k: nat | k < n
      ensures KeptFrom(m, st, all, k, i)
         <==> KeptFrom(m, st, less, k, i) && all[n].now - all[n - 1].now <= FLUSH_AFTER && !Takes(m, st, all, n - 1, i)
    {
      KeptLess(m, st, all, k, i);
    }
    KeptLast(m, st, less, i);
    if Held(m, st, all, i) {
      if k :| 0 <= k < n && Brings(m, all[k], i) && KeptFrom(m, st, all, k, i) {
        assert k < n - 1 ==> Brings(m, less[k], i) && KeptFrom(m, st, less, k, i);
      }
    }
    if Held(m, st, less, i) {
      if k :| 0 <= k < n - 1 && Brings(m, less[k], i) && KeptFrom(m, st, less, k, i) {
        assert Brings(m, all[k], i);
      }
    }
  }

  lemma KeptLast(m: Message, st: Fragments, all: seq<Arrival>, i: nat)
    requires m.Valid() && all != [] && i < Count(m.data)
    ensures KeptFrom(m, st, all, |all| - 1, i)
  {
    hide Takes;
  }

  lemma KeptLess(m: Message, st: Fragments, all: seq<Arrival>, k: nat, i: nat)
    requires m.Valid() && i < Count(m.data) && k < |all| - 1
    ensures var n := |all| - 1;
            KeptFrom(m, st, all, k, i)
            <==> KeptFrom(m, st, all[..n], k, i) && all[n].now - all[n - 1].now <= FLUSH_AFTER && !Takes(m, st, all, n - 1, i)
  {
    hide Takes, PromptFrom;
    var n := |all| - 1;
    var less := all[..n];
    PromptLess(all, k);
    forall j: nat | j < n - 1
      ensures Takes(m, st, less, j, i) <==> Takes(m, st, all, j, i)
    {
      assert less[..j + 1] == all[..j + 1];
      TakesIs(m, st, less, j, i);
      TakesIs(m, st, all, j, i);
    }
  }

  lemma PromptLess(all: seq<Arrival>, k: nat)
    requires k < |all| - 1
    ensures var n := |all| - 1; PromptFrom(all, k) <==> PromptFrom(all[..n], k) && all[n].now - all[n - 1].now <= FLUSH_AFTER
  {
    var n := |all| - 1;
    assert forall j :: 0 <= j < n ==> all[..n][j] == all[j];
    if PromptFrom(all[..n], k) && all[n].now - all[n - 1].now <= FLUSH_AFTER {
      forall j | 0 <= k < j < |all|
        ensures all[j].now - all[j - 1].now <= FLUSH_AFTER
      {
        assert j < n ==> all[..n][j].now - all[..n][j - 1].now <= FLUSH_AFTER;
      }
    }
  }

  /** Every key of the message but the last one is held when the last arrival of `all` is added. */
  ghost predicate AllHeld(m: Message, st: Fragments, all: seq<Arrival>)
    requires m.Valid() && all != []
  {
    forall i: nat :: i < Count(m.data) - 1 ==> Held(m, st, all, i)
  }

  lemma AllHeldIsStored(m: Message, st: Fragments, run: seq<Arrival>, last: Arrival)
    requires m.Valid() && HasCommands(st.store) && AllWellFormed(run)
    ensures AllHeld(m, st, run + [last])
       <==> forall i: nat :: i < Count(m.data) - 1 ==> m.Key(i) in Kept(Receive(st, run), last.now)
  {
    hide NetSplit.Key, WellFormed, Kept, KeptFrom, Brings, Receive;
    var kept := Kept(Receive(st, run), last.now);
    if AllHeld(m, st, run + [last]) {
      forall i: nat | i < Count(m.data) - 1
        ensures m.Key(i) in kept
      {
        HeldIsStored(m, st, run, last, i);
      }
    }
    if forall i: nat :: i < Count(m.data) - 1 ==> m.Key(i) in kept {
      forall i: nat | i < Count(m.data) - 1
        ensures Held(m, st, run + [last], i)
      {
        HeldIsStored(m, st, run, last, i);
      }
    }
  }

  /**
   * The exact condition, on every map and every run: the last-flagged fragment yields a packet
   * if and only if every other key of the message is held by then. The packet is the one that
   * was sent when own fragments are held, and, where stale ones have the same sizes, only then.
   */
  lemma LastMustComeLast(m: Message, st: Fragments, run: seq<Arrival>, last: Arrival)
    requires m.Valid() && HasCommands(st.store) && AllWellFormed(run)
    requires IsFragment(m, last.rd, Count(m.data) - 1)
    ensures WellFormed(last.rd)
    ensures var n, before := Count(m.data), Receive(st, run);
            var rds := Combined(before, last.rd, last.now).1;
            var own := forall i: nat :: i < n - 1 ==> Stored(m, Kept(before, last.now), i);
            && (rds.Some? <==> AllHeld(m, st, run + [last]))
            && (own ==> rds == Some(Whole(m, last.rd.source)))
            && (SameSizes(m, Kept(before, last.now)) ==> (rds == Some(Whole(m, last.rd.source)) <==> own))
  {
    hide NetSplit.Key, Body, Payload, Combined, IsFragment, WellFormed, AllHeld, Stored, SameSizes, Kept, Whole;
    LastArrival(m, Receive(st, run), last);
    AllHeldIsStored(m, st, run, last);
  }

  /**
   * What goes wrong: the first fragment of a message of two is lost, while that of an earlier
   * one with the same packet number is still there. Their halves are joined.
   */
  lemma StaleCorrupts(m: Message, earlier: Message, st: Fragments, last: Arrival)
    requires m.Valid() && Count(m.data) == 2 && earlier.Valid() && earlier.from == m.from && earlier.number == m.number
    requires st.store == map[m.Key(0) := Payload(earlier.cmd, earlier.data, 0)]
    requires IsFragment(m, last.rd, 1) && last.now - st.lastAdded <= FLUSH_AFTER
    ensures HasCommands(st.store) && WellFormed(last.rd)
    ensures Combined(st, last.rd, last.now).1
         == Some(PacketData(last.rd.source, m.from, earlier.cmd, Chunk(earlier.data, 0) + Chunk(m.data, 1)))
    ensures Combined(st, last.rd, last.now).1 == Some(Whole(m, last.rd.source))
       <==> earlier.cmd == m.cmd && Chunk(earlier.data, 0) == Chunk(m.data, 0)
  {
    hide NetSplit.Key, Body, Payload, Chunk, Count;
    FirstPayload(earlier);
    ChunkLength(earlier.data, 0);
    ChunkLength(m.data, 0);
    OneHasCommand(st.store, earlier);
    BodyFields(m, 1);
    KeyInjective(m.from, m.number, 0, m.from, m.number, 1);
    NextPayload(m, 1);
    var added := AfterAdd(st, last.rd, last.now);
    AddKeepsCommands(st, last.rd, last.now);
    assert m.Key(0) in added && m.Key(1) in added;
    TwoRebuilt(m, earlier, added);
    ChunksCover(m.data);
    var a, b, c := Chunk(earlier.data, 0), Chunk(m.data, 0), Chunk(m.data, 1);
    assert JoinChunks(m.data, 1) == JoinChunks(m.data, 0) + b && JoinChunks(m.data, 0) == [];
    assert JoinChunks(m.data, 2) == JoinChunks(m.data, 1) + c;
    assert m.data == b + c && (a == b ==> a + c == b + c);
    assert a + c == b + c ==> a == (a + c)[..|a|] && b == (b + c)[..|b|] && |a| == |b|;
    assert Combined(st, last.rd, last.now).1 == Some(PacketData(last.rd.source, m.from, earlier.cmd, a + c));
    var got, sent := PacketData(last.rd.source, m.from, earlier.cmd, a + c), Whole(m, last.rd.source);
    assert got == sent <==> got.cmd == sent.cmd && got.data == sent.data;
  }

  /** Two such messages, of 449 bytes each. */
  lemma StaleExample()
    ensures var m, earlier := Message([0], 0, 9, seq(449, _ => 0)), Message([0], 0, 9, seq(449, _ => 1));
            m.Valid() && earlier.Valid() && Count(m.data) == 2 && Chunk(earlier.data, 0) != Chunk(m.data, 0)
  {
    var zeros: seq<byte>, ones: seq<byte> := seq(449, _ => 0), seq(449, _ => 1);
    assert Chunk(zeros, 0)[0] == 0 && Chunk(ones, 0)[0] == 1;
  }

  lemma OneHasCommand(store: Store, earlier: Message)
    requires earlier.Valid() && store == map[earlier.Key(0) := Payload(earlier.cmd, earlier.data, 0)]
    ensures HasCommands(store)
  {
    hide NetSplit.Key, Payload;
    FirstPayload(earlier);
  }

  lemma TwoRebuilt(m: Message, earlier: Message, added: Store)
    requires m.Valid() && earlier.Valid() && HasCommands(added)
    requires m.Key(0) in added && m.Key(1) in added
    requires added[m.Key(0)] == Chunk(earlier.data, 0) + [earlier.cmd]
    ensures Present(added, m.from, m.number, 2) == 2
    ensures forall i: nat :: i < 2 ==> NetSplit.Key(m.from, m.number, i) in added
    ensures Rebuilt(added, m.from, m.number, 2) == Chunk(earlier.data, 0) + added[m.Key(1)]
  {
    hide NetSplit.Key, Chunk, Count;
    var first := added[m.Key(0)];
    assert first[..|first| - 1] == Chunk(earlier.data, 0);
    assert Rebuilt(added, m.from, m.number, 1) == Chunk(earlier.data, 0);
  }
}
