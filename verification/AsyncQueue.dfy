/**
 * The cross-thread event queue of src/ev_mgr.c: any number of threads post with
 * `ksnetEvMgrAsync`, the event loop consumes in `sig_async_cb` and `idle_async_cb`.
 * Every step below is one action that other threads can observe: a locked list
 * operation, or a change of the wake-up signal or of the idle watcher. The signal is
 * libev's coalescing flag, cleared before its callback runs; the list is first-in first-out.
 */
module AsyncQueue {
  import opened Wrappers

  type Thread = nat

  datatype Event = Event(data: seq<int>, userData: int)

  /** Where a thread stands inside `ksnetEvMgrAsync`. */
  datatype Poster =
    | Prepared(e: Event)  // element built, not yet in the list
    | Added               // element in the list, signal not yet sent

  /** Where the event loop stands. */
  datatype Loop =
    | Waiting                       // between callbacks
    | Checking                      // sig_async_cb, before the emptiness test
    | Deciding                      // list seen non-empty, before the idle test
    | Polling                       // idle watcher seen inactive, before the poll
    | Calling(e: Option<Event>)     // polled (None stands for NULL), before the user callback
    | StartingIdle                  // user callback done
    | Resending                     // idle_async_cb, watcher stopped, signal not yet sent

  datatype State = State(
    queue: seq<Event>,
    signal: bool,
    idle: bool,
    loop: Loop,
    posters: map<Thread, Poster>,
    posted: seq<Event>,              // history: events in the order the lock admitted them
    delivered: seq<Option<Event>>    // history: what the user callback was given
  )

  datatype Step =
    | Enter(t: Thread, e: Event)
    | Add(t: Thread)
    | Send(t: Thread)
    | Signalled
    | TestEmpty
    | TestIdle
    | Poll
    | CallUser
    | StartIdle
    | IdleRuns
    | Resend

  ghost predicate Init(s: State) {
    s == State([], false, false, Waiting, map[], [], [])
  }

  predicate Enabled(s: State, step: Step) {
    match step
    case Enter(t, _) => t !in s.posters
    case Add(t) => t in s.posters && s.posters[t].Prepared?
    case Send(t) => t in s.posters && s.posters[t].Added?
    case Signalled => s.loop.Waiting? && s.signal
    case TestEmpty => s.loop.Checking?
    case TestIdle => s.loop.Deciding?
    case Poll => s.loop.Polling?
    case CallUser => s.loop.Calling?
    case StartIdle => s.loop.StartingIdle?
    case IdleRuns => s.loop.Waiting? && s.idle
    case Resend => s.loop.Resending?
  }

  function Next(s: State, step: Step): State
    requires Enabled(s, step)
  {
    match step
    case Enter(t, e) => s.(posters := s.posters[t := Prepared(e)])
    case Add(t) =>
      var e := s.posters[t].e;
      s.(queue := s.queue + [e], posted := s.posted + [e], posters := s.posters[t := Added])
    case Send(t) => s.(signal := true, posters := s.posters - {t})
    case Signalled => s.(signal := false, loop := Checking)
    case TestEmpty => s.(loop := if s.queue == [] then Waiting else Deciding)
    case TestIdle => s.(loop := if s.idle then Waiting else Polling)
    case Poll =>
      if s.queue == [] then s.(loop := Calling(None))
      else s.(queue := s.queue[1..], loop := Calling(Some(s.queue[0])))
    case CallUser => s.(delivered := s.delivered + [s.loop.e], loop := StartingIdle)
    case StartIdle => s.(idle := true, loop := Waiting)
    case IdleRuns => s.(idle := false, loop := Resending)
    case Resend => s.(signal := true, loop := Waiting)
  }

  function Wrap(events: seq<Event>): seq<Option<Event>> {
    seq(|events|, i requires 0 <= i < |events| => Some(events[i]))
  }

  /** The event polled but not yet handed to the user callback. */
  function InFlight(s: State): seq<Option<Event>> {
    if s.loop.Calling? then [s.loop.e] else []
  }

  /** Someone has put an element in the list and still owes the signal for it. */
  ghost predicate SignalOwed(s: State) {
    exists t :: t in s.posters && s.posters[t] == Added
  }

  /** What every interleaving keeps. */
  ghost predicate Inv(s: State) {
    && Wrap(s.posted) == s.delivered + InFlight(s) + Wrap(s.queue)
    && (s.queue != [] ==> s.signal || s.idle || SignalOwed(s) || !s.loop.Waiting?)
    && (s.loop.Deciding? || s.loop.Polling? ==> s.queue != [])
    && (s.loop.Polling? || s.loop.Calling? || s.loop.StartingIdle? ==> !s.idle)
  }

  lemma AddKeepsInv(s: State, t: Thread)
    requires Inv(s) && Enabled(s, Add(t))
    ensures Inv(Next(s, Add(t)))
  {
    var e := s.posters[t].e;
    var s' := Next(s, Add(t));
    assert Wrap(s'.posted) == Wrap(s.posted) + [Some(e)];
    assert Wrap(s'.queue) == Wrap(s.queue) + [Some(e)];
    assert s'.posters[t] == Added;
  }

  lemma SendKeepsInv(s: State, t: Thread)
    requires Inv(s) && Enabled(s, Send(t))
    ensures Inv(Next(s, Send(t)))
  {
  }

  lemma PollKeepsInv(s: State)
    requires Inv(s) && Enabled(s, Poll)
    ensures Inv(Next(s, Poll)) && Next(s, Poll).loop == Calling(Some(s.queue[0]))
  {
    assert Wrap(s.queue) == [Some(s.queue[0])] + Wrap(s.queue[1..]);
  }

  lemma StepKeepsInv(s: State, step: Step)
    requires Inv(s) && Enabled(s, step)
    ensures Inv(Next(s, step))
  {
    match step
    case Add(t) => AddKeepsInv(s, t);
    case Send(t) => SendKeepsInv(s, t);
    case Poll => PollKeepsInv(s);
    case Enter(t, e) =>
      if SignalOwed(s) {
        var u :| u in s.posters && s.posters[u] == Added;
        assert u in Next(s, step).posters && Next(s, step).posters[u] == Added;
      }
    case CallUser =>
      assert s.delivered + InFlight(s) == Next(s, step).delivered + InFlight(Next(s, step));
    case _ =>
      assert SignalOwed(s) ==> SignalOwed(Next(s, step));
  }

  /** `run` is an interleaving from `s`: each step is enabled where it is taken. */
  ghost predicate IsRun(s: State, run: seq<Step>)
    decreases |run|
  {
    run != [] ==> Enabled(s, run[0]) && IsRun(Next(s, run[0]), run[1..])
  }

  ghost function After(s: State, run: seq<Step>): State
    requires IsRun(s, run)
    decreases |run|
  {
    if run == [] then s else After(Next(s, run[0]), run[1..])
  }

  lemma {:induction false} RunKeepsInv(s: State, run: seq<Step>)
    requires Inv(s) && IsRun(s, run)
    ensures Inv(After(s, run))
    decreases |run|
  {
    if run != [] {
      StepKeepsInv(s, run[0]);
      RunKeepsInv(Next(s, run[0]), run[1..]);
    }
  }

  // ---- What was posted, read off the steps alone ------------------------------------------------

  /** What thread `t` passed in when it last entered `ksnetEvMgrAsync`. */
  function LastEntered(run: seq<Step>, t: Thread): Option<Event> {
    if run == [] then None
    else
      var n := |run| - 1;
      if run[n].Enter? && run[n].t == t then Some(run[n].e) else LastEntered(run[..n], t)
  }

  /** Who added what to the list, in lock order. */
  function Adds(run: seq<Step>): seq<(Thread, Event)> {
    if run == [] then []
    else
      var n := |run| - 1;
      var last := run[n];
      Adds(run[..n])
      + if last.Add? && LastEntered(run[..n], last.t).Some? then [(last.t, LastEntered(run[..n], last.t).value)] else []
  }

  function Events(adds: seq<(Thread, Event)>): seq<Event> { seq(|adds|, i requires 0 <= i < |adds| => adds[i].1) }

  /** The posts of a run: for each add the event its thread entered with. */
  function PostedIn(run: seq<Step>): seq<Event> { Events(Adds(run)) }

  /** Everything thread `t` entered with, in order. */
  function EnteredBy(run: seq<Step>, t: Thread): seq<Event> {
    if run == [] then []
    else
      var n := |run| - 1;
      EnteredBy(run[..n], t) + if run[n].Enter? && run[n].t == t then [run[n].e] else []
  }

  function OfThread(adds: seq<(Thread, Event)>, t: Thread): seq<Event> {
    if adds == [] then []
    else
      var n := |adds| - 1;
      OfThread(adds[..n], t) + if adds[n].0 == t then [adds[n].1] else []
  }

  lemma {:induction false} RunSnoc(s: State, run: seq<Step>, x: Step)
    ensures IsRun(s, run + [x]) <==> IsRun(s, run) && Enabled(After(s, run), x)
    ensures IsRun(s, run + [x]) ==> After(s, run + [x]) == Next(After(s, run), x)
    decreases |run|
  {
    hide Next, Enabled;
    var all := run + [x];
    if run == [] {
      assert all[1..] == [];
    } else {
      assert all[0] == run[0] && all[1..] == run[1..] + [x];
      if Enabled(s, run[0]) {
        RunSnoc(Next(s, run[0]), run[1..], x);
      }
    }
  }

  /** An event that a thread has prepared, and not yet added. */
  function Pending(s: State, t: Thread): seq<Event> {
    if t in s.posters && s.posters[t].Prepared? then [s.posters[t].e] else []
  }

  /** What the run says of thread `t` is what the state shows. */
  ghost predicate Traces(s: State, run: seq<Step>, t: Thread) {
    && (Pending(s, t) != [] ==> LastEntered(run, t) == Some(Pending(s, t)[0]))
    && EnteredBy(run, t) == OfThread(Adds(run), t) + Pending(s, t)
  }

  /** What was posted is what the threads passed in, and each thread's posts are its own in its own order. */
  lemma {:induction false} PostedHistory(s: State, run: seq<Step>)
    requires Init(s) && IsRun(s, run)
    ensures After(s, run).posted == PostedIn(run)
    ensures forall t :: Traces(After(s, run), run, t)
    decreases |run|
  {
    hide Next, Enabled, Traces;
    if run == [] {
      NothingYet(s);
    } else {
      var n := |run| - 1;
      var before, x := run[..n], run[n];
      assert run == before + [x];
      RunSnoc(s, before, x);
      PostedHistory(s, before);
      PostedStep(After(s, before), before, x);
      forall t
        ensures Traces(After(s, run), run, t)
      {
        ThreadStep(After(s, before), before, x, t);
      }
    }
  }

  lemma NothingYet(s: State)
    requires Init(s)
    ensures s.posted == PostedIn([]) && forall t :: Traces(s, [], t)
  {
  }

  /** The histories of a run, one step longer. */
  lemma Longer(before: seq<Step>, x: Step, t: Thread)
    ensures var run := before + [x];
            && LastEntered(run, t) == (if x.Enter? && x.t == t then Some(x.e) else LastEntered(before, t))
            && EnteredBy(run, t) == EnteredBy(before, t) + (if x.Enter? && x.t == t then [x.e] else [])
            && Adds(run) == Adds(before)
                 + if x.Add? && LastEntered(before, x.t).Some? then [(x.t, LastEntered(before, x.t).value)] else []
  {
    assert (before + [x])[..|before|] == before;
  }

  lemma OneMoreAdd(adds: seq<(Thread, Event)>, add: (Thread, Event), t: Thread)
    ensures OfThread(adds + [add], t) == OfThread(adds, t) + if add.0 == t then [add.1] else []
    ensures Events(adds + [add]) == Events(adds) + [add.1]
  {
    assert (adds + [add])[..|adds|] == adds;
  }

  lemma PostedStep(f: State, before: seq<Step>, x: Step)
    requires Enabled(f, x) && f.posted == PostedIn(before) && forall t :: Traces(f, before, t)
    ensures Next(f, x).posted == PostedIn(before + [x])
  {
    hide LastEntered, Adds, EnteredBy, OfThread, Events;
    Longer(before, x, 0);
    if x.Add? {
      assert Traces(f, before, x.t);
      OneMoreAdd(Adds(before), (x.t, f.posters[x.t].e), 0);
    } else {
      assert Adds(before) + [] == Adds(before);
    }
  }

  lemma ThreadStep(f: State, before: seq<Step>, x: Step, t: Thread)
    requires Enabled(f, x) && Traces(f, before, t) && (x.Add? ==> Traces(f, before, x.t))
    ensures Traces(Next(f, x), before + [x], t)
  {
    hide LastEntered, Adds, EnteredBy, OfThread, Events;
    Longer(before, x, t);
    if x.Add? {
      OneMoreAdd(Adds(before), (x.t, f.posters[x.t].e), t);
    } else {
      assert Adds(before) + [] == Adds(before);
    }
  }

  /**
   * First-in first-out, exactly once, nothing invented: what was delivered, then what is
   * being delivered, then what is queued, is exactly what the threads passed in, in the
   * order of their adds.
   */
  lemma FifoExactlyOnce(s: State, run: seq<Step>)
    requires Init(s) && IsRun(s, run)
    ensures var f := After(s, run);
            Wrap(PostedIn(run)) == f.delivered + InFlight(f) + Wrap(f.queue)
  {
    RunKeepsInv(s, run);
    PostedHistory(s, run);
  }

  /** The events of one thread are posted in the order it entered them; at most the last is still to come. */
  lemma ThreadOrder(s: State, run: seq<Step>, t: Thread)
    requires Init(s) && IsRun(s, run)
    ensures OfThread(Adds(run), t) <= EnteredBy(run, t)
    ensures |EnteredBy(run, t)| - |OfThread(Adds(run), t)| == |Pending(After(s, run), t)| <= 1
    ensures t !in After(s, run).posters ==> OfThread(Adds(run), t) == EnteredBy(run, t)
  {
    hide EnteredBy, OfThread, Adds;
    PostedHistory(s, run);
    assert Traces(After(s, run), run, t);
  }

  /** No lost wake-up: a waiting loop with a non-empty list will be woken. */
  lemma NoLostWakeUp(s: State, run: seq<Step>)
    requires Init(s) && IsRun(s, run)
    ensures var f := After(s, run);
            f.loop.Waiting? && f.queue != [] ==> f.signal || f.idle || SignalOwed(f)
  {
    RunKeepsInv(s, run);
  }

  /** After the emptiness test the poll finds an element: the user never sees an empty event. */
  lemma PollNeverEmpty(s: State, run: seq<Step>)
    requires Init(s) && IsRun(s, run)
    ensures var f := After(s, run);
            && (f.loop.Polling? ==> f.queue != [])
            && (f.loop.Calling? ==> f.loop.e.Some?)
            && forall i :: 0 <= i < |f.delivered| ==> f.delivered[i].Some?
  {
    RunKeepsInv(s, run);
    var f := After(s, run);
    var all := f.delivered + InFlight(f) + Wrap(f.queue);
    forall i | 0 <= i < |f.delivered| + |InFlight(f)|
      ensures all[i].Some?
    {
      assert all[i] == Wrap(f.posted)[i];
    }
    if f.loop.Calling? {
      assert all[|f.delivered|] == f.loop.e;
    }
    assert forall i :: 0 <= i < |f.delivered| ==> f.delivered[i] == all[i];
  }

  // ---- Draining --------------------------------------------------------------------------

  /** Nobody is inside `ksnetEvMgrAsync`. */
  ghost predicate NoPosters(s: State) { s.posters == map[] }

  /** A step of the event loop thread. */
  predicate LoopStep(step: Step) { !step.Enter? && !step.Add? && !step.Send? }

  /** How much work the loop can still do by itself. */
  function Work(s: State): nat {
    8 * |s.queue| + (if s.idle then 6 else 0) + (if s.signal then 4 else 0) +
    match s.loop
    case Waiting => 0
    case Checking => 3
    case Deciding => 2
    case Polling => 1
    case Calling(_) => 8
    case StartingIdle => 7
    case Resending => 5
  }

  lemma LoopStepsWork(s: State, step: Step)
    requires Inv(s) && Enabled(s, step) && LoopStep(step)
    ensures Work(Next(s, step)) < Work(s) && Next(s, step).posters == s.posters
    ensures Next(s, step).posted == s.posted
  {
  }

  /** The loop alone can only take a bounded number of steps. */
  lemma {:induction false} LoopRunBounded(s: State, run: seq<Step>)
    requires Inv(s) && IsRun(s, run) && forall step <- run :: LoopStep(step)
    ensures |run| <= Work(s) && After(s, run).posters == s.posters && After(s, run).posted == s.posted
    decreases |run|
  {
    if run != [] {
      LoopStepsWork(s, run[0]);
      StepKeepsInv(s, run[0]);
      LoopRunBounded(Next(s, run[0]), run[1..]);
    }
  }

  /** When the loop has nothing left to do, nothing is left in the list. */
  lemma StuckMeansDrained(s: State)
    requires Inv(s) && NoPosters(s)
    requires forall step :: LoopStep(step) ==> !Enabled(s, step)
    ensures s.queue == [] && s.delivered == Wrap(s.posted)
  {
    assert !Enabled(s, Signalled) && !Enabled(s, IdleRuns) && !Enabled(s, TestEmpty) && !Enabled(s, TestIdle);
    assert !Enabled(s, Poll) && !Enabled(s, CallUser) && !Enabled(s, StartIdle) && !Enabled(s, Resend);
    assert s.loop.Waiting?;
    assert s.delivered + InFlight(s) + Wrap(s.queue) == s.delivered;
  }

  /**
   * Complete drain: from any reachable state, once posting has stopped, every maximal run of
   * the loop is finite and ends with everything the threads passed in delivered once, in order.
   */
  lemma DrainsCompletely(s: State, run: seq<Step>, drain: seq<Step>)
    requires Init(s) && IsRun(s, run) && NoPosters(After(s, run))
    requires IsRun(After(s, run), drain) && forall step <- drain :: LoopStep(step)
    ensures var f := After(s, run);
            && |drain| <= Work(f)
            && ((forall step :: LoopStep(step) ==> !Enabled(After(f, drain), step))
                ==> After(f, drain).queue == [] && After(f, drain).delivered == Wrap(PostedIn(run)))
  {
    var f := After(s, run);
    RunKeepsInv(s, run);
    PostedHistory(s, run);
    LoopRunBounded(f, drain);
    RunKeepsInv(f, drain);
    if forall step :: LoopStep(step) ==> !Enabled(After(f, drain), step) {
      StuckMeansDrained(After(f, drain));
    }
  }
}
