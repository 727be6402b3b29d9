/**
 Message IDs and the request window together: the counter's draws are what keeps the IDs in the window
 fresh, as long as keys are switched only when no request is waiting.
 */
module Requests {
  import opened Bytes
  import opened Window
  import WindowRuns
  import TaskManager
  import Ids = MessageIds

  /** The message-ID counter and the window of one session. */
  datatype Net = Net(ids: Ids.Ids, win: State)

  datatype Action =
    | Send(now: real)
    | Reply(id: nat, data: Bytes, now: real)
    | Tick(now: real, later: real)
    | Stop
    | Jump(expectedRecv: nat)
    | Rekey

  /** A send draws an ID and hands the request to the window under that ID; a rekey leaves the window as it is. */
  ghost function Step(n: Net, a: Action): Net
    requires n.win.Ranged()
  {
    match a
    case Send(now) => Net(Ids.Step(n.ids, Ids.Draw), Enqueue(n.win, n.ids.counter, now))
    case Reply(id, data, now) => n.(win := WindowRuns.Step(n.win, WindowRuns.DoRespond(id, data, now)))
    case Tick(now, later) => n.(win := WindowRuns.Step(n.win, WindowRuns.DoPass(now, later)))
    case Stop => n.(win := WindowRuns.Step(n.win, WindowRuns.DoCancel))
    case Jump(e) => n.(ids := Ids.Step(n.ids, Ids.Sync(e)))
    case Rekey => n.(ids := Ids.Step(n.ids, Ids.Rekey))
  }

  ghost predicate Idle(s: State) {
    forall u :: 0 <= u < |s.msgs| ==> !s.msgs[u].ch.Open?
  }

  /** No draw past the wrap, 32-bit jumps, no key switch while a request waits, and a loop that ends with `Stop`. */
  ghost predicate Allowed(n: Net, a: Action) {
    match a
    case Send(_) => !n.ids.wrapped
    case Reply(_, _, _) => true
    case Tick(_, _) => !n.win.cancelled
    case Stop => !n.win.cancelled
    case Jump(e) => e < U32_SIZE
    case Rekey => Idle(n.win)
  }

  /** Every request that waits for an answer carries an ID drawn under the current keys. */
  ghost predicate Drawn(n: Net) {
    forall u :: 0 <= u < |n.win.msgs| && n.win.msgs[u].ch.Open? ==> (n.ids.epoch, n.win.msgs[u].msgId) in n.ids.issued
  }

  ghost predicate Good(n: Net): (b: bool)
    ensures b ==> n.win.Ranged()
  {
    Inv(n.win) && Ids.Ordered(n.ids) && Drawn(n)
  }

  /** A new session. */
  ghost function Start(window: int, cfg: Config): (n: Net)
    ensures Good(n)
  {
    Net(Ids.Ids(0, 0, false, []), Init(window, cfg))
  }

  /** The next ID to be drawn is neither in flight nor queued. */
  lemma NextIsFresh(n: Net)
    requires Good(n) && !n.ids.wrapped
    ensures n.win.Fresh(n.ids.counter)
  {
    var s, id := n.win, n.ids.counter;
    assert (n.ids.epoch, id) !in n.ids.issued;
    forall k | k in s.pending ensures k != id {
      assert s.InFlight(s.pending[k]) && s.msgs[s.pending[k]].msgId == k;
    }
    forall i | 0 <= i < |s.queue| ensures s.msgs[s.queue[i]].msgId != id {
      assert s.queue[i] in s.queue;
    }
  }

  lemma EnqueueKeeps(s: State, id: nat, now: real)
    ensures var t := Enqueue(s, id, now);
      && |t.msgs| == |s.msgs| + 1 && t.msgs[|s.msgs|].msgId == id
      && forall u :: 0 <= u < |s.msgs| ==> t.msgs[u] == s.msgs[u]
  {
  }

  lemma AnswerKeepsIds(s: State, id: nat, data: Bytes, now: real)
    requires s.Ranged()
    ensures var t := Respond(s, id, data, now);
      |t.msgs| == |s.msgs| && forall u :: 0 <= u < |s.msgs| ==> t.msgs[u].msgId == s.msgs[u].msgId
  {
    hide Pump;
    if id in s.pending {
      PumpKeepsIds(Answer(s, id, data), now);
    }
  }

  lemma SweepKeepsIds(s: State, now: real)
    requires s.Ranged()
    ensures forall u :: 0 <= u < |s.msgs| ==> Sweep(s, now).msgs[u].msgId == s.msgs[u].msgId
    ensures Sweep(s, now).Ranged()
  {
    hide Expire, Dead;
    forall u | 0 <= u < |s.msgs| ensures Sweep(s, now).msgs[u].msgId == s.msgs[u].msgId {
      ExpireKeepsId(s.cfg, s.msgs[u], now);
    }
  }

  lemma PassKeepsIds(s: State, now: real, later: real)
    requires s.Ranged()
    ensures var t := Pass(s, now, later);
      |t.msgs| == |s.msgs| && forall u :: 0 <= u < |s.msgs| ==> t.msgs[u].msgId == s.msgs[u].msgId
  {
    hide Expire, Dead, Pump;
    SweepKeepsIds(s, now);
    PumpKeepsIds(Sweep(s, now), later);
  }

  lemma CancelKeepsIds(s: State)
    requires s.Ranged()
    ensures |Cancel(s).msgs| == |s.msgs|
    ensures forall u :: 0 <= u < |s.msgs| ==> Cancel(s).msgs[u].msgId == s.msgs[u].msgId
  {
  }

  /** No window step but an enqueue adds a request, changes an ID, or reopens a resolved channel. */
  lemma WindowKeeps(s: State, a: WindowRuns.Action)
    requires Inv(s) && !a.DoEnqueue?
    ensures var t := WindowRuns.Step(s, a);
      && |t.msgs| == |s.msgs|
      && forall u :: 0 <= u < |s.msgs| ==>
           t.msgs[u].msgId == s.msgs[u].msgId && (t.msgs[u].ch.Open? ==> s.msgs[u].ch.Open?)
  {
    hide Inv, State.Ranged, Respond, Pass, Cancel;
    var t := WindowRuns.Step(s, a);
    match a {
      case DoRespond(id, data, now) => AnswerKeepsIds(s, id, data, now);
      case DoPass(now, later) => PassKeepsIds(s, now, later);
      case DoCancel => CancelKeepsIds(s);
    }
    forall u | 0 <= u < |s.msgs| && !s.msgs[u].ch.Open? ensures !t.msgs[u].ch.Open? {
      WindowRuns.StepKeepsClosed(s, a, u);
    }
  }

  lemma SendGood(n: Net, now: real)
    requires Good(n) && !n.ids.wrapped
    ensures Good(Step(n, Send(now)))
  {
    hide Inv, Enqueue;
    NextIsFresh(n);
    EnqueueInv(n.win, n.ids.counter, now);
    EnqueueKeeps(n.win, n.ids.counter, now);
    Ids.StepOrdered(n.ids, Ids.Draw);
    var t := Step(n, Send(now));
    assert t.ids.issued[|n.ids.issued|] == (n.ids.epoch, n.ids.counter);
    forall u | 0 <= u < |t.win.msgs| && t.win.msgs[u].ch.Open?
      ensures (t.ids.epoch, t.win.msgs[u].msgId) in t.ids.issued
    {
      assert u < |n.win.msgs| ==> t.win.msgs[u] == n.win.msgs[u];
    }
  }

  lemma WindowGood(n: Net, a: WindowRuns.Action)
    requires Good(n) && !a.DoEnqueue? && WindowRuns.Allowed(n.win, a)
    ensures Good(n.(win := WindowRuns.Step(n.win, a)))
  {
    hide Inv, WindowRuns.Step;
    WindowRuns.StepInv(n.win, a);
    WindowKeeps(n.win, a);
  }

  lemma StepGood(n: Net, a: Action)
    requires Good(n) && Allowed(n, a)
    ensures Good(Step(n, a))
  {
    hide Inv, WindowRuns.Step, Enqueue;
    match a
    case Send(now) => SendGood(n, now);
    case Reply(id, data, now) => WindowGood(n, WindowRuns.DoRespond(id, data, now));
    case Tick(now, later) => WindowGood(n, WindowRuns.DoPass(now, later));
    case Stop => WindowGood(n, WindowRuns.DoCancel);
    case Jump(e) => Ids.StepOrdered(n.ids, Ids.Sync(e));
    case Rekey => Ids.StepOrdered(n.ids, Ids.Rekey);
  }

  ghost predicate Legal(n: Net, run: seq<Action>)
    requires Good(n)
    decreases |run|
  {
    hide Good, Step;
    run != [] ==> Allowed(n, run[0]) && (StepGood(n, run[0]); Legal(Step(n, run[0]), run[1..]))
  }

  ghost function Run(n: Net, run: seq<Action>): (t: Net)
    requires Good(n) && Legal(n, run)
    ensures Good(t)
    decreases |run|
  {
    hide Good, Step;
    if run == [] then n else StepGood(n, run[0]); Run(Step(n, run[0]), run[1..])
  }

  /**
   After any run of sends, replies, timeout passes, sync jumps and quiet rekeys: the next send is fresh for the
   window, the window's invariant holds, no request is lost, and no (key epoch, ID) pair was drawn twice.
   */
  lemma SendsAreFresh(window: int, cfg: Config, run: seq<Action>)
    requires Legal(Start(window, cfg), run)
    ensures var t := Run(Start(window, cfg), run);
      && (!t.ids.wrapped ==> t.win.Fresh(t.ids.counter))
      && (forall u: nat :: !WindowRuns.Lost(t.win, u))
      && (forall i, j :: 0 <= i < j < |t.ids.issued| ==> t.ids.issued[i] != t.ids.issued[j])
  {
    hide Run, Legal, Step;
    var t := Run(Start(window, cfg), run);
    assert Good(t);
    if !t.ids.wrapped {
      NextIsFresh(t);
    }
  }

  // ---------- sends after a rekey ----------

  lemma SentFresh(s: State, id: nat, now: real, k: nat)
    requires s.Ranged() && |s.pending| < s.window
    ensures Enqueue(s, id, now).Ranged()
    ensures Enqueue(s, id, now).Fresh(k) <==> s.Fresh(k) && k != id
  {
    var t := Enqueue(s, id, now);
    EnqueueKeeps(s, id, now);
    assert t.pending == s.pending[id := |s.msgs|] && t.queue == s.queue;
  }

  lemma QueuedShape(s: State, id: nat, now: real)
    requires |s.pending| >= s.window
    ensures var t := Enqueue(s, id, now);
      t.pending == s.pending && t.queue == s.queue + [|s.msgs|] && |t.msgs| == |s.msgs| + 1
  {
  }

  lemma QueuedFresh(s: State, id: nat, now: real, k: nat)
    requires s.Ranged() && |s.pending| >= s.window
    ensures Enqueue(s, id, now).Ranged()
    ensures Enqueue(s, id, now).Fresh(k) <==> s.Fresh(k) && k != id
  {
    hide Enqueue;
    var t, n := Enqueue(s, id, now), |s.queue|;
    EnqueueKeeps(s, id, now);
    QueuedShape(s, id, now);
    assert t.queue[n] == |s.msgs|;
    assert forall i :: 0 <= i < n ==> t.queue[i] == s.queue[i];
  }

  /** An enqueue takes its own ID, and no other, from those that are neither in flight nor queued. */
  lemma EnqueueFresh(s: State, id: nat, now: real, k: nat)
    requires s.Ranged()
    ensures Enqueue(s, id, now).Ranged()
    ensures Enqueue(s, id, now).Fresh(k) <==> s.Fresh(k) && k != id
  {
    hide State.Ranged, State.Fresh, Enqueue;
    if |s.pending| < s.window {
      SentFresh(s, id, now, k);
    } else {
      QueuedFresh(s, id, now, k);
    }
  }

  /** Consecutive sends with nothing in between. */
  ghost function Sends(n: Net, times: seq<real>): (t: Net)
    requires n.win.Ranged()
    ensures t.win.Ranged()
    decreases |times|
  {
    hide State.Ranged, Enqueue;
    if times == [] then n
    else
      var t := Sends(n, times[..|times| - 1]);
      EnqueueFresh(t.win, t.ids.counter, times[|times| - 1], 0);
      Step(t, Send(times[|times| - 1]))
  }

  /** From a counter at zero, `|times|` sends take the IDs below `|times|`. */
  lemma {:induction false} SendsTake(n: Net, times: seq<real>, k: nat)
    requires n.win.Ranged() && n.ids.counter == 0 && |times| < U32_SIZE
    ensures Sends(n, times).ids.counter == |times|
    ensures Sends(n, times).win.Fresh(k) <==> n.win.Fresh(k) && k >= |times|
    decreases |times|
  {
    hide State.Ranged, State.Fresh, Enqueue;
    if times == [] {
    } else {
      var t := Sends(n, times[..|times| - 1]);
      SendsTake(n, times[..|times| - 1], k);
      EnqueueFresh(t.win, t.ids.counter, times[|times| - 1], k);
    }
  }

  /**
   A rekey restarts the counter but leaves the window alone: while nothing else happens, the ID drawn after
   `|times|` sends is fresh if and only if it was neither in flight nor queued when the keys were switched.
   */
  lemma RekeyKeepsExactly(n: Net, times: seq<real>)
    requires n.win.Ranged() && |times| < U32_SIZE
    ensures var t := Sends(Step(n, Rekey), times);
      t.ids.counter == |times| && (t.win.Fresh(|times|) <==> n.win.Fresh(|times|))
  {
    hide State.Ranged, State.Fresh, Sends, Enqueue, WindowRuns.Step;
    SendsTake(Step(n, Rekey), times, |times|);
  }

  /** So the sends after a rekey all stay fresh exactly while their number does not exceed the smallest waiting ID. */
  lemma FreshUntilSmallestWaiting(n: Net, times: seq<real>)
    requires n.win.Ranged() && |times| <= U32_SIZE
    ensures (forall k :: 0 <= k < |times| ==> Sends(Step(n, Rekey), times[..k]).win.Fresh(k))
       <==> (forall id: nat :: !n.win.Fresh(id) ==> id >= |times|)
  {
    hide State.Ranged, State.Fresh, Sends;
    forall k | 0 <= k < |times|
      ensures Sends(Step(n, Rekey), times[..k]).win.Fresh(k) <==> n.win.Fresh(k)
    {
      RekeyKeepsExactly(n, times[..k]);
    }
  }

  /**
   What a collision costs: the first send after the rekey loses an earlier request exactly
   when the window has room and ID 0 of the old keys is still in flight.
   */
  lemma SendAfterRekeyLosesExactly(n: Net, now: real)
    requires Good(n)
    ensures (exists u :: WindowRuns.Lost(Step(Step(n, Rekey), Send(now)).win, u))
       <==> |n.win.pending| < n.win.window && 0 in n.win.pending
  {
    hide Inv, Enqueue, WindowRuns.Lost;
    assert Step(Step(n, Rekey), Send(now)).win == Enqueue(n.win, 0, now);
    WindowRuns.LosesExactly(n.win, 0, now);
  }

  // ---------- sends among other traffic after a rekey ----------

  lemma CancelSound(s: State)
    requires TaskManager.Sound(s)
    ensures TaskManager.Sound(Cancel(s))
  {
  }

  /** In any state of the task manager, callers' IDs fresh or not, a step keeps what always holds. */
  lemma StepSound(n: Net, a: Action)
    requires TaskManager.Sound(n.win)
    ensures TaskManager.Sound(Step(n, a).win)
  {
    hide TaskManager.Sound, State.Ranged, Enqueue, Pump, Answer, Sweep, Cancel;
    match a
    case Send(now) => TaskManager.EnqueueSound(n.win, n.ids.counter, now);
    case Reply(id, data, now) =>
      if id in n.win.pending {
        TaskManager.AnswerSound(n.win, id, data);
        TaskManager.PumpSound(Answer(n.win, id, data), now);
      }
    case Tick(now, later) =>
      TaskManager.SweepSound(n.win, now);
      TaskManager.PumpSound(Sweep(n.win, now), later);
    case Stop => CancelSound(n.win);
    case Jump(_) =>
    case Rekey =>
  }

  /** Sends below the wrap, replies, timeout passes, cancellation and 32-bit jumps, with no further rekey. */
  ghost predicate Traffic(n: Net, run: seq<Action>)
    requires TaskManager.Sound(n.win)
    decreases |run|
  {
    hide TaskManager.Sound, Step;
    run != [] ==>
      && (run[0].Send? ==> !n.ids.wrapped)
      && (run[0].Jump? ==> run[0].expectedRecv < U32_SIZE)
      && !run[0].Rekey?
      && (StepSound(n, run[0]); Traffic(Step(n, run[0]), run[1..]))
  }

  ghost function After(n: Net, run: seq<Action>): (t: Net)
    requires TaskManager.Sound(n.win) && Traffic(n, run)
    ensures TaskManager.Sound(t.win)
    decreases |run|
  {
    hide TaskManager.Sound, Step;
    if run == [] then n else StepSound(n, run[0]); After(Step(n, run[0]), run[1..])
  }

  /** Old requests keep their IDs, and those sent since have IDs below the counter. */
  ghost predicate Since(before: seq<Message>, t: Net) {
    && |before| <= |t.win.msgs|
    && (forall u :: 0 <= u < |before| ==> t.win.msgs[u].msgId == before[u].msgId)
    && (forall u :: |before| <= u < |t.win.msgs| ==> t.win.msgs[u].msgId < t.ids.counter || t.ids.wrapped)
  }

  lemma StepSince(before: seq<Message>, n: Net, a: Action)
    requires TaskManager.Sound(n.win) && Since(before, n) && !a.Rekey? && n.ids.counter < U32_SIZE
    requires a.Jump? ==> a.expectedRecv < U32_SIZE
    ensures Since(before, Step(n, a)) && Step(n, a).ids.counter < U32_SIZE
  {
    hide TaskManager.Sound, State.Ranged, Enqueue, Respond, Pass, Cancel;
    match a
    case Send(now) => EnqueueKeeps(n.win, n.ids.counter, now);
    case Reply(id, data, now) => AnswerKeepsIds(n.win, id, data, now);
    case Tick(now, later) => PassKeepsIds(n.win, now, later);
    case Stop => CancelKeepsIds(n.win);
    case Jump(_) =>
  }

  lemma {:induction false} RunSince(before: seq<Message>, n: Net, run: seq<Action>)
    requires TaskManager.Sound(n.win) && Traffic(n, run) && Since(before, n) && n.ids.counter < U32_SIZE
    ensures Since(before, After(n, run))
    decreases |run|
  {
    hide TaskManager.Sound, Step, Since;
    if run == [] {
    } else {
      StepSound(n, run[0]);
      StepSince(before, n, run[0]);
      RunSince(before, Step(n, run[0]), run[1..]);
    }
  }

  /** A request that waits for an answer. */
  predicate Waits(s: State, u: nat)
    requires u < |s.msgs|
  {
    s.InFlight(u) || u in s.queue
  }

  /** An ID is fresh exactly when no waiting request has it. */
  lemma FreshByWaiting(s: State, id: nat)
    requires TaskManager.Sound(s)
    ensures s.Fresh(id) <==> forall u :: 0 <= u < |s.msgs| && s.msgs[u].msgId == id ==> !Waits(s, u)
  {
    if id in s.pending {
      assert Waits(s, s.pending[id]);
    }
    forall i | 0 <= i < |s.queue| ensures Waits(s, s.queue[i]) {
    }
  }

  /**
   After a rekey, with replies, timeout passes, jumps and further sends in any order: below the wrap the next ID
   is fresh if and only if no request that had this ID when the keys were switched is still waiting.
   */
  lemma FreshAfterRekeyExactly(n: Net, run: seq<Action>)
    requires TaskManager.Sound(n.win) && Traffic(Step(n, Rekey), run)
    requires !After(Step(n, Rekey), run).ids.wrapped
    ensures var t := After(Step(n, Rekey), run);
      && |n.win.msgs| <= |t.win.msgs|
      && (t.win.Fresh(t.ids.counter)
          <==> forall u :: 0 <= u < |n.win.msgs| && n.win.msgs[u].msgId == t.ids.counter ==> !Waits(t.win, u))
  {
    hide TaskManager.Sound, State.Ranged, State.Fresh, Waits, After, Traffic, Enqueue;
    var t := After(Step(n, Rekey), run);
    RunSince(n.win.msgs, Step(n, Rekey), run);
    FreshByWaiting(t.win, t.ids.counter);
  }
}
