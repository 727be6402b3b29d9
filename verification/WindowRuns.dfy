/** Whole runs of the request window: safety, resolution at most once, progress, and retransmission timing. */
module WindowRuns {
  import opened Bytes
  import opened Window

  datatype Action =
    | DoEnqueue(id: nat, now: real)
    | DoRespond(id: nat, data: Bytes, now: real)
    | DoPass(now: real, later: real)
    | DoCancel

  /** Enqueued IDs are fresh; the loop that runs passes and the cancellation branch ends with the latter. */
  ghost predicate Allowed(s: State, a: Action)
    requires s.Ranged()
  {
    match a
    case DoEnqueue(id, _) => s.Fresh(id)
    case DoRespond(_, _, _) => true
    case DoPass(_, _) => !s.cancelled
    case DoCancel => !s.cancelled
  }

  ghost function Step(s: State, a: Action): State
    requires s.Ranged()
  {
    match a
    case DoEnqueue(id, now) => Enqueue(s, id, now)
    case DoRespond(id, data, now) => Respond(s, id, data, now)
    case DoPass(now, later) => Pass(s, now, later)
    case DoCancel => Cancel(s)
  }

  lemma StepInv(s: State, a: Action)
    requires Inv(s) && Allowed(s, a)
    ensures Inv(Step(s, a))
  {
    hide Inv, Enqueue, Respond, Pass, Cancel;
    match a
    case DoEnqueue(id, now) => EnqueueInv(s, id, now);
    case DoRespond(id, data, now) => RespondInv(s, id, data, now);
    case DoPass(now, later) => PassInv(s, now, later);
    case DoCancel => CancelInv(s);
  }

  ghost predicate Legal(s: State, run: seq<Action>)
    requires Inv(s)
    decreases |run|
  {
    hide Inv, Step;
    run != [] ==> Allowed(s, run[0]) && (StepInv(s, run[0]); Legal(Step(s, run[0]), run[1..]))
  }

  /** The state after a run, with the invariant it keeps at every step. */
  ghost function Run(s: State, run: seq<Action>): (t: State)
    requires Inv(s) && Legal(s, run)
    ensures Inv(t)
    decreases |run|
  {
    hide Inv, Step;
    if run == [] then s else StepInv(s, run[0]); Run(Step(s, run[0]), run[1..])
  }

  function Count(b: bool): nat {
    if b then 1 else 0
  }

  /**
   In every state of every run: the window bound holds, each request is in exactly one of flight, queue
   and resolution, no channel operation ever faulted, and a waiting queue means something is in flight.
   */
  lemma RunSafety(window: int, cfg: Config, run: seq<Action>)
    requires Legal(Init(window, cfg), run)
    ensures var t := Run(Init(window, cfg), run);
      && |t.pending| <= t.window
      && (forall id :: id in t.pending ==> t.pending[id] < |t.msgs| && t.msgs[t.pending[id]].msgId == id)
      && (forall i, j :: 0 <= i < j < |t.queue| ==> t.queue[i] != t.queue[j])
      && (forall u :: 0 <= u < |t.msgs| ==>
            Count(t.InFlight(u)) + Count(u in t.queue) + Count(!t.msgs[u].ch.Open?) == 1 && !t.msgs[u].ch.Fault?)
      && (t.queue != [] ==> |t.pending| > 0)
  {
    var t := Run(Init(window, cfg), run);
    assert Inv(t);
    forall u | 0 <= u < |t.msgs|
      ensures Count(t.InFlight(u)) + Count(u in t.queue) + Count(!t.msgs[u].ch.Open?) == 1
    {
      assert t.InFlight(u) && u in t.queue ==> false;
    }
  }

  // ---------- freshness is exactly what the invariant needs ----------

  /** A request nobody will ever resolve: still open, but neither in flight nor queued. */
  ghost predicate Lost(s: State, u: nat) {
    u < |s.msgs| && s.msgs[u].ch.Open? && !s.InFlight(u) && u !in s.queue
  }

  lemma DuplicateBreaks(s: State, id: nat, now: real)
    requires Inv(s) && !s.Fresh(id)
    ensures !Inv(Enqueue(s, id, now))
  {
    var t := Enqueue(s, id, now);
    var u := |s.msgs|;
    assert t.msgs[u].msgId == id;
    if |s.pending| < s.window {
      if id in s.pending {
        var v := s.pending[id];
        assert s.InFlight(v) && t.msgs[v].ch.Open? && !t.InFlight(v) && v !in t.queue;
      } else {
        var i :| 0 <= i < |s.queue| && s.msgs[s.queue[i]].msgId == id;
        assert t.queue[i] == s.queue[i] && t.msgs[t.queue[i]].msgId in t.pending;
      }
    } else {
      assert t.queue[|s.queue|] == u;
      if id !in s.pending {
        var i :| 0 <= i < |s.queue| && s.msgs[s.queue[i]].msgId == id;
        assert t.queue[i] == s.queue[i];
      }
    }
  }

  /** Enqueueing keeps the invariant if and only if the ID is neither in flight nor queued. */
  lemma FreshnessExact(s: State, id: nat, now: real)
    requires Inv(s)
    ensures Inv(Enqueue(s, id, now)) <==> s.Fresh(id)
  {
    hide Inv, Enqueue;
    if s.Fresh(id) {
      EnqueueInv(s, id, now);
    } else {
      DuplicateBreaks(s, id, now);
    }
  }

  /** An enqueue loses an earlier request at once exactly when the window has room and its ID is in flight. */
  lemma LosesExactly(s: State, id: nat, now: real)
    requires Inv(s)
    ensures (exists u :: Lost(Enqueue(s, id, now), u)) <==> |s.pending| < s.window && id in s.pending
  {
    var t := Enqueue(s, id, now);
    if |s.pending| < s.window && id in s.pending {
      var v := s.pending[id];
      assert s.InFlight(v) && t.msgs[v] == s.msgs[v];
      assert Lost(t, v);
    } else {
      forall u: nat ensures !Lost(t, u) {
        if u < |s.msgs| {
          assert t.msgs[u] == s.msgs[u];
          assert s.InFlight(u) ==> t.InFlight(u);
          assert u in s.queue ==> u in t.queue;
        } else if u == |s.msgs| && |s.pending| >= s.window {
          assert t.queue[|s.queue|] == u;
        }
      }
    }
  }

  // ---------- a channel is resolved at most once ----------

  lemma PumpKeepsClosed(s: State, now: real, u: nat)
    requires Core(s) && u < |s.msgs| && !s.msgs[u].ch.Open?
    ensures u < |Pump(s, now).msgs| && Pump(s, now).msgs[u] == s.msgs[u]
  {
    if |s.queue| > 0 && |s.pending| < s.window {
      assert s.queue[0] in s.queue;
    }
  }

  lemma StepKeepsClosed(s: State, a: Action, u: nat)
    requires Inv(s) && u < |s.msgs| && !s.msgs[u].ch.Open?
    ensures u < |Step(s, a).msgs| && Step(s, a).msgs[u] == s.msgs[u]
  {
    hide Expire, Dead, Pump;
    match a
    case DoEnqueue(_, _) =>
    case DoRespond(id, data, now) =>
      if id in s.pending {
        assert s.InFlight(s.pending[id]);
        AnswerCore(s, id, data);
        PumpKeepsClosed(Answer(s, id, data), now, u);
      }
    case DoPass(now, later) =>
      SweepCore(s, now);
      PumpKeepsClosed(Sweep(s, now), later, u);
    case DoCancel =>
  }

  /** Once answered, timed out or cancelled, a request never changes again, whatever happens next. */
  lemma {:induction false} ResolvedOnce(s: State, run: seq<Action>, u: nat)
    requires Inv(s) && Legal(s, run) && u < |s.msgs| && !s.msgs[u].ch.Open?
    ensures u < |Run(s, run).msgs| && Run(s, run).msgs[u] == s.msgs[u]
    decreases |run|
  {
    hide Inv, Step;
    if run == [] {
    } else {
      StepInv(s, run[0]);
      StepKeepsClosed(s, run[0], u);
      ResolvedOnce(Step(s, run[0]), run[1..], u);
    }
  }

  /** An answer reaches the request registered under its ID, and no other channel. */
  lemma AnswerDelivers(s: State, id: nat, data: Bytes, now: real)
    requires Inv(s) && id in s.pending
    ensures var t := Respond(s, id, data, now);
      && t.msgs[s.pending[id]].ch == Answered(data)
      && forall u :: 0 <= u < |s.msgs| && u != s.pending[id] ==> t.msgs[u].ch == s.msgs[u].ch
  {
    assert s.InFlight(s.pending[id]);
    AnswerCore(s, id, data);
    PumpKeepsClosed(Answer(s, id, data), now, s.pending[id]);
  }

  /** What may have become of a request's channel in one step. */
  ghost predicate Caused(s: State, a: Action, u: nat, ch: Channel)
    requires s.Ranged() && u < |s.msgs|
  {
    || ch == s.msgs[u].ch
    || (ch.Answered? && a.DoRespond? && s.InFlight(u) && a.id == s.msgs[u].msgId && ch.data == a.data)
    || (ch.TimedOut? && a.DoPass? && s.InFlight(u) && s.msgs[u].deadline <= a.now == ch.at
        && s.msgs[u].retry >= s.cfg.maxRetries)
    || (ch.Cancelled? && a.DoCancel? && (s.InFlight(u) || u in s.queue))
  }

  lemma ExpireCause(cfg: Config, m: Message, now: real)
    requires m.ch.Open?
    ensures Expire(cfg, m, now).ch ==
      if m.deadline <= now && m.retry >= cfg.maxRetries then TimedOut(now) else Open
  {
  }

  lemma SweepCaused(s: State, now: real, later: real, u: nat)
    requires Inv(s) && u < |s.msgs|
    ensures Caused(s, DoPass(now, later), u, Sweep(s, now).msgs[u].ch)
  {
    hide Expire, Dead;
    if s.InFlight(u) {
      ExpireCause(s.cfg, s.msgs[u], now);
    }
  }

  lemma OldUntouched(s: State, id: nat, now: real, u: nat)
    requires u < |s.msgs|
    ensures u < |Enqueue(s, id, now).msgs| && Enqueue(s, id, now).msgs[u] == s.msgs[u]
  {
  }

  lemma PumpChannels(s: State, now: real)
    requires s.Ranged()
    ensures |Pump(s, now).msgs| == |s.msgs|
    ensures forall u :: 0 <= u < |s.msgs| ==> Pump(s, now).msgs[u].ch == s.msgs[u].ch
  {
  }

  lemma AnsweredChannel(s: State, id: nat, data: Bytes, u: nat)
    requires Inv(s) && id in s.pending && u < |s.msgs|
    ensures Answer(s, id, data).msgs[u].ch ==
      if s.InFlight(u) && s.msgs[u].msgId == id then Answered(data) else s.msgs[u].ch
  {
    assert s.InFlight(s.pending[id]);
  }

  lemma CancelChannels(s: State)
    requires Inv(s)
    ensures |Cancel(s).msgs| == |s.msgs|
    ensures forall u :: 0 <= u < |s.msgs| ==>
      Cancel(s).msgs[u].ch == if s.InFlight(u) || u in s.queue then Cancelled else s.msgs[u].ch
  {
  }

  /**
   Why a channel is resolved: an answer only by a response to that request's ID while it is in flight, a timeout
   only by a pass that finds it overdue with its retries used up, and a cancellation only by cancelling.
   */
  lemma ResolutionCauses(s: State, a: Action, u: nat)
    requires Inv(s) && u < |s.msgs|
    ensures u < |Step(s, a).msgs| && Caused(s, a, u, Step(s, a).msgs[u].ch)
  {
    hide Inv, Expire, Dead, Pump, Core;
    match a
    case DoEnqueue(id, now) => OldUntouched(s, id, now, u);
    case DoRespond(id, data, now) =>
      if id in s.pending {
        AnswerCore(s, id, data);
        PumpChannels(Answer(s, id, data), now);
        AnsweredChannel(s, id, data, u);
      }
    case DoPass(now, later) =>
      SweepCore(s, now);
      SweepCaused(s, now, later, u);
      PumpChannels(Sweep(s, now), later);
    case DoCancel => CancelChannels(s);
  }

  // ---------- first come, first served ----------

  /** The queue is in the order of enqueueing, and whatever waits in it came after everything that was ever sent. */
  ghost predicate InTurn(s: State) {
    && s.Ranged()
    && (forall i, j :: 0 <= i < j < |s.queue| ==> s.queue[i] < s.queue[j])
    && (forall u, v :: 0 <= u < |s.msgs| && s.msgs[u].sent > 0 && v in s.queue ==> u < v)
    && (forall id :: id in s.pending ==> s.msgs[s.pending[id]].sent > 0)
  }

  lemma PumpInTurn(s: State, now: real)
    requires InTurn(s)
    ensures InTurn(Pump(s, now))
  {
    if |s.queue| > 0 && |s.pending| < s.window {
      var t, h := Pump(s, now), s.queue[0];
      assert t.queue == s.queue[1..] && forall i :: 0 <= i < |t.queue| ==> t.queue[i] == s.queue[i + 1];
      assert h in s.queue && forall v :: v in t.queue ==> v in s.queue && h < v;
      forall u, v | 0 <= u < |t.msgs| && t.msgs[u].sent > 0 && v in t.queue ensures u < v {
        assert u != h ==> t.msgs[u] == s.msgs[u];
      }
    }
  }

  lemma AnswerInTurn(s: State, id: nat, data: Bytes)
    requires InTurn(s) && id in s.pending
    ensures InTurn(Answer(s, id, data))
  {
    var t := Answer(s, id, data);
    assert forall u :: 0 <= u < |s.msgs| ==> t.msgs[u].sent == s.msgs[u].sent;
  }

  lemma ExpireSent(cfg: Config, m: Message, now: real)
    ensures Expire(cfg, m, now).sent >= m.sent
  {
  }

  lemma SweepInTurn(s: State, now: real)
    requires InTurn(s) && Core(s)
    ensures InTurn(Sweep(s, now))
  {
    hide Expire, Dead;
    var t := Sweep(s, now);
    forall u | 0 <= u < |s.msgs|
      ensures t.msgs[u].sent > 0 <==> s.msgs[u].sent > 0
    {
      ExpireSent(s.cfg, s.msgs[u], now);
    }
  }

  lemma CancelInTurn(s: State)
    requires InTurn(s)
    ensures InTurn(Cancel(s))
  {
  }

  /** Responses, timeout passes and cancellation serve requests in the order in which they were enqueued. */
  lemma ServedInTurn(s: State, a: Action)
    requires Inv(s) && InTurn(s) && !a.DoEnqueue?
    ensures InTurn(Step(s, a))
  {
    hide InTurn, Pump, Expire, Dead, Core;
    match a
    case DoRespond(id, data, now) =>
      if id in s.pending {
        AnswerInTurn(s, id, data);
        PumpInTurn(Answer(s, id, data), now);
      }
    case DoPass(now, later) =>
      SweepInTurn(s, now);
      PumpInTurn(Sweep(s, now), later);
    case DoCancel => CancelInTurn(s);
  }

  lemma QueuedInTurn(s: State, id: nat, now: real)
    requires InTurn(s) && |s.pending| >= s.window
    ensures InTurn(Enqueue(s, id, now))
  {
    var t, n := Enqueue(s, id, now), |s.msgs|;
    assert forall u :: 0 <= u < n ==> t.msgs[u] == s.msgs[u];
    assert forall i :: 0 <= i < |s.queue| ==> t.queue[i] == s.queue[i];
  }

  lemma SentInTurn(s: State, id: nat, now: real)
    requires InTurn(s) && |s.pending| < s.window
    ensures InTurn(Enqueue(s, id, now)) <==> s.queue == []
  {
    var t, n := Enqueue(s, id, now), |s.msgs|;
    assert forall u :: 0 <= u < n ==> t.msgs[u] == s.msgs[u];
    assert t.msgs[n].sent > 0 && t.queue == s.queue;
    if s.queue != [] {
      assert s.queue[0] in t.queue && s.queue[0] < n;
    }
  }

  /**
   An enqueue looks only at the window, so a new request overtakes those that wait exactly when a pass has left
   the window with room.
   */
  lemma OvertakesExactly(s: State, id: nat, now: real)
    requires Inv(s) && InTurn(s)
    ensures InTurn(Enqueue(s, id, now)) <==> s.queue == [] || |s.pending| >= s.window
  {
    hide Inv, InTurn;
    if |s.pending| >= s.window {
      QueuedInTurn(s, id, now);
    } else {
      SentInTurn(s, id, now);
    }
  }

  // ---------- progress ----------

  /** How many more timeouts a request can still take. */
  function Credit(cfg: Config, m: Message): nat {
    if !m.ch.Open? then 0
    else if m.retry >= cfg.maxRetries then 1
    else 1 + cfg.maxRetries - m.retry
  }

  function Total(cfg: Config, ms: seq<Message>): nat {
    if ms == [] then 0 else Credit(cfg, ms[0]) + Total(cfg, ms[1..])
  }

  /** The sum follows its terms: no larger when none grows, smaller when one shrinks. */
  lemma {:induction false} TotalFollows(cfg: Config, a: seq<Message>, b: seq<Message>)
    requires |a| == |b|
    requires forall u :: 0 <= u < |a| ==> Credit(cfg, a[u]) <= Credit(cfg, b[u])
    ensures Total(cfg, a) <= Total(cfg, b)
    ensures (exists u :: 0 <= u < |a| && Credit(cfg, a[u]) < Credit(cfg, b[u])) ==> Total(cfg, a) < Total(cfg, b)
  {
    hide Credit;
    if a == [] {
    } else {
      TotalFollows(cfg, a[1..], b[1..]);
      if u :| 0 < u < |a| && Credit(cfg, a[u]) < Credit(cfg, b[u]) {
        assert a[1..][u - 1] == a[u] && b[1..][u - 1] == b[u];
      }
    }
  }

  ghost predicate AnyDue(s: State, now: real)
    requires s.Ranged()
  {
    exists id :: id in s.pending && Due(s.msgs[s.pending[id]], now)
  }

  lemma PumpCredits(s: State, now: real)
    requires s.Ranged()
    ensures var t := Pump(s, now);
      |t.msgs| == |s.msgs| && t.cfg == s.cfg && t.cancelled == s.cancelled
      && forall u :: 0 <= u < |s.msgs| ==> t.msgs[u].ch == s.msgs[u].ch && t.msgs[u].retry == s.msgs[u].retry
  {
  }

  lemma ExpireCredit(cfg: Config, m: Message, now: real)
    requires m.ch.Open?
    ensures Credit(cfg, Expire(cfg, m, now)) <= Credit(cfg, m)
    ensures Due(m, now) ==> Credit(cfg, Expire(cfg, m, now)) < Credit(cfg, m)
    ensures Expire(cfg, m, now).ch.Open? || Expire(cfg, m, now).ch.TimedOut?
  {
  }

  lemma SweepCredits(s: State, now: real)
    requires Inv(s)
    ensures var t := Sweep(s, now);
      && (forall u :: 0 <= u < |s.msgs| ==> Credit(s.cfg, t.msgs[u]) <= Credit(s.cfg, s.msgs[u]))
      && (forall u :: 0 <= u < |s.msgs| && s.msgs[u].ch.Open? ==> t.msgs[u].ch.Open? || t.msgs[u].ch.TimedOut?)
      && (forall id :: id in s.pending && Due(s.msgs[s.pending[id]], now) ==>
            Credit(s.cfg, t.msgs[s.pending[id]]) < Credit(s.cfg, s.msgs[s.pending[id]]))
  {
    hide Expire, Credit;
    var t := Sweep(s, now);
    forall u | 0 <= u < |s.msgs|
      ensures Credit(s.cfg, t.msgs[u]) <= Credit(s.cfg, s.msgs[u])
      ensures s.msgs[u].ch.Open? ==> t.msgs[u].ch.Open? || t.msgs[u].ch.TimedOut?
      ensures s.InFlight(u) && Due(s.msgs[u], now) ==> Credit(s.cfg, t.msgs[u]) < Credit(s.cfg, s.msgs[u])
    {
      if s.InFlight(u) {
        ExpireCredit(s.cfg, s.msgs[u], now);
      }
    }
    assert forall id :: id in s.pending ==> s.InFlight(s.pending[id]);
  }

  lemma SameCredit(cfg: Config, m: Message, n: Message)
    requires m.ch == n.ch && m.retry == n.retry
    ensures Credit(cfg, m) == Credit(cfg, n)
  {
  }

  /** A pass never adds work, and one in which something is due strictly reduces it. */
  lemma PassProgress(s: State, now: real, later: real)
    requires Inv(s)
    ensures var t := Pass(s, now, later);
      && t.cfg == s.cfg && t.cancelled == s.cancelled && |t.msgs| == |s.msgs|
      && Total(s.cfg, t.msgs) <= Total(s.cfg, s.msgs)
      && (AnyDue(s, now) ==> Total(s.cfg, t.msgs) < Total(s.cfg, s.msgs))
      && (forall u :: 0 <= u < |s.msgs| && s.msgs[u].ch.Open? ==> t.msgs[u].ch.Open? || t.msgs[u].ch.TimedOut?)
  {
    hide Expire, Credit, Pump, Total;
    var w, t := Sweep(s, now), Pass(s, now, later);
    SweepCore(s, now);
    SweepCredits(s, now);
    PumpCredits(w, later);
    forall u | 0 <= u < |s.msgs| ensures Credit(s.cfg, t.msgs[u]) == Credit(s.cfg, w.msgs[u]) {
      SameCredit(s.cfg, t.msgs[u], w.msgs[u]);
    }
    TotalFollows(s.cfg, t.msgs, s.msgs);
  }

  /** An answered request takes its remaining retransmissions with it. */
  lemma AnswerProgress(s: State, id: nat, data: Bytes, now: real)
    requires Inv(s) && id in s.pending
    ensures Total(s.cfg, Respond(s, id, data, now).msgs) < Total(s.cfg, s.msgs)
  {
    hide Pump, Total;
    var w, t, u := Answer(s, id, data), Respond(s, id, data, now), s.pending[id];
    assert s.InFlight(u);
    AnswerCore(s, id, data);
    PumpCredits(w, now);
    forall v | 0 <= v < |s.msgs|
      ensures Credit(s.cfg, t.msgs[v]) <= Credit(s.cfg, s.msgs[v])
      ensures v == u ==> Credit(s.cfg, t.msgs[v]) < Credit(s.cfg, s.msgs[v])
    {
      SameCredit(s.cfg, t.msgs[v], w.msgs[v]);
    }
    TotalFollows(s.cfg, t.msgs, s.msgs);
  }

  /** The two clock readings of a timeout pass. */
  datatype Reading = Reading(now: real, later: real)

  /** Consecutive passes in each of which some request is due, with nothing else happening. */
  ghost predicate Expiring(s: State, times: seq<Reading>)
    requires Inv(s)
    decreases |times|
  {
    hide Inv, Pass;
    times != [] ==>
      && AnyDue(s, times[0].now)
      && (PassInv(s, times[0].now, times[0].later); Expiring(Pass(s, times[0].now, times[0].later), times[1..]))
  }

  ghost function Passes(s: State, times: seq<Reading>): (t: State)
    requires Inv(s)
    ensures Inv(t)
    decreases |times|
  {
    hide Inv, Pass;
    if times == [] then s
    else
      PassInv(s, times[0].now, times[0].later);
      Passes(Pass(s, times[0].now, times[0].later), times[1..])
  }

  /** The passes as actions of a run. */
  function AsRun(times: seq<Reading>): seq<Action> {
    if times == [] then [] else [DoPass(times[0].now, times[0].later)] + AsRun(times[1..])
  }

  /** Until cancellation the loop may run any passes. */
  lemma {:induction false} PassesAreRun(s: State, times: seq<Reading>)
    requires Inv(s) && !s.cancelled
    ensures Legal(s, AsRun(times)) && Run(s, AsRun(times)) == Passes(s, times)
    decreases |times|
  {
    hide Inv, Pass;
    if times == [] {
    } else {
      var t := Pass(s, times[0].now, times[0].later);
      var run := AsRun(times);
      PassInv(s, times[0].now, times[0].later);
      PassProgress(s, times[0].now, times[0].later);
      assert run[0] == DoPass(times[0].now, times[0].later) && run[1..] == AsRun(times[1..]);
      assert Step(s, run[0]) == t;
      PassesAreRun(t, times[1..]);
    }
  }

  lemma {:induction false} PassesKeepClosed(s: State, times: seq<Reading>, u: nat)
    requires Inv(s) && u < |s.msgs| && !s.msgs[u].ch.Open?
    ensures u < |Passes(s, times).msgs| && Passes(s, times).msgs[u] == s.msgs[u]
    decreases |times|
  {
    hide Inv, Pass;
    if times == [] {
    } else {
      PassInv(s, times[0].now, times[0].later);
      StepKeepsClosed(s, DoPass(times[0].now, times[0].later), u);
      PassesKeepClosed(Pass(s, times[0].now, times[0].later), times[1..], u);
    }
  }

  /** Each expiring pass uses up credit, so there are at most `Total` of them; requests only time out on the way. */
  lemma {:induction false} DrainBound(s: State, times: seq<Reading>)
    requires Inv(s) && Expiring(s, times)
    ensures var t := Passes(s, times);
      && t.cfg == s.cfg && t.cancelled == s.cancelled && |t.msgs| == |s.msgs|
      && |times| + Total(s.cfg, t.msgs) <= Total(s.cfg, s.msgs)
      && (forall u :: 0 <= u < |s.msgs| && s.msgs[u].ch.Open? ==> t.msgs[u].ch.Open? || t.msgs[u].ch.TimedOut?)
    decreases |times|
  {
    hide Inv, Pass, Total;
    if times == [] {
    } else {
      var m := Pass(s, times[0].now, times[0].later);
      PassInv(s, times[0].now, times[0].later);
      PassProgress(s, times[0].now, times[0].later);
      DrainBound(m, times[1..]);
      forall u | 0 <= u < |s.msgs| && s.msgs[u].ch.Open?
        ensures Passes(s, times).msgs[u].ch.Open? || Passes(s, times).msgs[u].ch.TimedOut?
      {
        if m.msgs[u].ch.TimedOut? {
          PassesKeepClosed(m, times[1..], u);
        }
      }
    }
  }

  /** Before cancellation, while a request is unresolved, a late enough pass may run and is an expiring one. */
  lemma NeverStuck(s: State, u: nat, from: real) returns (now: real)
    requires Inv(s) && !s.cancelled && u < |s.msgs| && s.msgs[u].ch.Open?
    ensures now >= from && AnyDue(s, now) && Allowed(s, DoPass(now, now))
  {
    assert s.InFlight(u) || u in s.queue;
    assert |s.pending| > 0;
    var id :| id in s.pending;
    var deadline := s.msgs[s.pending[id]].deadline;
    now := if deadline < from then from else deadline;
    assert Due(s.msgs[s.pending[id]], now);
  }

  /** Nothing is left that any later pass could expire. */
  ghost predicate Settled(s: State)
    requires s.Ranged()
  {
    forall now: real :: !AnyDue(s, now)
  }

  /**
   With no answers, once expiring passes have gone on until nothing is left to expire, every request that was
   unresolved has been closed by timeout, however many requests each pass expired.
   */
  lemma Drained(s: State, times: seq<Reading>, u: nat)
    requires Inv(s) && !s.cancelled && Expiring(s, times) && Settled(Passes(s, times))
    requires u < |s.msgs| && s.msgs[u].ch.Open?
    ensures u < |Passes(s, times).msgs| && Passes(s, times).msgs[u].ch.TimedOut?
    ensures |times| <= Total(s.cfg, s.msgs)
  {
    hide Inv, Total, Passes, AnyDue;
    DrainBound(s, times);
    if Passes(s, times).msgs[u].ch.Open? {
      var now := NeverStuck(Passes(s, times), u, 0.0);
    }
  }

  /** The readings follow a clock that starts at `from`. */
  ghost predicate Clocked(times: seq<Reading>, from: real) {
    times != [] ==> from <= times[0].now <= times[0].later && Clocked(times[1..], times[0].later)
  }

  lemma LaterStillDue(s: State, due: real, now: real)
    requires s.Ranged() && AnyDue(s, due) && due <= now
    ensures AnyDue(s, now)
  {
    var id :| id in s.pending && Due(s.msgs[s.pending[id]], due);
    assert Due(s.msgs[s.pending[id]], now);
  }

  /** Such a series of passes exists from every state before cancellation, along any clock. */
  lemma {:induction false} DrainExists(s: State, from: real) returns (times: seq<Reading>)
    requires Inv(s) && !s.cancelled
    ensures Expiring(s, times) && Clocked(times, from) && Settled(Passes(s, times))
    decreases Total(s.cfg, s.msgs)
  {
    hide Inv, Total, AnyDue, Pass;
    times := [];
    if !Settled(s) {
      var due :| AnyDue(s, due);
      var now := if due < from then from else due;
      LaterStillDue(s, due, now);
      var t := Pass(s, now, now);
      PassInv(s, now, now);
      PassProgress(s, now, now);
      var rest := DrainExists(t, now);
      times := [Reading(now, now)] + rest;
      assert times[0] == Reading(now, now) && times[1..] == rest;
    }
  }

  // ---------- after cancellation ----------

  lemma StepLeavesOpen(s: State, a: Action, u: nat)
    requires Inv(s) && Allowed(s, a) && s.cancelled && u < |s.msgs| && s.msgs[u].ch.Open?
    requires a.DoRespond? ==> a.id != s.msgs[u].msgId
    ensures var t := Step(s, a);
      t.cancelled && u < |t.msgs| && t.msgs[u].ch.Open? && t.msgs[u].msgId == s.msgs[u].msgId
  {
    match a
    case DoEnqueue(id, now) =>
    case DoRespond(id, data, now) =>
      if id in s.pending {
        PumpKeepsIds(Answer(s, id, data), now);
        AnswerDelivers(s, id, data, now);
      }
  }

  lemma StepStaysCancelled(s: State, a: Action)
    requires Inv(s) && Allowed(s, a) && s.cancelled
    ensures Step(s, a).cancelled
  {
  }

  lemma {:induction false} StaysCancelled(s: State, run: seq<Action>)
    requires Inv(s) && s.cancelled && Legal(s, run)
    ensures Run(s, run).cancelled && forall i :: 0 <= i < |run| ==> !run[i].DoPass? && !run[i].DoCancel?
    decreases |run|
  {
    hide Inv, Step;
    if run == [] {
    } else {
      StepInv(s, run[0]);
      StepStaysCancelled(s, run[0]);
      StaysCancelled(Step(s, run[0]), run[1..]);
    }
  }

  /** Cancelling resolves every request there is, and whatever happens then, the loop makes no pass any more. */
  lemma CancelIsFinal(s: State, run: seq<Action>)
    requires Inv(s) && Inv(Cancel(s)) && Legal(Cancel(s), run)
    ensures forall u :: 0 <= u < |s.msgs| ==> !Cancel(s).msgs[u].ch.Open?
    ensures Run(Cancel(s), run).cancelled && forall i :: 0 <= i < |run| ==> !run[i].DoPass? && !run[i].DoCancel?
  {
    hide Run, Legal;
    StaysCancelled(Cancel(s), run);
  }

  /** After cancellation nothing times out any more: a request enqueued since then is resolved only by a response. */
  lemma {:induction false} UnresolvedAfterCancel(s: State, run: seq<Action>, u: nat)
    requires Inv(s) && Legal(s, run) && s.cancelled && u < |s.msgs| && s.msgs[u].ch.Open?
    requires forall i :: 0 <= i < |run| && run[i].DoRespond? ==> run[i].id != s.msgs[u].msgId
    ensures u < |Run(s, run).msgs| && Run(s, run).msgs[u].ch.Open?
    decreases |run|
  {
    hide Inv, Step;
    if run == [] {
    } else {
      StepInv(s, run[0]);
      StepLeavesOpen(s, run[0], u);
      UnresolvedAfterCancel(Step(s, run[0]), run[1..], u);
    }
  }

  // ---------- retransmission timing ----------

  /** Retransmissions after the first transmission. */
  function Retries(cfg: Config): nat {
    if cfg.maxRetries < 0 then 0 else cfg.maxRetries
  }

  /** The timeout that follows the `r`-th retransmission. */
  function Timeout(cfg: Config, r: nat): real {
    if r == 0 then cfg.initialTimeout else Backoff(cfg, Timeout(cfg, r - 1))
  }

  /** The first `r + 1` timeouts together. */
  function Elapsed(cfg: Config, r: nat): real {
    if r == 0 then Timeout(cfg, 0) else Elapsed(cfg, r - 1) + Timeout(cfg, r)
  }

  // ---------- the timeouts in closed form ----------

  /** The `r`-th power of a factor. */
  function Power(b: real, r: nat): real {
    if r == 0 then 1.0 else Power(b, r - 1) * b
  }

  /** A duration times the `r`-th power of a factor. */
  function TimesPower(x: real, b: real, r: nat): real {
    x * Power(b, r)
  }

  function MinReal(x: real, y: real): real {
    if x < y then x else y
  }

  /** The timeout after the first retransmission, under a cap. */
  function FirstBackoff(cfg: Config): real {
    MinReal(cfg.initialTimeout * cfg.backoff, cfg.maxTimeout)
  }

  /**
   The `r`-th timeout: the initial one times the `r`-th power of the factor. A positive cap bounds every timeout but
   the first; with a factor below one it can bind only once, and the timeouts shrink from there.
   */
  function ClosedTimeout(cfg: Config, r: nat): real {
    if r == 0 then cfg.initialTimeout
    else if cfg.maxTimeout <= 0.0 then TimesPower(cfg.initialTimeout, cfg.backoff, r)
    else if cfg.backoff >= 1.0 then MinReal(TimesPower(cfg.initialTimeout, cfg.backoff, r), cfg.maxTimeout)
    else TimesPower(FirstBackoff(cfg), cfg.backoff, r - 1)
  }

  lemma {:induction false} PowerNonNegative(b: real, r: nat)
    requires b >= 0.0
    ensures Power(b, r) >= 0.0
  {
    if r == 0 {
    } else {
      PowerNonNegative(b, r - 1);
    }
  }

  lemma TimesPowerSteps(x: real, b: real, r: nat)
    ensures TimesPower(x, b, 0) == x
    ensures TimesPower(x, b, r + 1) == TimesPower(x, b, r) * b
  {
    var p := Power(b, r);
    assert Power(b, r + 1) == p * b;
    assert x * (p * b) == (x * p) * b;
  }

  lemma TimesPowerNonNegative(x: real, b: real, r: nat)
    requires x >= 0.0 && b >= 0.0
    ensures TimesPower(x, b, r) >= 0.0
  {
    PowerNonNegative(b, r);
  }

  lemma Grows(x: real, b: real)
    requires x >= 0.0 && b >= 1.0
    ensures x * b >= x
  {
    assert x * (b - 1.0) >= 0.0;
  }

  lemma Shrinks(x: real, b: real)
    requires x >= 0.0 && 0.0 <= b <= 1.0
    ensures 0.0 <= x * b <= x
  {
    assert x * (1.0 - b) >= 0.0;
  }

  /** One step of the timeouts, for a cap and a factor of at least one. */
  lemma CappedStep(cfg: Config, t: real, x: real)
    requires cfg.maxTimeout > 0.0 && cfg.backoff >= 1.0 && x >= 0.0 && (t == x || t == MinReal(x, cfg.maxTimeout))
    ensures Backoff(cfg, t) == MinReal(x * cfg.backoff, cfg.maxTimeout)
  {
    Grows(x, cfg.backoff);
    Grows(cfg.maxTimeout, cfg.backoff);
  }

  lemma {:induction false} TimeoutCapped(cfg: Config, r: nat)
    requires cfg.initialTimeout >= 0.0 && cfg.maxTimeout > 0.0 && cfg.backoff >= 1.0
    ensures Timeout(cfg, r) == ClosedTimeout(cfg, r)
  {
    hide Backoff, TimesPower;
    if r == 0 {
    } else {
      TimeoutCapped(cfg, r - 1);
      TimesPowerSteps(cfg.initialTimeout, cfg.backoff, r - 1);
      TimesPowerNonNegative(cfg.initialTimeout, cfg.backoff, r - 1);
      CappedStep(cfg, Timeout(cfg, r - 1), TimesPower(cfg.initialTimeout, cfg.backoff, r - 1));
    }
  }

  lemma {:induction false} TimeoutUncapped(cfg: Config, r: nat)
    requires cfg.maxTimeout <= 0.0
    ensures Timeout(cfg, r) == ClosedTimeout(cfg, r)
  {
    hide TimesPower;
    if r == 0 {
    } else {
      TimeoutUncapped(cfg, r - 1);
      TimesPowerSteps(cfg.initialTimeout, cfg.backoff, r - 1);
    }
  }

  lemma ShrinkingStep(cfg: Config, t: real)
    requires 0.0 <= t <= cfg.maxTimeout && 0.0 <= cfg.backoff < 1.0
    ensures Backoff(cfg, t) == t * cfg.backoff && 0.0 <= t * cfg.backoff <= cfg.maxTimeout
  {
    Shrinks(t, cfg.backoff);
  }

  lemma FirstCapped(cfg: Config)
    requires cfg.initialTimeout >= 0.0 && cfg.maxTimeout > 0.0 && cfg.backoff >= 0.0
    ensures 0.0 <= FirstBackoff(cfg) <= cfg.maxTimeout && Timeout(cfg, 1) == FirstBackoff(cfg)
  {
    assert cfg.initialTimeout * cfg.backoff >= 0.0;
    assert Timeout(cfg, 1) == Backoff(cfg, Timeout(cfg, 0));
  }

  lemma {:induction false} TimeoutShrinks(cfg: Config, y: real, r: nat)
    requires cfg.maxTimeout > 0.0 && 0.0 <= cfg.backoff < 1.0 && 0.0 <= y <= cfg.maxTimeout && Timeout(cfg, 1) == y
    ensures Timeout(cfg, r + 1) == TimesPower(y, cfg.backoff, r)
    ensures 0.0 <= Timeout(cfg, r + 1) <= cfg.maxTimeout
  {
    hide Backoff, TimesPower;
    if r == 0 {
      TimesPowerSteps(y, cfg.backoff, 0);
    } else {
      TimeoutShrinks(cfg, y, r - 1);
      ShrinkingStep(cfg, Timeout(cfg, r));
      assert Timeout(cfg, r + 1) == Backoff(cfg, Timeout(cfg, r));
      TimesPowerSteps(y, cfg.backoff, r - 1);
    }
  }

  lemma TimeoutShrinking(cfg: Config, r: nat)
    requires cfg.initialTimeout >= 0.0 && cfg.maxTimeout > 0.0 && 0.0 <= cfg.backoff < 1.0
    ensures Timeout(cfg, r) == ClosedTimeout(cfg, r)
  {
    hide Backoff, TimesPower, FirstBackoff;
    if r > 0 {
      FirstCapped(cfg);
      TimeoutShrinks(cfg, FirstBackoff(cfg), r - 1);
    }
  }

  /** Every timeout, for every configuration that is not negative. */
  lemma TimeoutClosed(cfg: Config, r: nat)
    requires cfg.initialTimeout >= 0.0 && cfg.backoff >= 0.0
    ensures Timeout(cfg, r) == ClosedTimeout(cfg, r)
  {
    hide Timeout, ClosedTimeout;
    if cfg.maxTimeout <= 0.0 {
      TimeoutUncapped(cfg, r);
    } else if cfg.backoff >= 1.0 {
      TimeoutCapped(cfg, r);
    } else {
      TimeoutShrinking(cfg, r);
    }
  }

  /** The first `r + 1` timeouts together, in closed form. */
  function ClosedSum(cfg: Config, r: nat): real {
    if r == 0 then ClosedTimeout(cfg, 0) else ClosedSum(cfg, r - 1) + ClosedTimeout(cfg, r)
  }

  lemma {:induction false} ElapsedClosed(cfg: Config, r: nat)
    requires cfg.initialTimeout >= 0.0 && cfg.backoff >= 0.0
    ensures Elapsed(cfg, r) == ClosedSum(cfg, r)
  {
    hide Timeout, ClosedTimeout;
    TimeoutClosed(cfg, r);
    if r == 0 {
    } else {
      ElapsedClosed(cfg, r - 1);
    }
  }

  lemma SeriesStep(sum: real, x: real, y: real, b: real)
    requires sum * (b - 1.0) == x - y
    ensures (sum + x) * (b - 1.0) == x * b - y
  {
    assert (sum + x) * (b - 1.0) == sum * (b - 1.0) + x * (b - 1.0);
    assert x * (b - 1.0) == x * b - x;
  }

  /** Without a cap the waiting times form a geometric series. */
  lemma {:induction false} GeometricSum(cfg: Config, r: nat)
    requires cfg.maxTimeout <= 0.0
    ensures ClosedSum(cfg, r) * (cfg.backoff - 1.0)
         == TimesPower(cfg.initialTimeout, cfg.backoff, r + 1) - cfg.initialTimeout
  {
    hide TimesPower;
    var x := cfg.initialTimeout;
    TimesPowerSteps(x, cfg.backoff, r);
    if r == 0 {
      SeriesStep(0.0, x, x, cfg.backoff);
    } else {
      GeometricSum(cfg, r - 1);
      SeriesStep(ClosedSum(cfg, r - 1), TimesPower(x, cfg.backoff, r), x, cfg.backoff);
    }
  }

  /** The default configuration: 4 s, factor 1.8, five retries, no cap. A request is given up after 165.06112 s. */
  lemma DefaultSchedule()
    ensures var cfg := Config(5, 4.0, 0.0, 1.8);
      ClosedTimeout(cfg, 1) == 7.2 && ClosedTimeout(cfg, 2) == 12.96 && ClosedSum(cfg, Retries(cfg)) == 165.06112
  {
    var cfg := Config(5, 4.0, 0.0, 1.8);
    assert Power(1.8, 2) == 3.24;
    assert Power(1.8, 4) == Power(1.8, 3) * 1.8 == 10.4976;
    assert Power(1.8, 6) == Power(1.8, 5) * 1.8 == 34.012224;
    GeometricSum(cfg, 5);
  }

  // ---------- schedules ----------

  /** Where a request may be in time, when timeout passes are at most `gap` apart and the last was at `last`. */
  ghost predicate Timely(cfg: Config, m: Message, inFlight: bool, queued: bool, last: real, gap: real) {
    && (inFlight ==>
          && m.sent == m.retry + 1 && m.retry <= Retries(cfg)
          && m.nextTimeout == Timeout(cfg, m.retry)
          && m.activatedAt + Elapsed(cfg, m.retry) <= m.deadline
          && m.deadline <= m.activatedAt + Elapsed(cfg, m.retry) + m.retry as real * gap
          && last <= m.deadline)
    && (queued ==> m.sent == 0 && m.retry == 0 && m.nextTimeout == Timeout(cfg, 0))
    && (m.ch.TimedOut? ==>
          && m.sent == Retries(cfg) + 1
          && m.activatedAt + Elapsed(cfg, Retries(cfg)) <= m.ch.at
          && m.ch.at <= m.activatedAt + Elapsed(cfg, Retries(cfg)) + (Retries(cfg) + 1) as real * gap)
  }

  ghost predicate OnTime(s: State, last: real, gap: real) {
    forall u :: 0 <= u < |s.msgs| ==> Timely(s.cfg, s.msgs[u], s.InFlight(u), u in s.queue, last, gap)
  }

  lemma {:induction false} TimeoutNonNegative(cfg: Config, r: nat)
    requires cfg.initialTimeout >= 0.0 && cfg.backoff >= 0.0
    ensures Timeout(cfg, r) >= 0.0
  {
    if r == 0 {
    } else {
      TimeoutNonNegative(cfg, r - 1);
    }
  }

  lemma NextGap(r: nat, gap: real)
    ensures (r + 1) as real * gap == r as real * gap + gap
  {
  }

  lemma ElapsedNext(cfg: Config, r: nat)
    ensures Elapsed(cfg, r + 1) == Elapsed(cfg, r) + Timeout(cfg, r + 1)
    ensures Timeout(cfg, r + 1) == Backoff(cfg, Timeout(cfg, r))
  {
  }

  /** One in-flight request stays on schedule across a pass that comes at most `gap` after the previous one. */
  lemma ExpireTimely(cfg: Config, m: Message, last: real, gap: real, now: real)
    requires cfg.initialTimeout >= 0.0 && cfg.backoff >= 0.0
    requires m.ch.Open? && Timely(cfg, m, true, false, last, gap) && last <= now <= last + gap
    ensures Timely(cfg, Expire(cfg, m, now), !Dead(cfg, m, now), false, now, gap)
  {
    hide Elapsed, Timeout;
    NextGap(m.retry, gap);
    if Due(m, now) && m.retry < cfg.maxRetries {
      ElapsedNext(cfg, m.retry);
      TimeoutNonNegative(cfg, m.retry + 1);
    }
  }

  lemma SweepOnTime(s: State, last: real, gap: real, now: real)
    requires Inv(s) && OnTime(s, last, gap) && last <= now <= last + gap
    requires s.cfg.initialTimeout >= 0.0 && s.cfg.backoff >= 0.0
    ensures OnTime(Sweep(s, now), now, gap)
  {
    hide Expire, Dead, Elapsed, Timeout;
    var t := Sweep(s, now);
    forall u | 0 <= u < |t.msgs|
      ensures Timely(t.cfg, t.msgs[u], t.InFlight(u), u in t.queue, now, gap)
    {
      assert Timely(s.cfg, s.msgs[u], s.InFlight(u), u in s.queue, last, gap);
      assert s.InFlight(u) && u in s.queue ==> false;
      if s.InFlight(u) {
        ExpireTimely(s.cfg, s.msgs[u], last, gap, now);
        ExpireKeepsId(s.cfg, s.msgs[u], now);
      }
    }
  }

  lemma ActivatedTimely(cfg: Config, m: Message, last: real, gap: real, now: real)
    requires cfg.initialTimeout >= 0.0 && last <= now
    requires m.ch.Open? && m.sent == 0 && m.retry == 0 && m.nextTimeout == Timeout(cfg, 0)
    ensures Timely(cfg, Activated(m, now), true, false, last, gap)
  {
    assert Elapsed(cfg, 0) == cfg.initialTimeout;
  }

  lemma HeadLeavesQueue(s: State)
    requires Core(s) && s.queue != []
    ensures s.queue[0] !in s.queue[1..]
  {
  }

  lemma ActivatedId(m: Message, now: real)
    ensures Activated(m, now).msgId == m.msgId && Activated(m, now).ch == m.ch
  {
  }

  lemma PumpOnTime(s: State, last: real, gap: real, now: real)
    requires Core(s) && OnTime(s, last, gap) && last <= now && s.cfg.initialTimeout >= 0.0
    ensures OnTime(Pump(s, now), last, gap)
  {
    hide Elapsed, Timeout, Activated;
    if |s.queue| > 0 && |s.pending| < s.window {
      var t, h := Pump(s, now), s.queue[0];
      assert h in s.queue && Timely(s.cfg, s.msgs[h], s.InFlight(h), h in s.queue, last, gap);
      ActivatedTimely(s.cfg, s.msgs[h], last, gap, now);
      ActivatedId(s.msgs[h], now);
      forall u | 0 <= u < |t.msgs|
        ensures Timely(t.cfg, t.msgs[u], t.InFlight(u), u in t.queue, last, gap)
      {
        assert Timely(s.cfg, s.msgs[u], s.InFlight(u), u in s.queue, last, gap);
        if u == h {
          HeadLeavesQueue(s);
        } else {
          assert t.msgs[u] == s.msgs[u];
          assert u in t.queue ==> u in s.queue;
        }
      }
    }
  }

  lemma EnqueueOnTime(s: State, last: real, gap: real, id: nat, now: real)
    requires Inv(s) && s.Fresh(id) && OnTime(s, last, gap) && last <= now && s.cfg.initialTimeout >= 0.0
    ensures OnTime(Enqueue(s, id, now), last, gap)
  {
    hide Elapsed, Activated;
    var t, n := Enqueue(s, id, now), |s.msgs|;
    var m := NewMessage(s.cfg, id);
    ActivatedTimely(s.cfg, m, last, gap, now);
    ActivatedId(m, now);
    forall u | 0 <= u < |t.msgs|
      ensures Timely(t.cfg, t.msgs[u], t.InFlight(u), u in t.queue, last, gap)
    {
      if u < n {
        assert Timely(s.cfg, s.msgs[u], s.InFlight(u), u in s.queue, last, gap);
        assert t.msgs[u] == s.msgs[u] && (t.InFlight(u) <==> s.InFlight(u)) && (u in t.queue <==> u in s.queue);
      }
    }
  }

  lemma RespondOnTime(s: State, last: real, gap: real, id: nat, data: Bytes, now: real)
    requires Inv(s) && OnTime(s, last, gap) && last <= now && s.cfg.initialTimeout >= 0.0
    ensures OnTime(Respond(s, id, data, now), last, gap)
  {
    hide Elapsed, Timeout, Pump;
    if id in s.pending {
      var t := Answer(s, id, data);
      AnswerCore(s, id, data);
      assert s.InFlight(s.pending[id]);
      forall u | 0 <= u < |t.msgs|
        ensures Timely(t.cfg, t.msgs[u], t.InFlight(u), u in t.queue, last, gap)
      {
        assert Timely(s.cfg, s.msgs[u], s.InFlight(u), u in s.queue, last, gap);
      }
      PumpOnTime(t, last, gap, now);
    }
  }

  lemma CancelOnTime(s: State, last: real, gap: real)
    requires Inv(s) && OnTime(s, last, gap)
    ensures OnTime(Cancel(s), last, gap)
  {
    hide Elapsed, Timeout;
    var t := Cancel(s);
    forall u | 0 <= u < |t.msgs|
      ensures Timely(t.cfg, t.msgs[u], t.InFlight(u), u in t.queue, last, gap)
    {
      assert Timely(s.cfg, s.msgs[u], s.InFlight(u), u in s.queue, last, gap);
    }
  }

  /** The time of the last pass after one more action. */
  function LastPass(a: Action, last: real): real {
    if a.DoPass? then a.now else last
  }

  /** The clock does not run backwards past the last pass, and passes come at most `gap` apart. */
  predicate Punctual(a: Action, last: real, gap: real) {
    match a
    case DoEnqueue(_, now) => last <= now
    case DoRespond(_, _, now) => last <= now
    case DoPass(now, later) => last <= now <= last + gap && now <= later
    case DoCancel => true
  }

  lemma SweepConfig(s: State, now: real)
    requires s.Ranged()
    ensures Sweep(s, now).cfg == s.cfg
  {
  }

  lemma StepOnTime(s: State, a: Action, last: real, gap: real)
    requires Inv(s) && Allowed(s, a) && OnTime(s, last, gap) && Punctual(a, last, gap)
    requires s.cfg.initialTimeout >= 0.0 && s.cfg.backoff >= 0.0
    ensures OnTime(Step(s, a), LastPass(a, last), gap) && Step(s, a).cfg == s.cfg
  {
    hide Inv, OnTime, Sweep;
    match a
    case DoEnqueue(id, now) => EnqueueOnTime(s, last, gap, id, now);
    case DoRespond(id, data, now) => RespondOnTime(s, last, gap, id, data, now);
    case DoPass(now, later) =>
      SweepOnTime(s, last, gap, now);
      SweepCore(s, now);
      SweepConfig(s, now);
      PumpOnTime(Sweep(s, now), now, gap, later);
    case DoCancel => CancelOnTime(s, last, gap);
  }

  ghost predicate AllPunctual(run: seq<Action>, last: real, gap: real) {
    run != [] ==> Punctual(run[0], last, gap) && AllPunctual(run[1..], LastPass(run[0], last), gap)
  }

  /** The time of the last pass of a run, or the start if there was none. */
  function LastPassOf(run: seq<Action>, start: real): real {
    if run == [] then start else LastPassOf(run[1..], LastPass(run[0], start))
  }

  lemma {:induction false} RunOnTime(s: State, run: seq<Action>, last: real, gap: real)
    requires Inv(s) && Legal(s, run) && OnTime(s, last, gap) && AllPunctual(run, last, gap)
    requires s.cfg.initialTimeout >= 0.0 && s.cfg.backoff >= 0.0
    ensures OnTime(Run(s, run), LastPassOf(run, last), gap) && Run(s, run).cfg == s.cfg
    decreases |run|
  {
    hide Inv, OnTime, Step, Punctual;
    if run == [] {
    } else {
      StepInv(s, run[0]);
      StepOnTime(s, run[0], last, gap);
      RunOnTime(Step(s, run[0]), run[1..], LastPass(run[0], last), gap);
    }
  }

  lemma {:induction false} ElapsedMonotone(cfg: Config, i: nat, j: nat)
    requires i <= j && cfg.initialTimeout >= 0.0 && cfg.backoff >= 0.0
    ensures Elapsed(cfg, i) <= Elapsed(cfg, j)
  {
    if i >= j {
    } else {
      ElapsedMonotone(cfg, i, j - 1);
      TimeoutNonNegative(cfg, j);
    }
  }

  lemma GapMonotone(i: nat, j: nat, gap: real)
    requires i <= j && gap >= 0.0
    ensures i as real * gap <= j as real * gap
  {
    assert (j - i) as real * gap >= 0.0;
    assert j as real * gap == i as real * gap + (j - i) as real * gap;
  }

  /** The schedule bounds the last pass a request in flight can have seen. */
  lemma InFlightBound(cfg: Config, m: Message, last: real, gap: real)
    requires cfg.initialTimeout >= 0.0 && cfg.backoff >= 0.0 && gap >= 0.0
    requires Timely(cfg, m, true, false, last, gap)
    ensures last <= m.activatedAt + Elapsed(cfg, Retries(cfg)) + Retries(cfg) as real * gap
  {
    hide Elapsed, Timeout;
    ElapsedMonotone(cfg, m.retry, Retries(cfg));
    GapMonotone(m.retry, Retries(cfg), gap);
  }

  /**
   In every run: a request in flight has been sent once per retry plus once, and the last pass came no later than
   the sum of its timeouts plus one `gap` per retry after its activation. One that timed out was sent exactly
   `Retries + 1` times and closed between that sum and the sum plus one `gap` per transmission.
   */
  lemma RetransmissionBound(window: int, cfg: Config, run: seq<Action>, start: real, gap: real, u: nat)
    requires cfg.initialTimeout >= 0.0 && cfg.backoff >= 0.0
    requires Legal(Init(window, cfg), run) && AllPunctual(run, start, gap)
    requires u < |Run(Init(window, cfg), run).msgs|
    ensures var t := Run(Init(window, cfg), run);
      var m := t.msgs[u];
      && (t.InFlight(u) ==>
            && m.sent == m.retry + 1 <= Retries(cfg) + 1
            && (gap >= 0.0 ==>
                  LastPassOf(run, start) <= m.activatedAt + ClosedSum(cfg, Retries(cfg)) + Retries(cfg) as real * gap))
      && (m.ch.TimedOut? ==>
            && m.sent == Retries(cfg) + 1
            && m.activatedAt + ClosedSum(cfg, Retries(cfg)) <= m.ch.at
            && m.ch.at <= m.activatedAt + ClosedSum(cfg, Retries(cfg)) + (Retries(cfg) + 1) as real * gap)
  {
    hide Inv, Legal, Run, Elapsed, Timeout, ClosedSum;
    ElapsedClosed(cfg, Retries(cfg));
    RunOnTime(Init(window, cfg), run, start, gap);
    var t := Run(Init(window, cfg), run);
    assert Timely(t.cfg, t.msgs[u], t.InFlight(u), u in t.queue, LastPassOf(run, start), gap);
    if t.InFlight(u) && gap >= 0.0 {
      InFlightBound(cfg, t.msgs[u], LastPassOf(run, start), gap);
    }
  }

  /** So a request that has been sent is resolved by the first pass after that bound, answered or not. */
  lemma ClosedInTime(window: int, cfg: Config, run: seq<Action>, start: real, gap: real, u: nat)
    requires cfg.initialTimeout >= 0.0 && cfg.backoff >= 0.0 && gap >= 0.0
    requires Legal(Init(window, cfg), run) && AllPunctual(run, start, gap)
    requires u < |Run(Init(window, cfg), run).msgs|
    requires var m := Run(Init(window, cfg), run).msgs[u];
      m.sent > 0 && LastPassOf(run, start) > m.activatedAt + ClosedSum(cfg, Retries(cfg)) + Retries(cfg) as real * gap
    ensures !Run(Init(window, cfg), run).msgs[u].ch.Open?
  {
    hide Legal, Run, Elapsed, Timeout, ClosedSum;
    ElapsedClosed(cfg, Retries(cfg));
    RetransmissionBound(window, cfg, run, start, gap, u);
    RunOnTime(Init(window, cfg), run, start, gap);
    var t := Run(Init(window, cfg), run);
    assert Timely(t.cfg, t.msgs[u], t.InFlight(u), u in t.queue, LastPassOf(run, start), gap);
  }
}
