/**
 The request window of the task manager (sections 2.1 and 2.3 of RFC 7296): a bounded set of requests
 in flight, an overflow queue, retransmission with exponential backoff, and one completion channel per
 request. Every locked method is one atomic step; this module gives the steps as functions of the state.

 Requests are numbered in the order in which they are enqueued. `msgs[u]` is request number `u`, the
 in-flight map and the queue hold request numbers, exactly as the source holds pointers.
 */
module Window {
  import opened Bytes

  datatype Config = Config(maxRetries: int, initialTimeout: real, maxTimeout: real, backoff: real)

  /** A completion channel with a one-slot buffer. A send that would block or panic, or a second close, is a fault. */
  datatype Channel = Open | Answered(data: Bytes) | TimedOut(at: real) | Cancelled | Fault {
    function Send(data: Bytes): Channel {
      if Open? then Answered(data) else Fault
    }

    function Close(how: Channel): Channel {
      if Open? then how else Fault
    }
  }

  /** A request. `sent` counts its transmissions and `activatedAt` is when it entered the window. */
  datatype Message = Message(
    msgId: nat, retry: nat, nextTimeout: real, deadline: real, ch: Channel, sent: nat, activatedAt: real)

  datatype State = State(
    window: nat, cfg: Config, pending: map<nat, nat>, queue: seq<nat>, msgs: seq<Message>, cancelled: bool)
  {
    /** The in-flight map and the queue name existing requests. */
    predicate Ranged() {
      && (forall id :: id in pending ==> pending[id] < |msgs|)
      && (forall i :: 0 <= i < |queue| ==> queue[i] < |msgs|)
    }

    predicate InFlight(u: nat)
      requires u < |msgs|
    {
      msgs[u].msgId in pending && pending[msgs[u].msgId] == u
    }

    /** What a caller of `EnqueueRequest` must respect: the ID is not already waiting for an answer. */
    predicate Fresh(id: nat)
      requires Ranged()
    {
      id !in pending && forall i :: 0 <= i < |queue| ==> msgs[queue[i]].msgId != id
    }
  }

  // ---------- the steps ----------

  function NewMessage(cfg: Config, id: nat): Message {
    Message(id, 0, cfg.initialTimeout, 0.0, Open, 0, 0.0)
  }

  function Activated(m: Message, now: real): Message {
    m.(deadline := now + m.nextTimeout, sent := m.sent + 1, activatedAt := now)
  }

  function Activate(s: State, u: nat, now: real): State
    requires u < |s.msgs|
  {
    s.(msgs := s.msgs[u := Activated(s.msgs[u], now)], pending := s.pending[s.msgs[u].msgId := u])
  }

  function Enqueue(s: State, id: nat, now: real): State {
    var u := |s.msgs|;
    var t := s.(msgs := s.msgs + [NewMessage(s.cfg, id)]);
    if |s.pending| < s.window then Activate(t, u, now) else t.(queue := s.queue + [u])
  }

  /** `pumpQueue`: admits at most one queued request. */
  function Pump(s: State, now: real): State
    requires s.Ranged()
  {
    if |s.queue| > 0 && |s.pending| < s.window then Activate(s.(queue := s.queue[1..]), s.queue[0], now) else s
  }

  function Answer(s: State, id: nat, data: Bytes): State
    requires s.Ranged() && id in s.pending
  {
    var u := s.pending[id];
    s.(pending := s.pending - {id}, msgs := s.msgs[u := s.msgs[u].(ch := s.msgs[u].ch.Send(data))])
  }

  function Respond(s: State, id: nat, data: Bytes, now: real): State
    requires s.Ranged()
  {
    if id in s.pending then Pump(Answer(s, id, data), now) else s
  }

  function Backoff(cfg: Config, t: real): real {
    var x := t * cfg.backoff;
    if cfg.maxTimeout > 0.0 && x > cfg.maxTimeout then cfg.maxTimeout else x
  }

  predicate Due(m: Message, now: real) {
    m.deadline <= now
  }

  predicate Dead(cfg: Config, m: Message, now: real) {
    Due(m, now) && m.retry >= cfg.maxRetries
  }

  /** One in-flight request under a timeout pass: left alone, retransmitted, or closed. */
  function Expire(cfg: Config, m: Message, now: real): Message {
    if !Due(m, now) then m
    else if m.retry >= cfg.maxRetries then m.(ch := m.ch.Close(TimedOut(now)))
    else
      var t := Backoff(cfg, m.nextTimeout);
      m.(retry := m.retry + 1, nextTimeout := t, deadline := now + t, sent := m.sent + 1)
  }

  /** The loop of `checkTimeouts` and the deletions after it, independent of map iteration order. */
  function Sweep(s: State, now: real): (t: State)
    requires s.Ranged()
    ensures |t.msgs| == |s.msgs| && t.queue == s.queue
  {
    s.(msgs := seq(|s.msgs|, u requires 0 <= u < |s.msgs| =>
                 if s.InFlight(u) then Expire(s.cfg, s.msgs[u], now) else s.msgs[u]),
       pending := map id | id in s.pending && !Dead(s.cfg, s.msgs[s.pending[id]], now) :: s.pending[id])
  }

  lemma ExpireKeepsId(cfg: Config, m: Message, now: real)
    ensures Expire(cfg, m, now).msgId == m.msgId
  {
  }

  predicate AnyDead(s: State, now: real)
    requires s.Ranged()
  {
    exists id :: id in s.pending && Dead(s.cfg, s.msgs[s.pending[id]], now)
  }

  /** `checkTimeouts`. It reads the clock once more, `later`, for the request that is admitted at its end. */
  function Pass(s: State, now: real, later: real): State
    requires s.Ranged()
  {
    if AnyDead(s, now) then Pump(Sweep(s, now), later) else Sweep(s, now)
  }

  /** The cancellation branch of `windowLoop`. */
  function Cancel(s: State): State
    requires s.Ranged()
  {
    s.(msgs := seq(|s.msgs|, u requires 0 <= u < |s.msgs| =>
                 if s.InFlight(u) || u in s.queue then s.msgs[u].(ch := s.msgs[u].ch.Close(Cancelled)) else s.msgs[u]),
       pending := map[], queue := [], cancelled := true)
  }

  // ---------- the invariant ----------

  /** Everything but the no-stranding clause; it also holds between an answer or a sweep and the pump after it. */
  ghost predicate Core(s: State): (b: bool)
    ensures b ==> s.Ranged()
  {
    && 1 <= s.window && |s.pending| <= s.window
    && s.Ranged()
    && (forall id :: id in s.pending ==> s.msgs[s.pending[id]].msgId == id)
    && (forall i :: 0 <= i < |s.queue| ==> s.msgs[s.queue[i]].msgId !in s.pending)
    && (forall i, j :: 0 <= i < j < |s.queue| ==> s.msgs[s.queue[i]].msgId != s.msgs[s.queue[j]].msgId)
    && (forall u :: 0 <= u < |s.msgs| ==> (s.msgs[u].ch.Open? <==> s.InFlight(u) || u in s.queue))
    && (forall u :: 0 <= u < |s.msgs| ==> !s.msgs[u].ch.Fault?)
  }

  /** A request that waits in the queue waits behind one in flight. */
  ghost predicate Inv(s: State): (b: bool)
    ensures b ==> s.Ranged()
  {
    Core(s) && (s.queue != [] ==> |s.pending| > 0)
  }

  /** `NewTaskManager`: a window below one is raised to one. */
  function Init(window: int, cfg: Config): (s: State)
    ensures Inv(s) && s.cfg == cfg && s.msgs == [] && !s.cancelled
    ensures s.window >= 1 && s.window >= window && (s.window == 1 || s.window == window)
  {
    State(if window < 1 then 1 else window, cfg, map[], [], [], false)
  }

  lemma InsertSize(m: map<nat, nat>, k: nat, v: nat)
    ensures |m[k := v]| == if k in m then |m| else |m| + 1
  {
    assert m[k := v].Keys == m.Keys + {k};
  }

  lemma RemoveSize(m: map<nat, nat>, k: nat)
    requires k in m
    ensures |m - {k}| == |m| - 1
  {
    assert (m - {k}).Keys == m.Keys - {k};
  }

  /** Admitting the head of the queue restores the full invariant. */
  lemma PumpInv(s: State, now: real)
    requires Core(s)
    ensures Inv(Pump(s, now))
  {
    if |s.queue| > 0 && |s.pending| < s.window {
      var u := s.queue[0];
      var t := Pump(s, now);
      InsertSize(s.pending, s.msgs[u].msgId, u);
      assert forall i :: 0 <= i < |t.queue| ==> t.queue[i] == s.queue[i + 1];
      forall v | 0 <= v < |t.msgs|
        ensures t.msgs[v].ch.Open? <==> t.InFlight(v) || v in t.queue
      {
        assert t.msgs[v].msgId == s.msgs[v].msgId && t.msgs[v].ch == s.msgs[v].ch;
        assert v in s.queue <==> v == u || v in t.queue;
      }
    }
  }

  lemma EnqueueSends(s: State, id: nat, now: real)
    requires Inv(s) && s.Fresh(id) && |s.pending| < s.window
    ensures Inv(Enqueue(s, id, now))
  {
    var u, t := |s.msgs|, Enqueue(s, id, now);
    InsertSize(s.pending, id, u);
    assert forall v :: 0 <= v < u ==> t.msgs[v] == s.msgs[v];
    assert t.InFlight(u) && t.msgs[u].ch.Open?;
    assert forall v :: 0 <= v < u ==> (t.InFlight(v) <==> s.InFlight(v));
  }

  lemma EnqueueWaits(s: State, id: nat, now: real)
    requires Inv(s) && s.Fresh(id) && |s.pending| >= s.window
    ensures Inv(Enqueue(s, id, now))
  {
    var u, t := |s.msgs|, Enqueue(s, id, now);
    assert forall v :: 0 <= v < u ==> t.msgs[v] == s.msgs[v];
    assert t.queue[|s.queue|] == u;
    assert forall v :: 0 <= v < u ==> (v in t.queue <==> v in s.queue) && (t.InFlight(v) <==> s.InFlight(v));
  }

  lemma EnqueueInv(s: State, id: nat, now: real)
    requires Inv(s) && s.Fresh(id)
    ensures Inv(Enqueue(s, id, now))
  {
    hide Inv, Enqueue;
    if |s.pending| < s.window {
      EnqueueSends(s, id, now);
    } else {
      EnqueueWaits(s, id, now);
    }
  }

  lemma AnswerCore(s: State, id: nat, data: Bytes)
    requires Inv(s) && id in s.pending
    ensures Core(Answer(s, id, data))
  {
    var t := Answer(s, id, data);
    var u := s.pending[id];
    RemoveSize(s.pending, id);
    assert s.InFlight(u);
    forall v | 0 <= v < |t.msgs|
      ensures t.msgs[v].ch.Open? <==> t.InFlight(v) || v in t.queue
    {
      assert t.msgs[v].msgId == s.msgs[v].msgId;
    }
  }

  lemma RespondInv(s: State, id: nat, data: Bytes, now: real)
    requires Inv(s)
    ensures Inv(Respond(s, id, data, now))
  {
    if id in s.pending {
      AnswerCore(s, id, data);
      PumpInv(Answer(s, id, data), now);
    }
  }

  lemma SweepCore(s: State, now: real)
    requires Inv(s)
    ensures Core(Sweep(s, now))
  {
    var t := Sweep(s, now);
    SubsetSize(t.pending.Keys, s.pending.Keys);
    assert forall v :: 0 <= v < |t.msgs| ==> t.msgs[v].msgId == s.msgs[v].msgId;
    forall v | 0 <= v < |t.msgs|
      ensures t.msgs[v].ch.Open? <==> t.InFlight(v) || v in t.queue
      ensures !t.msgs[v].ch.Fault?
    {
      assert s.InFlight(v) && v in s.queue ==> false;
    }
  }

  lemma PassInv(s: State, now: real, later: real)
    requires Inv(s)
    ensures Inv(Pass(s, now, later))
  {
    hide Expire, Dead, Pump;
    SweepCore(s, now);
    PumpInv(Sweep(s, now), later);
    if !AnyDead(s, now) {
      assert Sweep(s, now).pending == s.pending;
    }
  }

  lemma CancelInv(s: State)
    requires Inv(s)
    ensures Inv(Cancel(s))
  {
    var t := Cancel(s);
    forall v | 0 <= v < |t.msgs|
      ensures !t.msgs[v].ch.Open? && !t.msgs[v].ch.Fault?
    {
    }
  }

  /** The requests a pass at `now` closes. */
  function DeadIds(s: State, now: real): set<nat>
    requires s.Ranged()
  {
    set id | id in s.pending && Dead(s.cfg, s.msgs[s.pending[id]], now)
  }

  lemma SweepSize(s: State, now: real)
    requires s.Ranged()
    ensures |Sweep(s, now).pending| == |s.pending| - |DeadIds(s, now)|
    ensures AnyDead(s, now) <==> DeadIds(s, now) != {}
  {
    hide Dead;
    var t := Sweep(s, now);
    assert t.pending.Keys == s.pending.Keys - DeadIds(s, now);
    assert s.pending.Keys == t.pending.Keys + DeadIds(s, now);
    if DeadIds(s, now) != {} {
      var id :| id in DeadIds(s, now);
      assert AnyDead(s, now);
    }
  }

  lemma PumpSize(s: State, now: real)
    requires Core(s)
    ensures var t := Pump(s, now);
      && t.window == s.window
      && if |s.queue| > 0 && |s.pending| < s.window
         then |t.pending| == |s.pending| + 1 && t.queue == s.queue[1..]
         else t == s
  {
    if |s.queue| > 0 && |s.pending| < s.window {
      InsertSize(s.pending, s.msgs[s.queue[0]].msgId, s.queue[0]);
    }
  }

  lemma WindowBound(s: State)
    requires Inv(s)
    ensures |s.pending| <= s.window
  {
  }

  /**
   A pass admits one queued request however many slots it frees. It ends with the queue empty or the window full
   exactly when: it closes nothing and that was so before; or at most one request was waiting; or it closes
   exactly one request of a full window.
   */
  lemma UnderfilledWindow(s: State, now: real, later: real)
    requires Inv(s)
    ensures var t := Pass(s, now, later);
      (t.queue == [] || |t.pending| == t.window)
      <==> if DeadIds(s, now) == {} then s.queue == [] || |s.pending| == s.window
           else |s.queue| <= 1 || (|s.pending| == s.window && |DeadIds(s, now)| == 1)
  {
    hide Dead, Expire, Pump, Inv, Core;
    SweepCore(s, now);
    SweepSize(s, now);
    PumpSize(Sweep(s, now), later);
    WindowBound(s);
    if DeadIds(s, now) != {} {
      SubsetSize({}, DeadIds(s, now));
    }
  }

  lemma PumpKeepsIds(s: State, now: real)
    requires s.Ranged()
    ensures |Pump(s, now).msgs| == |s.msgs|
    ensures forall u :: 0 <= u < |s.msgs| ==> Pump(s, now).msgs[u].msgId == s.msgs[u].msgId
  {
  }
}
