/** The task manager as the source runs it: fields updated in place under a lock, loops over the in-flight map. */
module TaskManager {
  import opened Bytes
  import opened Window

  /** Holds in every state of the object, even when callers reuse message IDs. */
  ghost predicate Sound(s: State): (b: bool)
    ensures b ==> s.Ranged()
  {
    && s.Ranged()
    && (forall id :: id in s.pending ==> s.msgs[s.pending[id]].msgId == id)
    && (forall i :: 0 <= i < |s.queue| ==> !s.InFlight(s.queue[i]))
    && (forall i, j :: 0 <= i < j < |s.queue| ==> s.queue[i] != s.queue[j])
  }

  /** A channel closed by cancellation. */
  function Closed(m: Message): Message {
    m.(ch := m.ch.Close(Cancelled))
  }

  lemma CancelledMessages(s: State, ms: seq<Message>)
    requires s.Ranged() && |ms| == |s.msgs|
    requires forall u :: 0 <= u < |ms| ==>
               ms[u] == if s.InFlight(u) || u in s.queue then Closed(s.msgs[u]) else s.msgs[u]
    ensures ms == Cancel(s).msgs
  {
  }

  lemma EnqueueSound(s: State, id: nat, now: real)
    requires Sound(s)
    ensures Sound(Enqueue(s, id, now))
  {
    var t := Enqueue(s, id, now);
    assert forall u :: 0 <= u < |s.msgs| ==> t.msgs[u] == s.msgs[u];
  }

  lemma PumpSound(s: State, now: real)
    requires Sound(s)
    ensures Sound(Pump(s, now))
  {
    var t := Pump(s, now);
    assert forall u :: 0 <= u < |s.msgs| ==> t.msgs[u].msgId == s.msgs[u].msgId;
    assert t.queue != s.queue ==> forall i :: 0 <= i < |t.queue| ==> t.queue[i] == s.queue[i + 1];
  }

  lemma AnswerSound(s: State, id: nat, data: Bytes)
    requires Sound(s) && id in s.pending
    ensures Sound(Answer(s, id, data))
  {
    var t := Answer(s, id, data);
    assert forall u :: 0 <= u < |s.msgs| ==> t.msgs[u].msgId == s.msgs[u].msgId;
  }

  lemma SweepSound(s: State, now: real)
    requires Sound(s)
    ensures Sound(Sweep(s, now))
  {
    var t := Sweep(s, now);
    assert forall u :: 0 <= u < |s.msgs| ==> t.msgs[u].msgId == s.msgs[u].msgId;
  }

  class TaskManager {
    const windowSize: nat
    const config: Config
    var pending: map<nat, nat>
    var queue: seq<nat>
    var msgs: seq<Message>
    var cancelled: bool

    function View(): State
      reads this
    {
      State(windowSize, config, pending, queue, msgs, cancelled)
    }

    constructor (cfg: Config, winSize: int)
      ensures Sound(View()) && View() == Init(winSize, cfg)
    {
      config := cfg;
      windowSize := if winSize < 1 then 1 else winSize;
      pending, queue, msgs, cancelled := map[], [], [], false;
    }

    /** `activateMessage`: put the request under its ID, set its deadline and transmit it. */
    method ActivateMessage(u: nat, now: real)
      requires u < |msgs|
      modifies this`pending, this`msgs
      ensures View() == Activate(old(View()), u, now)
    {
      var m := msgs[u];
      msgs := msgs[u := m.(deadline := now + m.nextTimeout, sent := m.sent + 1, activatedAt := now)];
      pending := pending[m.msgId := u];
    }

    /** `EnqueueRequest`: the result stands for the completion channel handed to the caller. */
    method EnqueueRequest(msgId: nat, now: real) returns (u: nat)
      requires Sound(View())
      modifies this
      ensures Sound(View()) && View() == Enqueue(old(View()), msgId, now)
      ensures u == |old(msgs)|
    {
      hide Sound;
      u := |msgs|;
      EnqueueSound(View(), msgId, now);
      msgs := msgs + [NewMessage(config, msgId)];
      if |pending| < windowSize {
        ActivateMessage(u, now);
      } else {
        queue := queue + [u];
      }
    }

    /** `pumpQueue`. */
    method PumpQueue(now: real)
      requires Sound(View())
      modifies this
      ensures Sound(View()) && View() == Pump(old(View()), now)
    {
      hide Sound;
      PumpSound(View(), now);
      if |queue| > 0 && |pending| < windowSize {
        var u := queue[0];
        queue := queue[1..];
        ActivateMessage(u, now);
      }
    }

    /** `HandleResponse`. */
    method HandleResponse(msgId: nat, data: Bytes, now: real) returns (handled: bool)
      requires Sound(View())
      modifies this
      ensures Sound(View()) && View() == Respond(old(View()), msgId, data, now)
      ensures handled <==> msgId in old(pending)
    {
      hide Sound;
      if msgId !in pending { return false; }
      AnswerSound(View(), msgId, data);
      var u := pending[msgId];
      pending := pending - {msgId};
      msgs := msgs[u := msgs[u].(ch := msgs[u].ch.Send(data))];
      PumpQueue(now);
      return true;
    }

    /** The body of that loop: retransmit with a longer timeout, or close and report the request dead. */
    method ExpireOne(m: Message, now: real) returns (m': Message, dead: bool)
      ensures m' == Expire(config, m, now) && dead == Dead(config, m, now)
      ensures dead <==> m.deadline <= now && m.retry >= config.maxRetries
      ensures m.deadline <= now && !dead ==>
        var next := m.nextTimeout * config.backoff;
        && m'.retry == m.retry + 1 && m'.sent == m.sent + 1 && m'.deadline == now + m'.nextTimeout
        && m'.nextTimeout == if 0.0 < config.maxTimeout < next then config.maxTimeout else next
    {
      m', dead := m, false;
      if Due(m, now) {
        if m.retry >= config.maxRetries {
          dead := true;
          m' := m.(ch := m.ch.Close(TimedOut(now)));
        } else {
          var t := m.nextTimeout * config.backoff;
          if config.maxTimeout > 0.0 && t > config.maxTimeout {
            t := config.maxTimeout;
          }
          m' := m.(retry := m.retry + 1, nextTimeout := t, deadline := now + t, sent := m.sent + 1);
        }
      }
    }

    /** The loop of `checkTimeouts`, visiting the in-flight map in an arbitrary order. */
    method ExpireAll(now: real) returns (toDelete: set<nat>)
      requires Sound(View())
      modifies this`msgs
      ensures msgs == Sweep(old(View()), now).msgs
      ensures forall id :: id in toDelete <==> id in pending && Dead(config, old(msgs)[pending[id]], now)
    {
      hide Expire, Due, Dead;
      ghost var s := View();
      var todo := pending.Keys;
      toDelete := {};
      while todo != {}
        invariant todo <= pending.Keys && |msgs| == |s.msgs|
        invariant forall u :: 0 <= u < |msgs| ==>
                    msgs[u] == if s.InFlight(u) && s.msgs[u].msgId !in todo
                               then Expire(config, s.msgs[u], now) else s.msgs[u]
        invariant forall id :: id in toDelete <==>
                    id in pending && id !in todo && Dead(config, s.msgs[pending[id]], now)
        decreases todo
      {
        var id :| id in todo;
        var u := pending[id];
        assert s.InFlight(u) && s.msgs[u].msgId == id && msgs[u] == s.msgs[u];
        ExpireKeepsId(config, msgs[u], now);
        var m, dead := ExpireOne(msgs[u], now);
        msgs := msgs[u := m];
        if dead { toDelete := toDelete + {id}; }
        todo := todo - {id};
      }
      assert msgs == Sweep(s, now).msgs;
    }

    /** `checkTimeouts`, with the clock readings at its start and at the admission that may end it. */
    method CheckTimeouts(now: real, later: real)
      requires Sound(View())
      modifies this
      ensures Sound(View()) && View() == Pass(old(View()), now, later)
    {
      hide Expire, Dead, Sound;
      ghost var s := View();
      SweepSound(s, now);
      var toDelete := ExpireAll(now);
      pending := pending - toDelete;
      assert pending == Sweep(s, now).pending;
      assert View() == Sweep(s, now);
      if toDelete != {} {
        var id :| id in toDelete;
        assert AnyDead(s, now);
        PumpQueue(later);
      } else {
        assert !AnyDead(s, now);
      }
    }

    /** Closing the in-flight channels, in an arbitrary order. */
    method ClosePending()
      requires Sound(View())
      modifies this`msgs
      ensures |msgs| == |old(msgs)|
      ensures forall u :: 0 <= u < |msgs| ==>
                msgs[u] == if old(View()).InFlight(u) then Closed(old(msgs)[u]) else old(msgs)[u]
    {
      hide Closed;
      ghost var s := View();
      var todo := pending.Keys;
      while todo != {}
        invariant todo <= pending.Keys && |msgs| == |s.msgs|
        invariant forall u :: 0 <= u < |msgs| ==>
                    msgs[u] == if s.InFlight(u) && s.msgs[u].msgId !in todo then Closed(s.msgs[u]) else s.msgs[u]
        decreases todo
      {
        var id :| id in todo;
        var u := pending[id];
        assert s.InFlight(u) && s.msgs[u].msgId == id && msgs[u] == s.msgs[u];
        msgs := msgs[u := Closed(msgs[u])];
        todo := todo - {id};
      }
    }

    /** The cancellation branch of `windowLoop`: close every waiting channel and forget the requests. */
    method CancelAll()
      requires Sound(View())
      modifies this
      ensures Sound(View()) && View() == Cancel(old(View()))
    {
      hide Closed;
      ghost var s := View();
      ClosePending();
      for i := 0 to |queue|
        invariant pending == s.pending && queue == s.queue && cancelled == s.cancelled && |msgs| == |s.msgs|
        invariant forall u :: 0 <= u < |msgs| ==>
                    msgs[u] == if s.InFlight(u) || u in queue[..i] then Closed(s.msgs[u]) else s.msgs[u]
      {
        var u := queue[i];
        assert msgs[u] == s.msgs[u];
        assert queue[..i + 1] == queue[..i] + [u];
        msgs := msgs[u := Closed(msgs[u])];
      }
      assert queue[..|queue|] == queue;
      CancelledMessages(s, msgs);
      pending, queue, cancelled := map[], [], true;
    }
  }
}
