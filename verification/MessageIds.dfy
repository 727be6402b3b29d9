/**
 Message-ID allocation over the life of a session: draws, jumps demanded by IKEV2_MESSAGE_ID_SYNC
 (RFC 6311), and the counter reset that goes with an initiator IKE rekey.
 */
module MessageIds {
  import opened Bytes
  import opened IkePayload

  const MESSAGE_ID_SYNC := 16422
  const UPDATE_SA_ADDRESSES := 16400
  const PROTO_ESP: Byte := 3

  /** The counter under the current keys; `issued` lists every (key epoch, ID) pair drawn so far. */
  datatype Ids = Ids(epoch: nat, counter: nat, wrapped: bool, issued: seq<(nat, nat)>)

  datatype Action = Draw | Sync(expectedRecv: nat) | Rekey

  /** One step. `wrapped` remembers that the last ID below the 32-bit wrap was drawn under the current keys. */
  function Step(s: Ids, a: Action): Ids {
    match a
    case Draw =>
      s.(counter := (s.counter + 1) % U32_SIZE,
         wrapped := s.wrapped || s.counter == U32_SIZE - 1,
         issued := s.issued + [(s.epoch, s.counter)])
    case Sync(e) => if e > s.counter then s.(counter := e) else s
    case Rekey => s.(epoch := s.epoch + 1, counter := 0, wrapped := false)
  }

  function Run(s: Ids, run: seq<Action>): Ids
    decreases |run|
  {
    if run == [] then s else Run(Step(s, run[0]), run[1..])
  }

  /** Sync data is a 32-bit field, and nothing is drawn beyond the wrap under the same keys. */
  predicate BelowWrap(s: Ids, run: seq<Action>)
    decreases |run|
  {
    run != [] ==>
      && (run[0].Draw? ==> !s.wrapped)
      && (run[0].Sync? ==> run[0].expectedRecv < U32_SIZE)
      && BelowWrap(Step(s, run[0]), run[1..])
  }

  /** Under every key epoch the IDs drawn so far increase, and those of the current epoch are below the counter. */
  ghost predicate Ordered(s: Ids) {
    && s.counter < U32_SIZE
    && (forall i :: 0 <= i < |s.issued| ==>
          s.issued[i].0 <= s.epoch && (s.issued[i].0 == s.epoch && !s.wrapped ==> s.issued[i].1 < s.counter))
    && (forall i, j :: 0 <= i < j < |s.issued| ==>
          s.issued[i].0 < s.issued[j].0 || (s.issued[i].0 == s.issued[j].0 && s.issued[i].1 < s.issued[j].1))
  }

  lemma StepOrdered(s: Ids, a: Action)
    requires Ordered(s) && (a.Draw? ==> !s.wrapped) && (a.Sync? ==> a.expectedRecv < U32_SIZE)
    ensures Ordered(Step(s, a))
  {
  }

  /**
   Freshness: over any run of draws, sync jumps and rekeys below the wrap, no (key epoch, ID) pair is issued
   twice; within an epoch the IDs strictly increase.
   */
  lemma {:induction false} NeverReissued(s: Ids, run: seq<Action>)
    requires Ordered(s) && BelowWrap(s, run)
    ensures Ordered(Run(s, run))
    ensures forall i, j :: 0 <= i < j < |Run(s, run).issued| ==> Run(s, run).issued[i] != Run(s, run).issued[j]
    decreases |run|
  {
    hide Step;
    if run == [] {
    } else {
      StepOrdered(s, run[0]);
      NeverReissued(Step(s, run[0]), run[1..]);
    }
  }

  /** Beyond the wrap it fails: one sync message to the top of the range, and the third draw repeats the first. */
  lemma ReissuedAfterWrap(epoch: nat)
    ensures var s := Ids(epoch, 0, false, []);
      var run := [Draw, Sync(U32_SIZE - 1), Draw, Draw];
      && !BelowWrap(s, run)
      && Run(s, run).issued == [(epoch, 0), (epoch, U32_SIZE - 1), (epoch, 0)]
  {
    var s := Ids(epoch, 0, false, []);
    var s1 := Step(s, Draw);
    var s2 := Step(s1, Sync(U32_SIZE - 1));
    var s3 := Step(s2, Draw);
    var s4 := Step(s3, Draw);
    var run := [Draw, Sync(U32_SIZE - 1), Draw, Draw];
    assert run[1..] == [Sync(U32_SIZE - 1), Draw, Draw] && run[1..][1..] == [Draw, Draw];
    assert Run(s3, [Draw]) == s4 && Run(s2, [Draw, Draw]) == s4;
    assert Run(s1, run[1..]) == s4;
    assert !BelowWrap(s3, [Draw]) && !BelowWrap(s2, [Draw, Draw]);
    assert !BelowWrap(s1, run[1..]);
  }

  /** The largest of the expected IDs, or zero. */
  function Top(jumps: seq<nat>): nat {
    if jumps == [] then 0
    else
      var top := Top(jumps[..|jumps| - 1]);
      if jumps[|jumps| - 1] > top then jumps[|jumps| - 1] else top
  }

  function Syncs(jumps: seq<nat>): seq<Action> {
    if jumps == [] then [] else [Sync(jumps[0])] + Syncs(jumps[1..])
  }

  lemma {:induction false} RunAppend(s: Ids, run: seq<Action>, a: Action)
    ensures Run(s, run + [a]) == Step(Run(s, run), a)
    decreases |run|
  {
    hide Step;
    if run == [] {
      assert [] + [a] == [a] && [a][1..] == [];
    } else {
      RunAppend(Step(s, run[0]), run[1..], a);
      assert (run + [a])[1..] == run[1..] + [a];
    }
  }

  lemma {:induction false} SyncsAppend(jumps: seq<nat>, e: nat)
    ensures Syncs(jumps + [e]) == Syncs(jumps) + [Sync(e)]
  {
    if jumps == [] {
      assert [] + [e] == [e];
    } else {
      SyncsAppend(jumps[1..], e);
      assert (jumps + [e])[1..] == jumps[1..] + [e];
    }
  }

  lemma {:induction false} JumpsToTop(s: Ids, jumps: seq<nat>)
    requires s.counter == 0
    ensures Run(s, Syncs(jumps)) == s.(counter := Top(jumps))
  {
    if jumps == [] {
    } else {
      var init, e := jumps[..|jumps| - 1], jumps[|jumps| - 1];
      JumpsToTop(s, init);
      SyncsAppend(init, e);
      RunAppend(s, Syncs(init), Sync(e));
      assert jumps == init + [e];
    }
  }

  function Draws(k: nat): seq<Action> {
    if k == 0 then [] else Draws(k - 1) + [Draw]
  }

  /** `k` consecutive IDs of one epoch. */
  function From(epoch: nat, first: nat, k: nat): (r: seq<(nat, nat)>)
    ensures |r| == k && forall i :: 0 <= i < k ==> r[i] == (epoch, first + i)
  {
    seq(k, i requires 0 <= i < k => (epoch, first + i))
  }

  lemma NoRun(s: Ids)
    ensures Run(s, []) == s
  {
  }

  lemma {:induction false} DrawsIssue(s: Ids, k: nat)
    requires s.counter + k <= U32_SIZE && s.counter < U32_SIZE
    ensures var t := Run(s, Draws(k));
      && t.issued == s.issued + From(s.epoch, s.counter, k)
      && t.epoch == s.epoch && t.counter == (s.counter + k) % U32_SIZE
  {
    hide Run;
    if k == 0 {
      NoRun(s);
      assert s.issued + From(s.epoch, s.counter, 0) == s.issued;
    } else {
      DrawsIssue(s, k - 1);
      RunAppend(s, Draws(k - 1), Draw);
      var last := (s.epoch, s.counter + (k - 1));
      assert From(s.epoch, s.counter, k) == From(s.epoch, s.counter, k - 1) + [last];
      assert Run(s, Draws(k)).issued == Run(s, Draws(k - 1)).issued + [last];
    }
  }

  predicate WasDrawn(issued: seq<(nat, nat)>, epoch: nat, id: nat) {
    (epoch, id) in issued
  }

  /** Entry `n + i` of the list repeats an earlier one. */
  predicate Repeats(issued: seq<(nat, nat)>, n: nat, i: nat) {
    n + i < |issued| && issued[n + i] in issued[..n + i]
  }

  lemma AppendRepeats(issued: seq<(nat, nat)>, epoch: nat, first: nat, k: nat, i: nat)
    requires i < k
    ensures Repeats(issued + From(epoch, first, k), |issued|, i) <==> WasDrawn(issued, epoch, first + i)
  {
    var next := From(epoch, first, k);
    assert (issued + next)[..|issued| + i] == issued + next[..i];
    assert forall j :: 0 <= j < i ==> next[..i][j] == (epoch, first + j);
  }

  /**
   From any state, whatever happened before: of the next `k` draws up to the wrap, draw number `i` repeats an
   earlier one under the same keys if and only if the ID `i` above the counter was drawn before.
   */
  lemma DrawsRepeatExactly(s: Ids, k: nat, i: nat)
    requires s.counter + k <= U32_SIZE && s.counter < U32_SIZE && i < k
    ensures var t := Run(s, Draws(k));
      && |t.issued| == |s.issued| + k && t.issued[|s.issued| + i] == (s.epoch, s.counter + i)
      && (Repeats(t.issued, |s.issued|, i) <==> WasDrawn(s.issued, s.epoch, s.counter + i))
  {
    hide Draws, Run;
    DrawsIssue(s, k);
    AppendRepeats(s.issued, s.epoch, s.counter, k, i);
  }

  /** So the next `k` draws are all fresh exactly when none of the `k` IDs from the counter on was drawn before. */
  lemma DrawsFreshExactly(s: Ids, k: nat)
    requires s.counter + k <= U32_SIZE && s.counter < U32_SIZE
    ensures (forall i :: 0 <= i < k ==> !Repeats(Run(s, Draws(k)).issued, |s.issued|, i))
       <==> (forall id :: s.counter <= id < s.counter + k ==> !WasDrawn(s.issued, s.epoch, id))
  {
    hide Repeats, WasDrawn, Draws, Run;
    var u := Run(s, Draws(k));
    if forall i :: 0 <= i < k ==> !Repeats(u.issued, |s.issued|, i) {
      forall id | s.counter <= id < s.counter + k ensures !WasDrawn(s.issued, s.epoch, id) {
        DrawsRepeatExactly(s, k, id - s.counter);
        assert !Repeats(u.issued, |s.issued|, id - s.counter);
        assert s.counter + (id - s.counter) == id;
      }
    }
    if forall id :: s.counter <= id < s.counter + k ==> !WasDrawn(s.issued, s.epoch, id) {
      forall i | 0 <= i < k ensures !Repeats(u.issued, |s.issued|, i) {
        DrawsRepeatExactly(s, k, i);
      }
    }
  }

  lemma {:induction false} TopInRange(jumps: seq<nat>)
    requires forall i :: 0 <= i < |jumps| ==> jumps[i] < U32_SIZE
    ensures Top(jumps) < U32_SIZE
  {
    if jumps == [] {
    } else {
      TopInRange(jumps[..|jumps| - 1]);
    }
  }

  /**
   Exactly when draws after the wrap repeat IDs of the same keys. They start at the largest ID the peer asked for
   since the wrap, or at zero if it asked for none, and the first `k` of them are all fresh if and only if none of
   the `k` IDs from there on was drawn by then; so the first repeat is the smallest of those that was.
   */
  lemma RepeatsAfterWrapExactly(s: Ids, jumps: seq<nat>, k: nat)
    requires Ordered(s) && !s.wrapped && s.counter == U32_SIZE - 1
    requires (forall i :: 0 <= i < |jumps| ==> jumps[i] < U32_SIZE) && Top(jumps) + k <= U32_SIZE
    ensures var t := Run(Step(s, Draw), Syncs(jumps));
      && t.issued == s.issued + [(s.epoch, U32_SIZE - 1)] && t.epoch == s.epoch && t.counter == Top(jumps)
      && ((forall i :: 0 <= i < k ==> !Repeats(Run(t, Draws(k)).issued, |t.issued|, i))
          <==> (forall id :: Top(jumps) <= id < Top(jumps) + k ==> !WasDrawn(t.issued, s.epoch, id)))
  {
    hide Repeats, WasDrawn, Draws, Top, Ordered, Run, Syncs;
    JumpsToTop(Step(s, Draw), jumps);
    TopInRange(jumps);
    DrawsFreshExactly(Run(Step(s, Draw), Syncs(jumps)), k);
  }

  // ---------- interleaved sends ----------

  /** What a send registers: the keys and the counter as they are when it loads the counter, less one. */
  function Registered(s: Ids): (nat, nat) {
    (s.epoch, (s.counter + U32_SIZE - 1) % U32_SIZE)
  }

  /** No draw, no key switch, and no jump that moves the counter. */
  predicate Quiet(s: Ids, between: seq<Action>) {
    forall i :: 0 <= i < |between| ==> between[i].Sync? && between[i].expectedRecv <= s.counter
  }

  lemma {:induction false} QuietKeeps(s: Ids, between: seq<Action>)
    requires Quiet(s, between)
    ensures Run(s, between) == s
    decreases |between|
  {
    if between == [] {
    } else {
      assert Step(s, between[0]) == s;
      QuietKeeps(s, between[1..]);
    }
  }

  /** Below the wrap the epoch and, within it, the counter never fall, and only a quiet run leaves both alone. */
  lemma {:induction false} RunGrows(s: Ids, run: seq<Action>)
    requires Ordered(s) && BelowWrap(s, run)
    ensures var t := Run(s, run);
      && t.epoch >= s.epoch && t.counter < U32_SIZE
      && (t.epoch == s.epoch ==> (s.wrapped ==> t.wrapped))
      && (t.epoch == s.epoch && t.wrapped == s.wrapped ==>
            t.counter >= s.counter && (!Quiet(s, run) ==> t.counter > s.counter))
    decreases |run|
  {
    if run == [] {
    } else {
      StepOrdered(s, run[0]);
      RunGrows(Step(s, run[0]), run[1..]);
      if Step(s, run[0]) == s && Quiet(s, run[1..]) {
        assert forall i :: 0 < i < |run| ==> run[i] == run[1..][i - 1];
      }
    }
  }

  /**
   A send draws its ID, and later registers the counter less one. While the counter does not wrap, it registers the
   ID it drew, under the keys it drew it for, if and only if in between nothing was drawn, the keys were not
   switched, and no jump moved the counter. So of two interleaved sends both register their own IDs exactly when
   neither draws between the other's draw and load.
   */
  lemma RegistersOwnExactly(s: Ids, between: seq<Action>)
    requires Ordered(s) && !s.wrapped && BelowWrap(Step(s, Draw), between)
    requires Run(Step(s, Draw), between).wrapped == Step(s, Draw).wrapped
    ensures Registered(Run(Step(s, Draw), between)) == (s.epoch, s.counter) <==> Quiet(Step(s, Draw), between)
  {
    var d := Step(s, Draw);
    StepOrdered(s, Draw);
    RunGrows(d, between);
    if Quiet(d, between) {
      QuietKeeps(d, between);
    }
  }

  // ---------- the sync branch ----------

  /** The peer's expected ID in a usable sync notify. */
  function SyncValue(p: Payload): Option<nat> {
    if p.PNotify? && p.notifyType == MESSAGE_ID_SYNC && |p.notifyData| >= 12
    then Some(GetBE(p.notifyData[8..12])) else None
  }

  /** The SPIs of the current Child SAs; an SA that is gone has none. */
  datatype Child = Child(inbound: Option<nat>, outbound: Option<nat>)

  /** The SPI loop for a Delete of ESP SAs: the Child SAs left, and whether a deletion is to be answered. */
  function DeleteSpis(c: Child, spis: Bytes): (Child, bool)
    decreases |spis|
  {
    if |spis| < 4 then (c, false)
    else
      var spi := GetBE(spis[..4]);
      var (rest, more) := DeleteSpis(if c.outbound == Some(spi) then c.(outbound := None) else c, spis[4..]);
      (rest, more || (c.outbound.Some? && c.inbound == Some(spi)))
  }

  /** What one payload does: the Child SAs after it, a jump, and whether processing ends with it. */
  datatype Effect = Effect(child: Child, jump: Option<nat>, ends: bool)

  function OnPayload(mobike: bool, c: Child, p: Payload): Effect {
    if SyncValue(p).Some? then Effect(c, SyncValue(p), true)
    else if p.PNotify? then Effect(c, None, p.notifyType == UPDATE_SA_ADDRESSES && mobike)
    else if p.PDelete? && p.deleteProto == PROTO_ESP && p.spiSize == 4 then
      var (rest, answered) := DeleteSpis(c, p.spis);
      Effect(rest, None, answered)
    else Effect(c, None, false)
  }

  /** A received INFORMATIONAL message: payloads are handled in order until one ends the processing. */
  function OnMessage(mobike: bool, c: Child, ps: seq<Payload>): Effect
    decreases |ps|
  {
    if ps == [] then Effect(c, None, false)
    else
      var e := OnPayload(mobike, c, ps[0]);
      if e.ends then e else OnMessage(mobike, e.child, ps[1..])
  }

  /** The `j`-th 32-bit word of a Delete's SPI bytes is `v`. */
  predicate Word(spis: Bytes, j: nat, v: nat) {
    4 * j + 4 <= |spis| && GetBE(spis[4 * j..4 * j + 4]) == v
  }

  ghost predicate Names(spis: Bytes, v: Option<nat>) {
    v.Some? && exists j: nat :: Word(spis, j, v.value)
  }

  ghost predicate NotBefore(spis: Bytes, j: nat, u: nat) {
    forall i: nat :: i < j ==> !Word(spis, i, u)
  }

  /** Some word is `v`, and no word before it is `u`. */
  ghost predicate NamesBefore(spis: Bytes, v: nat, u: nat) {
    exists j: nat :: Word(spis, j, v) && NotBefore(spis, j, u)
  }

  lemma WordShift(spis: Bytes, j: nat, v: nat)
    requires |spis| >= 4
    ensures Word(spis, j + 1, v) <==> Word(spis[4..], j, v)
    ensures Word(spis, 0, v) <==> GetBE(spis[..4]) == v
  {
    if 4 * j + 8 <= |spis| {
      assert spis[4..][4 * j..4 * j + 4] == spis[4 * (j + 1)..4 * (j + 1) + 4];
    }
  }

  lemma NamesStep(spis: Bytes, v: nat)
    requires |spis| >= 4
    ensures Names(spis, Some(v)) <==> GetBE(spis[..4]) == v || Names(spis[4..], Some(v))
  {
    hide Word;
    WordShift(spis, 0, v);
    if Names(spis, Some(v)) {
      var j: nat :| Word(spis, j, v);
      if j > 0 { WordShift(spis, j - 1, v); }
    }
    if Names(spis[4..], Some(v)) {
      var j: nat :| Word(spis[4..], j, v);
      WordShift(spis, j, v);
    }
  }

  lemma NotBeforeStep(spis: Bytes, j: nat, u: nat)
    requires |spis| >= 4
    ensures NotBefore(spis, j + 1, u) <==> GetBE(spis[..4]) != u && NotBefore(spis[4..], j, u)
  {
    hide Word;
    WordShift(spis, 0, u);
    if NotBefore(spis, j + 1, u) {
      assert !Word(spis, 0, u);
      forall i: nat | i < j ensures !Word(spis[4..], i, u) {
        WordShift(spis, i, u);
        assert !Word(spis, i + 1, u);
      }
    }
    if GetBE(spis[..4]) != u && NotBefore(spis[4..], j, u) {
      forall i: nat | i < j + 1 ensures !Word(spis, i, u) {
        if i > 0 {
          WordShift(spis, i - 1, u);
          assert !Word(spis[4..], i - 1, u);
        }
      }
    }
  }

  lemma NothingBefore(spis: Bytes, u: nat)
    ensures NotBefore(spis, 0, u)
  {
  }

  lemma NamesBeforeStep(spis: Bytes, v: nat, u: nat)
    requires |spis| >= 4
    ensures NamesBefore(spis, v, u)
      <==> GetBE(spis[..4]) == v || (GetBE(spis[..4]) != u && NamesBefore(spis[4..], v, u))
  {
    hide Word, NotBefore;
    WordShift(spis, 0, v);
    if NamesBefore(spis, v, u) {
      var j: nat :| Word(spis, j, v) && NotBefore(spis, j, u);
      if j > 0 {
        WordShift(spis, j - 1, v);
        NotBeforeStep(spis, j - 1, u);
      }
    }
    if GetBE(spis[..4]) == v {
      NothingBefore(spis, u);
    }
    if GetBE(spis[..4]) != u && NamesBefore(spis[4..], v, u) {
      var j: nat :| Word(spis[4..], j, v) && NotBefore(spis[4..], j, u);
      WordShift(spis, j, v);
      NotBeforeStep(spis, j, u);
    }
  }

  lemma NoWords(spis: Bytes, c: Child)
    requires |spis| < 4
    ensures !Names(spis, c.outbound)
    ensures c.outbound.Some? && c.inbound.Some? ==> !NamesBefore(spis, c.inbound.value, c.outbound.value)
  {
  }

  /**
   A Delete drops the outbound SA exactly when it names its SPI, leaves the inbound one, and is to be answered
   exactly when it names the inbound SPI while the outbound SA is still there.
   */
  lemma {:induction false} DeleteExactly(c: Child, spis: Bytes)
    ensures DeleteSpis(c, spis).0 == c.(outbound := if Names(spis, c.outbound) then None else c.outbound)
    ensures DeleteSpis(c, spis).1
      <==> c.outbound.Some? && c.inbound.Some? && NamesBefore(spis, c.inbound.value, c.outbound.value)
    decreases |spis|
  {
    hide Word, Names, NamesBefore, NotBefore;
    if |spis| < 4 {
      NoWords(spis, c);
    } else {
      DeleteExactly(if c.outbound == Some(GetBE(spis[..4])) then c.(outbound := None) else c, spis[4..]);
      if c.outbound.Some? {
        NamesStep(spis, c.outbound.value);
        if c.inbound.Some? {
          NamesBeforeStep(spis, c.inbound.value, c.outbound.value);
        }
      }
    }
  }

  /** A payload that ends the processing: a usable sync, an address update under MOBIKE, or an answered Delete. */
  ghost predicate Ends(mobike: bool, c: Child, p: Payload) {
    || (p.PNotify? && p.notifyType == 16422 && |p.notifyData| >= 12)
    || (p.PNotify? && p.notifyType == 16400 && mobike)
    || (p.PDelete? && p.deleteProto == 3 && p.spiSize == 4 && c.outbound.Some? && c.inbound.Some?
        && NamesBefore(p.spis, c.inbound.value, c.outbound.value))
  }

  /** One payload: whether it ends the processing, and which Child SA it drops. */
  lemma PayloadEnds(mobike: bool, c: Child, p: Payload)
    ensures OnPayload(mobike, c, p).ends <==> Ends(mobike, c, p)
    ensures OnPayload(mobike, c, p).child
         == if p.PDelete? && p.deleteProto == 3 && p.spiSize == 4 && Names(p.spis, c.outbound)
            then c.(outbound := None) else c
  {
    hide DeleteSpis, NamesBefore, Names;
    if p.PDelete? {
      DeleteExactly(c, p.spis);
    }
  }

  ghost predicate EndsAt(mobike: bool, c: Child, ps: seq<Payload>, i: nat) {
    i < |ps| && Ends(mobike, OnMessage(mobike, c, ps[..i]).child, ps[i])
  }

  lemma EndsAtShift(mobike: bool, c: Child, ps: seq<Payload>, i: nat)
    requires ps != [] && !OnPayload(mobike, c, ps[0]).ends
    ensures EndsAt(mobike, OnPayload(mobike, c, ps[0]).child, ps[1..], i) <==> EndsAt(mobike, c, ps, i + 1)
  {
    hide OnPayload, Ends;
    if i + 1 < |ps| {
      assert ps[..i + 1][1..] == ps[1..][..i];
    }
  }

  lemma NoneEnds(mobike: bool, c: Child)
    ensures forall i: nat :: !EndsAt(mobike, c, [], i)
  {
  }

  lemma FirstEnds(mobike: bool, c: Child, ps: seq<Payload>)
    requires ps != []
    ensures EndsAt(mobike, c, ps, 0) <==> Ends(mobike, c, ps[0])
  {
    hide Ends;
    assert ps[..0] == [];
  }

  /** Processing ends early exactly when some payload ends it, for the Child SAs that the ones before it leave. */
  lemma {:induction false} EndsExactly(mobike: bool, c: Child, ps: seq<Payload>)
    ensures OnMessage(mobike, c, ps).ends <==> exists i: nat :: EndsAt(mobike, c, ps, i)
    decreases |ps|
  {
    hide OnPayload, Ends, EndsAt;
    if ps == [] {
      NoneEnds(mobike, c);
    } else {
      PayloadEnds(mobike, c, ps[0]);
      FirstEnds(mobike, c, ps);
      if !OnPayload(mobike, c, ps[0]).ends {
        var c1 := OnPayload(mobike, c, ps[0]).child;
        EndsExactly(mobike, c1, ps[1..]);
        forall i: nat ensures EndsAt(mobike, c1, ps[1..], i) <==> EndsAt(mobike, c, ps, i + 1) {
          EndsAtShift(mobike, c, ps, i);
        }
        if i: nat :| EndsAt(mobike, c, ps, i) {
          assert EndsAt(mobike, c1, ps[1..], i - 1) <==> EndsAt(mobike, c, ps, i - 1 + 1);
        }
      }
    }
  }

  /** Payloads are handled in order. */
  lemma {:induction false} InOrder(mobike: bool, c: Child, before: seq<Payload>, after: seq<Payload>)
    ensures OnMessage(mobike, c, before + after)
         == var e := OnMessage(mobike, c, before); if e.ends then e else OnMessage(mobike, e.child, after)
    decreases |before|
  {
    hide OnPayload;
    if before == [] {
      assert before + after == after;
    } else {
      assert (before + after)[1..] == before[1..] + after;
      InOrder(mobike, OnPayload(mobike, c, before[0]).child, before[1..], after);
    }
  }

  /** The counter behind a message. */
  function Handled(s: Ids, e: Effect): Ids {
    if e.jump.Some? then Step(s, Sync(e.jump.value)) else s
  }

  /** An IKEV2_MESSAGE_ID_SYNC notify (section 5.1 of RFC 6311) with these three numbers, and whatever follows them. */
  function SyncNotify(proto: Byte, spi: Bytes, pending: nat, send: nat, recv: nat, rest: Bytes): Payload {
    PNotify(proto, spi, 16422, PutBE(pending, 4) + PutBE(send, 4) + PutBE(recv, 4) + rest, 0)
  }

  /** Whether a payload is such a notify with room for the three numbers. */
  predicate IsSync(p: Payload) {
    p.PNotify? && p.notifyType == 16422 && |p.notifyData| >= 12
  }

  /** A message without a usable sync notify leaves the counter alone. */
  lemma {:induction false} NoSyncNoJump(mobike: bool, c: Child, ps: seq<Payload>)
    requires forall i :: 0 <= i < |ps| ==> !IsSync(ps[i])
    ensures OnMessage(mobike, c, ps).jump.None?
    decreases |ps|
  {
    hide DeleteSpis, GetBE;
    if ps == [] {
    } else {
      NoSyncNoJump(mobike, OnPayload(mobike, c, ps[0]).child, ps[1..]);
    }
  }

  /**
   The first usable sync notify of a message moves the counter to EXPECTED_RECV, the third number, if that is
   larger, and if no payload before it ends the processing. The other two numbers have no effect, and neither has
   anything that follows.
   */
  lemma SyncReachedExactly(s: Ids, mobike: bool, c: Child, before: seq<Payload>, proto: Byte, spi: Bytes,
                           pending: nat, send: nat, recv: nat, rest: Bytes, after: seq<Payload>)
    requires pending < U32_SIZE && send < U32_SIZE && recv < U32_SIZE
    requires forall i :: 0 <= i < |before| ==> !IsSync(before[i])
    ensures var e := OnMessage(mobike, c, before + [SyncNotify(proto, spi, pending, send, recv, rest)] + after);
      Handled(s, e) == if !OnMessage(mobike, c, before).ends && recv > s.counter then s.(counter := recv) else s
  {
    hide DeleteSpis, PutBE, GetBE, Radix;
    var p := SyncNotify(proto, spi, pending, send, recv, rest);
    assert before + [p] + after == before + ([p] + after);
    InOrder(mobike, c, before, [p] + after);
    assert p.notifyData[8..12] == PutBE(recv, 4);
    RadixValues();
    BERoundTrip(recv, 4);
    NoSyncNoJump(mobike, c, before);
  }

  /** A sync notify of fewer than twelve bytes is passed over. */
  lemma ShortSyncIgnored(mobike: bool, c: Child, before: seq<Payload>, p: Payload, after: seq<Payload>)
    requires p.PNotify? && p.notifyType == 16422 && |p.notifyData| < 12
    ensures OnMessage(mobike, c, before + [p] + after) == OnMessage(mobike, c, before + after)
  {
    hide DeleteSpis, GetBE;
    assert before + [p] + after == before + ([p] + after) && ([p] + after)[1..] == after;
    InOrder(mobike, c, before, [p] + after);
    InOrder(mobike, c, before, after);
  }

  lemma SyncInRange(p: Payload)
    ensures SyncValue(p).Some? ==> SyncValue(p).value < U32_SIZE
  {
    hide GetBE, Radix;
    if SyncValue(p).Some? {
      RadixValues();
      BECanonical(p.notifyData[8..12]);
    }
  }

  /** The allocator state as the session keeps it. */
  class Allocator {
    var sequenceNumber: nat
    ghost var ids: Ids

    ghost predicate Valid()
      reads this
    {
      Ordered(ids) && sequenceNumber == ids.counter
    }

    constructor ()
      ensures Valid() && ids == Ids(0, 0, false, [])
    {
      sequenceNumber, ids := 0, Ids(0, 0, false, []);
    }

    /** `NextSequenceNumber`. */
    method Next() returns (id: nat)
      requires Valid() && !ids.wrapped
      modifies this
      ensures Valid() && ids == Step(old(ids), Draw)
      ensures id == old(sequenceNumber) && (old(ids).epoch, id) !in old(ids).issued
      ensures sequenceNumber == (id + 1) % U32_SIZE && ids.issued == old(ids).issued + [(old(ids).epoch, id)]
    {
      StepOrdered(ids, Draw);
      id := sequenceNumber;
      sequenceNumber := (sequenceNumber + 1) % U32_SIZE;
      ids := Step(ids, Draw);
    }

    /** The SPI loop of the Delete branch. */
    method DeleteChildren(c: Child, spis: Bytes) returns (c': Child, answered: bool)
      ensures (c', answered) == DeleteSpis(c, spis)
    {
      c', answered := c, false;
      var i := 0;
      assert spis[0..] == spis;
      while i + 4 <= |spis|
        invariant i <= |spis|
        invariant var (rest, more) := DeleteSpis(c', spis[i..]); DeleteSpis(c, spis) == (rest, more || answered)
        decreases |spis| - i
      {
        var spi := GetBE(spis[i..i + 4]);
        assert spis[i..][..4] == spis[i..i + 4] && spis[i..][4..] == spis[i + 4..];
        if c'.outbound.Some? && c'.inbound == Some(spi) {
          answered := true;
        }
        if c'.outbound == Some(spi) {
          c' := c'.(outbound := None);
        }
        i := i + 4;
      }
    }

    /** The payload loop of `handleIncomingInformational`, for what it does to the counter, which only moves forward. */
    method HandleSync(mobike: bool, child: Child, ps: seq<Payload>) returns (synced: bool, child': Child)
      requires Valid()
      modifies this
      ensures var e := OnMessage(mobike, child, ps);
        && Valid() && synced == e.jump.Some? && child' == e.child
        && ids == Handled(old(ids), e)
      ensures sequenceNumber >= old(sequenceNumber)
    {
      hide DeleteSpis;
      child' := child;
      for i := 0 to |ps|
        invariant ids == old(ids) && sequenceNumber == old(sequenceNumber)
        invariant OnMessage(mobike, child', ps[i..]) == OnMessage(mobike, child, ps)
      {
        assert ps[i..][1..] == ps[i + 1..];
        var e := SyncValue(ps[i]);
        if e.Some? {
          SyncInRange(ps[i]);
          StepOrdered(ids, Sync(e.value));
          if e.value > sequenceNumber {
            sequenceNumber := e.value;
          }
          ids := Step(ids, Sync(e.value));
          return true, child';
        }
        match ps[i]
        case PNotify(_, _, t, _, _) =>
          if t == UPDATE_SA_ADDRESSES && mobike { return false, child'; }
        case PDelete(proto, size, _, spis) =>
          if proto == PROTO_ESP && size == 4 {
            var answered;
            child', answered := DeleteChildren(child', spis);
            if answered { return false, child'; }
          }
        case _ =>
      }
      return false, child';
    }

    /** The switch at the end of `handleRekeyIKESAResp`: new keys and a counter at zero, as one step. */
    method SwitchKeys()
      requires Valid()
      modifies this
      ensures Valid() && ids == Step(old(ids), Rekey) && sequenceNumber == 0
      ensures ids == Ids(old(ids).epoch + 1, 0, false, old(ids).issued)
    {
      StepOrdered(ids, Rekey);
      sequenceNumber := 0;
      ids := Step(ids, Rekey);
    }
  }
}
