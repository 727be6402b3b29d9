/**
 Fragments of one message among other traffic: datagrams of other messages in between, and duplicates that come
 after the message is complete.
 */
module FragmentTraffic {
  import opened Bytes
  import opened IkePayload
  import opened IkePacket
  import opened Envelope
  import opened FragmentBuffer
  import opened Fragmentation
  import opened FragmentPackets

  /** Two buffers agree on one message. */
  predicate Same(a: Buffer, b: Buffer, id: nat) {
    (id in a <==> id in b) && (id in a ==> a[id] == b[id])
  }

  lemma AddSame(a: Buffer, b: Buffer, id: nat, num: nat, total: nat, plain: Bytes)
    requires Same(a, b, id)
    ensures Same(Add(a, id, num, total, plain).0, Add(b, id, num, total, plain).0, id)
    ensures Add(a, id, num, total, plain).1 == Add(b, id, num, total, plain).1
  {
  }

  lemma AddOther(fb: Buffer, other: nat, num: nat, total: nat, plain: Bytes, id: nat)
    requires other != id
    ensures Same(Add(fb, other, num, total, plain).0, fb, id)
  {
  }

  lemma ReassembleSame(a: Buffer, b: Buffer, id: nat)
    requires Same(a, b, id)
    ensures Same(Reassemble(a, id).0, Reassemble(b, id).0, id) && Reassemble(a, id).1 == Reassemble(b, id).1
  {
    hide Pieces;
  }

  lemma ReassembleOther(fb: Buffer, other: nat, id: nat)
    requires other != id
    ensures Same(Reassemble(fb, other).0, fb, id)
  {
    hide Pieces;
  }

  /** What collecting a fragment answers depends on its own message only. */
  lemma CollectSame(a: Buffer, b: Buffer, f: Fragment, first: Byte)
    requires Same(a, b, f.msgId)
    ensures Same(Collect(a, f, first).0, Collect(b, f, first).0, f.msgId)
    ensures Collect(a, f, first).1 == Collect(b, f, first).1
  {
    hide Add, Reassemble, LenientWalk, Same;
    AddSame(a, b, f.msgId, f.num, f.total, f.plain);
    ReassembleSame(Add(a, f.msgId, f.num, f.total, f.plain).0, Add(b, f.msgId, f.num, f.total, f.plain).0, f.msgId);
  }

  /** Collecting a fragment of another message leaves this one alone. */
  lemma CollectOther(fb: Buffer, f: Fragment, first: Byte, id: nat)
    requires f.msgId != id
    ensures Same(Collect(fb, f, first).0, fb, id)
  {
    hide Add, Reassemble, LenientWalk;
    AddOther(fb, f.msgId, f.num, f.total, f.plain, id);
    ReassembleOther(Add(fb, f.msgId, f.num, f.total, f.plain).0, f.msgId, id);
  }

  /** For this receiver the datagram is no fragment of message `id`: another message, another type, or unreadable. */
  predicate Foreign(su: Suite, keys: Keys, data: Bytes, id: nat) {
    match DecHeader(data)
    case Err => true
    case Ok(h) => h.next == SKF && OpenSkf(su, keys, data).Ok? ==> OpenSkf(su, keys, data).value.msgId != id
  }

  lemma ReceiveForeign(su: Suite, keys: Keys, fb: Buffer, data: Bytes, id: nat)
    requires Foreign(su, keys, data, id)
    ensures Same(Receive(su, keys, fb, data).0, fb, id)
  {
    hide OpenSk, OpenSkf, DecHeader, DecPacket, Collect;
    match DecHeader(data)
    case Err =>
    case Ok(h) =>
      if h.next == SKF && OpenSkf(su, keys, data).Ok? {
        CollectOther(fb, OpenSkf(su, keys, data).value, data[HEADER_LEN], id);
      }
  }

  // ---------- the message among other datagrams ----------

  /** What reaches the receiver: a fragment of the message, by its position, or any other datagram. */
  datatype Arrival = Ours(index: nat) | Other(datagram: Bytes)

  /** Positions are those of built fragments, and everything else is foreign. */
  ghost predicate Mixed(su: Suite, keys: Keys, packets: seq<Bytes>, arrivals: seq<Arrival>, id: nat) {
    forall i :: 0 <= i < |arrivals| ==>
      match arrivals[i]
      case Ours(index) => index < |packets|
      case Other(datagram) => Foreign(su, keys, datagram, id)
  }

  function Datagram(packets: seq<Bytes>, a: Arrival): Bytes {
    match a
    case Ours(index) => if index < |packets| then packets[index] else []
    case Other(datagram) => datagram
  }

  function Datagrams(packets: seq<Bytes>, arrivals: seq<Arrival>): seq<Bytes> {
    if arrivals == [] then []
    else Datagrams(packets, arrivals[..|arrivals| - 1]) + [Datagram(packets, arrivals[|arrivals| - 1])]
  }

  /** The fragments of the message among the arrivals, in their order. */
  function Indices(arrivals: seq<Arrival>): seq<nat> {
    if arrivals == [] then []
    else
      var init, last := Indices(arrivals[..|arrivals| - 1]), arrivals[|arrivals| - 1];
      if last.Ours? then init + [last.index] else init
  }

  lemma {:induction false} IndicesInRange(su: Suite, keys: Keys, packets: seq<Bytes>, arrivals: seq<Arrival>, id: nat)
    requires Mixed(su, keys, packets, arrivals, id)
    ensures forall k :: 0 <= k < |Indices(arrivals)| ==> Indices(arrivals)[k] < |packets|
  {
    hide Foreign;
    if arrivals == [] {
    } else {
      IndicesInRange(su, keys, packets, arrivals[..|arrivals| - 1], id);
    }
  }

  lemma ReceiveLast(su: Suite, keys: Keys, fb: Buffer, packets: seq<Bytes>, last: Bytes)
    ensures ReceiveAll(su, keys, fb, packets + [last]) == Receive(su, keys, ReceiveAll(su, keys, fb, packets), last).0
  {
    hide Receive;
    assert (packets + [last])[..|packets|] == packets;
  }

  lemma SameItself(fb: Buffer, id: nat)
    ensures Same(fb, fb, id)
  {
  }

  lemma SameChain(a: Buffer, b: Buffer, c: Buffer, id: nat)
    requires Same(a, b, id) && Same(b, c, id)
    ensures Same(a, c, id)
  {
  }

  /** A fragment of the message has the same effect on two buffers that agree on the message. */
  lemma ReceiveOurs(s: Sender, ps: seq<Payload>, per: nat, exchange: Byte, msgId: nat,
                    ivs: seq<Bytes>, packets: seq<Bytes>, a: Buffer, b: Buffer, i: nat)
    requires s.su.Laws() && SenderWellFormed(s, msgId) && per > 0 && AllEncodable(ps)
    requires FragmentsOf(s, ps, per, exchange, msgId, ivs, packets) && i < |packets| && Same(a, b, msgId)
    ensures var keys := s.keys.Mirrored();
      var (a', r) := Receive(s.su, keys, a, packets[i]);
      var (b', q) := Receive(s.su, keys, b, packets[i]);
      Same(a', b', msgId) && r == q
  {
    hide Chunks, BuildSkf, Receive, Collect, EncChain, FragmentsOf, Same;
    AsManyChunks(s, ps, per, exchange, msgId, ivs, packets);
    ReceiveIsCollect(s, ps, per, exchange, msgId, ivs, packets, a, i);
    ReceiveIsCollect(s, ps, per, exchange, msgId, ivs, packets, b, i);
    var cut := Chunks(EncChain(ps), per);
    CollectSame(a, b, Fragment(msgId, i + 1, |cut|, cut[i]), if i == 0 then FirstType(ps) else NO_NEXT);
  }

  /** As far as the message is concerned, the other datagrams might as well not have come. */
  lemma {:induction false} OthersDoNotMatter(s: Sender, ps: seq<Payload>, per: nat, exchange: Byte, msgId: nat,
                                             ivs: seq<Bytes>, packets: seq<Bytes>, fb: Buffer, arrivals: seq<Arrival>)
    requires s.su.Laws() && SenderWellFormed(s, msgId) && per > 0 && AllEncodable(ps)
    requires FragmentsOf(s, ps, per, exchange, msgId, ivs, packets)
    requires Mixed(s.su, s.keys.Mirrored(), packets, arrivals, msgId)
    requires forall k :: 0 <= k < |Indices(arrivals)| ==> Indices(arrivals)[k] < |packets|
    ensures Same(ReceiveAll(s.su, s.keys.Mirrored(), fb, Datagrams(packets, arrivals)),
                 ReceiveAll(s.su, s.keys.Mirrored(), fb, Pick(packets, Indices(arrivals))), msgId)
    decreases |arrivals|
  {
    hide Chunks, BuildSkf, Receive, ReceiveAll, Collect, EncChain, FragmentsOf, Foreign, Same;
    var keys := s.keys.Mirrored();
    if arrivals == [] {
      assert Pick(packets, Indices(arrivals)) == [];
      SameItself(ReceiveAll(s.su, keys, fb, []), msgId);
    } else {
      var init, last := arrivals[..|arrivals| - 1], arrivals[|arrivals| - 1];
      IndicesInRange(s.su, keys, packets, init, msgId);
      OthersDoNotMatter(s, ps, per, exchange, msgId, ivs, packets, fb, init);
      var a := ReceiveAll(s.su, keys, fb, Datagrams(packets, init));
      var b := ReceiveAll(s.su, keys, fb, Pick(packets, Indices(init)));
      ReceiveLast(s.su, keys, fb, Datagrams(packets, init), Datagram(packets, last));
      match last
      case Ours(i) =>
        assert Pick(packets, Indices(arrivals)) == Pick(packets, Indices(init)) + [packets[i]];
        ReceiveLast(s.su, keys, fb, Pick(packets, Indices(init)), packets[i]);
        ReceiveOurs(s, ps, per, exchange, msgId, ivs, packets, a, b, i);
      case Other(datagram) =>
        ReceiveForeign(s.su, keys, a, datagram, msgId);
        SameChain(Receive(s.su, keys, a, datagram).0, a, b, msgId);
    }
  }

  /**
   With any other datagrams in between, whole or fragments of other messages, sealed or not: the last fragment to
   arrive completes the message, and its payloads are recovered if and only if it is fragment 1.
   */
  lemma ArrivesAmongOthers(s: Sender, ps: seq<Payload>, per: nat, exchange: Byte, msgId: nat,
                           ivs: seq<Bytes>, packets: seq<Bytes>, fb: Buffer, before: seq<Arrival>, last: nat)
    requires s.su.Laws() && SenderWellFormed(s, msgId) && per > 0 && AllWellFormed(ps)
    requires FragmentsOf(s, ps, per, exchange, msgId, ivs, packets) && |EncChain(ps)| <= MAX_PACKET && msgId !in fb
    requires Mixed(s.su, s.keys.Mirrored(), packets, before, msgId)
    requires last < |packets| && last !in Indices(before)
    requires forall j :: 0 <= j < |packets| ==> j in Indices(before) || j == last
    ensures var state := ReceiveAll(s.su, s.keys.Mirrored(), fb, Datagrams(packets, before));
      var (after, r) := Receive(s.su, s.keys.Mirrored(), state, packets[last]);
      && msgId !in after
      && r == Ok((msgId, if last == 0 then NormAll(ps) else []))
  {
    hide Chunks, BuildSkf, Receive, ReceiveAll, EncChain, FragmentsOf, NormAll, Foreign, Mixed;
    var keys := s.keys.Mirrored();
    IndicesInRange(s.su, keys, packets, before, msgId);
    OthersDoNotMatter(s, ps, per, exchange, msgId, ivs, packets, fb, before);
    var order := Indices(before) + [last];
    assert order[..|order| - 1] == Indices(before);
    FragmentedMessageArrives(s, ps, per, exchange, msgId, ivs, packets, fb, order);
    ReceiveOurs(s, ps, per, exchange, msgId, ivs, packets,
      ReceiveAll(s.su, keys, fb, Datagrams(packets, before)),
      ReceiveAll(s.su, keys, fb, Pick(packets, Indices(before))), last);
  }

  lemma ChunkSmall(inner: Bytes, per: nat, i: nat)
    requires per > 0 && i < NumFragments(|inner|, per)
    ensures |Chunks(inner, per)[i]| <= |inner|
  {
    StartInside(|inner|, per, i);
  }

  /**
   A duplicate that arrives when the buffer holds nothing of the message, as after its completion, opens a new
   set with that fragment alone, which stays until all the others come again.
   */
  lemma DuplicateOpensNewSet(s: Sender, ps: seq<Payload>, per: nat, exchange: Byte, msgId: nat,
                             ivs: seq<Bytes>, packets: seq<Bytes>, fb: Buffer, i: nat)
    requires s.su.Laws() && SenderWellFormed(s, msgId) && per > 0 && AllEncodable(ps)
    requires FragmentsOf(s, ps, per, exchange, msgId, ivs, packets) && |EncChain(ps)| <= MAX_PACKET
    requires msgId !in fb && i < |packets| && |packets| >= 2
    ensures var cut := Chunks(EncChain(ps), per);
      var (after, r) := Receive(s.su, s.keys.Mirrored(), fb, packets[i]);
      && |cut| == |packets|
      && r == Ok((msgId, [])) && msgId in after
      && after[msgId] == FragSet(|packets|, map[i + 1 := cut[i]], |cut[i]|)
  {
    hide Chunks, BuildSkf, Receive, EncChain, FragmentsOf, LenientWalk, Reassemble;
    var cut := Chunks(EncChain(ps), per);
    AsManyChunks(s, ps, per, exchange, msgId, ivs, packets);
    ReceiveIsCollect(s, ps, per, exchange, msgId, ivs, packets, fb, i);
    ChunkSmall(EncChain(ps), per, i);
  }
}
