/**
 The IKE header, the chain of payloads behind it, and the two loops of the source that walk such a
 chain: the strict one of `DecodePacket` and the lenient one used on decrypted contents.
 */
module IkePacket {
  import opened Bytes
  import opened IkeSa
  import opened IkePayload

  const HEADER_LEN := 28

  datatype Header = Header(
    spiI: nat, spiR: nat, next: Byte, version: Byte, exchange: Byte, flags: Byte, msgId: nat, length: nat)
  {
    predicate WellFormed() {
      spiI < U64_SIZE && spiR < U64_SIZE && msgId < U32_SIZE && length < U32_SIZE
    }
  }

  function EncHeader(h: Header): (b: Bytes)
    ensures |b| == HEADER_LEN
  {
    PutBE(h.spiI, 8) + PutBE(h.spiR, 8) + [h.next, h.version, h.exchange, h.flags]
    + PutBE(h.msgId, 4) + PutBE(h.length, 4)
  }

  function DecHeader(d: Bytes): (r: Result<Header>)
    ensures r.Ok? <==> |d| >= HEADER_LEN
  {
    if |d| < HEADER_LEN then Err
    else Ok(Header(GetBE(d[..8]), GetBE(d[8..16]), d[16], d[17], d[18], d[19], GetBE(d[20..24]), GetBE(d[24..28])))
  }

  lemma HeaderLayout(h: Header, rest: Bytes)
    ensures var d := EncHeader(h) + rest;
            && d[..8] == PutBE(h.spiI, 8) && d[8..16] == PutBE(h.spiR, 8)
            && d[16] == h.next && d[17] == h.version && d[18] == h.exchange && d[19] == h.flags
            && d[20..24] == PutBE(h.msgId, 4) && d[24..28] == PutBE(h.length, 4)
  {
    hide PutBE;
  }

  lemma HeaderRoundTrip(h: Header, rest: Bytes)
    requires h.WellFormed()
    ensures DecHeader(EncHeader(h) + rest) == Ok(h)
  {
    hide EncHeader, PutBE, GetBE;
    HeaderLayout(h, rest);
    RadixValues();
    BERoundTrip(h.spiI, 8);
    BERoundTrip(h.spiR, 8);
    BERoundTrip(h.msgId, 4);
    BERoundTrip(h.length, 4);
  }

  /** The header on the wire (section 3.1 of RFC 7296): every field as a number at its offset. */
  lemma HeaderWire(h: Header, rest: Bytes)
    requires h.WellFormed()
    ensures var d := EncHeader(h) + rest;
      && GetBE(d[..8]) == h.spiI && GetBE(d[8..16]) == h.spiR
      && d[16] == h.next && d[17] == h.version && d[18] == h.exchange && d[19] == h.flags
      && GetBE(d[20..24]) == h.msgId && GetBE(d[24..28]) == h.length
  {
    hide EncHeader, PutBE, GetBE, Radix;
    HeaderLayout(h, rest);
    RadixValues();
    BERoundTrip(h.spiI, 8);
    BERoundTrip(h.spiR, 8);
    BERoundTrip(h.msgId, 4);
    BERoundTrip(h.length, 4);
  }

  // ---------- payload chains ----------

  ghost predicate AllWellFormed(ps: seq<Payload>) {
    forall i :: 0 <= i < |ps| ==> ps[i].Encodable() && ps[i].WellFormed()
  }

  predicate AllEncodable(ps: seq<Payload>) {
    forall i :: 0 <= i < |ps| ==> ps[i].Encodable()
  }

  function FirstType(ps: seq<Payload>): Byte {
    if ps == [] then NO_NEXT else ps[0].Type()
  }

  /** The generic payload header of section 3.2 of RFC 7296 in front of a body. */
  function Link(next: Byte, body: Bytes): (b: Bytes)
    ensures |b| == 4 + |body|
  {
    [next, 0] + PutU16(4 + |body|) + body
  }

  function EncChain(ps: seq<Payload>): Bytes
    requires AllEncodable(ps)
  {
    if ps == [] then [] else Link(FirstType(ps[1..]), EncBody(ps[0])) + EncChain(ps[1..])
  }

  function NormAll(ps: seq<Payload>): (r: seq<Payload>)
    ensures |r| == |ps|
  {
    if ps == [] then [] else [ps[0].Norm()] + NormAll(ps[1..])
  }

  datatype Piece = Piece(next: Byte, body: Bytes, size: nat)

  /** The payload at the front of `d`: the type of the one after it, its body, and its whole length. */
  function Unlink(d: Bytes): (r: Result<Piece>)
    ensures r.Ok? ==> 4 <= r.value.size <= |d|
  {
    if |d| < 4 then Err
    else
      var n := GetU16(d[2..4]);
      // a length below the header's own four bytes is a slice error in the source: no decode
      if n > |d| || n < 4 then Err else Ok(Piece(d[0], d[4..n], n))
  }

  /** Payload chain as `DecodePacket` walks it. */
  function StrictWalk(d: Bytes, t: Byte): Result<seq<Payload>>
    decreases |d|
  {
    if t == NO_NEXT || d == [] then Ok([])
    else match Unlink(d)
      case Err => Err
      case Ok(l) =>
        match DecBody(t, l.body)
        case Err => Err
        case Ok(p) => Prepend([p], StrictWalk(d[l.size..], l.next))
  }

  /** Payload chain as `parsePayloads` walks it: one to three stray bytes end the walk quietly. */
  function LenientWalk(d: Bytes, t: Byte): Result<seq<Payload>>
    decreases |d|
  {
    if t == NO_NEXT || |d| < 4 then Ok([])
    else match Unlink(d)
      case Err => Err
      case Ok(l) =>
        match DecBody(t, l.body)
        case Err => Err
        case Ok(p) => Prepend([p], LenientWalk(d[l.size..], l.next))
  }

  /** The two walkers agree wherever the strict one succeeds. */
  lemma {:induction false} WalkersAgree(d: Bytes, t: Byte)
    requires StrictWalk(d, t).Ok?
    ensures LenientWalk(d, t) == StrictWalk(d, t)
    decreases |d|
  {
    hide DecBody;
    if t != NO_NEXT && d != [] {
      var l := Unlink(d).value;
      WalkersAgree(d[l.size..], l.next);
    }
  }

  /** The part of a chain that is left once no whole payload header fits any more. */
  function Leftover(d: Bytes, t: Byte): (rest: Bytes)
    decreases |d|
  {
    if t == NO_NEXT || |d| < 4 || Unlink(d).Err? then (if t == NO_NEXT then [] else d)
    else var l := Unlink(d).value; Leftover(d[l.size..], l.next)
  }

  /** Exactly when they differ: the lenient walker accepts what the strict one rejects iff 1 to 3 bytes are left. */
  lemma {:induction false} WalkersDiffer(d: Bytes, t: Byte)
    requires LenientWalk(d, t).Ok?
    ensures StrictWalk(d, t).Err? <==> 0 < |Leftover(d, t)| < 4
    decreases |d|
  {
    hide DecBody;
    if t != NO_NEXT && |d| >= 4 {
      var l := Unlink(d).value;
      WalkersDiffer(d[l.size..], l.next);
    }
  }

  lemma LinkStep(next: Byte, body: Bytes, rest: Bytes)
    requires |body| + 4 < U16_SIZE
    ensures Unlink(Link(next, body) + rest) == Ok(Piece(next, body, 4 + |body|))
    ensures (Link(next, body) + rest)[4 + |body|..] == rest
  {
    hide PutU16, GetU16;
    var d := Link(next, body) + rest;
    assert d[2..4] == PutU16(4 + |body|) && d[4..4 + |body|] == body;
    U16RoundTrip(4 + |body|);
  }

  lemma TypeNonZero(p: Payload)
    requires p.WellFormed()
    ensures p.Type() != NO_NEXT
  {
  }

  /** Chain round trip, for any number of payloads including none. */
  lemma {:induction false} ChainRoundTrip(ps: seq<Payload>)
    requires AllWellFormed(ps)
    ensures StrictWalk(EncChain(ps), FirstType(ps)) == Ok(NormAll(ps))
  {
    if ps == [] {
    } else {
      hide EncBody, DecBody, Link, Unlink;
      var p, tail := ps[0], ps[1..];
      BodyRoundTrip(p);
      LinkStep(FirstType(tail), EncBody(p), EncChain(tail));
      ChainRoundTrip(tail);
      TypeNonZero(p);
    }
  }

  // ---------- packets ----------

  /** The header fields `IKEPacket.Encode` writes before encoding the header. */
  function Finished(h: Header, ps: seq<Payload>): Header
    requires AllEncodable(ps)
  {
    h.(next := FirstType(ps), length := (HEADER_LEN + |EncChain(ps)|) % U32_SIZE)
  }

  function EncPacket(h: Header, ps: seq<Payload>): Bytes
    requires AllEncodable(ps)
  {
    EncHeader(Finished(h, ps)) + EncChain(ps)
  }

  function DecPacket(d: Bytes): Result<(Header, seq<Payload>)> {
    match DecHeader(d)
    case Err => Err
    case Ok(h) =>
      match StrictWalk(d[HEADER_LEN..], h.next)
      case Err => Err
      case Ok(ps) => Ok((h, ps))
  }

  /** Packet round trip: header with its next type and length filled in, and every payload normalised. */
  lemma PacketRoundTrip(h: Header, ps: seq<Payload>)
    requires h.WellFormed() && AllWellFormed(ps)
    ensures DecPacket(EncPacket(h, ps)) == Ok((Finished(h, ps), NormAll(ps)))
  {
    hide EncHeader, DecHeader, EncChain, StrictWalk, NormAll;
    var f := Finished(h, ps);
    HeaderRoundTrip(f, EncChain(ps));
    ChainRoundTrip(ps);
    assert EncPacket(h, ps)[HEADER_LEN..] == EncChain(ps);
  }

  /**
   A packet on the wire: the header names the first payload's type and the whole length, and every payload is
   preceded by the type of the next one, a zero byte and its own length.
   */
  lemma PacketWire(h: Header, ps: seq<Payload>)
    requires h.WellFormed() && AllEncodable(ps)
    ensures var d := EncPacket(h, ps);
      && d[16] == (if ps == [] then 0 else ps[0].Type()) && GetBE(d[24..28]) == |d| % U32_SIZE
      && d[28..] == EncChain(ps)
  {
    hide EncHeader, EncChain, GetBE;
    var f, chain := Finished(h, ps), EncChain(ps);
    assert (EncHeader(f) + chain)[28..] == chain;
    HeaderWire(f, chain);
  }

  lemma LinkWire(next: Byte, body: Bytes, rest: Bytes)
    requires |body| + 4 < U16_SIZE
    ensures var c := Link(next, body) + rest;
      && c[0] == next && c[1] == 0 && GetBE(c[2..4]) == 4 + |body|
      && c[4..4 + |body|] == body && c[4 + |body|..] == rest
  {
    hide GetBE, PutU16;
    var c := Link(next, body) + rest;
    assert c[2..4] == PutU16(4 + |body|) && c[4..4 + |body|] == body;
    U16Wire(4 + |body|);
  }

  lemma ChainWire(ps: seq<Payload>)
    requires ps != [] && AllWellFormed(ps)
    ensures var c := EncChain(ps);
      && |c| >= 4 && c[0] == (if |ps| == 1 then 0 else ps[1].Type()) && c[1] == 0
      && var n := GetBE(c[2..4]);
      4 <= n <= |c| && c[4..n] == EncBody(ps[0]) && c[n..] == EncChain(ps[1..])
  {
    hide EncBody, GetBE, Link;
    LinkWire(FirstType(ps[1..]), EncBody(ps[0]), EncChain(ps[1..]));
  }

  lemma ChainLoop(acc: Bytes, ps: seq<Payload>, i: nat)
    requires i < |ps| && AllEncodable(ps)
    ensures var next := if i + 1 < |ps| then ps[i + 1].Type() else NO_NEXT;
            acc + EncChain(ps[i..]) == (acc + Link(next, EncBody(ps[i]))) + EncChain(ps[i + 1..])
  {
    hide EncBody, Link;
    assert ps[i..][1..] == ps[i + 1..];
  }

  /** `IKEPacket`: encoding it writes the header's next type and length and the payloads' Last flags. */
  class IKEPacket {
    var header: Header
    var payloads: seq<Payload>

    constructor (h: Header, ps: seq<Payload>)
      ensures header == h && payloads == ps
    {
      header, payloads := h, ps;
    }

    method Encode() returns (b: Bytes)
      requires AllEncodable(payloads)
      modifies this
      ensures b == EncPacket(old(header), old(payloads))
      ensures header == Finished(old(header), old(payloads))
      ensures |payloads| == |old(payloads)|
      ensures forall i :: 0 <= i < |payloads| ==> payloads[i] == Marked(old(payloads)[i])
    {
      hide EncBody, Link, Marked, EncHeader;
      ghost var ps := payloads;
      header := header.(next := FirstType(payloads));
      var data: Bytes := [];
      for i := 0 to |payloads|
        invariant |payloads| == |ps| && header == old(header).(next := FirstType(ps))
        invariant forall k :: 0 <= k < i ==> payloads[k] == Marked(ps[k])
        invariant forall k :: i <= k < |ps| ==> payloads[k] == ps[k]
        invariant data + EncChain(ps[i..]) == EncChain(ps)
      {
        var next := NO_NEXT;
        if i < |payloads| - 1 {
          next := payloads[i + 1].Type();
        }
        var body, marked := EncodeBody(payloads[i]);
        payloads := payloads[i := marked];
        ChainLoop(data, ps, i);
        data := data + Link(next, body);
      }
      header := header.(length := (HEADER_LEN + |data|) % U32_SIZE);
      b := EncHeader(header) + data;
    }
  }

  lemma StrictLoop(acc: seq<Payload>, data: Bytes, offset: nat, t: Byte)
    requires offset < |data| && t != NO_NEXT
    ensures var r := Prepend(acc, StrictWalk(data[offset..], t));
            match Unlink(data[offset..])
            case Err => r == Err
            case Ok(l) =>
              match DecBody(t, l.body)
              case Err => r == Err
              case Ok(p) => r == Prepend(acc + [p], StrictWalk(data[offset + l.size..], l.next))
  {
    hide DecBody, Unlink;
    match Unlink(data[offset..])
    case Err =>
    case Ok(l) =>
      assert data[offset..][l.size..] == data[offset + l.size..];
      if DecBody(t, l.body).Ok? {
        PrependJoin(acc, [DecBody(t, l.body).value], StrictWalk(data[offset + l.size..], l.next));
      }
  }

  lemma LenientLoop(acc: seq<Payload>, data: Bytes, offset: nat, t: Byte)
    requires offset + 4 <= |data| && t != NO_NEXT
    ensures var r := Prepend(acc, LenientWalk(data[offset..], t));
            match Unlink(data[offset..])
            case Err => r == Err
            case Ok(l) =>
              match DecBody(t, l.body)
              case Err => r == Err
              case Ok(p) => r == Prepend(acc + [p], LenientWalk(data[offset + l.size..], l.next))
  {
    hide DecBody, Unlink;
    match Unlink(data[offset..])
    case Err =>
    case Ok(l) =>
      assert data[offset..][l.size..] == data[offset + l.size..];
      if DecBody(t, l.body).Ok? {
        PrependJoin(acc, [DecBody(t, l.body).value], LenientWalk(data[offset + l.size..], l.next));
      }
  }

  /** `DecodePacket`. */
  method DecodePacket(data: Bytes) returns (r: Result<(Header, seq<Payload>)>)
    ensures r == DecPacket(data)
  {
    hide DecBody, Unlink, DecHeader;
    var h := DecHeader(data);
    if h.Err? { return Err; }
    var offset, t := HEADER_LEN, h.value.next;
    var ps: seq<Payload> := [];
    ghost var whole := StrictWalk(data[HEADER_LEN..], t);
    PrependNone(whole);
    while t != NO_NEXT && offset < |data|
      invariant HEADER_LEN <= offset <= |data|
      invariant Prepend(ps, StrictWalk(data[offset..], t)) == whole
      decreases |data| - offset
    {
      StrictLoop(ps, data, offset, t);
      var link := Unlink(data[offset..]);
      if link.Err? { return Err; }
      var p := DecodeBody(t, link.value.body);
      if p.Err? { return Err; }
      ps := ps + [p.value];
      t := link.value.next;
      offset := offset + link.value.size;
    }
    assert ps + [] == ps && StrictWalk(data[offset..], t) == Ok([]);
    return Ok((h.value, ps));
  }

  /** `parsePayloads`. */
  method ParsePayloads(data: Bytes, firstType: Byte) returns (r: Result<seq<Payload>>)
    ensures r == LenientWalk(data, firstType)
  {
    hide DecBody, Unlink;
    var offset, t := 0, firstType;
    var ps: seq<Payload> := [];
    ghost var whole := LenientWalk(data, t);
    PrependNone(whole);
    assert data[0..] == data;
    while t != NO_NEXT && offset < |data|
      invariant offset <= |data|
      invariant Prepend(ps, LenientWalk(data[offset..], t)) == whole
      decreases |data| - offset
    {
      if offset + 4 > |data| { break; }
      LenientLoop(ps, data, offset, t);
      var link := Unlink(data[offset..]);
      if link.Err? { return Err; }
      var p := DecodeBody(t, link.value.body);
      if p.Err? { return Err; }
      ps := ps + [p.value];
      t := link.value.next;
      offset := offset + link.value.size;
    }
    assert ps + [] == ps && LenientWalk(data[offset..], t) == Ok([]);
    return Ok(ps);
  }
}
