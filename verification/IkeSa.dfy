/**
 The SA payload of section 3.3 of RFC 7296: proposals hold transforms, transforms hold attributes.
 Each level has a recursive encoder and decoder, and the offset-walking loops of the source are
 proved equal to them.
 */
module IkeSa {
  import opened Bytes

  const MSB := 0x8000

  /** A transform attribute: TLV when `value` is non-empty, otherwise TV carrying `val`. */
  datatype Attr = Attr(typ: nat, value: Bytes, val: nat) {
    predicate WellFormed() {
      typ < MSB && val < U16_SIZE && |value| < U16_SIZE
    }
  }

  datatype Transform = Transform(last: bool, typ: Byte, id: nat, attrs: seq<Attr>) {
    predicate WellFormed() {
      && id < U16_SIZE
      && (forall i :: 0 <= i < |attrs| ==> attrs[i].WellFormed())
      && |EncTransform(this)| < U16_SIZE
    }
  }

  datatype Proposal = Proposal(last: bool, num: Byte, proto: Byte, spi: Bytes, transforms: seq<Transform>) {
    predicate WellFormed() {
      && |spi| < 256
      && |transforms| < 256
      && (forall i :: 0 <= i < |transforms| ==> transforms[i].WellFormed())
      && |EncProposal(this)| < U16_SIZE
    }
  }

  // ---------- encoders ----------

  function EncAttr(a: Attr): (b: Bytes)
    ensures |b| >= 4
  {
    if |a.value| > 0 then PutU16(a.typ % MSB) + PutU16(|a.value|) + a.value
    else PutU16(a.typ % MSB + MSB) + PutU16(a.val)
  }

  function EncAttrs(attrs: seq<Attr>): Bytes {
    if attrs == [] then [] else EncAttr(attrs[0]) + EncAttrs(attrs[1..])
  }

  function TransformHeader(t: Transform, bodyLen: nat): (b: Bytes)
    ensures |b| == 8
  {
    [if t.last then 0 else 3, 0] + PutU16(8 + bodyLen) + [t.typ, 0] + PutU16(t.id)
  }

  function EncTransform(t: Transform): (b: Bytes)
    ensures |b| >= 8
  {
    var body := EncAttrs(t.attrs);
    TransformHeader(t, |body|) + body
  }

  function EncTransforms(ts: seq<Transform>): Bytes {
    if ts == [] then [] else EncTransform(ts[0].(last := |ts| == 1)) + EncTransforms(ts[1..])
  }

  function ProposalHeader(p: Proposal, bodyLen: nat): (b: Bytes)
    ensures |b| == 8
  {
    [if p.last then 0 else 2, 0] + PutU16(8 + |p.spi| + bodyLen)
    + [p.num, p.proto, |p.spi| % 256, |p.transforms| % 256]
  }

  function EncProposal(p: Proposal): (b: Bytes)
    ensures |b| >= 8
  {
    var body := EncTransforms(p.transforms);
    ProposalHeader(p, |body|) + p.spi + body
  }

  function EncProposals(ps: seq<Proposal>): Bytes {
    if ps == [] then [] else EncProposal(ps[0].(last := |ps| == 1)) + EncProposals(ps[1..])
  }

  // ---------- decoders ----------

  /** One attribute at the front of `d`, with the number of bytes it takes. */
  function DecAttr(d: Bytes): (r: Result<(Attr, nat)>)
    ensures r.Ok? ==> 4 <= r.value.1 <= |d| && r.value.0.WellFormed()
  {
    if |d| < 4 then Err
    else
      var raw := GetU16(d[..2]);
      var n := GetU16(d[2..4]);
      if raw >= MSB then Ok((Attr(raw - MSB, [], n), 4))
      else if 4 + n > |d| then Err
      else Ok((Attr(raw, d[4..4 + n], 0), 4 + n))
  }

  function DecAttrs(d: Bytes): Result<seq<Attr>>
    decreases |d|
  {
    if d == [] then Ok([])
    else match DecAttr(d)
      case Err => Err
      case Ok((a, n)) => Prepend([a], DecAttrs(d[n..]))
  }

  function DecTransform(d: Bytes): (r: Result<Transform>)
    ensures r.Ok? ==> |d| >= 8 && r.value.last == (d[0] == 0)
  {
    if |d| < 8 then Err
    else match DecAttrs(d[8..])
      case Err => Err
      case Ok(attrs) => Ok(Transform(d[0] == 0, d[4], GetU16(d[6..8]), attrs))
  }

  /** The length field both sub-structures carry at offset 2, when it stays inside the data. */
  function SubLength(d: Bytes): (r: Result<nat>)
    ensures r.Ok? ==> r.value <= |d|
  {
    if |d| < 4 then Err
    else if GetU16(d[2..4]) > |d| then Err
    else Ok(GetU16(d[2..4]))
  }

  function DecTransforms(d: Bytes, count: nat): (r: Result<seq<Transform>>)
    ensures r.Ok? ==> |r.value| == count
  {
    if count == 0 then Ok([])
    else match SubLength(d)
      case Err => Err
      case Ok(n) =>
        match DecTransform(d[..n])
        case Err => Err
        case Ok(t) => Prepend([t], DecTransforms(d[n..], count - 1))
  }

  function DecProposal(d: Bytes): (r: Result<Proposal>)
    ensures r.Ok? ==> |d| >= 8 && r.value.last == (d[0] == 0)
  {
    if |d| < 8 || |d| < 8 + d[6] as int then Err
    else
      var spiEnd := 8 + d[6] as int;
      match DecTransforms(d[spiEnd..], d[7])
      case Err => Err
      case Ok(ts) => Ok(Proposal(d[0] == 0, d[4], d[5], d[8..spiEnd], ts))
  }

  function DecProposals(d: Bytes): Result<seq<Proposal>>
    decreases |d|
  {
    if d == [] then Ok([])
    else match SubLength(d)
      case Err => Err
      case Ok(n) =>
        match DecProposal(d[..n])
        case Err => Err
        case Ok(p) => if p.last then Ok([p]) else Prepend([p], DecProposals(d[n..]))
  }

  // ---------- what a round trip normalises ----------

  function NormAttr(a: Attr): Attr {
    if |a.value| > 0 then a.(val := 0) else a
  }

  function NormAttrs(attrs: seq<Attr>): seq<Attr> {
    if attrs == [] then [] else [NormAttr(attrs[0])] + NormAttrs(attrs[1..])
  }

  function NormTransforms(ts: seq<Transform>): seq<Transform> {
    if ts == [] then []
    else [ts[0].(last := |ts| == 1, attrs := NormAttrs(ts[0].attrs))] + NormTransforms(ts[1..])
  }

  function NormProposals(ps: seq<Proposal>): seq<Proposal> {
    if ps == [] then []
    else [ps[0].(last := |ps| == 1, transforms := NormTransforms(ps[0].transforms))] + NormProposals(ps[1..])
  }

  // ---------- round trips ----------

  lemma AttrStep(a: Attr, rest: Bytes)
    requires a.WellFormed()
    ensures DecAttr(EncAttr(a) + rest) == Ok((NormAttr(a), |EncAttr(a)|))
  {
    hide PutU16, GetU16;
    var d := EncAttr(a) + rest;
    if |a.value| > 0 {
      assert d[..2] == PutU16(a.typ % MSB) && d[2..4] == PutU16(|a.value|);
      assert d[4..4 + |a.value|] == a.value;
      U16RoundTrip(a.typ);
      U16RoundTrip(|a.value|);
    } else {
      assert d[..2] == PutU16(a.typ % MSB + MSB) && d[2..4] == PutU16(a.val);
      U16RoundTrip(a.typ + MSB);
      U16RoundTrip(a.val);
    }
  }

  /** An attribute on the wire (section 3.3.5 of RFC 7296): the top bit of the type tells TV from TLV. */
  lemma AttrWire(a: Attr)
    requires a.WellFormed()
    ensures var d := EncAttr(a);
      && GetBE(d[..2]) == (if a.value == [] then 0x8000 + a.typ else a.typ)
      && GetBE(d[2..4]) == (if a.value == [] then a.val else |a.value|)
      && d[4..] == a.value
  {
    hide PutU16, GetBE;
    var d, t := EncAttr(a), if a.value == [] then 0x8000 + a.typ else a.typ;
    var n := if a.value == [] then a.val else |a.value|;
    assert d[..2] == PutU16(t) && d[2..4] == PutU16(n);
    U16Wire(t);
    U16Wire(n);
  }

  lemma U16Again(b: Bytes)
    requires |b| == 2
    ensures PutU16(GetBE(b)) == b && GetBE(b) == GetU16(b) < U16_SIZE
  {
    hide PutU16, PutBE, GetBE, Radix;
    BECanonical(b);
    RadixValues();
    U16IsBigEndian(GetBE(b), b);
  }

  /**
   Whatever is read as an attribute is written again as the bytes it came from, except the TLV form without a value,
   which becomes a TV. Nothing is read exactly when the header or the value is cut off.
   */
  lemma AttrReencodes(d: Bytes)
    ensures DecAttr(d).Err?
      <==> |d| < 4 || (GetBE(d[..2]) < 0x8000 && |d| < 4 + GetBE(d[2..4]))
    ensures DecAttr(d).Ok? ==>
      var (a, n) := DecAttr(d).value;
      if GetBE(d[..2]) < 0x8000 && GetBE(d[2..4]) == 0 then n == 4 && a == Attr(GetBE(d[..2]), [], 0)
      else n <= |d| && EncAttr(a) == d[..n]
  {
    hide PutU16, GetU16, GetBE;
    if |d| >= 4 {
      U16Again(d[..2]);
      U16Again(d[2..4]);
      if DecAttr(d).Ok? {
        var n := DecAttr(d).value.1;
        assert d[..n] == d[..2] + d[2..4] + d[4..n];
      }
    }
  }

  lemma {:induction false} AttrsRoundTrip(attrs: seq<Attr>)
    requires forall i :: 0 <= i < |attrs| ==> attrs[i].WellFormed()
    ensures DecAttrs(EncAttrs(attrs)) == Ok(NormAttrs(attrs))
  {
    if attrs == [] {
    } else {
      var rest := EncAttrs(attrs[1..]);
      AttrStep(attrs[0], rest);
      AttrsRoundTrip(attrs[1..]);
      assert (EncAttr(attrs[0]) + rest)[|EncAttr(attrs[0])|..] == rest;
    }
  }

  lemma TransformLayout(t: Transform)
    ensures var d := EncTransform(t);
            && d[2..4] == PutU16(|d|)
            && d[4] == t.typ && d[6..8] == PutU16(t.id)
            && |d| == 8 + |EncAttrs(t.attrs)|
            && (d[0] == 0 <==> t.last)
            && d[8..] == EncAttrs(t.attrs)
  {
    var h := TransformHeader(t, |EncAttrs(t.attrs)|);
    assert EncTransform(t)[2..4] == h[2..4] && EncTransform(t)[6..8] == h[6..8];
  }

  /** A transform on the wire (section 3.3.2 of RFC 7296). */
  lemma TransformWire(t: Transform)
    requires t.WellFormed()
    ensures var d := EncTransform(t);
      && d[0] == (if t.last then 0 else 3) && d[1] == 0 && GetBE(d[2..4]) == |d|
      && d[4] == t.typ && d[5] == 0 && GetBE(d[6..8]) == t.id && d[8..] == EncAttrs(t.attrs)
  {
    hide PutU16, GetBE, EncAttrs;
    TransformLayout(t);
    U16Wire(|EncTransform(t)|);
    U16Wire(t.id);
  }

  lemma TransformRoundTrip(t: Transform)
    requires t.WellFormed()
    ensures DecTransform(EncTransform(t)) == Ok(t.(attrs := NormAttrs(t.attrs)))
  {
    hide EncTransform, DecAttrs, EncAttrs, NormAttrs;
    var d := EncTransform(t);
    assert |d| >= 8 && (d[0] == 0 <==> t.last) && d[4] == t.typ && GetU16(d[6..8]) == t.id
        && DecAttrs(d[8..]) == Ok(NormAttrs(t.attrs)) by {
      TransformLayout(t);
      AttrsRoundTrip(t.attrs);
      U16RoundTrip(t.id);
    }
  }

  /** The length field of an encoded sub-structure delimits it, whatever follows. */
  lemma SubLengthOf(d: Bytes, rest: Bytes)
    requires 4 <= |d| < U16_SIZE && d[2..4] == PutU16(|d|)
    ensures SubLength(d + rest) == Ok(|d|)
    ensures (d + rest)[..|d|] == d && (d + rest)[|d|..] == rest
  {
    assert (d + rest)[2..4] == d[2..4];
  }

  lemma TransformLast(t: Transform, last: bool)
    requires t.WellFormed()
    ensures t.(last := last).WellFormed()
  {
    TransformLayout(t);
    TransformLayout(t.(last := last));
  }

  lemma TransformStep(t: Transform, rest: Bytes, count: nat)
    requires t.WellFormed() && count > 0
    ensures DecTransforms(EncTransform(t) + rest, count)
         == Prepend([t.(attrs := NormAttrs(t.attrs))], DecTransforms(rest, count - 1))
  {
    hide EncTransform, DecTransform, NormAttrs;
    TransformLayout(t);
    TransformRoundTrip(t);
    SubLengthOf(EncTransform(t), rest);
  }

  lemma {:induction false} TransformsRoundTrip(ts: seq<Transform>)
    requires forall i :: 0 <= i < |ts| ==> ts[i].WellFormed()
    ensures DecTransforms(EncTransforms(ts), |ts|) == Ok(NormTransforms(ts))
  {
    hide EncTransform, NormAttrs;
    if ts == [] {
      assert EncTransforms(ts) == [];
    } else {
      var t, rest := ts[0].(last := |ts| == 1), EncTransforms(ts[1..]);
      TransformLast(ts[0], |ts| == 1);
      TransformsRoundTrip(ts[1..]);
      TransformStep(t, rest, |ts|);
      assert EncTransforms(ts) == EncTransform(t) + rest;
    }
  }

  lemma ProposalLayout(p: Proposal)
    requires |p.spi| < 256 && |p.transforms| < 256
    ensures var d := EncProposal(p);
            && d[2..4] == PutU16(|d|)
            && d[4] == p.num && d[5] == p.proto && d[6] == |p.spi| && d[7] == |p.transforms|
            && |d| == 8 + |p.spi| + |EncTransforms(p.transforms)|
            && (d[0] == 0 <==> p.last)
            && d[8..8 + |p.spi|] == p.spi && d[8 + |p.spi|..] == EncTransforms(p.transforms)
  {
    var h := ProposalHeader(p, |EncTransforms(p.transforms)|);
    assert EncProposal(p)[2..4] == h[2..4];
  }

  /** A proposal on the wire (section 3.3.1 of RFC 7296). */
  lemma ProposalWire(p: Proposal)
    requires p.WellFormed()
    ensures var d := EncProposal(p);
      && d[0] == (if p.last then 0 else 2) && d[1] == 0 && GetBE(d[2..4]) == |d|
      && d[4] == p.num && d[5] == p.proto && d[6] == |p.spi| && d[7] == |p.transforms|
      && d[8..8 + |p.spi|] == p.spi && d[8 + |p.spi|..] == EncTransforms(p.transforms)
  {
    hide PutU16, GetBE, EncTransforms;
    ProposalLayout(p);
    U16Wire(|EncProposal(p)|);
  }

  lemma ProposalRoundTrip(p: Proposal)
    requires p.WellFormed()
    ensures DecProposal(EncProposal(p)) == Ok(p.(transforms := NormTransforms(p.transforms)))
  {
    hide EncProposal, DecTransforms, EncTransforms, NormTransforms;
    var d := EncProposal(p);
    assert |d| >= 8 + |p.spi| && (d[0] == 0 <==> p.last)
        && d[4] == p.num && d[5] == p.proto && d[6] == |p.spi| && d[7] == |p.transforms|
        && d[8..8 + |p.spi|] == p.spi && d[8 + |p.spi|..] == EncTransforms(p.transforms) by {
      ProposalLayout(p);
    }
    TransformsRoundTrip(p.transforms);
  }

  lemma ProposalLast(p: Proposal, last: bool)
    requires p.WellFormed()
    ensures p.(last := last).WellFormed()
  {
    ProposalLayout(p);
    ProposalLayout(p.(last := last));
  }

  lemma ProposalStep(p: Proposal, rest: Bytes)
    requires p.WellFormed()
    ensures var q := p.(transforms := NormTransforms(p.transforms));
            DecProposals(EncProposal(p) + rest) == if p.last then Ok([q]) else Prepend([q], DecProposals(rest))
  {
    hide EncProposal, DecProposal, NormTransforms;
    ProposalLayout(p);
    ProposalRoundTrip(p);
    SubLengthOf(EncProposal(p), rest);
  }

  /** SA payload round trip: any number of proposals, transforms and TV/TLV attributes. */
  lemma {:induction false} ProposalsRoundTrip(ps: seq<Proposal>)
    requires forall i :: 0 <= i < |ps| ==> ps[i].WellFormed()
    ensures DecProposals(EncProposals(ps)) == Ok(NormProposals(ps))
  {
    hide EncProposal, NormTransforms;
    if ps == [] {
      assert EncProposals(ps) == [];
    } else {
      var p, rest := ps[0].(last := |ps| == 1), EncProposals(ps[1..]);
      ProposalLast(ps[0], |ps| == 1);
      ProposalsRoundTrip(ps[1..]);
      ProposalStep(p, rest);
      assert EncProposals(ps) == EncProposal(p) + rest;
      var q := p.(transforms := NormTransforms(p.transforms));
      assert NormProposals(ps) == [q] + NormProposals(ps[1..]);
      assert p.last ==> NormProposals(ps) == [q];
    }
  }

  // ---------- the loops of the source ----------

  /** `Transform.Encode`. */
  method EncodeTransform(t: Transform) returns (b: Bytes)
    ensures b == EncTransform(t)
  {
    var attrsBody: Bytes := [];
    for i := 0 to |t.attrs|
      invariant attrsBody + EncAttrs(t.attrs[i..]) == EncAttrs(t.attrs)
    {
      assert t.attrs[i..][1..] == t.attrs[i + 1..];
      attrsBody := attrsBody + EncAttr(t.attrs[i]);
    }
    b := TransformHeader(t, |attrsBody|) + attrsBody;
  }

  /** Writing the Last flags in place, as `Proposal.Encode` and the SA payload's `Encode` do. */
  function MarkTransforms(ts: seq<Transform>): (r: seq<Transform>)
    ensures |r| == |ts|
  {
    seq(|ts|, i requires 0 <= i < |ts| => ts[i].(last := i == |ts| - 1))
  }

  /** `Proposal.Encode`: also leaves the Last flag set on exactly the final transform. */
  method EncodeProposal(p: Proposal) returns (b: Bytes, marked: Proposal)
    ensures b == EncProposal(p)
    ensures marked == p.(transforms := MarkTransforms(p.transforms))
  {
    hide EncTransform, ProposalHeader;
    var body: Bytes := [];
    var ts := p.transforms;
    for i := 0 to |ts|
      invariant |ts| == |p.transforms|
      invariant forall k :: 0 <= k < i ==> ts[k] == MarkTransforms(p.transforms)[k]
      invariant forall k :: i <= k < |ts| ==> ts[k] == p.transforms[k]
      invariant body + EncTransforms(p.transforms[i..]) == EncTransforms(p.transforms)
    {
      ts := ts[i := ts[i].(last := i == |ts| - 1)];
      var enc := EncodeTransform(ts[i]);
      assert p.transforms[i..][1..] == p.transforms[i + 1..];
      body := body + enc;
    }
    marked := p.(transforms := ts);
    b := ProposalHeader(p, |body|) + p.spi + body;
  }

  function MarkProposals(ps: seq<Proposal>): (r: seq<Proposal>)
    ensures |r| == |ps|
  {
    seq(|ps|, i requires 0 <= i < |ps| =>
      ps[i].(last := i == |ps| - 1, transforms := MarkTransforms(ps[i].transforms)))
  }

  /** The SA payload's `Encode`. */
  method EncodeSa(ps: seq<Proposal>) returns (b: Bytes, marked: seq<Proposal>)
    ensures b == EncProposals(ps)
    ensures marked == MarkProposals(ps)
  {
    hide EncProposal;
    b, marked := [], [];
    for i := 0 to |ps|
      invariant marked == MarkProposals(ps)[..i]
      invariant b + EncProposals(ps[i..]) == EncProposals(ps)
    {
      var enc, p := EncodeProposal(ps[i].(last := i == |ps| - 1));
      assert ps[i..][1..] == ps[i + 1..];
      b := b + enc;
      marked := marked + [p];
    }
  }

  lemma AttrsLoop(acc: seq<Attr>, data: Bytes, offset: nat)
    requires offset < |data|
    ensures var r := Prepend(acc, DecAttrs(data[offset..]));
            match DecAttr(data[offset..])
            case Err => r == Err
            case Ok((a, n)) => r == Prepend(acc + [a], DecAttrs(data[offset + n..]))
  {
    hide DecAttr;
    match DecAttr(data[offset..])
    case Err =>
    case Ok((a, n)) =>
      assert data[offset..][n..] == data[offset + n..];
      PrependJoin(acc, [a], DecAttrs(data[offset + n..]));
  }

  /** `DecodeTransform`. */
  method DecodeTransform(data: Bytes) returns (r: Result<Transform>)
    ensures r == DecTransform(data)
  {
    hide DecAttr;
    if |data| < 8 { return Err; }
    var offset := 8;
    var attrs: seq<Attr> := [];
    PrependNone(DecAttrs(data[8..]));
    while offset < |data|
      invariant 8 <= offset <= |data|
      invariant Prepend(attrs, DecAttrs(data[offset..])) == DecAttrs(data[8..])
    {
      AttrsLoop(attrs, data, offset);
      var step := DecAttr(data[offset..]);
      if step.Err? { return Err; }
      attrs := attrs + [step.value.0];
      offset := offset + step.value.1;
    }
    assert data[offset..] == [] && attrs + [] == attrs;
    return Ok(Transform(data[0] == 0, data[4], GetU16(data[6..8]), attrs));
  }

  lemma SubLengthAt(data: Bytes, offset: nat)
    requires offset <= |data|
    ensures SubLength(data[offset..]) ==
            if offset + 4 > |data| || offset + GetU16(data[offset + 2..offset + 4]) > |data| then Err
            else Ok(GetU16(data[offset + 2..offset + 4]))
  {
    if offset + 4 <= |data| {
      assert data[offset..][2..4] == data[offset + 2..offset + 4];
    }
  }

  lemma TransformsLoop(acc: seq<Transform>, data: Bytes, offset: nat, count: nat)
    requires offset <= |data| && count > 0
    ensures var r := Prepend(acc, DecTransforms(data[offset..], count));
            match SubLength(data[offset..])
            case Err => r == Err
            case Ok(n) =>
              match DecTransform(data[offset..offset + n])
              case Err => r == Err
              case Ok(t) => r == Prepend(acc + [t], DecTransforms(data[offset + n..], count - 1))
  {
    hide DecTransform, SubLength;
    match SubLength(data[offset..])
    case Err =>
    case Ok(n) =>
      assert data[offset..][..n] == data[offset..offset + n] && data[offset..][n..] == data[offset + n..];
      match DecTransform(data[offset..offset + n])
      case Err =>
      case Ok(t) => PrependJoin(acc, [t], DecTransforms(data[offset + n..], count - 1));
  }

  /** `DecodeProposal`. */
  method DecodeProposal(data: Bytes) returns (r: Result<Proposal>)
    ensures r == DecProposal(data)
  {
    hide DecTransform, SubLength;
    if |data| < 8 || |data| < 8 + data[6] as int { return Err; }
    var start := 8 + data[6] as int;
    var offset := start;
    var ts: seq<Transform> := [];
    var count: nat := data[7];
    ghost var whole := DecTransforms(data[start..], count);
    PrependNone(whole);
    for i := 0 to count
      invariant start <= offset <= |data|
      invariant Prepend(ts, DecTransforms(data[offset..], count - i)) == whole
    {
      TransformsLoop(ts, data, offset, count - i);
      SubLengthAt(data, offset);
      if offset + 4 > |data| { return Err; }
      var n := GetU16(data[offset + 2..offset + 4]);
      if offset + n > |data| { return Err; }
      var t := DecodeTransform(data[offset..offset + n]);
      if t.Err? { return Err; }
      ts := ts + [t.value];
      offset := offset + n;
    }
    assert ts + [] == ts;
    return Ok(Proposal(data[0] == 0, data[4], data[5], data[8..start], ts));
  }

  lemma ProposalsLoop(acc: seq<Proposal>, data: Bytes, offset: nat)
    requires offset < |data|
    ensures var r := Prepend(acc, DecProposals(data[offset..]));
            match SubLength(data[offset..])
            case Err => r == Err
            case Ok(n) =>
              match DecProposal(data[offset..offset + n])
              case Err => r == Err
              case Ok(p) =>
                r == if p.last then Ok(acc + [p]) else Prepend(acc + [p], DecProposals(data[offset + n..]))
  {
    hide DecProposal, SubLength;
    match SubLength(data[offset..])
    case Err =>
    case Ok(n) =>
      assert data[offset..][..n] == data[offset..offset + n] && data[offset..][n..] == data[offset + n..];
      match DecProposal(data[offset..offset + n])
      case Err =>
      case Ok(p) => PrependJoin(acc, [p], DecProposals(data[offset + n..]));
  }

  /** `DecodePayloadSA`. */
  method DecodeSa(data: Bytes) returns (r: Result<seq<Proposal>>)
    ensures r == DecProposals(data)
  {
    hide DecProposal, SubLength;
    var offset := 0;
    var ps: seq<Proposal> := [];
    ghost var whole := DecProposals(data);
    PrependNone(whole);
    assert data[0..] == data;
    while offset < |data|
      invariant offset <= |data|
      invariant Prepend(ps, DecProposals(data[offset..])) == whole
    {
      ProposalsLoop(ps, data, offset);
      SubLengthAt(data, offset);
      if offset + 4 > |data| { return Err; }
      var n := GetU16(data[offset + 2..offset + 4]);
      if offset + n > |data| { return Err; }
      var p := DecodeProposal(data[offset..offset + n]);
      if p.Err? { return Err; }
      ps := ps + [p.value];
      if p.value.last { return Ok(ps); }
      offset := offset + n;
    }
    assert data[offset..] == [] && ps + [] == ps;
    return Ok(ps);
  }

  // ---------- the Last flags ----------

  /** A transform list on the wire: the first byte of each is 3, and 0 on the final one. */
  lemma TransformsWire(ts: seq<Transform>)
    requires ts != [] && ts[0].WellFormed()
    ensures var d := EncTransforms(ts);
      && |d| >= 8 && d[0] == (if |ts| == 1 then 0 else 3) && d[4] == ts[0].typ
      && var n := GetBE(d[2..4]); 8 <= n <= |d| && d[n..] == EncTransforms(ts[1..])
  {
    hide EncTransform, GetBE;
    var t, rest := ts[0].(last := |ts| == 1), EncTransforms(ts[1..]);
    TransformLast(ts[0], |ts| == 1);
    TransformWire(t);
    assert EncTransforms(ts) == EncTransform(t) + rest;
    assert (EncTransform(t) + rest)[2..4] == EncTransform(t)[2..4];
  }

  /** A proposal list on the wire: the first byte of each is 2, and 0 on the final one. */
  lemma ProposalsWire(ps: seq<Proposal>)
    requires ps != [] && ps[0].WellFormed()
    ensures var d := EncProposals(ps);
      && |d| >= 8 && d[0] == (if |ps| == 1 then 0 else 2) && d[4] == ps[0].num
      && var n := GetBE(d[2..4]); 8 <= n <= |d| && d[n..] == EncProposals(ps[1..])
  {
    hide EncProposal, GetBE;
    var p, rest := ps[0].(last := |ps| == 1), EncProposals(ps[1..]);
    ProposalLast(ps[0], |ps| == 1);
    ProposalWire(p);
    assert EncProposals(ps) == EncProposal(p) + rest;
    assert (EncProposal(p) + rest)[2..4] == EncProposal(p)[2..4];
  }

  lemma {:induction false} NormSize(ts: seq<Transform>)
    ensures |NormTransforms(ts)| == |ts|
  {
    hide NormAttrs;
    if ts == [] {
    } else {
      NormSize(ts[1..]);
    }
  }

  /** Encoding leaves behind, in place, the very Last flags that a decoder then reads. */
  lemma {:induction false} MarkedAsDecoded(ts: seq<Transform>, i: nat)
    requires i < |ts|
    ensures |NormTransforms(ts)| == |ts|
    ensures NormTransforms(ts)[i] == MarkTransforms(ts)[i].(attrs := NormAttrs(ts[i].attrs))
    ensures MarkTransforms(ts)[i].last <==> i == |ts| - 1
  {
    hide NormAttrs;
    NormSize(ts);
    if i == 0 {
    } else {
      MarkedAsDecoded(ts[1..], i - 1);
    }
  }

  lemma {:induction false} NormProposalsSize(ps: seq<Proposal>)
    ensures |NormProposals(ps)| == |ps|
  {
    hide NormTransforms;
    if ps == [] {
    } else {
      NormProposalsSize(ps[1..]);
    }
  }

  lemma {:induction false} ProposalsMarkedAsDecoded(ps: seq<Proposal>, i: nat)
    requires i < |ps|
    ensures |NormProposals(ps)| == |ps|
    ensures NormProposals(ps)[i] == MarkProposals(ps)[i].(transforms := NormTransforms(ps[i].transforms))
    ensures MarkProposals(ps)[i].last <==> i == |ps| - 1
    ensures MarkProposals(ps)[i].transforms == MarkTransforms(ps[i].transforms)
  {
    hide NormTransforms;
    NormProposalsSize(ps);
    if i == 0 {
    } else {
      ProposalsMarkedAsDecoded(ps[1..], i - 1);
    }
  }
}
