/**
 The IKEv2 payload bodies: traffic selectors, configuration attributes, notify, delete and the flat
 payloads, together with the dispatch on payload type that both payload walkers share.
 */
module IkePayload {
  import opened Bytes
  import opened IkeSa

  // ---------- traffic selectors (section 3.13 of RFC 7296) ----------

  const TS_IPV4 := 7
  const TS_IPV6 := 8

  datatype TrafficSelector = TrafficSelector(
    tsType: Byte, proto: Byte, startPort: nat, endPort: nat, startAddr: Bytes, endAddr: Bytes)
  {
    /** The encoder indexes a 16- or 40-byte buffer and is only defined for these two types. */
    predicate Encodable() {
      tsType == TS_IPV4 || tsType == TS_IPV6
    }

    function AddrLen(): nat {
      if tsType == TS_IPV6 then 16 else 4
    }

    predicate WellFormed() {
      && Encodable()
      && startPort < U16_SIZE && endPort < U16_SIZE
      && |startAddr| == AddrLen() && |endAddr| == AddrLen()
    }
  }

  function SelectorHeader(ts: TrafficSelector): (b: Bytes)
    ensures |b| == 8
  {
    [ts.tsType, ts.proto] + PutU16(8 + 2 * ts.AddrLen()) + PutU16(ts.startPort) + PutU16(ts.endPort)
  }

  function EncSelector(ts: TrafficSelector): (b: Bytes)
    requires ts.Encodable()
    ensures |b| == 8 + 2 * ts.AddrLen()
  {
    SelectorHeader(ts) + Fit(ts.startAddr, ts.AddrLen()) + Fit(ts.endAddr, ts.AddrLen())
  }

  function EncSelectors(tss: seq<TrafficSelector>): Bytes
    requires forall i :: 0 <= i < |tss| ==> tss[i].Encodable()
  {
    if tss == [] then [] else EncSelector(tss[0]) + EncSelectors(tss[1..])
  }

  /** One selector at the front of `d`, with the number of bytes it takes. */
  function DecSelector(d: Bytes): (r: Result<(TrafficSelector, nat)>)
    ensures r.Ok? ==> 8 <= r.value.1 <= |d| && r.value.0.WellFormed()
  {
    if |d| < 8 then Err
    else
      var n := GetU16(d[2..4]);
      if n < 8 || n > |d| then Err
      else if !((d[0] == TS_IPV4 && n == 16) || (d[0] == TS_IPV6 && n == 40)) then Err
      else
        var mid := 8 + (n - 8) / 2;
        Ok((TrafficSelector(d[0], d[1], GetU16(d[4..6]), GetU16(d[6..8]), d[8..mid], d[mid..n]), n))
  }

  function DecSelectors(d: Bytes, count: nat): (r: Result<seq<TrafficSelector>>)
    ensures r.Ok? ==> |r.value| == count
  {
    if count == 0 then Ok([])
    else match DecSelector(d)
      case Err => Err
      case Ok((ts, n)) => Prepend([ts], DecSelectors(d[n..], count - 1))
  }

  lemma SelectorLayout(ts: TrafficSelector, rest: Bytes)
    requires ts.WellFormed()
    ensures var d, a := EncSelector(ts) + rest, ts.AddrLen();
            && d[0] == ts.tsType && d[1] == ts.proto
            && d[2..4] == PutU16(8 + 2 * a) && d[4..6] == PutU16(ts.startPort) && d[6..8] == PutU16(ts.endPort)
            && d[8..8 + a] == ts.startAddr && d[8 + a..8 + 2 * a] == ts.endAddr
            && d[8 + 2 * a..] == rest
  {
    hide PutU16;
    var h := SelectorHeader(ts);
    var d := EncSelector(ts) + rest;
    assert d == h + ts.startAddr + ts.endAddr + rest;
    assert d[2..4] == h[2..4] && d[4..6] == h[4..6] && d[6..8] == h[6..8];
  }

  /** A selector on the wire (section 3.13.1 of RFC 7296). */
  lemma SelectorWire(ts: TrafficSelector)
    requires ts.WellFormed()
    ensures var d, a := EncSelector(ts), if ts.tsType == 8 then 16 else 4;
      && |d| == 8 + 2 * a && d[0] == ts.tsType && d[1] == ts.proto && GetBE(d[2..4]) == |d|
      && GetBE(d[4..6]) == ts.startPort && GetBE(d[6..8]) == ts.endPort
      && d[8..8 + a] == ts.startAddr && d[8 + a..] == ts.endAddr
  {
    hide PutU16, GetBE;
    SelectorLayout(ts, []);
    assert EncSelector(ts) + [] == EncSelector(ts);
    U16Wire(|EncSelector(ts)|);
    U16Wire(ts.startPort);
    U16Wire(ts.endPort);
  }

  /** Whatever is read as a selector is written again as the bytes it came from. */
  lemma SelectorReencodes(d: Bytes)
    ensures DecSelector(d).Ok?
      <==> |d| >= 8 && ((d[0] == 7 && GetBE(d[2..4]) == 16 <= |d|) || (d[0] == 8 && GetBE(d[2..4]) == 40 <= |d|))
    ensures DecSelector(d).Ok? ==>
      var (ts, n) := DecSelector(d).value; n == GetBE(d[2..4]) <= |d| && EncSelector(ts) == d[..n]
  {
    hide PutU16, GetU16, GetBE;
    if |d| >= 8 {
      U16Again(d[2..4]);
      U16Again(d[4..6]);
      U16Again(d[6..8]);
      if DecSelector(d).Ok? {
        var n := DecSelector(d).value.1;
        var mid := 8 + (n - 8) / 2;
        assert d[..n] == [d[0], d[1]] + d[2..4] + d[4..6] + d[6..8] + d[8..mid] + d[mid..n];
      }
    }
  }

  lemma SelectorStep(ts: TrafficSelector, rest: Bytes)
    requires ts.WellFormed()
    ensures DecSelector(EncSelector(ts) + rest) == Ok((ts, |EncSelector(ts)|))
    ensures (EncSelector(ts) + rest)[|EncSelector(ts)|..] == rest
  {
    hide EncSelector, PutU16, GetU16;
    SelectorLayout(ts, rest);
    U16RoundTrip(8 + 2 * ts.AddrLen());
    U16RoundTrip(ts.startPort);
    U16RoundTrip(ts.endPort);
  }

  lemma {:induction false} SelectorsRoundTrip(tss: seq<TrafficSelector>)
    requires forall i :: 0 <= i < |tss| ==> tss[i].Encodable() && tss[i].WellFormed()
    ensures DecSelectors(EncSelectors(tss), |tss|) == Ok(tss)
  {
    hide EncSelector, DecSelector;
    if tss == [] {
    } else {
      SelectorStep(tss[0], EncSelectors(tss[1..]));
      SelectorsRoundTrip(tss[1..]);
      assert tss == [tss[0]] + tss[1..];
    }
  }

  lemma SelectorsLoop(acc: seq<TrafficSelector>, data: Bytes, offset: nat, count: nat)
    requires offset <= |data| && count > 0
    ensures var r := Prepend(acc, DecSelectors(data[offset..], count));
            match DecSelector(data[offset..])
            case Err => r == Err
            case Ok((ts, n)) => r == Prepend(acc + [ts], DecSelectors(data[offset + n..], count - 1))
  {
    hide DecSelector;
    match DecSelector(data[offset..])
    case Err =>
    case Ok((ts, n)) =>
      assert data[offset..][n..] == data[offset + n..];
      PrependJoin(acc, [ts], DecSelectors(data[offset + n..], count - 1));
  }

  /** The TS payload's `Encode`. */
  method EncodeTs(tss: seq<TrafficSelector>) returns (b: Bytes)
    requires forall i :: 0 <= i < |tss| ==> tss[i].Encodable()
    ensures b == [|tss| % 256, 0, 0, 0] + EncSelectors(tss)
  {
    hide EncSelector;
    var tsData: Bytes := [];
    for i := 0 to |tss|
      invariant tsData + EncSelectors(tss[i..]) == EncSelectors(tss)
    {
      assert tss[i..][1..] == tss[i + 1..];
      tsData := tsData + EncSelector(tss[i]);
    }
    b := [|tss| % 256, 0, 0, 0] + tsData;
  }

  /** The selector list inside `DecodePayloadTS`. */
  method DecodeTs(data: Bytes) returns (r: Result<seq<TrafficSelector>>)
    ensures r == if |data| < 4 then Err else DecSelectors(data[4..], data[0])
  {
    hide DecSelector;
    if |data| < 4 { return Err; }
    var offset := 4;
    var count: nat := data[0];
    var out: seq<TrafficSelector> := [];
    ghost var whole := DecSelectors(data[4..], count);
    PrependNone(whole);
    for i := 0 to count
      invariant 4 <= offset <= |data|
      invariant Prepend(out, DecSelectors(data[offset..], count - i)) == whole
    {
      SelectorsLoop(out, data, offset, count - i);
      var step := DecSelector(data[offset..]);
      if step.Err? { return Err; }
      out := out + [step.value.0];
      offset := offset + step.value.1;
    }
    assert out + [] == out;
    return Ok(out);
  }

  // ---------- configuration attributes (section 3.15 of RFC 7296) ----------

  datatype CpAttr = CpAttr(typ: nat, value: Bytes) {
    predicate WellFormed() {
      typ < MSB && |value| < U16_SIZE
    }
  }

  function EncCpAttr(a: CpAttr): (b: Bytes)
    ensures |b| == 4 + |a.value|
  {
    PutU16(a.typ) + PutU16(|a.value|) + a.value
  }

  function EncCpAttrs(attrs: seq<CpAttr>): Bytes {
    if attrs == [] then [] else EncCpAttr(attrs[0]) + EncCpAttrs(attrs[1..])
  }

  /** `decodeCPAttribute`: the TV form is accepted although it is never written. */
  function DecCpAttr(d: Bytes): (r: Result<(CpAttr, nat)>)
    ensures r.Ok? ==> 4 <= r.value.1 <= |d| && r.value.0.WellFormed()
  {
    if |d| < 4 then Err
    else
      var raw := GetU16(d[..2]);
      var n := GetU16(d[2..4]);
      if raw >= MSB then Ok((CpAttr(raw - MSB, d[2..4]), 4))
      else if |d| < 4 + n then Err
      else Ok((CpAttr(raw, d[4..4 + n]), 4 + n))
  }

  function DecCpAttrs(d: Bytes): Result<seq<CpAttr>>
    decreases |d|
  {
    if d == [] then Ok([])
    else match DecCpAttr(d)
      case Err => Err
      case Ok((a, n)) => Prepend([a], DecCpAttrs(d[n..]))
  }

  lemma CpAttrStep(a: CpAttr, rest: Bytes)
    requires a.WellFormed()
    ensures DecCpAttr(EncCpAttr(a) + rest) == Ok((a, |EncCpAttr(a)|))
    ensures (EncCpAttr(a) + rest)[|EncCpAttr(a)|..] == rest
  {
    hide PutU16, GetU16;
    var d := EncCpAttr(a) + rest;
    assert d[..2] == PutU16(a.typ) && d[2..4] == PutU16(|a.value|) && d[4..4 + |a.value|] == a.value;
    U16RoundTrip(a.typ);
    U16RoundTrip(|a.value|);
  }

  /** A configuration attribute on the wire (section 3.15.1 of RFC 7296). */
  lemma CpAttrWire(a: CpAttr)
    requires a.WellFormed()
    ensures var d := EncCpAttr(a); GetBE(d[..2]) == a.typ && GetBE(d[2..4]) == |a.value| && d[4..] == a.value
  {
    hide PutU16, GetBE;
    var d := EncCpAttr(a);
    assert d[..2] == PutU16(a.typ) && d[2..4] == PutU16(|a.value|);
    U16Wire(a.typ);
    U16Wire(|a.value|);
  }

  /**
   Whatever is read as a configuration attribute is written again as the bytes it came from, except the TV form:
   it is read as an attribute whose value is the two bytes behind the type.
   */
  lemma CpAttrReencodes(d: Bytes)
    ensures DecCpAttr(d).Err?
      <==> |d| < 4 || (GetBE(d[..2]) < 0x8000 && |d| < 4 + GetBE(d[2..4]))
    ensures DecCpAttr(d).Ok? ==>
      var (a, n) := DecCpAttr(d).value;
      if GetBE(d[..2]) < 0x8000 then n <= |d| && EncCpAttr(a) == d[..n]
      else n == 4 && a == CpAttr(GetBE(d[..2]) - 0x8000, d[2..4])
  {
    hide PutU16, GetU16, GetBE;
    if |d| >= 4 {
      U16Again(d[..2]);
      U16Again(d[2..4]);
      if DecCpAttr(d).Ok? {
        var n := DecCpAttr(d).value.1;
        assert d[..n] == d[..2] + d[2..4] + d[4..n];
      }
    }
  }

  lemma {:induction false} CpAttrsRoundTrip(attrs: seq<CpAttr>)
    requires forall i :: 0 <= i < |attrs| ==> attrs[i].WellFormed()
    ensures DecCpAttrs(EncCpAttrs(attrs)) == Ok(attrs)
  {
    hide EncCpAttr, DecCpAttr;
    if attrs == [] {
    } else {
      CpAttrStep(attrs[0], EncCpAttrs(attrs[1..]));
      CpAttrsRoundTrip(attrs[1..]);
      assert attrs == [attrs[0]] + attrs[1..];
    }
  }

  lemma CpAttrsLoop(acc: seq<CpAttr>, data: Bytes, offset: nat)
    requires offset < |data|
    ensures var r := Prepend(acc, DecCpAttrs(data[offset..]));
            match DecCpAttr(data[offset..])
            case Err => r == Err
            case Ok((a, n)) => r == Prepend(acc + [a], DecCpAttrs(data[offset + n..]))
  {
    hide DecCpAttr;
    match DecCpAttr(data[offset..])
    case Err =>
    case Ok((a, n)) =>
      assert data[offset..][n..] == data[offset + n..];
      PrependJoin(acc, [a], DecCpAttrs(data[offset + n..]));
  }

  /** The CP payload's `Encode`. */
  method EncodeCp(cfgType: Byte, attrs: seq<CpAttr>) returns (b: Bytes)
    ensures b == [cfgType, 0, 0, 0] + EncCpAttrs(attrs)
  {
    hide EncCpAttr;
    var body: Bytes := [];
    for i := 0 to |attrs|
      invariant body + EncCpAttrs(attrs[i..]) == EncCpAttrs(attrs)
    {
      assert attrs[i..][1..] == attrs[i + 1..];
      body := body + EncCpAttr(attrs[i]);
    }
    b := [cfgType, 0, 0, 0] + body;
  }

  /** The attribute list inside `DecodePayloadCP`. */
  method DecodeCp(data: Bytes) returns (r: Result<seq<CpAttr>>)
    ensures r == if |data| < 4 then Err else DecCpAttrs(data[4..])
  {
    hide DecCpAttr;
    if |data| < 4 { return Err; }
    var offset := 4;
    var attrs: seq<CpAttr> := [];
    ghost var whole := DecCpAttrs(data[4..]);
    PrependNone(whole);
    while offset < |data|
      invariant 4 <= offset <= |data|
      invariant Prepend(attrs, DecCpAttrs(data[offset..])) == whole
    {
      CpAttrsLoop(attrs, data, offset);
      var step := DecCpAttr(data[offset..]);
      if step.Err? { return Err; }
      attrs := attrs + [step.value.0];
      offset := offset + step.value.1;
    }
    assert data[offset..] == [] && attrs + [] == attrs;
    return Ok(attrs);
  }

  // ---------- payloads ----------

  const NO_NEXT: Byte := 0
  const SA: Byte := 33
  const KE: Byte := 34
  const IDI: Byte := 35
  const IDR: Byte := 36
  const AUTH: Byte := 39
  const NONCE: Byte := 40
  const NOTIFY: Byte := 41
  const DELETE: Byte := 42
  const TSI: Byte := 44
  const TSR: Byte := 45
  const SK: Byte := 46
  const CP: Byte := 47
  const EAP: Byte := 48
  const SKF: Byte := 53

  datatype Payload =
    | PSa(proposals: seq<Proposal>)
    | PKe(group: nat, keData: Bytes)
    | PId(idType: Byte, idData: Bytes, isInitiator: bool)
    | PAuth(authMethod: Byte, authData: Bytes)
    | PNonce(nonceData: Bytes)
    | PNotify(notifyProto: Byte, notifySpi: Bytes, notifyType: nat, notifyData: Bytes, overrideType: Byte)
    | PDelete(deleteProto: Byte, spiSize: Byte, numSpis: nat, spis: Bytes)
    | PTs(tsInitiator: bool, selectors: seq<TrafficSelector>)
    | PCp(cfgType: Byte, cpAttrs: seq<CpAttr>)
    | PEap(eapMessage: Bytes)
    | PRaw(rawType: Byte, rawData: Bytes)
  {
    /** `Payload.Type()`. */
    function Type(): Byte {
      match this
      case PSa(_) => SA
      case PKe(_, _) => KE
      case PId(_, _, i) => if i then IDI else IDR
      case PAuth(_, _) => AUTH
      case PNonce(_) => NONCE
      case PNotify(_, _, _, _, o) => if o != 0 then o else NOTIFY
      case PDelete(_, _, _, _) => DELETE
      case PTs(i, _) => if i then TSI else TSR
      case PCp(_, _) => CP
      case PEap(_) => EAP
      case PRaw(t, _) => t
    }

    /** What the encoder demands: it indexes past its buffer on any other selector type. */
    predicate Encodable() {
      PTs? ==> forall i :: 0 <= i < |selectors| ==> selectors[i].Encodable()
    }

    /** What the wire format can carry: field widths, counts, and a 16-bit payload length. */
    predicate WellFormed() {
      && Encodable()
      && |EncBody(this)| + 4 < U16_SIZE
      && match this
         case PSa(ps) => forall i :: 0 <= i < |ps| ==> ps[i].WellFormed()
         case PKe(g, _) => g < U16_SIZE
         case PNotify(_, spi, t, _, o) => |spi| < 256 && t < U16_SIZE && (o == 0 || o == NOTIFY)
         case PDelete(_, size, n, spis) => n < U16_SIZE && |spis| == size as int * n
         case PTs(_, tss) => |tss| < 256 && forall i :: 0 <= i < |tss| ==> tss[i].WellFormed()
         case PCp(_, attrs) => forall i :: 0 <= i < |attrs| ==> attrs[i].WellFormed()
         case PRaw(t, _) => t != NO_NEXT && !Known(t)
         case _ => true
    }

    /** What a round trip changes: Last flags, the unused `val` of TLV attributes, the type override. */
    function Norm(): Payload {
      match this
      case PSa(ps) => PSa(NormProposals(ps))
      case PNotify(_, _, _, _, _) => this.(overrideType := 0)
      case _ => this
    }
  }

  predicate Known(t: Byte) {
    t in {SA, KE, IDI, IDR, AUTH, NONCE, NOTIFY, DELETE, TSI, TSR, CP, EAP}
  }

  /** The payload's `Encode`. */
  function EncBody(p: Payload): Bytes
    requires p.Encodable()
  {
    match p
    case PSa(ps) => EncProposals(ps)
    case PKe(g, d) => PutU16(g) + [0, 0] + d
    case PId(t, d, _) => [t, 0, 0, 0] + d
    case PAuth(m, d) => [m, 0, 0, 0] + d
    case PNonce(d) => d
    case PNotify(proto, spi, t, d, _) => [proto, |spi| % 256] + PutU16(t) + spi + d
    case PDelete(proto, size, n, spis) => [proto, size] + PutU16(n) + spis
    case PTs(_, tss) => [|tss| % 256, 0, 0, 0] + EncSelectors(tss)
    case PCp(t, attrs) => [t, 0, 0, 0] + EncCpAttrs(attrs)
    case PEap(m) => m
    case PRaw(_, d) => d
  }

  function DecNotify(d: Bytes): Result<Payload> {
    if |d| < 4 || |d| < 4 + d[1] as int then Err
    else
      var n := 4 + d[1] as int;
      Ok(PNotify(d[0], d[4..n], GetU16(d[2..4]), d[n..], 0))
  }

  function DecDelete(d: Bytes): Result<Payload> {
    if |d| < 4 then Err
    else
      var n := 4 + d[1] as int * GetU16(d[2..4]);
      if |d| < n then Err else Ok(PDelete(d[0], d[1], GetU16(d[2..4]), d[4..n]))
  }

  function DecTs(d: Bytes, initiator: bool): Result<Payload> {
    if |d| < 4 then Err
    else match DecSelectors(d[4..], d[0])
      case Err => Err
      case Ok(tss) => Ok(PTs(initiator, tss))
  }

  function DecCp(d: Bytes): Result<Payload> {
    if |d| < 4 then Err
    else match DecCpAttrs(d[4..])
      case Err => Err
      case Ok(attrs) => Ok(PCp(d[0], attrs))
  }

  function DecSa(d: Bytes): Result<Payload> {
    match DecProposals(d)
    case Err => Err
    case Ok(ps) => Ok(PSa(ps))
  }

  /** Decoding a payload body by its type: the `switch` of both payload walkers. */
  function DecBody(t: Byte, d: Bytes): Result<Payload> {
    if t == SA then DecSa(d)
    else if t == KE then if |d| < 4 then Err else Ok(PKe(GetU16(d[..2]), d[4..]))
    else if t == IDI || t == IDR then if |d| < 4 then Err else Ok(PId(d[0], d[4..], t == IDI))
    else if t == AUTH then if |d| < 4 then Err else Ok(PAuth(d[0], d[4..]))
    else if t == NONCE then Ok(PNonce(d))
    else if t == NOTIFY then DecNotify(d)
    else if t == DELETE then DecDelete(d)
    else if t == TSI || t == TSR then DecTs(d, t == TSI)
    else if t == CP then DecCp(d)
    else if t == EAP then Ok(PEap(d))
    else Ok(PRaw(t, d))
  }

  lemma SaRoundTrip(p: Payload)
    requires p.PSa? && p.WellFormed()
    ensures DecSa(EncBody(p)) == Ok(p.Norm())
  {
    hide DecProposals, EncProposals, NormProposals;
    ProposalsRoundTrip(p.proposals);
  }

  lemma NotifyRoundTrip(p: Payload)
    requires p.PNotify? && p.WellFormed()
    ensures DecNotify(EncBody(p)) == Ok(p.Norm())
  {
    hide PutU16, GetU16;
    var d := EncBody(p);
    var n := |p.notifySpi|;
    assert d[2..4] == PutU16(p.notifyType) && d[4..4 + n] == p.notifySpi && d[4 + n..] == p.notifyData;
    U16RoundTrip(p.notifyType);
  }

  lemma DeleteRoundTrip(p: Payload)
    requires p.PDelete? && p.WellFormed()
    ensures DecDelete(EncBody(p)) == Ok(p)
  {
    hide PutU16, GetU16;
    var d := EncBody(p);
    assert d[2..4] == PutU16(p.numSpis) && d[4..] == p.spis && d[4..|d|] == d[4..];
    U16RoundTrip(p.numSpis);
  }

  lemma TsRoundTrip(p: Payload)
    requires p.PTs? && p.WellFormed()
    ensures DecTs(EncBody(p), p.tsInitiator) == Ok(p)
  {
    hide EncSelectors, DecSelectors;
    var d := EncBody(p);
    assert d[4..] == EncSelectors(p.selectors) && d[0] == |p.selectors|;
    SelectorsRoundTrip(p.selectors);
  }

  lemma CpRoundTrip(p: Payload)
    requires p.PCp? && p.WellFormed()
    ensures DecCp(EncBody(p)) == Ok(p)
  {
    hide EncCpAttrs, DecCpAttrs;
    assert EncBody(p)[4..] == EncCpAttrs(p.cpAttrs);
    CpAttrsRoundTrip(p.cpAttrs);
  }

  lemma FlatRoundTrip(p: Payload)
    requires p.WellFormed() && (p.PKe? || p.PId? || p.PAuth? || p.PNonce? || p.PEap? || p.PRaw?)
    ensures DecBody(p.Type(), EncBody(p)) == Ok(p)
  {
    hide PutU16, GetU16;
    var d := EncBody(p);
    match p
    case PKe(g, data) =>
      assert d[..2] == PutU16(g) && d[4..] == data;
      U16RoundTrip(g);
    case PId(_, data, _) => assert d[4..] == data;
    case PAuth(_, data) => assert d[4..] == data;
    case _ =>
  }

  /** Every well-formed payload body decodes to itself, normalised. */
  lemma BodyRoundTrip(p: Payload)
    requires p.WellFormed()
    ensures DecBody(p.Type(), EncBody(p)) == Ok(p.Norm())
  {
    hide EncBody, DecSa, DecNotify, DecDelete, DecTs, DecCp, NormProposals;
    match p
    case PSa(_) => SaRoundTrip(p);
    case PNotify(_, _, _, _, _) => NotifyRoundTrip(p);
    case PDelete(_, _, _, _) => DeleteRoundTrip(p);
    case PTs(_, _) => TsRoundTrip(p);
    case PCp(_, _) => CpRoundTrip(p);
    case _ => FlatRoundTrip(p);
  }

  /** The payload type numbers of section 3.2 of RFC 7296. */
  lemma TypeNumbers(p: Payload)
    requires p.WellFormed()
    ensures match p
      case PSa(_) => p.Type() == 33
      case PKe(_, _) => p.Type() == 34
      case PId(_, _, i) => p.Type() == if i then 35 else 36
      case PAuth(_, _) => p.Type() == 39
      case PNonce(_) => p.Type() == 40
      case PNotify(_, _, _, _, _) => p.Type() == 41
      case PDelete(_, _, _, _) => p.Type() == 42
      case PTs(i, _) => p.Type() == if i then 44 else 45
      case PCp(_, _) => p.Type() == 47
      case PEap(_) => p.Type() == 48
      case PRaw(t, _) => p.Type() == t
  {
  }

  /** The payload bodies on the wire (sections 3.4 to 3.16 of RFC 7296): every field at its offset. */
  lemma BodyWire(p: Payload)
    requires p.WellFormed()
    ensures var d := EncBody(p);
      match p
      case PSa(ps) => d == EncProposals(ps)
      case PKe(g, data) => |d| >= 4 && GetBE(d[..2]) == g && d[2..4] == [0, 0] && d[4..] == data
      case PId(t, data, _) => |d| >= 4 && d[..4] == [t, 0, 0, 0] && d[4..] == data
      case PAuth(m, data) => |d| >= 4 && d[..4] == [m, 0, 0, 0] && d[4..] == data
      case PNonce(data) => d == data
      case PNotify(proto, spi, t, data, _) =>
        && |d| >= 4 + |spi| && d[0] == proto && d[1] == |spi| && GetBE(d[2..4]) == t
        && d[4..4 + |spi|] == spi && d[4 + |spi|..] == data
      case PDelete(proto, size, n, spis) =>
        |d| >= 4 && d[0] == proto && d[1] == size && GetBE(d[2..4]) == n && d[4..] == spis
      case PTs(_, tss) => |d| >= 4 && d[..4] == [|tss|, 0, 0, 0] && d[4..] == EncSelectors(tss)
      case PCp(t, attrs) => |d| >= 4 && d[..4] == [t, 0, 0, 0] && d[4..] == EncCpAttrs(attrs)
      case PEap(m) => d == m
      case PRaw(_, data) => d == data
  {
    hide PutU16, GetBE, EncProposals, EncSelectors, EncCpAttrs;
    var d := EncBody(p);
    match p
    case PKe(g, data) =>
      assert d[..2] == PutU16(g) && d[4..] == data;
      U16Wire(g);
    case PNotify(_, spi, t, data, _) =>
      assert d[2..4] == PutU16(t) && d[4..4 + |spi|] == spi && d[4 + |spi|..] == data;
      U16Wire(t);
    case PDelete(_, _, n, _) =>
      assert d[2..4] == PutU16(n);
      U16Wire(n);
    case _ =>
  }

  /** A notify that is read is written again byte for byte; it is refused exactly when its SPI is cut off. */
  lemma NotifyReencodes(d: Bytes)
    ensures DecNotify(d).Ok? <==> |d| >= 4 && |d| >= 4 + d[1] as int
    ensures DecNotify(d).Ok? ==> DecNotify(d).value.PNotify? && EncBody(DecNotify(d).value) == d
  {
    hide PutU16, GetU16;
    if DecNotify(d).Ok? {
      var n := 4 + d[1] as int;
      U16Again(d[2..4]);
      assert d == [d[0], d[1]] + d[2..4] + d[4..n] + d[n..];
    }
  }

  /** A delete that is read is written again as the bytes it came from; what follows its SPIs is dropped. */
  lemma DeleteReencodes(d: Bytes)
    ensures DecDelete(d).Ok? <==> |d| >= 4 && |d| >= 4 + d[1] as int * GetBE(d[2..4])
    ensures DecDelete(d).Ok? ==>
      DecDelete(d).value.PDelete? && EncBody(DecDelete(d).value) == d[..4 + d[1] as int * GetBE(d[2..4])]
  {
    hide PutU16, GetU16, GetBE;
    if |d| >= 4 {
      U16Again(d[2..4]);
      var n := 4 + d[1] as int * GetBE(d[2..4]);
      if n <= |d| {
        assert d[..n] == [d[0], d[1]] + d[2..4] + d[4..n];
      }
    }
  }

  /** `DecodePayloadX` chosen by type, with the list-shaped bodies walked by their loops. */
  method DecodeBody(t: Byte, d: Bytes) returns (r: Result<Payload>)
    ensures r == DecBody(t, d)
  {
    hide DecProposals, DecSelectors, DecCpAttrs, DecNotify, DecDelete;
    if t == SA {
      var ps := DecodeSa(d);
      r := if ps.Err? then Err else Ok(PSa(ps.value));
    } else if t == TSI || t == TSR {
      var tss := DecodeTs(d);
      r := if tss.Err? then Err else Ok(PTs(t == TSI, tss.value));
    } else if t == CP {
      var attrs := DecodeCp(d);
      r := if attrs.Err? then Err else Ok(PCp(d[0], attrs.value));
    } else {
      r := DecBody(t, d);
    }
  }

  /** The payload after its `Encode` has run: the SA payload's Last flags are written in place. */
  function Marked(p: Payload): Payload {
    if p.PSa? then PSa(MarkProposals(p.proposals)) else p
  }

  method EncodeBody(p: Payload) returns (b: Bytes, marked: Payload)
    requires p.Encodable()
    ensures b == EncBody(p) && marked == Marked(p)
    ensures marked == if p.PSa? then PSa(MarkProposals(p.proposals)) else p
  {
    hide EncProposals, EncSelectors, EncCpAttrs, MarkProposals;
    marked := p;
    match p
    case PSa(ps) =>
      var ps': seq<Proposal>;
      b, ps' := EncodeSa(ps);
      marked := PSa(ps');
    case PTs(_, tss) => b := EncodeTs(tss);
    case PCp(t, attrs) => b := EncodeCp(t, attrs);
    case _ => b := EncBody(p);
  }
}
