/**
 The IKE_SA_INIT exchange: building the request, reacting to COOKIE and INVALID_KE_PAYLOAD, and deriving
 keys from a nonce and a key-exchange value that must be the ones in the request last sent.
 */
module SaInit {
  import opened Bytes
  import opened IkeSa
  import opened IkePayload
  import opened IkePacket

  const COOKIE := 16390
  const NO_PROPOSAL_CHOSEN := 14
  const INVALID_KE := 17
  const REDIRECT := 16407
  const NAT_SOURCE := 16388
  const NAT_DESTINATION := 16389
  const FRAGMENTATION := 16430
  const EXCHANGE: Byte := 34
  const DEFAULT_GROUP := 14
  const MAX_COOKIE_RETRIES := 5

  /**
   What the exchange takes from outside: configuration, the payloads behind the nonce, which are computed anew for
   each request, the successive random nonces and public keys, the NAT detection hashes for a responder SPI, and the
   DH range check.
   */
  datatype Env = Env(
    spiI: nat, proposals: seq<Proposal>, tail: nat -> seq<Payload>, cookieAsSa: bool,
    nonce: nat -> Bytes, public: (nat, nat) -> Bytes, sourceHash: nat -> Bytes, destinationHash: nat -> Bytes,
    peerKeyOk: (nat, Bytes) -> bool)
  {
    ghost predicate Valid() {
      && spiI < U64_SIZE
      && (forall k :: AllEncodable(tail(k)))
      && (forall k :: nonce(k) != [])
    }
  }

  // ---------- algorithms ----------

  const ENCR: Byte := 1
  const PRF: Byte := 2
  const INTEG: Byte := 3
  const DH_GROUP: Byte := 4
  const KEY_LENGTH := 14

  /** Transform IDs and the cipher's key length in bits; zero where a proposal names none. */
  datatype Algorithms = Algorithms(prf: nat, encr: nat, keyBits: nat, integ: nat, dh: nat) {
    predicate Aead() {
      encr == 18 || encr == 19 || encr == 20
    }

    /** What the tables of PRFs, ciphers and MACs know. */
    predicate Supported() {
      && prf in {1, 2, 5, 6, 7}
      && keyBits % 8 == 0 && encr in {12, 18, 19, 20}
      && (Aead() || integ in {0, 2, 12, 13, 14})
    }

    /** An AEAD cipher drops whatever MAC was named. */
    function Settled(): Algorithms {
      if Aead() then this.(integ := 0) else this
    }
  }

  function KeyLength(attrs: seq<Attr>, bits: nat): nat {
    if attrs == [] then bits
    else KeyLength(attrs[1..], if attrs[0].typ == KEY_LENGTH then attrs[0].val else bits)
  }

  function OnTransform(a: Algorithms, t: Transform): Algorithms {
    if t.typ == ENCR then a.(encr := t.id, keyBits := KeyLength(t.attrs, a.keyBits))
    else if t.typ == INTEG then a.(integ := t.id)
    else if t.typ == PRF then a.(prf := t.id)
    else if t.typ == DH_GROUP then a.(dh := t.id)
    else a
  }

  /** The algorithms of a proposal: of each type the last transform counts. */
  function Named(ts: seq<Transform>, a: Algorithms): Algorithms
    decreases |ts|
  {
    if ts == [] then a else Named(ts[1..], OnTransform(a, ts[0]))
  }

  function Chosen(p: Proposal): Algorithms {
    Named(p.transforms, Algorithms(0, 0, 0, 0, 0))
  }

  /** The two loops that read them. */
  method ReadAlgorithms(p: Proposal) returns (a: Algorithms)
    ensures a == Chosen(p)
  {
    a := Algorithms(0, 0, 0, 0, 0);
    var ts := p.transforms;
    for i := 0 to |ts|
      invariant Named(ts[i..], a) == Chosen(p)
    {
      assert ts[i..][1..] == ts[i + 1..];
      var t := ts[i];
      if t.typ == ENCR {
        var bits := a.keyBits;
        for j := 0 to |t.attrs|
          invariant KeyLength(t.attrs[j..], bits) == KeyLength(t.attrs, a.keyBits)
        {
          assert t.attrs[j..][1..] == t.attrs[j + 1..];
          if t.attrs[j].typ == KEY_LENGTH {
            bits := t.attrs[j].val;
          }
        }
        a := a.(encr := t.id, keyBits := bits);
      } else if t.typ == INTEG {
        a := a.(integ := t.id);
      } else if t.typ == PRF {
        a := a.(prf := t.id);
      } else if t.typ == DH_GROUP {
        a := a.(dh := t.id);
      }
    }
  }

  /** The `i`-th transform is the last of its type. */
  predicate LastOfType(ts: seq<Transform>, i: nat) {
    i < |ts| && forall j :: i < j < |ts| ==> ts[j].typ != ts[i].typ
  }

  predicate NoneOfType(ts: seq<Transform>, y: Byte) {
    forall j :: 0 <= j < |ts| ==> ts[j].typ != y
  }

  /** The algorithm of a transform type (section 3.3.2 of RFC 7296). */
  function OfType(a: Algorithms, y: Byte): Option<nat> {
    if y == 1 then Some(a.encr)
    else if y == 2 then Some(a.prf)
    else if y == 3 then Some(a.integ)
    else if y == 4 then Some(a.dh)
    else None
  }

  lemma {:induction false} NamedKeeps(ts: seq<Transform>, a: Algorithms, y: Byte)
    requires NoneOfType(ts, y)
    ensures OfType(Named(ts, a), y) == OfType(a, y)
    ensures y == 1 ==> Named(ts, a).keyBits == a.keyBits
    decreases |ts|
  {
    if ts == [] {
    } else {
      NamedKeeps(ts[1..], OnTransform(a, ts[0]), y);
    }
  }

  /** Of every type the last transform names the algorithm; a type without a transform keeps zero. */
  lemma {:induction false} LastNames(ts: seq<Transform>, a: Algorithms, i: nat)
    requires LastOfType(ts, i) && 1 <= ts[i].typ <= 4
    ensures OfType(Named(ts, a), ts[i].typ) == Some(ts[i].id)
    decreases |ts|
  {
    if i == 0 {
      assert NoneOfType(ts[1..], ts[0].typ);
      NamedKeeps(ts[1..], OnTransform(a, ts[0]), ts[0].typ);
    } else {
      LastNames(ts[1..], OnTransform(a, ts[0]), i - 1);
    }
  }

  lemma {:induction false} NoLength(attrs: seq<Attr>, bits: nat)
    requires forall k :: 0 <= k < |attrs| ==> attrs[k].typ != 14
    ensures KeyLength(attrs, bits) == bits
    decreases |attrs|
  {
    if attrs == [] {
    } else {
      NoLength(attrs[1..], bits);
    }
  }

  lemma {:induction false} LastLength(attrs: seq<Attr>, bits: nat, j: nat)
    requires j < |attrs| && attrs[j].typ == 14 && forall k :: j < k < |attrs| ==> attrs[k].typ != 14
    ensures KeyLength(attrs, bits) == attrs[j].val
    decreases |attrs|
  {
    if j == 0 {
      NoLength(attrs[1..], attrs[0].val);
    } else {
      LastLength(attrs[1..], if attrs[0].typ == KEY_LENGTH then attrs[0].val else bits, j - 1);
    }
  }

  predicate NamesNoLength(t: Transform) {
    t.typ == 1 ==> forall k :: 0 <= k < |t.attrs| ==> t.attrs[k].typ != 14
  }

  lemma {:induction false} LengthKept(ts: seq<Transform>, a: Algorithms)
    requires forall i :: 0 <= i < |ts| ==> NamesNoLength(ts[i])
    ensures Named(ts, a).keyBits == a.keyBits
    decreases |ts|
  {
    if ts == [] {
    } else {
      assert NamesNoLength(ts[0]);
      if ts[0].typ == 1 {
        NoLength(ts[0].attrs, a.keyBits);
      }
      LengthKept(ts[1..], OnTransform(a, ts[0]));
    }
  }

  /**
   The key length is that of the last Key Length attribute (type 14) of the last cipher transform that has one, even
   when a later cipher transform has none.
   */
  lemma {:induction false} LastKeyLength(ts: seq<Transform>, a: Algorithms, i: nat, j: nat)
    requires i < |ts| && ts[i].typ == 1 && j < |ts[i].attrs| && ts[i].attrs[j].typ == 14
    requires forall k :: j < k < |ts[i].attrs| ==> ts[i].attrs[k].typ != 14
    requires forall k :: i < k < |ts| ==> NamesNoLength(ts[k])
    ensures Named(ts, a).keyBits == ts[i].attrs[j].val
    decreases |ts|
  {
    if i == 0 {
      LastLength(ts[0].attrs, a.keyBits, j);
      LengthKept(ts[1..], OnTransform(a, ts[0]));
    } else {
      LastKeyLength(ts[1..], OnTransform(a, ts[0]), i - 1, j);
    }
  }

  /** The algorithms of a chosen proposal: of each type the last transform counts, and zero where there is none. */
  lemma ChosenExactly(p: Proposal, i: nat, y: Byte)
    requires 1 <= y <= 4
    ensures LastOfType(p.transforms, i) && p.transforms[i].typ == y ==>
      OfType(Chosen(p), y) == Some(p.transforms[i].id)
    ensures NoneOfType(p.transforms, y) ==> OfType(Chosen(p), y) == Some(0)
  {
    hide Named;
    if LastOfType(p.transforms, i) && p.transforms[i].typ == y {
      LastNames(p.transforms, Algorithms(0, 0, 0, 0, 0), i);
    }
    if NoneOfType(p.transforms, y) {
      NamedKeeps(p.transforms, Algorithms(0, 0, 0, 0, 0), y);
    }
  }

  datatype Dh = Dh(group: nat, public: Bytes)

  /** What the keys were derived from. */
  datatype Derived = Derived(ni: Bytes, nr: Bytes, dh: Dh, peerKe: Bytes, spiI: nat, spiR: nat)

  datatype State = State(
    ni: Bytes, dh: Option<Dh>, keRetryGroup: nat, cookie: Bytes, sendCookie: bool, cookieRetryCount: nat,
    msgBuffer: Bytes, nr: Bytes, spiR: nat, derived: Option<Derived>, draws: nat,
    builds: nat, fragments: bool, nat4500: bool, chosen: Option<Algorithms>)

  function Fresh(): State {
    State([], None, 0, [], false, 0, [], [], 0, None, 0, 0, false, false, None)
  }

  // ---------- the request ----------

  function CookieNotify(env: Env, cookie: Bytes): Payload {
    PNotify(0, [], COOKIE, cookie, if env.cookieAsSa then SA else 0)
  }

  function RequestPayloads(env: Env, k: nat, cookie: Option<Bytes>, dh: Dh, ni: Bytes): (ps: seq<Payload>)
    ensures AllEncodable(env.tail(k)) ==> AllEncodable(ps)
  {
    (if cookie.Some? then [CookieNotify(env, cookie.value)] else [])
    + [PSa(env.proposals), PKe(dh.group, dh.public), PNonce(ni)] + env.tail(k)
  }

  function RequestHeader(env: Env): Header {
    Header(env.spiI, 0, 0, 0x20, EXCHANGE, 0x08, 0, 0)
  }

  /** The `k`-th request datagram, for a cookie, a key-exchange value and a nonce. */
  function Request(env: Env, k: nat, cookie: Option<Bytes>, dh: Dh, ni: Bytes): Bytes
    requires AllEncodable(env.tail(k))
  {
    EncPacket(RequestHeader(env), RequestPayloads(env, k, cookie, dh, ni))
  }

  function CookieToSend(s: State): Option<Bytes> {
    if s.sendCookie && s.cookie != [] then Some(s.cookie) else None
  }

  function WantedGroup(s: State): nat {
    if s.keRetryGroup > 0 then s.keRetryGroup else DEFAULT_GROUP
  }

  function WithNonce(env: Env, s: State): State {
    if s.ni == [] then s.(ni := env.nonce(s.draws), draws := s.draws + 1) else s
  }

  /** A key pair of the wanted group: kept if there is one, otherwise generated for groups 2 and 14 only. */
  function WithDh(env: Env, s: State): State {
    var g := WantedGroup(s);
    if s.dh.Some? && s.dh.value.group == g then s
    else if g == 2 || g == 14 then s.(dh := Some(Dh(g, env.public(g, s.draws))), draws := s.draws + 1)
    else s.(dh := None)
  }

  /** `buildIKESAInitPacket`: fails, leaving no key pair, when the wanted group is unsupported. */
  function Build(env: Env, s: State): (r: (State, bool))
    requires env.Valid()
  {
    var t := WithDh(env, WithNonce(env, s));
    if t.dh.None? then (t, false)
    else (t.(msgBuffer := Request(env, t.builds, CookieToSend(t), t.dh.value, t.ni), builds := t.builds + 1), true)
  }

  /** The session's nonce and key pair are those encoded in the buffered request. */
  ghost predicate Coherent(env: Env, s: State)
    requires env.Valid()
  {
    s.dh.Some? && exists k, cookie :: s.msgBuffer == Request(env, k, cookie, s.dh.value, s.ni)
  }

  // ---------- the response ----------

  datatype Verdict = Done | CookieRequired | InvalidKe | Failed

  /** `handleCookie`: the nonce and key pair are dropped from the second COOKIE on. */
  function HandleCookie(s: State, data: Bytes): State {
    var t := s.(cookie := data, sendCookie := true);
    if s.cookieRetryCount >= 1 then t.(ni := [], dh := None) else t
  }

  predicate RedirectParses(d: Bytes) {
    |d| >= 1 && ((d[0] == 1 && |d| == 5) || (d[0] == 2 && |d| == 17) || d[0] == 3)
  }

  /** The payloads remembered so far: the mandatory ones and the peer's NAT detection hashes. */
  datatype Seen = Seen(
    sa: Option<seq<Proposal>>, ke: Option<Bytes>, nonce: Option<Bytes>, source: Bytes, destination: Bytes)

  function Nothing(): Seen {
    Seen(None, None, None, [], [])
  }

  /** One payload of the response: either it ends the processing, or it is remembered. */
  function OnPayload(s: State, seen: Seen, p: Payload): (State, Seen, Option<Verdict>) {
    match p
    case PSa(ps) => (s, seen.(sa := Some(ps)), None)
    case PKe(_, d) => (s, seen.(ke := Some(d)), None)
    case PNonce(d) => (s, seen.(nonce := Some(d)), None)
    case PNotify(_, _, t, d, _) =>
      if t == COOKIE then (HandleCookie(s, d), seen, Some(CookieRequired))
      else if t == NO_PROPOSAL_CHOSEN then (s, seen, Some(Failed))
      else if t == INVALID_KE then
        if |d| >= 2 then (s.(keRetryGroup := GetU16(d[..2])), seen, Some(InvalidKe)) else (s, seen, Some(Failed))
      else if t == REDIRECT && RedirectParses(d) then (s, seen, Some(Failed))
      else if t == NAT_SOURCE then (s, seen.(source := d), None)
      else if t == NAT_DESTINATION then (s, seen.(destination := d), None)
      else if t == FRAGMENTATION then (s.(fragments := true), seen, None)
      else (s, seen, None)
    case _ => (s, seen, None)
  }

  function Scan(s: State, seen: Seen, ps: seq<Payload>): (State, Seen, Option<Verdict>)
    decreases |ps|
  {
    if ps == [] then (s, seen, None)
    else
      var (s', seen', v) := OnPayload(s, seen, ps[0]);
      if v.Some? then (s', seen', v) else Scan(s', seen', ps[1..])
  }

  /** A NAT lies in between when both hashes are there and one differs from the one computed here. */
  predicate NatDetected(env: Env, spiR: nat, seen: Seen) {
    && seen.source != [] && seen.destination != []
    && (seen.source != env.sourceHash(spiR) || seen.destination != env.destinationHash(spiR))
  }

  /** The choice of algorithms, the key exchange, and the derivation. */
  function Conclude(env: Env, s: State, proposals: seq<Proposal>, dh: Dh, ke: Bytes): (State, Verdict) {
    // an empty proposal list is an index error in the source
    if proposals == [] || !Chosen(proposals[0]).Supported() then (s, Failed)
    else
      var t := s.(chosen := Some(Chosen(proposals[0]).Settled()));
      if !env.peerKeyOk(dh.group, ke) then (t, Failed)
      else (t.(derived := Some(Derived(t.ni, t.nr, dh, ke, env.spiI, t.spiR)), sendCookie := false), Done)
  }

  /** The end of `handleIKESAInitResp`: with all three payloads and a supported choice, derive the keys. */
  function Derive(env: Env, s: State, seen: Seen): (State, Verdict) {
    if seen.sa.None? || seen.ke.None? || seen.nonce.None? || s.dh.None? then (s, Failed)
    else
      var t := s.(nr := seen.nonce.value, nat4500 := s.nat4500 || NatDetected(env, s.spiR, seen));
      Conclude(env, t, seen.sa.value, s.dh.value, seen.ke.value)
  }

  /** `handleIKESAInitResp`. */
  function Handle(env: Env, s: State, data: Bytes): (State, Verdict) {
    match DecPacket(data)
    case Err => (s, Failed)
    case Ok((h, ps)) =>
      if h.exchange != EXCHANGE then (s, Failed)
      else
        var (t, seen, v) := Scan(s.(spiR := h.spiR), Nothing(), ps);
        if v.Some? then (t, v.value) else Derive(env, t, seen)
  }

  // ---------- the retry loop ----------

  datatype Outcome = Established | GaveUp | TooManyCookies | TimedOut

  /** How the loop of `connectOnce` ends, with every state in which it sent a request. */
  datatype Trace = Trace(sent: seq<State>, cookieResends: nat, end: State, outcome: Outcome)

  /** The loop against a script of replies; running out of replies is the window's timeout. */
  function Connect(env: Env, s: State, retries: nat, replies: seq<Bytes>): (r: Trace)
    requires env.Valid()
    decreases |replies|
  {
    var (t, built) := Build(env, s);
    if !built then Trace([], 0, t, GaveUp)
    else if replies == [] then Trace([t], 0, t, TimedOut)
    else
      var (u, v) := Handle(env, t, replies[0]);
      match v
      case Done => Trace([t], 0, u, Established)
      case Failed => Trace([t], 0, u, GaveUp)
      case InvalidKe =>
        var rest := Connect(env, u, retries, replies[1..]);
        rest.(sent := [t] + rest.sent)
      case CookieRequired =>
        var w := u.(cookieRetryCount := retries + 1);
        if retries + 1 > MAX_COOKIE_RETRIES then Trace([t], 0, w, TooManyCookies)
        else
          var rest := Connect(env, w, retries + 1, replies[1..]);
          rest.(sent := [t] + rest.sent, cookieResends := rest.cookieResends + 1)
  }

  // ---------- coherence ----------

  /** A key pair exists only for the groups the source can generate. */
  predicate DhSupported(s: State) {
    s.dh.Some? ==> s.dh.value.group == 2 || s.dh.value.group == 14
  }

  lemma BuildCoherent(env: Env, s: State)
    requires env.Valid() && DhSupported(s) && Build(env, s).1
    ensures Coherent(env, Build(env, s).0) && DhSupported(Build(env, s).0)
  {
    hide Request;
    var t := WithDh(env, WithNonce(env, s));
    assert Build(env, s).0.msgBuffer == Request(env, t.builds, CookieToSend(t), t.dh.value, t.ni);
  }

  /** What reading payloads up to the verdict `v` leaves alone: all but the fragmentation flag, unless a COOKIE came. */
  ghost predicate Kept(s: State, t: State, v: Option<Verdict>) {
    && t.msgBuffer == s.msgBuffer && t.cookieRetryCount == s.cookieRetryCount && t.draws == s.draws
    && (v != Some(CookieRequired) ==>
          t.ni == s.ni && t.dh == s.dh && t.sendCookie == s.sendCookie && t.cookie == s.cookie)
    && (v == Some(CookieRequired) && s.cookieRetryCount == 0 ==> t.ni == s.ni && t.dh == s.dh)
    && (v == Some(CookieRequired) ==> t.sendCookie && t.keRetryGroup == s.keRetryGroup)
    && (v == Some(CookieRequired) && s.cookieRetryCount >= 1 ==> t.ni == [] && t.dh == None)
    && (v.None? ==> t == s.(fragments := t.fragments)) && (s.fragments ==> t.fragments) && v != Some(Done)
  }

  lemma OnPayloadKeeps(s: State, seen: Seen, p: Payload)
    ensures var (t, _, v) := OnPayload(s, seen, p); Kept(s, t, v)
  {
  }

  lemma KeptAfter(s: State, u: State, t: State, v: Option<Verdict>)
    requires Kept(s, u, None) && Kept(u, t, v)
    ensures Kept(s, t, v)
  {
  }

  lemma NothingRead(s: State)
    ensures Kept(s, s, None)
  {
  }

  /** Unless it reports a COOKIE, reading a response leaves nonce, key pair and buffered request alone. */
  lemma {:induction false} ScanKeeps(s: State, seen: Seen, ps: seq<Payload>)
    ensures var (t, _, v) := Scan(s, seen, ps); Kept(s, t, v)
    decreases |ps|
  {
    hide OnPayload, Kept;
    if ps == [] {
      NothingRead(s);
    } else {
      OnPayloadKeeps(s, seen, ps[0]);
      var (u, seen', v) := OnPayload(s, seen, ps[0]);
      if v.None? {
        ScanKeeps(u, seen', ps[1..]);
        var (t, _, w) := Scan(u, seen', ps[1..]);
        KeptAfter(s, u, t, w);
      }
    }
  }

  lemma HandleKeeps(env: Env, s: State, data: Bytes)
    ensures var (t, v) := Handle(env, s, data);
      && t.msgBuffer == s.msgBuffer && t.cookieRetryCount == s.cookieRetryCount && t.draws == s.draws
      && (v != CookieRequired ==> t.ni == s.ni && t.dh == s.dh)
      && (v == CookieRequired && s.cookieRetryCount == 0 ==> t.ni == s.ni && t.dh == s.dh)
      && (v == CookieRequired ==> t.sendCookie && t.keRetryGroup == s.keRetryGroup)
      && (v == CookieRequired && s.cookieRetryCount >= 1 ==> t.ni == [] && t.dh == None)
      && (v == Done ==> t.derived.Some? && t.dh == Some(t.derived.value.dh) && t.ni == t.derived.value.ni
                        && t.derived.value.nr == t.nr && !t.sendCookie)
  {
    hide Scan, DecPacket;
    match DecPacket(data)
    case Err =>
    case Ok((h, ps)) => ScanKeeps(s.(spiR := h.spiR), Nothing(), ps);
  }

  lemma CoherentFrame(env: Env, s: State, t: State)
    requires env.Valid() && Coherent(env, s) && t.dh == s.dh && t.ni == s.ni && t.msgBuffer == s.msgBuffer
    ensures Coherent(env, t)
  {
    hide Request;
  }

  /**
   Over every series of COOKIE, INVALID_KE_PAYLOAD and other replies: each request is sent from a coherent
   state, COOKIE causes at most five resends, and when keys are derived, they come from exactly the nonce
   and key pair encoded in the request last sent.
   */
  lemma {:induction false} ConnectCoherent(env: Env, s: State, retries: nat, replies: seq<Bytes>)
    requires env.Valid() && DhSupported(s) && retries <= MAX_COOKIE_RETRIES
    ensures var r := Connect(env, s, retries, replies);
      && (forall i :: 0 <= i < |r.sent| ==> Coherent(env, r.sent[i]) && DhSupported(r.sent[i]))
      && r.cookieResends + retries <= 5
      && (r.outcome == TooManyCookies ==> r.cookieResends + retries == 5)
      && (r.outcome == Established ==>
            && r.sent != []
            && Coherent(env, r.end) && r.end.msgBuffer == r.sent[|r.sent| - 1].msgBuffer
            && r.end.derived.Some? && r.end.derived.value.ni == r.end.ni && Some(r.end.derived.value.dh) == r.end.dh)
    decreases |replies|
  {
    hide Build, Handle, Coherent;
    var (t, built) := Build(env, s);
    if built && replies != [] {
      BuildCoherent(env, s);
      var (u, v) := Handle(env, t, replies[0]);
      HandleKeeps(env, t, replies[0]);
      match v
      case Done => CoherentFrame(env, t, u);
      case Failed =>
      case InvalidKe => ConnectCoherent(env, u, retries, replies[1..]);
      case CookieRequired =>
        if retries + 1 <= MAX_COOKIE_RETRIES {
          ConnectCoherent(env, u.(cookieRetryCount := retries + 1), retries + 1, replies[1..]);
        }
    } else if built {
      BuildCoherent(env, s);
    }
  }

  lemma BuiltForGroup(env: Env, s: State)
    requires env.Valid() && DhSupported(s) && Build(env, s).1
    ensures var t := Build(env, s).0;
      && t.ni != [] && t.dh.Some? && t.dh.value.group == WantedGroup(t) && WantedGroup(t) in {2, 14}
      && t.cookieRetryCount == s.cookieRetryCount
  {
    hide Request;
  }

  lemma SameGroup(s: State, t: State)
    requires s.keRetryGroup == t.keRetryGroup
    ensures WantedGroup(s) == WantedGroup(t)
  {
  }

  /** With a nonce and a key pair of the wanted group nothing is drawn. */
  lemma RebuildSame(env: Env, s: State)
    requires env.Valid() && s.ni != [] && s.dh.Some? && s.dh.value.group == WantedGroup(s)
    ensures var (t, built) := Build(env, s);
      built && t.ni == s.ni && t.dh == s.dh && t.draws == s.draws && t.sendCookie == s.sendCookie
  {
    hide Request;
  }

  /** Without either, both are drawn. */
  lemma RebuildAnew(env: Env, s: State)
    requires env.Valid() && s.ni == [] && s.dh == None && WantedGroup(s) in {2, 14}
    ensures var (t, built) := Build(env, s);
      && built && t.ni == env.nonce(s.draws) && t.draws == s.draws + 2 && t.sendCookie == s.sendCookie
      && t.dh == Some(Dh(WantedGroup(s), env.public(WantedGroup(s), s.draws + 1)))
  {
    hide Request;
  }

  /**
   In a fresh session the resend after the first COOKIE carries the same nonce and key-exchange value, now
   with the cookie; from the second COOKIE on both are generated anew.
   */
  lemma CookieResend(env: Env, s: State, data: Bytes, retries: nat)
    requires env.Valid() && DhSupported(s) && Build(env, s).1 && s.cookieRetryCount == retries
    requires Handle(env, Build(env, s).0, data).1 == CookieRequired
    ensures var t := Build(env, s).0;
      var w := Handle(env, t, data).0.(cookieRetryCount := retries + 1);
      var (next, built) := Build(env, w);
      && built && next.sendCookie
      && (retries == 0 ==> next.ni == t.ni && next.dh == t.dh && next.draws == t.draws)
      && (retries > 0 ==>
            && next.ni == env.nonce(t.draws) && next.draws == t.draws + 2
            && next.dh == Some(Dh(WantedGroup(t), env.public(WantedGroup(t), t.draws + 1))))
  {
    hide Handle, Request, Build, WantedGroup;
    var t := Build(env, s).0;
    HandleKeeps(env, t, data);
    var w := Handle(env, t, data).0.(cookieRetryCount := retries + 1);
    BuiltForGroup(env, s);
    SameGroup(t, w);
    if retries == 0 {
      RebuildSame(env, w);
    } else {
      RebuildAnew(env, w);
    }
  }

  lemma {:induction false} NormAt(ps: seq<Payload>, k: nat)
    requires k < |ps|
    ensures NormAll(ps)[k] == ps[k].Norm()
  {
    if k == 0 {
    } else {
      NormAt(ps[1..], k - 1);
    }
  }

  lemma RequestWellFormed(env: Env, k: nat, cookie: Option<Bytes>, dh: Dh, ni: Bytes)
    requires env.Valid() && !env.cookieAsSa && AllWellFormed(env.tail(k))
    requires PSa(env.proposals).WellFormed() && PKe(dh.group, dh.public).WellFormed() && PNonce(ni).WellFormed()
    requires cookie.Some? ==> PNotify(0, [], 16390, cookie.value, 0).WellFormed()
    ensures AllWellFormed(RequestPayloads(env, k, cookie, dh, ni))
  {
    hide EncBody;
  }

  lemma RequestLength(env: Env, k: nat, cookie: Option<Bytes>, dh: Dh, ni: Bytes)
    requires env.Valid()
    ensures Finished(RequestHeader(env), RequestPayloads(env, k, cookie, dh, ni)).length
         == |Request(env, k, cookie, dh, ni)| % U32_SIZE
  {
    hide EncChain, EncHeader, RequestPayloads;
  }

  /**
   Read back by any decoder, the buffered request is an initiator's IKE_SA_INIT with message ID 0: the cookie, if
   there is one, in front, then the proposals, and that very key-exchange value and nonce.
   */
  lemma RequestDecodes(env: Env, k: nat, cookie: Option<Bytes>, dh: Dh, ni: Bytes)
    requires env.Valid() && !env.cookieAsSa && AllWellFormed(env.tail(k))
    requires PSa(env.proposals).WellFormed() && PKe(dh.group, dh.public).WellFormed() && PNonce(ni).WellFormed()
    requires cookie.Some? ==> PNotify(0, [], 16390, cookie.value, 0).WellFormed()
    ensures var n, d := if cookie.Some? then 1 else 0, Request(env, k, cookie, dh, ni);
      var r := DecPacket(d);
      && r.Ok? && |r.value.1| == n + 3 + |env.tail(k)|
      && r.value.0 == Header(env.spiI, 0, if cookie.Some? then 41 else 33, 0x20, 34, 0x08, 0, |d| % U32_SIZE)
      && (cookie.Some? ==> r.value.1[0] == PNotify(0, [], 16390, cookie.value, 0))
      && r.value.1[n] == PSa(NormProposals(env.proposals))
      && r.value.1[n + 1] == PKe(dh.group, dh.public) && r.value.1[n + 2] == PNonce(ni)
  {
    hide EncPacket, DecPacket, NormAll, NormProposals;
    var ps := RequestPayloads(env, k, cookie, dh, ni);
    RequestWellFormed(env, k, cookie, dh, ni);
    PacketRoundTrip(RequestHeader(env), ps);
    RequestLength(env, k, cookie, dh, ni);
    var n := if cookie.Some? then 1 else 0;
    NormAt(ps, 0);
    NormAt(ps, n);
    NormAt(ps, n + 1);
    NormAt(ps, n + 2);
    assert ps[n] == PSa(env.proposals) && ps[n + 1] == PKe(dh.group, dh.public) && ps[n + 2] == PNonce(ni);
  }

  // ---------- what a reply does, from its payloads ----------

  /** What the payload loop stops at: COOKIE, NO_PROPOSAL_CHOSEN, INVALID_KE_PAYLOAD, or a REDIRECT that parses. */
  predicate Stops(p: Payload) {
    p.PNotify?
    && (p.notifyType == 16390 || p.notifyType == 14 || p.notifyType == 17
        || (p.notifyType == 16407 && p.notifyData != []
            && (p.notifyData[0] == 3 || (p.notifyData[0] == 1 && |p.notifyData| == 5)
                || (p.notifyData[0] == 2 && |p.notifyData| == 17))))
  }

  /** A notify that announces fragmentation support. */
  predicate Announces(p: Payload) {
    p.PNotify? && p.notifyType == 16430
  }

  /** The state and verdict at a payload that ends the loop. */
  function AtStop(s: State, p: Payload): (State, Verdict)
    requires Stops(p)
  {
    var d := p.notifyData;
    if p.notifyType == 16390 then
      var again := s.cookieRetryCount >= 1;
      (s.(cookie := d, sendCookie := true, ni := if again then [] else s.ni, dh := if again then None else s.dh),
       CookieRequired)
    else if p.notifyType == 17 && |d| >= 2 then (s.(keRetryGroup := GetBE(d[..2])), InvalidKe)
    else (s, Failed)
  }

  lemma StopStep(s: State, seen: Seen, p: Payload)
    requires Stops(p)
    ensures var (t, _, v) := OnPayload(s, seen, p); (t, v) == (AtStop(s, p).0, Some(AtStop(s, p).1))
  {
    hide GetBE, GetU16;
    if |p.notifyData| >= 2 {
      U16IsBigEndian(0, p.notifyData[..2]);
    }
  }

  lemma PassStep(s: State, seen: Seen, p: Payload)
    requires !Stops(p)
    ensures var (t, _, v) := OnPayload(s, seen, p);
      v.None? && t == s.(fragments := s.fragments || Announces(p))
  {
  }

  lemma AnnouncedStep(ps: seq<Payload>)
    requires ps != []
    ensures (exists i :: 0 <= i < |ps| && Announces(ps[i]))
        <==> Announces(ps[0]) || exists i :: 0 <= i < |ps[1..]| && Announces(ps[1..][i])
  {
    hide Announces;
    if i :| 0 <= i < |ps| && Announces(ps[i]) {
      if i > 0 { assert ps[1..][i - 1] == ps[i]; }
    }
    if i :| 0 <= i < |ps[1..]| && Announces(ps[1..][i]) {
      assert ps[i + 1] == ps[1..][i];
    }
  }

  /** The first payload that stops the loop decides; before it only fragmentation support is noted. */
  lemma {:induction false} ScanStops(s: State, seen: Seen, before: seq<Payload>, p: Payload, after: seq<Payload>)
    requires Stops(p) && forall i :: 0 <= i < |before| ==> !Stops(before[i])
    ensures var (t, _, v) := Scan(s, seen, before + [p] + after);
      var noted := s.(fragments := s.fragments || exists i :: 0 <= i < |before| && Announces(before[i]));
      t == AtStop(noted, p).0 && v == Some(AtStop(noted, p).1)
    decreases |before|
  {
    hide OnPayload, AtStop, Stops, Announces;
    if before == [] {
      assert before + [p] + after == [p] + after;
      StopStep(s, seen, p);
    } else {
      assert (before + [p] + after)[1..] == before[1..] + [p] + after;
      PassStep(s, seen, before[0]);
      var (t, seen', _) := OnPayload(s, seen, before[0]);
      ScanStops(t, seen', before[1..], p, after);
      AnnouncedStep(before);
    }
  }

  /** Whether a payload is of the same kind as another, among those that are remembered. */
  predicate SameKind(p: Payload, q: Payload) {
    || (p.PSa? && q.PSa?) || (p.PKe? && q.PKe?) || (p.PNonce? && q.PNonce?)
    || (p.PNotify? && q.PNotify? && p.notifyType == q.notifyType && p.notifyType in {16388, 16389})
  }

  /** A payload is what is remembered of its kind. */
  predicate Remembered(seen: Seen, p: Payload) {
    match p
    case PSa(ps) => seen.sa == Some(ps)
    case PKe(_, d) => seen.ke == Some(d)
    case PNonce(d) => seen.nonce == Some(d)
    case PNotify(_, _, t, d, _) => (t == 16388 ==> seen.source == d) && (t == 16389 ==> seen.destination == d)
    case _ => true
  }

  lemma RememberedStep(s: State, seen: Seen, p: Payload)
    requires !Stops(p)
    ensures var seen' := OnPayload(s, seen, p).1;
      && Remembered(seen', p)
      && (forall q: Payload :: !SameKind(p, q) && Remembered(seen, q) ==> Remembered(seen', q))
      && (!p.PSa? ==> seen'.sa == seen.sa) && (!p.PKe? ==> seen'.ke == seen.ke)
      && (!p.PNonce? ==> seen'.nonce == seen.nonce)
  {
  }

  /** Payloads that do not stop the loop leave a payload remembered, unless one is of its kind. */
  lemma {:induction false} ScanKeepsRemembered(s: State, seen: Seen, ps: seq<Payload>, q: Payload)
    requires Remembered(seen, q) && forall i :: 0 <= i < |ps| ==> !Stops(ps[i]) && !SameKind(ps[i], q)
    ensures Remembered(Scan(s, seen, ps).1, q) && Scan(s, seen, ps).2.None?
    decreases |ps|
  {
    hide OnPayload, Stops, SameKind, Remembered;
    if ps == [] {
    } else {
      RememberedStep(s, seen, ps[0]);
      PassStep(s, seen, ps[0]);
      var (t, seen', _) := OnPayload(s, seen, ps[0]);
      ScanKeepsRemembered(t, seen', ps[1..], q);
    }
  }

  /** The last payload of a kind is the one that counts, and nothing else of the session changes. */
  lemma {:induction false} ScanRemembersLast(s: State, seen: Seen, ps: seq<Payload>, i: nat)
    requires (forall k :: 0 <= k < |ps| ==> !Stops(ps[k]))
    requires i < |ps| && forall k :: i < k < |ps| ==> !SameKind(ps[k], ps[i])
    ensures Remembered(Scan(s, seen, ps).1, ps[i])
    decreases |ps|
  {
    hide OnPayload, Stops, SameKind, Remembered;
    RememberedStep(s, seen, ps[0]);
    PassStep(s, seen, ps[0]);
    var (t, seen', _) := OnPayload(s, seen, ps[0]);
    if i == 0 {
      ScanKeepsRemembered(t, seen', ps[1..], ps[0]);
    } else {
      ScanRemembersLast(t, seen', ps[1..], i - 1);
    }
  }

  /** A mandatory payload is there exactly when the reply has one. */
  lemma {:induction false} ScanFinds(s: State, seen: Seen, ps: seq<Payload>)
    requires forall k :: 0 <= k < |ps| ==> !Stops(ps[k])
    ensures var (t, seen', v) := Scan(s, seen, ps);
      && v.None? && t == s.(fragments := t.fragments)
      && (seen'.sa.Some? <==> seen.sa.Some? || exists k :: 0 <= k < |ps| && ps[k].PSa?)
      && (seen'.ke.Some? <==> seen.ke.Some? || exists k :: 0 <= k < |ps| && ps[k].PKe?)
      && (seen'.nonce.Some? <==> seen.nonce.Some? || exists k :: 0 <= k < |ps| && ps[k].PNonce?)
    decreases |ps|
  {
    hide OnPayload, Stops, SameKind;
    if ps == [] {
    } else {
      RememberedStep(s, seen, ps[0]);
      PassStep(s, seen, ps[0]);
      var (t, seen', _) := OnPayload(s, seen, ps[0]);
      ScanFinds(t, seen', ps[1..]);
      assert forall k :: 0 < k < |ps| ==> ps[1..][k - 1] == ps[k];
    }
  }

  lemma CookieBody(env: Env, c: Bytes)
    ensures var body := EncBody(CookieNotify(env, c));
      |body| == 4 + |c| && body[..2] == [0, 0] && GetBE(body[2..4]) == 16390 && body[4..] == c
  {
    hide GetBE, PutU16;
    assert EncBody(CookieNotify(env, c))[2..4] == PutU16(16390);
    U16Wire(16390);
  }

  /**
   The first bytes of a request with a cookie: an initiator's header that names a notify, or in the non-standard mode an
   SA payload, then in either case the COOKIE notify, and an SA payload behind it.
   */
  lemma CookieInFront(env: Env, k: nat, c: Bytes, dh: Dh, ni: Bytes)
    requires env.Valid() && |c| + 8 < U16_SIZE
    ensures var d := Request(env, k, Some(c), dh, ni);
      && |d| >= 36 + |c| && d[16] == (if env.cookieAsSa then 33 else 41) && d[28] == 33 && d[29] == 0
      && GetBE(d[30..32]) == 8 + |c| && d[32..34] == [0, 0] && GetBE(d[34..36]) == 16390 && d[36..36 + |c|] == c
  {
    hide EncHeader, GetBE, Link, PutU16, EncBody;
    var ps := RequestPayloads(env, k, Some(c), dh, ni);
    PacketWire(RequestHeader(env), ps);
    CookieBody(env, c);
    var body, rest := EncBody(ps[0]), EncChain(ps[1..]);
    var link := Link(33, body);
    LinkWire(33, body, rest);
    assert EncChain(ps) == link + rest;
    var d := Request(env, k, Some(c), dh, ni);
    assert d[28..] == link + rest;
    assert d[30..32] == (link + rest)[2..4] && d[32..32 + |body|] == body;
    assert d[32..34] == body[..2] && d[34..36] == body[2..4] && d[36..36 + |c|] == body[4..];
  }

  /** The first request of a fresh session: default group, no cookie, the first draws, and nothing else set. */
  lemma FirstRequest(env: Env)
    requires env.Valid()
    ensures var dh := Dh(14, env.public(14, 1));
      Build(env, Fresh())
      == (State(env.nonce(0), Some(dh), 0, [], false, 0, Request(env, 0, None, dh, env.nonce(0)), [], 0, None, 2, 1,
                false, false, None), true)
  {
    hide Request;
  }

  /** The reply `data` decodes to a header of the exchange, and to these payloads. */
  predicate Reads(data: Bytes, h: Header, ps: seq<Payload>) {
    DecPacket(data) == Ok((h, ps)) && h.exchange == 34
  }

  lemma HandleStops(env: Env, s: State, data: Bytes, h: Header, before: seq<Payload>, p: Payload, after: seq<Payload>)
    requires Reads(data, h, before + [p] + after)
    requires Stops(p) && forall i :: 0 <= i < |before| ==> !Stops(before[i])
    ensures var noted := s.(spiR := h.spiR,
                            fragments := s.fragments || exists i :: 0 <= i < |before| && Announces(before[i]));
      Handle(env, s, data) == AtStop(noted, p)
  {
    hide Scan, DecPacket, AtStop, Stops, Announces;
    ScanStops(s.(spiR := h.spiR), Nothing(), before, p, after);
  }

  lemma BuildsRequest(env: Env, s: State)
    requires env.Valid() && Build(env, s).1
    ensures var t := Build(env, s).0;
      && t.dh.Some?
      && t.msgBuffer == Request(env, s.builds, if s.sendCookie && s.cookie != [] then Some(s.cookie) else None,
                                t.dh.value, t.ni)
      && t.builds == s.builds + 1
  {
    hide Request;
  }

  /**
   A reply whose first decisive payload is a COOKIE notify is answered with a request that carries the very bytes of
   that notify in front. After the first COOKIE the request has the same nonce and key-exchange value as before, and
   from the second one on new ones.
   */
  lemma CookieReturned(env: Env, s: State, retries: nat, data: Bytes, h: Header, before: seq<Payload>, p: Payload,
                       after: seq<Payload>)
    requires env.Valid() && DhSupported(s) && Build(env, s).1 && s.cookieRetryCount == retries
    requires Reads(data, h, before + [p] + after) && forall i :: 0 <= i < |before| ==> !Stops(before[i])
    requires p.PNotify? && p.notifyType == 16390 && p.notifyData != []
    ensures var t := Build(env, s).0;
      var (u, v) := Handle(env, t, data);
      var (next, built) := Build(env, u.(cookieRetryCount := retries + 1));
      var g := if t.keRetryGroup > 0 then t.keRetryGroup else 14;
      && v == CookieRequired && built && t.dh.Some? && t.dh.value.group == g
      && next.msgBuffer
         == if retries == 0 then Request(env, t.builds, Some(p.notifyData), t.dh.value, t.ni)
            else Request(env, t.builds, Some(p.notifyData), Dh(g, env.public(g, t.draws + 1)), env.nonce(t.draws))
  {
    hide Handle, Request, Build, Announces, RedirectParses;
    var t := Build(env, s).0;
    HandleStops(env, t, data, h, before, p, after);
    BuiltForGroup(env, s);
    CookieResend(env, s, data, retries);
    BuildsRequest(env, Handle(env, t, data).0.(cookieRetryCount := retries + 1));
  }

  /**
   A reply whose first decisive payload is INVALID_KE_PAYLOAD is answered with a request for the group in the notify,
   with the same nonce and cookie. A group other than 2 and 14 ends the connection, zero means 14, and the key pair is
   new unless it has that group already.
   */
  lemma GroupRetried(env: Env, s: State, data: Bytes, h: Header, before: seq<Payload>, p: Payload, after: seq<Payload>)
    requires env.Valid() && DhSupported(s) && Build(env, s).1
    requires Reads(data, h, before + [p] + after) && forall i :: 0 <= i < |before| ==> !Stops(before[i])
    requires p.PNotify? && p.notifyType == 17 && |p.notifyData| >= 2
    ensures var t := Build(env, s).0;
      var (u, v) := Handle(env, t, data);
      var (next, built) := Build(env, u);
      var g := if GetBE(p.notifyData[..2]) == 0 then 14 else GetBE(p.notifyData[..2]);
      && v == InvalidKe && t.dh.Some? && (built <==> g == 2 || g == 14)
      && (built ==>
            next.msgBuffer
            == Request(env, t.builds, if t.sendCookie && t.cookie != [] then Some(t.cookie) else None,
                       if t.dh.value.group == g then t.dh.value else Dh(g, env.public(g, t.draws)), t.ni))
  {
    hide Handle, Request, Announces, RedirectParses, GetBE;
    var t := Build(env, s).0;
    BuiltForGroup(env, s);
    HandleStops(env, t, data, h, before, p, after);
    var u := Handle(env, t, data).0;
    if Build(env, u).1 {
      BuildsRequest(env, u);
    }
  }

  /** Any other decisive payload ends the connection: NO_PROPOSAL_CHOSEN, a REDIRECT, a group notify cut short. */
  lemma OthersFail(env: Env, s: State, data: Bytes, h: Header, before: seq<Payload>, p: Payload, after: seq<Payload>)
    requires Reads(data, h, before + [p] + after) && forall i :: 0 <= i < |before| ==> !Stops(before[i])
    requires Stops(p) && p.notifyType != 16390 && (p.notifyType == 17 ==> |p.notifyData| < 2)
    ensures Handle(env, s, data).1 == Failed
  {
    hide Handle, Announces, RedirectParses;
    HandleStops(env, s, data, h, before, p, after);
  }

  /**
   A reply without a decisive payload succeeds exactly when it has the three mandatory payloads, its first proposal
   names a known PRF, a known cipher with a key of whole bytes and, with AES-CBC, a known MAC, and the peer's value is
   in range. With AES-GCM a MAC that was named is dropped. What is derived from are the own nonce and key pair, the
   last nonce and key-exchange payload of the reply, and the SPI in its header.
   */
  lemma DerivesFromReply(env: Env, s: State, data: Bytes, h: Header, ps: seq<Payload>, sa: nat, ke: nat, nonce: nat)
    requires Reads(data, h, ps) && s.dh.Some? && forall i :: 0 <= i < |ps| ==> !Stops(ps[i])
    requires sa < |ps| && ps[sa].PSa? && forall i :: sa < i < |ps| ==> !ps[i].PSa?
    requires ke < |ps| && ps[ke].PKe? && forall i :: ke < i < |ps| ==> !ps[i].PKe?
    requires nonce < |ps| && ps[nonce].PNonce? && forall i :: nonce < i < |ps| ==> !ps[i].PNonce?
    ensures var (t, v) := Handle(env, s, data);
      var offers := ps[sa].proposals;
      && (v == Done
          <==> && offers != [] && env.peerKeyOk(s.dh.value.group, ps[ke].keData)
               && var a := Chosen(offers[0]);
               && a.prf in {1, 2, 5, 6, 7} && a.encr in {12, 18, 19, 20} && a.keyBits % 8 == 0
               && (a.encr == 12 ==> a.integ in {0, 2, 12, 13, 14}))
      && (v != Done ==> v == Failed)
      && (v == Done ==>
            && t.derived
               == Some(Derived(s.ni, ps[nonce].nonceData, s.dh.value, ps[ke].keData, env.spiI, h.spiR))
            && var a := Chosen(offers[0]);
               t.chosen == Some(if a.encr == 12 then a else a.(integ := 0)))
  {
    hide Scan, DecPacket, Stops, NatDetected, Chosen;
    var s1 := s.(spiR := h.spiR);
    ScanFinds(s1, Nothing(), ps);
    ScanRemembersLast(s1, Nothing(), ps, sa);
    ScanRemembersLast(s1, Nothing(), ps, ke);
    ScanRemembersLast(s1, Nothing(), ps, nonce);
  }

  /**
   Such a reply moves the socket to port 4500 exactly when its last NAT detection notifies of both kinds are there,
   not empty, and not both the hashes computed here for the SPI in its header.
   */
  lemma NatFromReply(env: Env, s: State, data: Bytes, h: Header, ps: seq<Payload>, i: nat, j: nat)
    requires Reads(data, h, ps) && s.dh.Some? && forall k :: 0 <= k < |ps| ==> !Stops(ps[k])
    requires (exists k :: 0 <= k < |ps| && ps[k].PSa?) && (exists k :: 0 <= k < |ps| && ps[k].PKe?)
          && (exists k :: 0 <= k < |ps| && ps[k].PNonce?)
    requires i < |ps| && ps[i].PNotify? && ps[i].notifyType == 16388
    requires j < |ps| && ps[j].PNotify? && ps[j].notifyType == 16389
    requires forall k :: i < k < |ps| ==> !SameKind(ps[k], ps[i])
    requires forall k :: j < k < |ps| ==> !SameKind(ps[k], ps[j])
    ensures Handle(env, s, data).0.nat4500
      <==> s.nat4500
           || (ps[i].notifyData != [] && ps[j].notifyData != []
               && !(ps[i].notifyData == env.sourceHash(h.spiR) && ps[j].notifyData == env.destinationHash(h.spiR)))
  {
    hide Scan, DecPacket, Stops, SameKind, Chosen, Algorithms.Supported, Algorithms.Settled;
    var s1 := s.(spiR := h.spiR);
    ScanFinds(s1, Nothing(), ps);
    ScanRemembersLast(s1, Nothing(), ps, i);
    ScanRemembersLast(s1, Nothing(), ps, j);
  }

  /** A reply that does not decode, or belongs to another exchange, fails and changes nothing. */
  lemma OtherExchangeFails(env: Env, s: State, data: Bytes)
    requires DecPacket(data).Err? || DecPacket(data).value.0.exchange != 34
    ensures Handle(env, s, data) == (s, Failed)
  {
    hide Scan, DecPacket;
  }

  /** Without one of the three it fails. */
  lemma MissingPayloadFails(env: Env, s: State, data: Bytes, h: Header, ps: seq<Payload>)
    requires Reads(data, h, ps) && forall i :: 0 <= i < |ps| ==> !Stops(ps[i])
    requires (forall i :: 0 <= i < |ps| ==> !ps[i].PSa?) || (forall i :: 0 <= i < |ps| ==> !ps[i].PKe?)
          || (forall i :: 0 <= i < |ps| ==> !ps[i].PNonce?)
    ensures Handle(env, s, data).1 == Failed
  {
    hide Scan, DecPacket, Stops, Conclude;
    ScanFinds(s.(spiR := h.spiR), Nothing(), ps);
    var (_, seen, _) := Scan(s.(spiR := h.spiR), Nothing(), ps);
    assert seen.sa.None? || seen.ke.None? || seen.nonce.None?;
  }

  // ---------- the session as the source keeps it ----------

  /** A trace with what happened before it. */
  ghost function Join(sent: seq<State>, resends: nat, r: Trace): Trace {
    Trace(sent + r.sent, resends + r.cookieResends, r.end, r.outcome)
  }

  lemma JoinNone(r: Trace)
    ensures Join([], 0, r) == r
  {
    assert [] + r.sent == r.sent;
  }

  /** One iteration of the retry loop, in terms of the trace still to come. */
  lemma ConnectStep(env: Env, s: State, retries: nat, replies: seq<Bytes>, k: nat, sent: seq<State>)
    requires env.Valid() && k <= |replies|
    ensures var whole := Join(sent, retries, Connect(env, s, retries, replies[k..]));
      var (t, built) := Build(env, s);
      && (!built ==> whole.outcome == GaveUp && whole.end == t)
      && (built && k == |replies| ==> whole.outcome == TimedOut && whole.end == t)
      && (built && k < |replies| ==>
            var (u, v) := Handle(env, t, replies[k]);
            var w := u.(cookieRetryCount := retries + 1);
            && (v == Done ==> whole.outcome == Established && whole.end == u)
            && (v == Failed ==> whole.outcome == GaveUp && whole.end == u)
            && (v == InvalidKe ==> whole == Join(sent + [t], retries, Connect(env, u, retries, replies[k + 1..])))
            && (v == CookieRequired ==>
                  if retries + 1 > MAX_COOKIE_RETRIES then whole.outcome == TooManyCookies && whole.end == w
                  else whole == Join(sent + [t], retries + 1, Connect(env, w, retries + 1, replies[k + 1..]))))
  {
    hide Build, Handle;
    var (t, built) := Build(env, s);
    if built && k < |replies| {
      assert replies[k..][1..] == replies[k + 1..];
      var (u, v) := Handle(env, t, replies[k]);
      assert forall rest: seq<State> :: sent + ([t] + rest) == (sent + [t]) + rest;
    }
  }

  class InitSession {
    var ni: Bytes
    var dh: Option<Dh>
    var keRetryGroup: nat
    var cookie: Bytes
    var sendCookie: bool
    var cookieRetryCount: nat
    var msgBuffer: Bytes
    var nr: Bytes
    var spiR: nat
    var derived: Option<Derived>
    var draws: nat
    var builds: nat
    var fragments: bool
    var nat4500: bool
    var chosen: Option<Algorithms>

    function View(): State
      reads this
    {
      State(ni, dh, keRetryGroup, cookie, sendCookie, cookieRetryCount, msgBuffer, nr, spiR, derived, draws,
            builds, fragments, nat4500, chosen)
    }

    constructor ()
      ensures View() == Fresh()
    {
      ni, dh, keRetryGroup, cookie, sendCookie, cookieRetryCount := [], None, 0, [], false, 0;
      msgBuffer, nr, spiR, derived, draws := [], [], 0, None, 0;
      builds, fragments, nat4500, chosen := 0, false, false, None;
    }

    method EnsureNonce(env: Env)
      modifies this`ni, this`draws
      ensures View() == WithNonce(env, old(View()))
    {
      if |ni| == 0 {
        ni := env.nonce(draws);
        draws := draws + 1;
      }
    }

    method EnsureDh(env: Env) returns (ok: bool)
      modifies this`dh, this`draws
      ensures View() == WithDh(env, old(View())) && ok == dh.Some?
    {
      var group := DEFAULT_GROUP;
      if keRetryGroup > 0 {
        group := keRetryGroup;
      }
      if dh.None? || dh.value.group != group {
        dh := None;
        if group != 2 && group != 14 { return false; }
        dh := Some(Dh(group, env.public(group, draws)));
        draws := draws + 1;
      }
      return true;
    }

    /** `buildIKESAInitPacket`. */
    method BuildInitPacket(env: Env) returns (built: bool)
      requires env.Valid()
      modifies this
      ensures (View(), built) == Build(env, old(View()))
    {
      hide Request, WithNonce, WithDh;
      EnsureNonce(env);
      var ok := EnsureDh(env);
      if !ok { return false; }
      var c := if sendCookie && |cookie| > 0 then Some(cookie) else None;
      msgBuffer := Request(env, builds, c, dh.value, ni);
      builds := builds + 1;
      return true;
    }

    method OnCookie(data: Bytes)
      modifies this
      ensures View() == HandleCookie(old(View()), data)
    {
      cookie := data;
      sendCookie := true;
      if cookieRetryCount >= 1 {
        ni := [];
        dh := None;
      }
    }

    /** The payload loop of `handleIKESAInitResp`. */
    method ScanPayloads(ps: seq<Payload>) returns (seen: Seen, v: Option<Verdict>)
      modifies this
      ensures (View(), seen, v) == Scan(old(View()), Nothing(), ps)
    {
      seen, v := Nothing(), None;
      ghost var s := View();
      ghost var whole := Scan(s, seen, ps);
      assert ps[0..] == ps;
      for i := 0 to |ps|
        invariant Scan(View(), seen, ps[i..]) == whole && v.None?
      {
        assert ps[i..][1..] == ps[i + 1..];
        match ps[i]
        case PSa(proposals) => seen := seen.(sa := Some(proposals));
        case PKe(_, d) => seen := seen.(ke := Some(d));
        case PNonce(d) => seen := seen.(nonce := Some(d));
        case PNotify(_, _, t, d, _) =>
          if t == COOKIE {
            OnCookie(d);
            return seen, Some(CookieRequired);
          }
          if t == NAT_SOURCE { seen := seen.(source := d); }
          if t == NAT_DESTINATION { seen := seen.(destination := d); }
          if t == FRAGMENTATION { fragments := true; }
          if t == NO_PROPOSAL_CHOSEN { return seen, Some(Failed); }
          if t == INVALID_KE {
            if |d| < 2 { return seen, Some(Failed); }
            keRetryGroup := GetU16(d[..2]);
            return seen, Some(InvalidKe);
          }
          if t == REDIRECT && RedirectParses(d) { return seen, Some(Failed); }
        case _ =>
      }
    }

    method ConcludeExchange(env: Env, proposals: seq<Proposal>, own: Dh, ke: Bytes) returns (v: Verdict)
      modifies this`chosen, this`derived, this`sendCookie
      ensures (View(), v) == Conclude(env, old(View()), proposals, own, ke)
    {
      hide Chosen, Algorithms.Supported, Algorithms.Settled;
      if proposals == [] { return Failed; }
      var a := ReadAlgorithms(proposals[0]);
      if !a.Supported() { return Failed; }
      chosen := Some(a.Settled());
      if !env.peerKeyOk(own.group, ke) { return Failed; }
      derived := Some(Derived(ni, nr, own, ke, env.spiI, spiR));
      sendCookie := false;
      return Done;
    }

    /** The NAT detection that moves the socket to port 4500. */
    method CheckNat(env: Env, seen: Seen)
      modifies this`nat4500
      ensures nat4500
           == (old(nat4500)
               || (seen.source != [] && seen.destination != []
                   && !(seen.source == env.sourceHash(spiR) && seen.destination == env.destinationHash(spiR))))
    {
      if |seen.source| > 0 && |seen.destination| > 0 {
        if seen.source != env.sourceHash(spiR) || seen.destination != env.destinationHash(spiR) {
          nat4500 := true;
        }
      }
    }

    /** The end of `handleIKESAInitResp`, behind the payload loop. */
    method DeriveKeys(env: Env, seen: Seen) returns (v: Verdict)
      modifies this
      ensures (View(), v) == Derive(env, old(View()), seen)
    {
      hide Conclude;
      if seen.sa.None? || seen.ke.None? || seen.nonce.None? || dh.None? { return Failed; }
      nr := seen.nonce.value;
      CheckNat(env, seen);
      v := ConcludeExchange(env, seen.sa.value, dh.value, seen.ke.value);
    }

    method HandleResponse(env: Env, data: Bytes) returns (v: Verdict)
      modifies this
      ensures (View(), v) == Handle(env, old(View()), data)
    {
      hide DecPacket, Scan;
      var packet := DecodePacket(data);
      if packet.Err? || packet.value.0.exchange != EXCHANGE { return Failed; }
      spiR := packet.value.0.spiR;
      var seen, verdict := ScanPayloads(packet.value.1);
      if verdict.Some? { return verdict.value; }
      v := DeriveKeys(env, seen);
    }

    /** The IKE_SA_INIT loop of `connectOnce` against a script of replies. */
    method ConnectOnce(env: Env, replies: seq<Bytes>) returns (outcome: Outcome, ghost trace: Trace)
      requires env.Valid()
      modifies this
      ensures trace == Connect(env, old(View()), 0, replies)
      ensures outcome == trace.outcome && View() == trace.end
    {
      hide Build, Handle;
      ghost var whole := Connect(env, View(), 0, replies);
      ghost var sent: seq<State> := [];
      ghost var before := View();
      var retries, k := 0, 0;
      assert replies[0..] == replies;
      JoinNone(whole);
      while true
        invariant k <= |replies| && before == View()
        invariant Join(sent, retries, Connect(env, before, retries, replies[k..])) == whole
        decreases |replies| - k
      {
        ConnectStep(env, before, retries, replies, k, sent);
        var built := BuildInitPacket(env);
        if !built { return GaveUp, whole; }
        if k == |replies| { return TimedOut, whole; }
        sent := sent + [View()];
        var v := HandleResponse(env, replies[k]);
        k := k + 1;
        if v == Done { return Established, whole; }
        if v == Failed { return GaveUp, whole; }
        if v == CookieRequired {
          retries := retries + 1;
          cookieRetryCount := retries;
          if retries > MAX_COOKIE_RETRIES { return TooManyCookies, whole; }
        }
        before := View();
      }
    }
  }
}
