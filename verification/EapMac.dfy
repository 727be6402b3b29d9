/**
 EAP-AKA packets and attributes (RFC 4187), the Challenge response in its four modes, and the AT_MAC that
 is computed over the response with a zeroed MAC and then patched in.
 */
module EapMac {
  import opened Bytes

  const REQUEST: Byte := 1
  const RESPONSE: Byte := 2
  const AKA: Byte := 23
  const AKA_PRIME: Byte := 50
  const CHALLENGE: Byte := 1
  const AT_RAND: Byte := 1
  const AT_AUTN: Byte := 2
  const AT_RES: Byte := 3
  const AT_MAC: Byte := 11
  const AT_CHECKCODE_EXT: Byte := 0x86
  const AT_RESULT_IND: Byte := 135

  // ---------- packets ----------

  datatype Packet = Packet(code: Byte, id: Byte, typ: Byte, subtype: Byte, data: Bytes) {
    predicate Typed() {
      code == REQUEST || code == RESPONSE
    }

    predicate Aka() {
      typ == AKA || typ == AKA_PRIME
    }

    /** What the wire carries: nothing behind the header of Success and Failure, a subtype only for AKA. */
    function Norm(): Packet {
      if !Typed() then Packet(code, id, 0, 0, [])
      else if Aka() then this
      else this.(subtype := 0)
    }
  }

  /** `EAPPacket.Encode`. */
  function EncPacket(p: Packet): Bytes {
    var rest := if !p.Typed() then [] else if p.Aka() then [p.typ, p.subtype, 0, 0] + p.data else [p.typ] + p.data;
    [p.code, p.id] + PutU16(4 + |rest|) + rest
  }

  /** `eap.Parse`. */
  function Parse(d: Bytes): Result<Packet> {
    if |d| < 4 then Err
    else
      var n := GetU16(d[2..4]);
      if n > |d| then Err
      else if !(d[0] == REQUEST || d[0] == RESPONSE) || n <= 4 then Ok(Packet(d[0], d[1], 0, 0, []))
      else if d[4] == AKA || d[4] == AKA_PRIME then
        Ok(Packet(d[0], d[1], d[4], if n > 5 then d[5] else 0, if n > 8 then d[8..n] else []))
      else Ok(Packet(d[0], d[1], d[4], 0, d[5..n]))
  }

  lemma PacketRoundTrip(p: Packet)
    requires |EncPacket(p)| < U16_SIZE
    ensures Parse(EncPacket(p)) == Ok(p.Norm())
  {
    hide PutU16, GetU16;
    var d := EncPacket(p);
    assert d[2..4] == PutU16(|d|);
    U16RoundTrip(|d|);
    if p.Typed() && p.Aka() {
      assert d[8..|d|] == p.data;
    } else if p.Typed() {
      assert d[5..|d|] == p.data;
    }
  }

  /** A packet on the wire (RFC 3748, section 4, and RFC 4187, section 8.1). */
  lemma PacketWire(p: Packet)
    requires |EncPacket(p)| < U16_SIZE
    ensures var d := EncPacket(p);
      && |d| >= 4 && d[0] == p.code && d[1] == p.id && GetBE(d[2..4]) == |d|
      && if p.code != 1 && p.code != 2 then |d| == 4
         else if p.typ == 23 || p.typ == 50 then |d| >= 8 && d[4..8] == [p.typ, p.subtype, 0, 0] && d[8..] == p.data
         else |d| >= 5 && d[4] == p.typ && d[5..] == p.data
  {
    hide PutU16, GetBE;
    var d := EncPacket(p);
    assert d[2..4] == PutU16(|d|);
    U16Wire(|d|);
  }

  /**
   Every datagram: it is refused exactly when its header is cut off or names more bytes than there are. What is missing
   of an AKA header, up to its eight bytes, reads as zero, and bytes behind the named length are dropped.
   */
  lemma ParseExactly(d: Bytes)
    ensures Parse(d).Ok? <==> |d| >= 4 && GetBE(d[2..4]) <= |d|
    ensures Parse(d).Ok? ==>
      var p, n := Parse(d).value, GetBE(d[2..4]);
      var whole := d[..n] + Zeros(8);
      && p.code == d[0] && p.id == d[1]
      && if !(d[0] == 1 || d[0] == 2) || n <= 4 then p.typ == p.subtype == 0 && p.data == []
         else if d[4] == 23 || d[4] == 50 then
           p.typ == d[4] && p.subtype == whole[5] && p.data == if n < 8 then [] else d[8..n]
         else p.typ == d[4] && p.subtype == 0 && p.data == d[5..n]
  {
    hide GetBE, GetU16;
    if |d| >= 4 {
      U16IsBigEndian(0, d[2..4]);
    }
  }

  // ---------- attributes ----------

  datatype Attr = Attr(typ: Byte, value: Bytes) {
    function PadLen(): nat {
      if (2 + |value|) % 4 != 0 then 4 - (2 + |value|) % 4 else 0
    }

    /** The attribute fits in 255 words of four bytes. */
    predicate Fits() {
      2 + |value| <= 1020
    }
  }

  /** `Attribute.Encode`: zero-padded to whole words, the word count truncated to a byte. */
  function EncAttr(a: Attr): Bytes {
    [a.typ, ((2 + |a.value| + a.PadLen()) / 4) % 256] + a.value + Zeros(a.PadLen())
  }

  function EncAttrs(attrs: seq<Attr>): Bytes {
    if attrs == [] then [] else EncAttr(attrs[0]) + EncAttrs(attrs[1..])
  }

  /** `ParseAttributes`: a later attribute replaces an earlier one of its type. */
  function ParseInto(acc: map<Byte, Bytes>, d: Bytes): Result<map<Byte, Bytes>>
    decreases |d|
  {
    if |d| < 2 then Ok(acc)
    else
      var n := d[1] as int * 4;
      if n == 0 || n > |d| then Err else ParseInto(acc[d[0] := d[2..n]], d[n..])
  }

  /** `findEAPAttrOffset`. */
  function FindOffset(d: Bytes, typ: Byte): (r: Option<nat>)
    ensures r.Some? ==> r.value + 4 <= |d| && d[r.value] == typ
    decreases |d|
  {
    if |d| < 2 then None
    else
      var n := d[1] as int * 4;
      if n == 0 || n > |d| then None
      else if d[0] == typ then Some(0)
      else match FindOffset(d[n..], typ)
        case None => None
        case Some(o) => Some(n + o)
  }

  lemma AttrFront(a: Attr, rest: Bytes)
    requires a.Fits()
    ensures var d := EncAttr(a) + rest;
      && |EncAttr(a)| >= 4 && d[0] == a.typ && d[1] as int * 4 == |EncAttr(a)| && d[1] != 0
      && d[|EncAttr(a)|..] == rest && d[2..|EncAttr(a)|] == a.value + Zeros(a.PadLen())
  {
  }

  /** An attribute on the wire: type, length in words, value, and fewer than four zeros. */
  lemma AttrWire(a: Attr)
    requires a.Fits()
    ensures var d, n := EncAttr(a), |EncAttr(a)| - 2 - |a.value|;
      && d[0] == a.typ && 4 * d[1] as int == |d| && d[2..2 + |a.value|] == a.value
      && 0 <= n < 4 && d[2 + |a.value|..] == Zeros(n)
  {
  }

  lemma ParseStep(acc: map<Byte, Bytes>, a: Attr, rest: Bytes)
    requires a.Fits()
    ensures ParseInto(acc, EncAttr(a) + rest) == ParseInto(acc[a.typ := a.value + Zeros(a.PadLen())], rest)
  {
    hide EncAttr;
    AttrFront(a, rest);
  }

  /** What is stored under a type: the value with its padding. */
  function Held(a: Attr): Bytes {
    a.value + Zeros(a.PadLen())
  }

  predicate AllFit(attrs: seq<Attr>) {
    forall i :: 0 <= i < |attrs| ==> attrs[i].Fits()
  }

  /** The attribute at `i` is the last of its type. */
  predicate LastOfType(attrs: seq<Attr>, i: nat) {
    i < |attrs| && forall j :: i < j < |attrs| ==> attrs[j].typ != attrs[i].typ
  }

  predicate NoneOfType(attrs: seq<Attr>, t: Byte) {
    forall j :: 0 <= j < |attrs| ==> attrs[j].typ != t
  }

  lemma {:induction false} ParsesList(acc: map<Byte, Bytes>, attrs: seq<Attr>)
    requires AllFit(attrs)
    ensures ParseInto(acc, EncAttrs(attrs)).Ok?
    decreases |attrs|
  {
    hide EncAttr;
    if attrs == [] {
    } else {
      ParseStep(acc, attrs[0], EncAttrs(attrs[1..]));
      ParsesList(acc[attrs[0].typ := Held(attrs[0])], attrs[1..]);
    }
  }

  /** Parsing a list leaves the types it does not have as they were. */
  lemma {:induction false} ParsesNone(acc: map<Byte, Bytes>, attrs: seq<Attr>, t: Byte)
    requires AllFit(attrs) && NoneOfType(attrs, t)
    ensures var r := ParseInto(acc, EncAttrs(attrs));
      r.Ok? && (t in r.value <==> t in acc) && (t in acc ==> r.value[t] == acc[t])
    decreases |attrs|
  {
    hide EncAttr;
    if attrs == [] {
    } else {
      ParseStep(acc, attrs[0], EncAttrs(attrs[1..]));
      ParsesNone(acc[attrs[0].typ := Held(attrs[0])], attrs[1..], t);
    }
  }

  /** Of any list of attributes that fit, the last one of a type is found under it. */
  lemma {:induction false} ParsesLast(acc: map<Byte, Bytes>, attrs: seq<Attr>, i: nat)
    requires AllFit(attrs) && LastOfType(attrs, i)
    ensures var r := ParseInto(acc, EncAttrs(attrs));
      r.Ok? && attrs[i].typ in r.value && r.value[attrs[i].typ] == Held(attrs[i])
    decreases |attrs|
  {
    hide EncAttr;
    var acc1 := acc[attrs[0].typ := Held(attrs[0])];
    ParseStep(acc, attrs[0], EncAttrs(attrs[1..]));
    if i == 0 {
      ParsesNone(acc1, attrs[1..], attrs[0].typ);
    } else {
      ParsesLast(acc1, attrs[1..], i - 1);
    }
  }

  lemma FindStep(a: Attr, rest: Bytes, typ: Byte)
    requires a.Fits()
    ensures FindOffset(EncAttr(a) + rest, typ) ==
            if a.typ == typ then Some(0)
            else match FindOffset(rest, typ)
                 case None => None
                 case Some(o) => Some(|EncAttr(a)| + o)
  {
    hide EncAttr;
    AttrFront(a, rest);
  }

  /** The offset found for a type is that of its first attribute. */
  lemma {:induction false} FindsFirst(before: seq<Attr>, a: Attr, rest: Bytes)
    requires AllFit(before) && NoneOfType(before, a.typ) && a.Fits()
    ensures FindOffset(EncAttrs(before) + EncAttr(a) + rest, a.typ) == Some(|EncAttrs(before)|)
    decreases |before|
  {
    hide EncAttr;
    if before == [] {
      assert EncAttrs(before) + EncAttr(a) + rest == EncAttr(a) + rest;
      FindStep(a, rest, a.typ);
    } else {
      var b, tail := before[0], EncAttrs(before[1..]) + EncAttr(a) + rest;
      assert EncAttrs(before) + EncAttr(a) + rest == EncAttr(b) + tail;
      FindStep(b, tail, a.typ);
      FindsFirst(before[1..], a, rest);
    }
  }

  lemma {:induction false} EncAttrsJoin(a: seq<Attr>, b: seq<Attr>)
    ensures EncAttrs(a + b) == EncAttrs(a) + EncAttrs(b)
  {
    hide EncAttr;
    if a == [] {
      assert a + b == b;
    } else {
      EncAttrsJoin(a[1..], b);
      assert (a + b)[1..] == a[1..] + b;
    }
  }

  lemma OneAttr(a: Attr)
    ensures EncAttrs([a]) == EncAttr(a)
  {
    assert EncAttrs([a]) == EncAttr(a) + [];
  }

  // ---------- the Challenge response ----------

  datatype Mode = Minimal | Checkcode | Omit | Standard

  /** The attributes a standard response echoes, in the order the attribute map happens to be visited. */
  function Echoed(attrs: map<Byte, Bytes>, order: seq<Byte>): seq<Attr>
    requires forall t :: t in order ==> t in attrs
  {
    if order == [] then []
    else
      var t := order[0];
      (if t in {AT_RAND, AT_AUTN, AT_MAC, AT_RESULT_IND, AT_RES} then [] else [Attr(t, attrs[t])])
      + Echoed(attrs, order[1..])
  }

  /** What follows AT_RES: `local` is the checkcode computed from the device identity, possibly empty. */
  function Extras(mode: Mode, attrs: map<Byte, Bytes>, order: seq<Byte>, local: Bytes): seq<Attr>
    requires forall t :: t in order ==> t in attrs
  {
    var echo := AT_CHECKCODE_EXT in attrs && |attrs[AT_CHECKCODE_EXT]| >= 2;
    match mode
    case Minimal => if echo then [Attr(AT_CHECKCODE_EXT, attrs[AT_CHECKCODE_EXT])] else []
    case Checkcode =>
      if echo then [Attr(AT_CHECKCODE_EXT, attrs[AT_CHECKCODE_EXT])]
      else if |local| > 0 then [Attr(AT_CHECKCODE_EXT, [0, 0] + local)] else []
    case Omit => []
    case Standard =>
      Echoed(attrs, order) + if AT_RESULT_IND in attrs then [Attr(AT_RESULT_IND, [0, 0])] else []
  }

  /** `buildChallengeResponseAttrs`. */
  function ResponseAttrs(mode: Mode, attrs: map<Byte, Bytes>, order: seq<Byte>, res: Bytes, local: Bytes): seq<Attr>
    requires forall t :: t in order ==> t in attrs
  {
    [Attr(AT_RES, PutU16(|res| * 8) + res)] + Extras(mode, attrs, order, local)
  }

  /** The attributes of a received Challenge, as parsing leaves them, and sizes a SIM and a digest can have. */
  predicate Usable(attrs: map<Byte, Bytes>, res: Bytes, local: Bytes) {
    && (forall t :: t in attrs ==> |attrs[t]| <= 1018)
    && |res| <= 1016 && |local| <= 1016
  }

  lemma {:induction false} EchoedFits(attrs: map<Byte, Bytes>, order: seq<Byte>)
    requires (forall t :: t in order ==> t in attrs) && forall t :: t in attrs ==> |attrs[t]| <= 1018
    ensures AllFit(Echoed(attrs, order)) && NoneOfType(Echoed(attrs, order), AT_MAC)
  {
    if order == [] {
    } else {
      EchoedFits(attrs, order[1..]);
    }
  }

  /** In every mode each attribute in front of AT_MAC fits, and none of them is an AT_MAC. */
  lemma ResponseAttrsFit(mode: Mode, attrs: map<Byte, Bytes>, order: seq<Byte>, res: Bytes, local: Bytes)
    requires (forall t :: t in order ==> t in attrs) && Usable(attrs, res, local)
    ensures var r := ResponseAttrs(mode, attrs, order, res, local); AllFit(r) && NoneOfType(r, AT_MAC)
  {
    EchoedFits(attrs, order);
  }

  /** What parsing a Challenge yields is always small enough to echo. */
  lemma {:induction false} ParsedFits(acc: map<Byte, Bytes>, d: Bytes)
    requires ParseInto(acc, d).Ok? && forall t :: t in acc ==> |acc[t]| <= 1018
    ensures forall t :: t in ParseInto(acc, d).value ==> |ParseInto(acc, d).value[t]| <= 1018
    decreases |d|
  {
    if |d| >= 2 {
      var n := d[1] as int * 4;
      ParsedFits(acc[d[0] := d[2..n]], d[n..]);
    }
  }

  function MacAttr(mac: Bytes): Attr {
    Attr(AT_MAC, [0, 0] + mac)
  }

  /** What stays the same of an EAP-AKA packet while its sixteen MAC bytes change. */
  datatype Frame = Frame(code: Byte, id: Byte, subtype: Byte, before: seq<Attr>, after: seq<Attr>) {
    predicate Typed() {
      code == REQUEST || code == RESPONSE
    }

    /** Every attribute fits, none of them is another AT_MAC, and the length field holds the whole. */
    predicate WellFormed() {
      && Typed() && AllFit(before) && AllFit(after) && NoneOfType(before, AT_MAC) && NoneOfType(after, AT_MAC)
      && 28 + |EncAttrs(before)| + |EncAttrs(after)| < U16_SIZE
    }

    /** The packet with these MAC bytes. */
    function With(mac: Bytes): Bytes {
      EncPacket(Packet(code, id, AKA, subtype, EncAttrs(before) + EncAttr(MacAttr(mac)) + EncAttrs(after)))
    }
  }

  function ResponseFrame(id: Byte, before: seq<Attr>): Frame {
    Frame(RESPONSE, id, CHALLENGE, before, [])
  }

  type MacFn = (Bytes, Bytes) -> Bytes

  /** The response as sent: the MAC of the zeroed packet, truncated to sixteen bytes, in its place. */
  function SignedResponse(mac: MacFn, kAut: Bytes, id: Byte, before: seq<Attr>): Bytes
    requires forall k: Bytes, d: Bytes :: |mac(k, d)| >= 16
  {
    var f := ResponseFrame(id, before);
    f.With(mac(kAut, f.With(Zeros(16)))[..16])
  }

  // ---------- verification ----------

  function Patch(d: Bytes, pos: nat, m: Bytes): Bytes
    requires pos + |m| <= |d|
  {
    d[..pos] + m + d[pos + |m|..]
  }

  /** `verifyEAPAKAMAC`. */
  predicate VerifyMac(mac: MacFn, raw: Bytes, data: Bytes, kAut: Bytes, received: Bytes)
    requires forall k: Bytes, d: Bytes :: |mac(k, d)| >= 16
  {
    match FindOffset(data, AT_MAC)
    case None => false
    case Some(o) =>
      8 + o + 4 + 16 <= |raw| && mac(kAut, Patch(raw, 8 + o + 4, Zeros(16)))[..16] == received
  }

  /** What the peer does with a received packet: parse it, take the tail of AT_MAC, and verify. */
  predicate Accepts(mac: MacFn, kAut: Bytes, raw: Bytes)
    requires forall k: Bytes, d: Bytes :: |mac(k, d)| >= 16
  {
    match Parse(raw)
    case Err => false
    case Ok(p) =>
      match ParseInto(map[], p.data)
      case Err => false
      case Ok(attrs) =>
        && AT_MAC in attrs && |attrs[AT_MAC]| >= 16
        && VerifyMac(mac, raw, p.data, kAut, attrs[AT_MAC][|attrs[AT_MAC]| - 16..])
  }

  function Front(f: Frame): (b: Bytes)
    ensures |b| == 8 + |EncAttrs(f.before)| + 4
  {
    [f.code, f.id] + PutU16(28 + |EncAttrs(f.before)| + |EncAttrs(f.after)|) + [AKA, f.subtype, 0, 0]
    + EncAttrs(f.before) + [AT_MAC, 5, 0, 0]
  }

  lemma MacAttrForm(mac: Bytes)
    requires |mac| == 16
    ensures EncAttr(MacAttr(mac)) == [AT_MAC, 5, 0, 0] + mac
    ensures MacAttr(mac).Fits() && MacAttr(mac).PadLen() == 0
  {
  }

  lemma FrameBytes(f: Frame, mac: Bytes)
    requires f.Typed() && |mac| == 16
    ensures f.With(mac) == Front(f) + mac + EncAttrs(f.after)
  {
    hide PutU16, EncAttrs;
    MacAttrForm(mac);
  }

  /** Where the MAC bytes sit: right behind the attribute's header and reserved bytes. */
  lemma MacPosition(f: Frame, mac: Bytes)
    requires f.Typed() && |mac| == 16
    ensures var raw, pos := f.With(mac), 8 + |EncAttrs(f.before)| + 4;
      && |raw| == pos + 16 + |EncAttrs(f.after)| && raw[pos..pos + 16] == mac
      && forall other: Bytes :: |other| == 16 ==> Patch(raw, pos, other) == f.With(other)
  {
    hide Frame.With, EncAttrs;
    FrameBytes(f, mac);
    forall other: Bytes | |other| == 16 ensures Patch(f.With(mac), |Front(f)|, other) == f.With(other) {
      FrameBytes(f, other);
    }
  }

  lemma MacAttrValue(mac: Bytes)
    requires |mac| == 16
    ensures MacAttr(mac).typ == AT_MAC && Held(MacAttr(mac)) == [0, 0] + mac && MacAttr(mac).Fits()
  {
    MacAttrForm(mac);
    assert [0, 0] + mac + Zeros(0) == [0, 0] + mac;
  }

  /** All attributes of a packet in their order. */
  function Listed(f: Frame, mac: Bytes): seq<Attr> {
    f.before + [MacAttr(mac)] + f.after
  }

  lemma ListedBytes(f: Frame, mac: Bytes)
    ensures EncAttrs(Listed(f, mac)) == EncAttrs(f.before) + EncAttr(MacAttr(mac)) + EncAttrs(f.after)
  {
    hide EncAttrs, EncAttr, MacAttr;
    EncAttrsJoin(f.before + [MacAttr(mac)], f.after);
    EncAttrsJoin(f.before, [MacAttr(mac)]);
    OneAttr(MacAttr(mac));
  }

  lemma FrameLength(f: Frame, mac: Bytes)
    requires f.WellFormed() && |mac| == 16
    ensures |f.With(mac)| < U16_SIZE
  {
    hide EncAttrs;
    FrameBytes(f, mac);
  }

  /** What a receiver reads from such a packet: its fields, and the list of its attributes. */
  lemma FrameParses(f: Frame, mac: Bytes)
    requires f.WellFormed() && |mac| == 16
    ensures Parse(f.With(mac)) == Ok(Packet(f.code, f.id, 23, f.subtype, EncAttrs(Listed(f, mac))))
    ensures AllFit(Listed(f, mac))
  {
    hide Parse, EncPacket, EncAttrs, EncAttr, MacAttr;
    MacAttrValue(mac);
    FrameLength(f, mac);
    ListedBytes(f, mac);
    PacketRoundTrip(Packet(f.code, f.id, AKA, f.subtype, EncAttrs(Listed(f, mac))));
  }

  /**
   A request or response, with its AT_MAC among any other attributes, is accepted exactly when the MAC bytes are the
   MAC of the packet with those bytes zeroed.
   */
  lemma AcceptsExactly(mac: MacFn, kAut: Bytes, f: Frame, m: Bytes)
    requires forall k: Bytes, d: Bytes :: |mac(k, d)| >= 16
    requires f.WellFormed() && |m| == 16
    ensures Accepts(mac, kAut, f.With(m)) <==> m == mac(kAut, f.With(Zeros(16)))[..16]
  {
    hide EncAttr, EncAttrs, EncPacket, Parse, ParseInto, FindOffset, MacAttr, Frame.With, Held;
    FrameParses(f, m);
    MacPosition(f, m);
    MacAttrValue(m);
    var i := |f.before|;
    assert Listed(f, m)[i] == MacAttr(m) && LastOfType(Listed(f, m), i);
    ParsesLast(map[], Listed(f, m), i);
    ListedBytes(f, m);
    FindsFirst(f.before, MacAttr(m), EncAttrs(f.after));
    assert ([0, 0] + m)[2..] == m;
  }

  /** A value held under a type is a piece of the data right behind an attribute header of that type. */
  predicate Piece(d: Bytes, t: Byte, v: Bytes, i: nat, j: nat) {
    2 <= i <= j <= |d| && d[i - 2] == t && v == d[i..j]
  }

  /** One attribute of a parse that succeeds. */
  lemma ParseOn(acc: map<Byte, Bytes>, d: Bytes, from: nat)
    requires from + 2 <= |d| && ParseInto(acc, d[from..]).Ok?
    ensures var n := d[from + 1] as int * 4;
      && 2 <= n && from + n <= |d|
      && ParseInto(acc, d[from..]) == ParseInto(acc[d[from] := d[from + 2..from + n]], d[from + n..])
  {
    var rest, n := d[from..], d[from + 1] as int * 4;
    assert rest[2..n] == d[from + 2..from + n] && rest[n..] == d[from + n..];
  }

  lemma ParseEnds(acc: map<Byte, Bytes>, d: Bytes)
    requires |d| < 2
    ensures ParseInto(acc, d) == Ok(acc)
  {
  }

  /** Parsing on from `from` keeps such a piece, or replaces it by a later one. */
  lemma {:induction false} PieceOrLater(acc: map<Byte, Bytes>, d: Bytes, from: nat, t: Byte, a: nat, b: nat)
    returns (i: nat, j: nat)
    requires from <= |d| && ParseInto(acc, d[from..]).Ok? && t in acc && Piece(d, t, acc[t], a, b)
    ensures t in ParseInto(acc, d[from..]).value && Piece(d, t, ParseInto(acc, d[from..]).value[t], i, j)
    decreases |d| - from
  {
    hide ParseInto;
    if |d| < from + 2 {
      ParseEnds(acc, d[from..]);
      i, j := a, b;
    } else {
      ParseOn(acc, d, from);
      var n := d[from + 1] as int * 4;
      var acc1 := acc[d[from] := d[from + 2..from + n]];
      if d[from] == t {
        i, j := PieceOrLater(acc1, d, from + n, t, from + 2, from + n);
      } else {
        i, j := PieceOrLater(acc1, d, from + n, t, a, b);
      }
    }
  }

  /** What is parsed under a type is such a piece. */
  lemma {:induction false} ParsedFrom(acc: map<Byte, Bytes>, d: Bytes, from: nat, t: Byte) returns (i: nat, j: nat)
    requires from <= |d| && ParseInto(acc, d[from..]).Ok? && t in ParseInto(acc, d[from..]).value && t !in acc
    ensures Piece(d, t, ParseInto(acc, d[from..]).value[t], i, j)
    decreases |d| - from
  {
    hide ParseInto;
    if |d| < from + 2 {
      ParseEnds(acc, d[from..]);
      assert false;
    } else {
      ParseOn(acc, d, from);
      var n := d[from + 1] as int * 4;
      var acc1 := acc[d[from] := d[from + 2..from + n]];
      if d[from] == t {
        i, j := PieceOrLater(acc1, d, from + n, t, from + 2, from + n);
      } else {
        i, j := ParsedFrom(acc1, d, from + n, t);
      }
    }
  }

  /**
   Whatever is accepted: some sixteen of its bytes, which end an attribute of type 11, are the MAC of the packet with
   the sixteen bytes behind the header of its first such attribute zeroed.
   */
  lemma AcceptedHasMac(mac: MacFn, kAut: Bytes, raw: Bytes) returns (first: nat, i: nat, j: nat)
    requires forall k: Bytes, d: Bytes :: |mac(k, d)| >= 16
    requires Accepts(mac, kAut, raw)
    ensures Parse(raw).Ok? && var data := Parse(raw).value.data;
      && first < |data| && data[first] == 11 && 28 + first <= |raw|
      && 2 <= i && i + 16 <= j <= |data| && data[i - 2] == 11
      && mac(kAut, raw[..12 + first] + Zeros(16) + raw[28 + first..])[..16] == data[j - 16..j]
  {
    hide Parse, ParseInto, FindOffset;
    var data := Parse(raw).value.data;
    first := FindOffset(data, AT_MAC).value;
    assert data[0..] == data;
    i, j := ParsedFrom(map[], data, 0, AT_MAC);
    var held := ParseInto(map[], data).value[AT_MAC];
    assert held[|held| - 16..] == data[j - 16..j];
  }

  lemma ResponseFrameFits(id: Byte, mode: Mode, attrs: map<Byte, Bytes>, order: seq<Byte>, res: Bytes, local: Bytes)
    requires (forall t :: t in order ==> t in attrs) && Usable(attrs, res, local)
    requires 28 + |EncAttrs(ResponseAttrs(mode, attrs, order, res, local))| < U16_SIZE
    ensures ResponseFrame(id, ResponseAttrs(mode, attrs, order, res, local)).WellFormed()
  {
    hide ResponseAttrs;
    ResponseAttrsFit(mode, attrs, order, res, local);
  }

  /**
   AT_MAC round trip: in every challenge mode, for every parsed Challenge and any deterministic MAC function,
   the signed response verifies under the same key.
   */
  lemma ResponseVerifies(mac: MacFn, kAut: Bytes, id: Byte, mode: Mode, attrs: map<Byte, Bytes>, order: seq<Byte>,
                         res: Bytes, local: Bytes)
    requires forall k: Bytes, d: Bytes :: |mac(k, d)| >= 16
    requires (forall t :: t in order ==> t in attrs) && Usable(attrs, res, local)
    requires 28 + |EncAttrs(ResponseAttrs(mode, attrs, order, res, local))| < U16_SIZE
    ensures Accepts(mac, kAut, SignedResponse(mac, kAut, id, ResponseAttrs(mode, attrs, order, res, local)))
  {
    hide Accepts, EncAttrs, Frame.With, Frame.WellFormed, ResponseAttrs;
    var f := ResponseFrame(id, ResponseAttrs(mode, attrs, order, res, local));
    ResponseFrameFits(id, mode, attrs, order, res, local);
    AcceptsExactly(mac, kAut, f, mac(kAut, f.With(Zeros(16)))[..16]);
  }

  // ---------- what the peer reads from the response ----------

  /** A loop over the attribute map visits every key once. */
  ghost predicate Visits(order: seq<Byte>, attrs: map<Byte, Bytes>) {
    && (forall t :: t in order <==> t in attrs)
    && (forall i, j :: 0 <= i < j < |order| ==> order[i] != order[j])
  }

  /** Parsed values end at a word boundary, so they need no padding. */
  predicate Aligned(attrs: map<Byte, Bytes>) {
    forall t :: t in attrs ==> (2 + |attrs[t]|) % 4 == 0
  }

  /** What parsing a list between two attributes of other types yields. */
  lemma ReadsBetween(first: Attr, x: seq<Attr>, last: Attr, t: Byte, i: nat)
    requires first.Fits() && last.Fits() && AllFit(x) && first.typ != last.typ
    requires NoneOfType(x, first.typ) && NoneOfType(x, last.typ)
    ensures var r := ParseInto(map[], EncAttrs([first] + x + [last]));
      && r.Ok? && first.typ in r.value && r.value[first.typ] == Held(first)
      && last.typ in r.value && r.value[last.typ] == Held(last)
      && (t != first.typ && t != last.typ && NoneOfType(x, t) ==> t !in r.value)
      && (LastOfType(x, i) ==> x[i].typ in r.value && r.value[x[i].typ] == Held(x[i]))
  {
    hide ParseInto, EncAttrs, Held;
    var l := [first] + x + [last];
    assert LastOfType(l, 0) && l[0] == first;
    ParsesLast(map[], l, 0);
    assert LastOfType(l, |x| + 1) && l[|x| + 1] == last;
    ParsesLast(map[], l, |x| + 1);
    if LastOfType(x, i) {
      assert l[i + 1] == x[i] && LastOfType(l, i + 1) by {
        forall j | i + 1 < j < |l| ensures l[j].typ != x[i].typ {
          assert j == |x| + 1 || l[j] == x[j - 1];
        }
      }
      ParsesLast(map[], l, i + 1);
    }
    if t != first.typ && t != last.typ && NoneOfType(x, t) {
      assert NoneOfType(l, t);
      ParsesNone(map[], l, t);
    }
  }

  lemma AlignedHeld(a: Attr)
    requires (2 + |a.value|) % 4 == 0
    ensures Held(a) == a.value
  {
    assert a.value + Zeros(0) == a.value;
  }

  /** The RES a response carries: its length in bits, and the bytes. */
  predicate ReadsRes(r: map<Byte, Bytes>, res: Bytes) {
    3 in r && |r[3]| >= 2 + |res| && GetBE(r[3][..2]) == 8 * |res| && r[3][2..2 + |res|] == res
  }

  lemma ResHeld(r: map<Byte, Bytes>, res: Bytes)
    requires |res| <= 1016 && 3 in r && r[3] == Held(Attr(AT_RES, PutU16(|res| * 8) + res))
    ensures ReadsRes(r, res)
  {
    hide PutU16, GetBE;
    U16Wire(|res| * 8);
    assert r[3][..2] == PutU16(|res| * 8);
  }

  /** What stands between AT_RES and AT_MAC, by mode. */
  ghost predicate ReadsExtras(r: map<Byte, Bytes>, mode: Mode, attrs: map<Byte, Bytes>, local: Bytes) {
    var echo := 0x86 in attrs && |attrs[0x86]| >= 2;
    match mode
    case Omit => r.Keys == {3, 11}
    case Minimal => if echo then r.Keys == {3, 11, 0x86} && r[0x86] == attrs[0x86] else r.Keys == {3, 11}
    case Checkcode =>
      if echo then r.Keys == {3, 11, 0x86} && r[0x86] == attrs[0x86]
      else if local != [] then
        r.Keys == {3, 11, 0x86} && |r[0x86]| >= 2 + |local| && r[0x86][..2 + |local|] == [0, 0] + local
      else r.Keys == {3, 11}
    case Standard =>
      && (forall t :: t in r <==> t == 3 || t == 11 || (t in attrs && t != 1 && t != 2))
      && (forall t :: t in attrs && t !in {1, 2, 3, 11, 135} ==> r[t] == attrs[t])
      && (135 in attrs ==> r[135] == [0, 0])
  }

  lemma LocalHeld(local: Bytes)
    ensures var v := Held(Attr(AT_CHECKCODE_EXT, [0, 0] + local));
      |v| >= 2 + |local| && v[..2 + |local|] == [0, 0] + local
  {
  }

  lemma ReadsFew(mode: Mode, attrs: map<Byte, Bytes>, order: seq<Byte>, local: Bytes, first: Attr, last: Attr)
    requires !mode.Standard? && (forall t :: t in order ==> t in attrs) && Aligned(attrs)
    requires first.Fits() && last.Fits() && first.typ == 3 && last.typ == 11
    requires AllFit(Extras(mode, attrs, order, local))
    ensures var r := ParseInto(map[], EncAttrs([first] + Extras(mode, attrs, order, local) + [last]));
      && r.Ok? && ReadsExtras(r.value, mode, attrs, local)
      && 3 in r.value && r.value[3] == Held(first) && 11 in r.value && r.value[11] == Held(last)
  {
    hide ParseInto, EncAttrs, Held;
    var x := Extras(mode, attrs, order, local);
    var r := ParseInto(map[], EncAttrs([first] + x + [last]));
    forall t: Byte ensures t !in {3, 11} && NoneOfType(x, t) ==> r.Ok? && t !in r.value {
      ReadsBetween(first, x, last, t, 0);
    }
    ReadsBetween(first, x, last, 0, 0);
    if x != [] {
      assert |x| == 1 && LastOfType(x, 0) && x[0].typ == 0x86;
      if 0x86 in attrs && |attrs[0x86]| >= 2 {
        AlignedHeld(x[0]);
      } else {
        LocalHeld(local);
      }
    }
  }

  lemma {:induction false} EchoedTypes(attrs: map<Byte, Bytes>, order: seq<Byte>, t: Byte)
    requires forall x :: x in order ==> x in attrs
    requires t !in order || t in {1, 2, 3, 11, 135}
    ensures NoneOfType(Echoed(attrs, order), t)
  {
    if order == [] {
    } else {
      EchoedTypes(attrs, order[1..], t);
    }
  }

  lemma {:induction false} EchoedAt(attrs: map<Byte, Bytes>, order: seq<Byte>, t: Byte) returns (i: nat)
    requires (forall x :: x in order ==> x in attrs) && t in order && t !in {1, 2, 3, 11, 135}
    requires forall i, j :: 0 <= i < j < |order| ==> order[i] != order[j]
    ensures LastOfType(Echoed(attrs, order), i) && Echoed(attrs, order)[i] == Attr(t, attrs[t])
  {
    if order[0] == t {
      i := 0;
      EchoedTypes(attrs, order[1..], t);
    } else {
      var k := EchoedAt(attrs, order[1..], t);
      i := if order[0] in {1, 2, 3, 11, 135} then k else k + 1;
    }
  }

  /** The standard mode's list without AT_RES and AT_MAC: the echoed attributes, and AT_RESULT_IND. */
  lemma StandardAt(attrs: map<Byte, Bytes>, order: seq<Byte>, local: Bytes, t: Byte) returns (i: nat)
    requires Visits(order, attrs) && Aligned(attrs)
    ensures var x := Extras(Standard, attrs, order, local);
      if t in attrs && t !in {1, 2, 3, 11} then
        LastOfType(x, i) && x[i].typ == t && Held(x[i]) == if t == 135 then [0, 0] else attrs[t]
      else NoneOfType(x, t)
  {
    hide Held, Echoed;
    var e, x := Echoed(attrs, order), Extras(Standard, attrs, order, local);
    i := |e|;
    if t in attrs && t !in {1, 2, 3, 11, 135} {
      i := EchoedAt(attrs, order, t);
      assert x[i] == e[i] && LastOfType(x, i);
      AlignedHeld(x[i]);
    } else {
      EchoedTypes(attrs, order, t);
      if t == 135 && t in attrs {
        assert x[i] == Attr(135, [0, 0]) && LastOfType(x, i);
        AlignedHeld(x[i]);
      }
    }
  }

  lemma ReadsMany(attrs: map<Byte, Bytes>, order: seq<Byte>, local: Bytes, first: Attr, last: Attr)
    requires Visits(order, attrs) && Aligned(attrs)
    requires first.Fits() && last.Fits() && first.typ == 3 && last.typ == 11
    requires AllFit(Extras(Standard, attrs, order, local))
    ensures var r := ParseInto(map[], EncAttrs([first] + Extras(Standard, attrs, order, local) + [last]));
      && r.Ok? && ReadsExtras(r.value, Standard, attrs, local)
      && 3 in r.value && r.value[3] == Held(first) && 11 in r.value && r.value[11] == Held(last)
  {
    hide ParseInto, EncAttrs, Held, Extras;
    var x := Extras(Standard, attrs, order, local);
    var r := ParseInto(map[], EncAttrs([first] + x + [last]));
    var _ := StandardAt(attrs, order, local, 3);
    var _ := StandardAt(attrs, order, local, 11);
    ReadsBetween(first, x, last, 0, 0);
    forall t: Byte
      ensures t in r.value <==> t == 3 || t == 11 || (t in attrs && t != 1 && t != 2)
      ensures t in attrs && t !in {1, 2, 3, 11} ==> t in r.value && r.value[t] == if t == 135 then [0, 0] else attrs[t]
    {
      var i := StandardAt(attrs, order, local, t);
      ReadsBetween(first, x, last, t, i);
    }
  }

  /**
   What the peer reads from the signed response: an EAP-Response/AKA-Challenge under the request's identifier, with RES
   and its length in bits, what the mode adds and nothing else, and the MAC behind two reserved bytes. The standard
   mode echoes every attribute of the Challenge but RAND, AUTN, RES and MAC, in whatever order the map is visited.
   */
  lemma ResponseRead(mac: MacFn, kAut: Bytes, id: Byte, mode: Mode, attrs: map<Byte, Bytes>, order: seq<Byte>,
                     res: Bytes, local: Bytes)
    requires forall k: Bytes, d: Bytes :: |mac(k, d)| >= 16
    requires Visits(order, attrs) && Aligned(attrs) && Usable(attrs, res, local)
    requires 28 + |EncAttrs(ResponseAttrs(mode, attrs, order, res, local))| < U16_SIZE
    ensures var raw := SignedResponse(mac, kAut, id, ResponseAttrs(mode, attrs, order, res, local));
      && Parse(raw).Ok? && var p := Parse(raw).value;
      && p == Packet(2, id, 23, 1, p.data) && ParseInto(map[], p.data).Ok?
      && var r := ParseInto(map[], p.data).value;
      && ReadsRes(r, res) && ReadsExtras(r, mode, attrs, local)
      && 11 in r && |r[11]| == 18 && r[11][..2] == [0, 0]
  {
    hide ParseInto, EncAttrs, Held, Extras, Parse, Frame.With, Frame.WellFormed, PutU16, MacAttr, ReadsRes, ReadsExtras;
    var before := ResponseAttrs(mode, attrs, order, res, local);
    var f, x := ResponseFrame(id, before), Extras(mode, attrs, order, local);
    var m := mac(kAut, f.With(Zeros(16)))[..16];
    ResponseFrameFits(id, mode, attrs, order, res, local);
    FrameParses(f, m);
    MacAttrValue(m);
    ResponseAttrsFit(mode, attrs, order, res, local);
    assert x == before[1..];
    assert Listed(f, m) == [before[0]] + x + [MacAttr(m)];
    if mode.Standard? {
      ReadsMany(attrs, order, local, before[0], MacAttr(m));
    } else {
      ReadsFew(mode, attrs, order, local, before[0], MacAttr(m));
    }
    ResHeld(ParseInto(map[], EncAttrs(Listed(f, m))).value, res);
  }

  // ---------- the loops of the source ----------

  method ParseAttributes(data: Bytes) returns (r: Result<map<Byte, Bytes>>)
    ensures r == ParseInto(map[], data)
  {
    var attrs: map<Byte, Bytes> := map[];
    var offset := 0;
    assert data[0..] == data;
    while offset < |data|
      invariant offset <= |data|
      invariant ParseInto(attrs, data[offset..]) == ParseInto(map[], data)
    {
      if offset + 2 > |data| { break; }
      var n := data[offset + 1] as int * 4;
      if n == 0 || offset + n > |data| { return Err; }
      assert data[offset..][2..n] == data[offset + 2..offset + n] && data[offset..][n..] == data[offset + n..];
      attrs := attrs[data[offset] := data[offset + 2..offset + n]];
      offset := offset + n;
    }
    return Ok(attrs);
  }

  function Shift(o: Option<nat>, n: nat): Option<nat> {
    match o
    case None => None
    case Some(k) => Some(n + k)
  }

  lemma FindLoop(data: Bytes, typ: Byte, offset: nat)
    requires offset + 2 <= |data|
    ensures var n := data[offset + 1] as int * 4;
      var r := Shift(FindOffset(data[offset..], typ), offset);
      if n == 0 || offset + n > |data| then r == None
      else if data[offset] == typ then r == Some(offset)
      else r == Shift(FindOffset(data[offset + n..], typ), offset + n)
  {
    var d, n := data[offset..], data[offset + 1] as int * 4;
    assert d[1] == data[offset + 1] && d[0] == data[offset];
    if n != 0 && offset + n <= |data| {
      assert d[n..] == data[offset + n..];
    }
  }

  method FindAttrOffset(data: Bytes, typ: Byte) returns (r: Option<nat>)
    ensures r == FindOffset(data, typ)
  {
    var offset := 0;
    ghost var whole := FindOffset(data, typ);
    assert data[0..] == data;
    while offset + 2 <= |data|
      invariant offset <= |data| && Shift(FindOffset(data[offset..], typ), offset) == whole
      decreases |data| - offset
    {
      hide FindOffset;
      FindLoop(data, typ, offset);
      var n := data[offset + 1] as int * 4;
      if n == 0 || offset + n > |data| { return None; }
      if data[offset] == typ { return Some(offset); }
      offset := offset + n;
    }
    return None;
  }

  /** The echo loop of the standard mode, visiting the attribute map in the given order. */
  method EchoAttrs(attrs: map<Byte, Bytes>, order: seq<Byte>) returns (b: Bytes)
    requires forall t :: t in order ==> t in attrs
    ensures b == EncAttrs(Echoed(attrs, order))
  {
    hide EncAttr;
    b := [];
    for i := 0 to |order|
      invariant b + EncAttrs(Echoed(attrs, order[i..])) == EncAttrs(Echoed(attrs, order))
    {
      var t := order[i];
      assert order[i..][1..] == order[i + 1..];
      ghost var rest := Echoed(attrs, order[i + 1..]);
      if t !in {AT_RAND, AT_AUTN, AT_MAC, AT_RESULT_IND, AT_RES} {
        EncAttrsJoin([Attr(t, attrs[t])], rest);
        OneAttr(Attr(t, attrs[t]));
        b := b + EncAttr(Attr(t, attrs[t]));
      } else {
        assert Echoed(attrs, order[i..]) == rest;
      }
    }
  }

  lemma NoAttrs()
    ensures EncAttrs([]) == []
  {
  }

  /** `buildChallengeResponseAttrs` as it appends to its byte buffer. */
  method BuildResponseAttrs(mode: Mode, attrs: map<Byte, Bytes>, order: seq<Byte>, res: Bytes, local: Bytes)
    returns (b: Bytes)
    requires forall t :: t in order ==> t in attrs
    ensures b == EncAttrs(ResponseAttrs(mode, attrs, order, res, local))
  {
    hide EncAttr, PutU16, EncAttrs, Echoed;
    var atRes := Attr(AT_RES, PutU16(|res| * 8) + res);
    b := EncAttr(atRes);
    OneAttr(atRes);
    EncAttrsJoin([atRes], Extras(mode, attrs, order, local));
    NoAttrs();
    match mode
    case Minimal =>
      if AT_CHECKCODE_EXT in attrs && |attrs[AT_CHECKCODE_EXT]| >= 2 {
        OneAttr(Attr(AT_CHECKCODE_EXT, attrs[AT_CHECKCODE_EXT]));
        b := b + EncAttr(Attr(AT_CHECKCODE_EXT, attrs[AT_CHECKCODE_EXT]));
      }
    case Checkcode =>
      if AT_CHECKCODE_EXT in attrs && |attrs[AT_CHECKCODE_EXT]| >= 2 {
        OneAttr(Attr(AT_CHECKCODE_EXT, attrs[AT_CHECKCODE_EXT]));
        b := b + EncAttr(Attr(AT_CHECKCODE_EXT, attrs[AT_CHECKCODE_EXT]));
      } else if |local| > 0 {
        OneAttr(Attr(AT_CHECKCODE_EXT, [0, 0] + local));
        b := b + EncAttr(Attr(AT_CHECKCODE_EXT, [0, 0] + local));
      }
    case Omit =>
    case Standard =>
      var echoed := EchoAttrs(attrs, order);
      b := b + echoed;
      if AT_RESULT_IND in attrs {
        EncAttrsJoin(Echoed(attrs, order), [Attr(AT_RESULT_IND, [0, 0])]);
        OneAttr(Attr(AT_RESULT_IND, [0, 0]));
        b := b + EncAttr(Attr(AT_RESULT_IND, [0, 0]));
      } else {
        assert Extras(mode, attrs, order, local) == Echoed(attrs, order);
      }
  }

  /** Go's `copy` into a buffer at a position. */
  method CopyInto(dst: array<Byte>, pos: nat, src: Bytes)
    requires pos + |src| <= dst.Length
    modifies dst
    ensures dst[..] == Patch(old(dst[..]), pos, src)
  {
    for i := 0 to |src|
      invariant forall k :: 0 <= k < dst.Length ==> dst[k] == if pos <= k < pos + i then src[k - pos] else old(dst[k])
    {
      dst[pos + i] := src[i];
    }
  }

  lemma ZeroMacAttr()
    ensures Attr(AT_MAC, Zeros(18)) == MacAttr(Zeros(16))
  {
    assert Zeros(18) == [0, 0] + Zeros(16);
  }

  /** The tail of the Challenge handler: encode with a zeroed AT_MAC, compute, and patch the packet buffer in place. */
  method BuildSignedResponse(mac: MacFn, kAut: Bytes, id: Byte, mode: Mode, attrs: map<Byte, Bytes>, order: seq<Byte>,
                             res: Bytes, local: Bytes) returns (eapBytes: array<Byte>)
    requires forall k: Bytes, d: Bytes :: |mac(k, d)| >= 16
    requires forall t :: t in order ==> t in attrs
    ensures eapBytes[..] == SignedResponse(mac, kAut, id, ResponseAttrs(mode, attrs, order, res, local))
  {
    hide EncAttrs, ResponseAttrs, EncPacket, Patch;
    ghost var before := ResponseAttrs(mode, attrs, order, res, local);
    var respAttrs := BuildResponseAttrs(mode, attrs, order, res, local);
    var macOffset := |respAttrs|;
    ZeroMacAttr();
    var encoded := EncPacket(Packet(RESPONSE, id, AKA, CHALLENGE, respAttrs + EncAttr(Attr(AT_MAC, Zeros(18)))));
    ghost var f := ResponseFrame(id, before);
    NoAttrs();
    assert encoded == f.With(Zeros(16)) by {
      assert EncAttrs(before) + EncAttr(MacAttr(Zeros(16))) + [] == EncAttrs(before) + EncAttr(MacAttr(Zeros(16)));
    }
    MacPosition(f, Zeros(16));
    eapBytes := new Byte[|encoded|](i requires 0 <= i < |encoded| => encoded[i]);
    assert eapBytes[..] == encoded;
    var fullMac := mac(kAut, eapBytes[..]);
    var macPos := 8 + macOffset + 4;
    CopyInto(eapBytes, macPos, fullMac[..16]);
  }
}
