/**
 Building and opening single SKF packets, the in-place cutting loop of the sender, the dispatch of the
 receiver, and the two ends together.
 */
module FragmentPackets {
  import opened Bytes
  import opened IkePayload
  import opened IkePacket
  import opened Envelope
  import opened FragmentBuffer
  import opened Fragmentation

  // ---------- one packet ----------

  function SkfLength(su: Suite, text: Bytes, iv: Bytes): nat {
    8 + |iv| + CipherLen(su, text) + su.Icv()
  }

  /** `buildSKFPacket` after the text has been padded. */
  function BuildSkf(s: Sender, text: Bytes, num: nat, total: nat, exchange: Byte, msgId: nat, first: Byte, iv: Bytes)
    : Result<Bytes>
  {
    var len := SkfLength(s.su, text, iv) % U16_SIZE;
    var aad := EncHeader(SealHeader(s, SKF, exchange, false, msgId, HEADER_LEN + len));
    match s.su.enc(text, s.keys.ei, iv, aad)
    case Err => Err
    case Ok(c) =>
      var next := if num == 1 then first else NO_NEXT;
      Ok(WithMac(s.su, s.keys.ai, aad + [next, 0] + PutU16(len) + PutU16(num) + PutU16(total) + iv + c))
  }

  /** Building a fragment succeeds exactly when the cipher accepts its text under the header as associated data. */
  lemma BuildsExactly(s: Sender, text: Bytes, num: nat, total: nat, exchange: Byte, msgId: nat, first: Byte, iv: Bytes)
    ensures var len := SkfLength(s.su, text, iv) % 65536;
      var aad := EncHeader(SealHeader(s, SKF, exchange, false, msgId, 28 + len));
      BuildSkf(s, text, num, total, exchange, msgId, first, iv).Ok? <==> s.su.enc(text, s.keys.ei, iv, aad).Ok?
  {
  }

  datatype Fragment = Fragment(msgId: nat, num: nat, total: nat, plain: Bytes)

  /** `decryptSKF`: the ciphertext runs to the end of the datagram, whatever the length field says. */
  function OpenSkf(su: Suite, keys: Keys, data: Bytes): (r: Result<Fragment>)
    requires |data| >= HEADER_LEN
    ensures r.Ok? ==> |data| >= 36
  {
    var start := 36 + su.ivSize;
    if |data| < 36 || |data| < start then Err
    else match CheckMac(su, keys.ar, data, start, |data|)
      case Err => Err
      case Ok(c) =>
        match su.dec(c, keys.er, data[36..start], data[..HEADER_LEN])
        case Err => Err
        case Ok(padded) =>
          match Unpad(su, padded)
          case Err => Err
          case Ok(plain) =>
            Ok(Fragment(GetBE(data[20..24]), GetU16(data[32..34]), GetU16(data[34..36]), plain))
  }

  lemma SkfLayout(aad: Bytes, next: Byte, len: nat, num: nat, total: nat, iv: Bytes, c: Bytes, icv: Bytes)
    requires |aad| == HEADER_LEN && num < U16_SIZE && total < U16_SIZE
    ensures var body := aad + [next, 0] + PutU16(len) + PutU16(num) + PutU16(total) + iv + c;
      var d := body + icv;
      && |d| == 36 + |iv| + |c| + |icv|
      && d[28] == next && d[..28] == aad && GetU16(d[30..32]) == len % U16_SIZE
      && GetU16(d[32..34]) == num && GetU16(d[34..36]) == total
      && d[36..36 + |iv|] == iv && d[36 + |iv|..36 + |iv| + |c|] == c
      && d[..36 + |iv| + |c|] == body && d[36 + |iv| + |c|..|d|] == icv
  {
    hide PutU16, GetU16;
    var body := aad + [next, 0] + PutU16(len) + PutU16(num) + PutU16(total) + iv + c;
    var d := body + icv;
    assert d[30..32] == PutU16(len) && d[32..34] == PutU16(num) && d[34..36] == PutU16(total);
    U16RoundTrip(len);
    U16RoundTrip(num);
    U16RoundTrip(total);
  }

  lemma OpensSkf(su: Suite, keys: Keys, aad: Bytes, next: Byte, len: nat, num: nat, total: nat,
                 iv: Bytes, c: Bytes, plain: Bytes)
    requires su.Laws() && |iv| == su.ivSize && |aad| == HEADER_LEN && num < U16_SIZE && total < U16_SIZE
    requires su.dec(c, keys.er, iv, aad) == Ok(Pad(su, plain))
    ensures var body := aad + [next, 0] + PutU16(len) + PutU16(num) + PutU16(total) + iv + c;
      var d := WithMac(su, keys.ar, body);
      && OpenSkf(su, keys, d) == Ok(Fragment(GetBE(aad[20..24]), num, total, plain))
      && |d| == 36 + |iv| + |c| + su.Icv() && d[28] == next && d[..28] == aad && GetU16(d[30..32]) == len % U16_SIZE
  {
    hide PutU16, GetU16, GetBE, Pad, Unpad;
    var body := aad + [next, 0] + PutU16(len) + PutU16(num) + PutU16(total) + iv + c;
    var icv := if su.Macs() then su.mac(keys.ar, body) else [];
    SkfLayout(aad, next, len, num, total, iv, c, icv);
    assert WithMac(su, keys.ar, body) == body + icv;
    assert (body + icv)[20..24] == aad[20..24];
    PadRoundTrip(su, plain);
  }

  lemma MsgIdBytes(d: Bytes)
    requires DecHeader(d).Ok?
    ensures DecHeader(d).value.msgId == GetBE(d[20..24])
  {
    hide GetBE;
  }

  /**
   One fragment: the peer with mirrored keys recovers its text, numbers and message ID; both length fields
   match the packet, and the packet names the first payload type only in fragment 1.
   */
  lemma SkfRoundTrip(s: Sender, chunk: Bytes, num: nat, total: nat, exchange: Byte, msgId: nat, first: Byte, iv: Bytes)
    requires s.su.Laws() && SenderWellFormed(s, msgId) && |iv| == s.su.ivSize
    requires num < U16_SIZE && total < U16_SIZE
    requires SkfLength(s.su, Pad(s.su, chunk), iv) < U16_SIZE
    requires BuildSkf(s, Pad(s.su, chunk), num, total, exchange, msgId, first, iv).Ok?
    ensures var d := BuildSkf(s, Pad(s.su, chunk), num, total, exchange, msgId, first, iv).value;
      && DecHeader(d).Ok? && DecHeader(d).value.next == SKF && DecHeader(d).value.msgId == msgId
      && DecHeader(d).value.length == |d| == HEADER_LEN + GetU16(d[30..32])
      && d[28] == (if num == 1 then first else NO_NEXT)
      && OpenSkf(s.su, s.keys.Mirrored(), d) == Ok(Fragment(msgId, num, total, chunk))
  {
    hide PutU16, GetU16, GetBE, Pad, Unpad, OpenSkf, EncHeader, DecHeader, WithMac;
    var text := Pad(s.su, chunk);
    var len := SkfLength(s.su, text, iv);
    var hdr := SealHeader(s, SKF, exchange, false, msgId, HEADER_LEN + len);
    var aad := EncHeader(hdr);
    var c := s.su.enc(text, s.keys.ei, iv, aad).value;
    var next := if num == 1 then first else NO_NEXT;
    OpensSkf(s.su, s.keys.Mirrored(), aad, next, len, num, total, iv, c, chunk);
    var d := BuildSkf(s, text, num, total, exchange, msgId, first, iv).value;
    assert d == aad + d[HEADER_LEN..];
    HeaderRoundTrip(hdr, d[HEADER_LEN..]);
    HeaderRoundTrip(hdr, []);
    assert aad + [] == aad;
    MsgIdBytes(aad);
  }

  /** No datagram is opened as a fragment under CBC and HMAC unless its last bytes are the MAC of all before them. */
  lemma OpenSkfChecksMac(su: Suite, keys: Keys, d: Bytes)
    requires !su.aead && su.integ && |d| >= HEADER_LEN && OpenSkf(su, keys, d).Ok?
    ensures 36 + su.ivSize + su.icvSize <= |d|
    ensures var end := |d| - su.icvSize; d[end..] == su.mac(keys.ar, d[..end])
  {
    hide GetU16, GetBE, CheckMac, Unpad;
    CheckedMac(su, keys.ar, d, 36 + su.ivSize, |d|);
  }

  lemma SkfOpensIfChecked(su: Suite, keys: Keys, d: Bytes, d': Bytes)
    requires su.Macs() && su.icvSize <= |d| == |d'| && d[..|d| - su.icvSize] == d'[..|d| - su.icvSize]
    requires 36 + su.ivSize + su.icvSize <= |d|
    requires d[|d| - su.icvSize..] == su.mac(keys.ar, d[..|d| - su.icvSize])
    ensures OpenSkf(su, keys, d')
         == if d'[|d| - su.icvSize..] == d[|d| - su.icvSize..] then OpenSkf(su, keys, d) else Err
  {
    hide GetU16, GetBE, Unpad;
    var end := |d| - su.icvSize;
    assert d[end..|d|] == d[end..] && d'[end..|d|] == d'[end..];
    if d'[end..] == d[end..] {
      assert d == d[..end] + d[end..] && d' == d'[..end] + d'[end..];
    }
  }

  /**
   A fragment on the wire: header, payload header with number and total, IV, ciphertext bound to the header, and with
   a separate MAC the ICV over everything before it.
   */
  lemma SkfWire(s: Sender, text: Bytes, num: nat, total: nat, exchange: Byte, msgId: nat, first: Byte, iv: Bytes)
    requires s.su.Laws() && SenderWellFormed(s, msgId) && num < U16_SIZE && total < U16_SIZE
    requires SkfLength(s.su, text, iv) < U16_SIZE
    requires BuildSkf(s, text, num, total, exchange, msgId, first, iv).Ok?
    ensures var d, n := BuildSkf(s, text, num, total, exchange, msgId, first, iv).value, 36 + |iv|;
      && var end := |d| - (if !s.su.aead && s.su.integ then s.su.icvSize else 0);
      && n <= end
      && GetBE(d[..8]) == s.spiI && GetBE(d[8..16]) == s.spiR
      && d[16] == 53 && d[17] == 0x20 && d[18] == exchange && d[19] == 0x08
      && GetBE(d[20..24]) == msgId && GetBE(d[24..28]) == |d|
      && d[28] == (if num == 1 then first else 0) && GetBE(d[30..32]) == |d| - 28
      && GetBE(d[32..34]) == num && GetBE(d[34..36]) == total && d[36..n] == iv
      && s.su.enc(text, s.keys.ei, iv, d[..28]) == Ok(d[n..end])
      && (!s.su.aead && s.su.integ ==> d[end..] == s.su.mac(s.keys.ai, d[..end]))
  {
    hide EncHeader, PutU16, GetU16, GetBE;
    var len := SkfLength(s.su, text, iv);
    var hdr := SealHeader(s, SKF, exchange, false, msgId, HEADER_LEN + len);
    var aad, next := EncHeader(hdr), if num == 1 then first else NO_NEXT;
    var c := s.su.enc(text, s.keys.ei, iv, aad).value;
    var d := BuildSkf(s, text, num, total, exchange, msgId, first, iv).value;
    var body := aad + [next, 0] + PutU16(len) + PutU16(num) + PutU16(total) + iv + c;
    SkfLayout(aad, next, len, num, total, iv, c, d[|body|..]);
    assert d == body + d[|body|..];
    HeaderWire(hdr, d[HEADER_LEN..]);
    assert d == aad + d[HEADER_LEN..];
    U16IsBigEndian(0, d[30..32]);
    U16IsBigEndian(0, d[32..34]);
    U16IsBigEndian(0, d[34..36]);
  }

  /** A fragment whose ICV is replaced is opened if and only if the new bytes are the MAC of the rest. */
  lemma SkfAcceptsExactly(s: Sender, chunk: Bytes, num: nat, total: nat, exchange: Byte, msgId: nat, first: Byte,
                          iv: Bytes, icv: Bytes)
    requires s.su.Laws() && SenderWellFormed(s, msgId) && |iv| == s.su.ivSize
    requires num < U16_SIZE && total < U16_SIZE
    requires SkfLength(s.su, Pad(s.su, chunk), iv) < U16_SIZE
    requires BuildSkf(s, Pad(s.su, chunk), num, total, exchange, msgId, first, iv).Ok?
    requires !s.su.aead && s.su.integ && |icv| == s.su.icvSize
    ensures var d := BuildSkf(s, Pad(s.su, chunk), num, total, exchange, msgId, first, iv).value;
      && |d| >= HEADER_LEN + s.su.icvSize && var body := d[..|d| - s.su.icvSize];
      OpenSkf(s.su, s.keys.Mirrored(), body + icv)
      == if icv == s.su.mac(s.keys.ai, body) then Ok(Fragment(msgId, num, total, chunk)) else Err
  {
    hide BuildSkf, Pad, DecHeader, OpenSkf, GetBE, GetU16, SkfLength;
    SkfRoundTrip(s, chunk, num, total, exchange, msgId, first, iv);
    SkfWire(s, Pad(s.su, chunk), num, total, exchange, msgId, first, iv);
    var d := BuildSkf(s, Pad(s.su, chunk), num, total, exchange, msgId, first, iv).value;
    SkfOpensIfChecked(s.su, s.keys.Mirrored(), d, d[..|d| - s.su.icvSize] + icv);
  }

  lemma PadKeepsAead(su: Suite, p: Bytes)
    ensures su.aead ==> Pad(su, p) == p
  {
  }

  /** With IP and UDP headers in front, every built packet fits in the fragment MTU, AEAD or CBC. */
  lemma SkfFitsMtu(s: Sender, mtu: nat, chunk: Bytes, num: nat, total: nat, exchange: Byte, msgId: nat, first: Byte,
                   iv: Bytes)
    requires s.su.Laws() && Sized(s.su) && MTU_MIN <= mtu <= MTU_MAX && |iv| == s.su.ivSize
    requires |chunk| <= PerFragment(s.su, mtu)
    requires BuildSkf(s, Pad(s.su, chunk), num, total, exchange, msgId, first, iv).Ok?
    ensures |BuildSkf(s, Pad(s.su, chunk), num, total, exchange, msgId, first, iv).value| + 28 <= mtu
    ensures SkfLength(s.su, Pad(s.su, chunk), iv) < U16_SIZE
  {
    hide Pad, EncHeader;
    PadRoundTrip(s.su, chunk);
    PadKeepsAead(s.su, chunk);
  }

  /** A full fragment fills the MTU: exactly under AEAD, and up to less than a block under CBC. */
  lemma FullFragmentFills(s: Sender, mtu: nat, chunk: Bytes, num: nat, total: nat, exchange: Byte, msgId: nat,
                          first: Byte, iv: Bytes)
    requires s.su.Laws() && Sized(s.su) && MTU_MIN <= mtu <= MTU_MAX && |iv| == s.su.ivSize
    requires |chunk| == PerFragment(s.su, mtu)
    requires BuildSkf(s, Pad(s.su, chunk), num, total, exchange, msgId, first, iv).Ok?
    ensures var size := |BuildSkf(s, Pad(s.su, chunk), num, total, exchange, msgId, first, iv).value| + 28;
      if s.su.aead then size == mtu else mtu - s.su.blockSize < size <= mtu
  {
    hide EncHeader, PadLen;
    PadLenBound(|chunk|, s.su.blockSize);
    PadKeepsAead(s.su, chunk);
  }

  // ---------- the receiver ----------

  /** An opened fragment: nothing to report until the set is complete; then the payloads behind `first`. */
  function Collect(fb: Buffer, f: Fragment, first: Byte): (Buffer, Result<(nat, seq<Payload>)>) {
    var (fb1, added) := Add(fb, f.msgId, f.num, f.total, f.plain);
    match added
    case Err => (fb1, Err)
    case Ok(complete) =>
      if !complete then (fb1, Ok((f.msgId, [])))
      else
        var (fb2, data) := Reassemble(fb1, f.msgId);
        match data
        case Err => (fb2, Err)
        case Ok(inner) =>
          match LenientWalk(inner, first)
          case Err => (fb2, Err)
          case Ok(ps) => (fb2, Ok((f.msgId, ps)))
  }

  /** `decryptAndParse`: the new fragment buffer, and the message ID with its payloads. */
  function Receive(su: Suite, keys: Keys, fb: Buffer, data: Bytes): (Buffer, Result<(nat, seq<Payload>)>) {
    match DecHeader(data)
    case Err => (fb, Err)
    case Ok(h) =>
      if h.next == SKF then
        match OpenSkf(su, keys, data)
        case Err => (fb, Err)
        case Ok(f) => Collect(fb, f, data[HEADER_LEN])
      else if h.next == SK then
        match OpenSk(su, keys, data)
        case Err => (fb, Err)
        case Ok(ps) => (fb, Ok((h.msgId, ps)))
      else
        match DecPacket(data)
        case Err => (fb, Err)
        case Ok((_, ps)) => (fb, Ok((h.msgId, ps)))
  }

  /**
   Under CBC and HMAC an SK or SKF datagram yields something, or changes the fragment buffer, only if the bytes that
   its type makes the ICV are the MAC of everything before them.
   */
  lemma ReceiveChecksMac(su: Suite, keys: Keys, fb: Buffer, d: Bytes)
    requires !su.aead && su.integ && |d| >= HEADER_LEN && (d[16] == 46 || d[16] == 53)
    requires Receive(su, keys, fb, d).1.Ok? || Receive(su, keys, fb, d).0 != fb
    ensures |d| >= 32
    ensures var end := if d[16] == 53 then |d| else 28 + GetBE(d[30..32]);
      su.icvSize <= end <= |d| && d[end - su.icvSize..end] == su.mac(keys.ar, d[..end - su.icvSize])
  {
    hide OpenSk, OpenSkf, Collect, DecPacket, GetBE;
    if d[16] == 53 {
      OpenSkfChecksMac(su, keys, d);
      assert d[|d| - su.icvSize..|d|] == d[|d| - su.icvSize..];
    } else {
      OpenChecksMac(su, keys, d);
    }
  }

  /** A sealed message is received by the peer as its payloads under its message ID, and leaves the buffer alone. */
  lemma ReceivesSealed(s: Sender, ps: seq<Payload>, exchange: Byte, msgId: nat, response: bool, iv: Bytes, fb: Buffer)
    requires s.su.Laws() && AllWellFormed(ps) && SenderWellFormed(s, msgId) && |iv| == s.su.ivSize && Fits(s.su, iv, ps)
    requires Seal(s, ps, exchange, msgId, response, iv).Ok?
    ensures Receive(s.su, s.keys.Mirrored(), fb, Seal(s, ps, exchange, msgId, response, iv).value)
         == (fb, Ok((msgId, NormAll(ps))))
  {
    hide Seal, OpenSk, OpenSkf, Collect, DecPacket, DecHeader, NormAll, Fits;
    EnvelopeRoundTrip(s, ps, exchange, msgId, response, iv);
  }

  /** A message in the clear is received as its payloads under the message ID of its header. */
  lemma ReceivesPlain(su: Suite, keys: Keys, h: Header, ps: seq<Payload>, fb: Buffer)
    requires h.WellFormed() && AllWellFormed(ps) && FirstType(ps) != 46 && FirstType(ps) != 53
    ensures Receive(su, keys, fb, EncPacket(h, ps)) == (fb, Ok((h.msgId, NormAll(ps))))
  {
    hide OpenSk, OpenSkf, Collect, DecHeader, NormAll, EncPacket, StrictWalk;
    PacketRoundTrip(h, ps);
  }

  /** The buffer after a series of datagrams. */
  function ReceiveAll(su: Suite, keys: Keys, fb: Buffer, packets: seq<Bytes>): Buffer {
    if packets == [] then fb
    else Receive(su, keys, ReceiveAll(su, keys, fb, packets[..|packets| - 1]), packets[|packets| - 1]).0
  }

  // ---------- both ends ----------

  /** `packets` are the built fragments of the chain of `ps`, under one message ID. */
  ghost predicate FragmentsOf(s: Sender, ps: seq<Payload>, per: nat, exchange: Byte, msgId: nat,
                              ivs: seq<Bytes>, packets: seq<Bytes>)
    requires per > 0 && AllEncodable(ps)
  {
    var cut := Chunks(EncChain(ps), per);
    && |packets| == |ivs| == |cut| < U16_SIZE - 1
    && forall i :: 0 <= i < |cut| ==>
         && |ivs[i]| == s.su.ivSize && SkfLength(s.su, Pad(s.su, cut[i]), ivs[i]) < U16_SIZE
         && BuildSkf(s, Pad(s.su, cut[i]), i + 1, |cut|, exchange, msgId, FirstType(ps), ivs[i]) == Ok(packets[i])
  }

  function Deliveries(cut: seq<Bytes>, msgId: nat, order: seq<nat>): (ds: seq<Delivery>)
    requires forall k :: 0 <= k < |order| ==> order[k] < |cut|
    ensures |ds| == |order|
  {
    seq(|order|, k requires 0 <= k < |order| => Delivery(msgId, order[k] + 1, |cut|, cut[order[k]]))
  }

  function Pick(packets: seq<Bytes>, order: seq<nat>): (r: seq<Bytes>)
    requires forall k :: 0 <= k < |order| ==> order[k] < |packets|
    ensures |r| == |order|
  {
    seq(|order|, k requires 0 <= k < |order| => packets[order[k]])
  }

  /** Receiving built fragment `i` is collecting piece `i`. */
  lemma ReceiveIsCollect(s: Sender, ps: seq<Payload>, per: nat, exchange: Byte, msgId: nat,
                         ivs: seq<Bytes>, packets: seq<Bytes>, fb: Buffer, i: nat)
    requires s.su.Laws() && SenderWellFormed(s, msgId) && per > 0 && AllEncodable(ps)
    requires FragmentsOf(s, ps, per, exchange, msgId, ivs, packets) && i < |packets|
    ensures var cut := Chunks(EncChain(ps), per);
      Receive(s.su, s.keys.Mirrored(), fb, packets[i])
      == Collect(fb, Fragment(msgId, i + 1, |cut|, cut[i]), if i == 0 then FirstType(ps) else NO_NEXT)
  {
    hide Chunks, BuildSkf, OpenSkf, OpenSk, Collect, Pad, SkfLength, DecPacket, DecHeader;
    var cut := Chunks(EncChain(ps), per);
    SkfRoundTrip(s, cut[i], i + 1, |cut|, exchange, msgId, FirstType(ps), ivs[i]);
  }

  lemma DeliverNothing(fb: Buffer)
    ensures Deliver(fb, []) == fb
  {
  }

  lemma CollectIncomplete(fb: Buffer, f: Fragment, first: Byte)
    requires Add(fb, f.msgId, f.num, f.total, f.plain).1 == Ok(false)
    ensures Collect(fb, f, first) == (Add(fb, f.msgId, f.num, f.total, f.plain).0, Ok((f.msgId, [])))
  {
  }

  lemma DeliverLast(fb: Buffer, ds: seq<Delivery>)
    requires ds != []
    ensures var d, before := ds[|ds| - 1], Deliver(fb, ds[..|ds| - 1]);
      && Deliver(fb, ds) == Add(before, d.id, d.num, d.total, d.plain).0
      && LastAnswer(fb, ds) == Add(before, d.id, d.num, d.total, d.plain).1
  {
    hide Add;
  }

  /** A delivery that leaves a gap only extends the buffer. */
  lemma NotLastPiece(fb: Buffer, ds: seq<Delivery>, id: nat, pieces: seq<Bytes>, first: Byte)
    requires 0 < |pieces| < U16_SIZE - 1 && |Concat(pieces)| <= MAX_PACKET && id !in fb && FromPieces(ds, id, pieces)
    requires ds != [] && Numbers(ds) != Range(|pieces|)
    ensures var d := ds[|ds| - 1];
      Collect(Deliver(fb, ds[..|ds| - 1]), Fragment(id, d.num, |pieces|, d.plain), first)
      == (Deliver(fb, ds), Ok((id, [])))
  {
    hide Add, Collect, Concat, Deliver, Numbers, LastAnswer, Range;
    var d := ds[|ds| - 1];
    assert d.id == id && d.total == |pieces|;
    DeliverPieces(fb, ds, id, pieces);
    DeliverLast(fb, ds);
    CollectIncomplete(Deliver(fb, ds[..|ds| - 1]), Fragment(id, d.num, |pieces|, d.plain), first);
  }

  lemma MissingNumber(cut: seq<Bytes>, msgId: nat, order: seq<nat>, j: nat)
    requires (forall k :: 0 <= k < |order| ==> order[k] < |cut|) && j < |cut| && j !in order
    ensures Numbers(Deliveries(cut, msgId, order)) != Range(|cut|)
  {
    assert j + 1 in Range(|cut|);
    assert j + 1 !in Numbers(Deliveries(cut, msgId, order));
  }

  /** Receiving one more fragment while one is missing is delivering one more piece. */
  lemma CollectsOneMore(s: Sender, ps: seq<Payload>, per: nat, exchange: Byte, msgId: nat, ivs: seq<Bytes>,
                        packets: seq<Bytes>, fb: Buffer, order: seq<nat>, missing: nat)
    requires s.su.Laws() && SenderWellFormed(s, msgId) && per > 0 && AllEncodable(ps)
    requires FragmentsOf(s, ps, per, exchange, msgId, ivs, packets) && |EncChain(ps)| <= MAX_PACKET && msgId !in fb
    requires order != [] && forall k :: 0 <= k < |order| ==> order[k] < |packets|
    requires missing < |packets| && missing !in order
    ensures var n, cut := |order| - 1, Chunks(EncChain(ps), per);
      Receive(s.su, s.keys.Mirrored(), Deliver(fb, Deliveries(cut, msgId, order[..n])), packets[order[n]]).0
      == Deliver(fb, Deliveries(cut, msgId, order))
  {
    hide Chunks, BuildSkf, Receive, Add, Collect, Concat, EncChain, Deliver, Numbers, Pad, SkfLength;
    var n, cut := |order| - 1, Chunks(EncChain(ps), per);
    var ds := Deliveries(cut, msgId, order);
    assert ds[..n] == Deliveries(cut, msgId, order[..n]);
    ReceiveIsCollect(s, ps, per, exchange, msgId, ivs, packets, Deliver(fb, ds[..n]), order[n]);
    ChunksConcat(EncChain(ps), per);
    MissingNumber(cut, msgId, order, missing);
    NotLastPiece(fb, ds, msgId, cut, if order[n] == 0 then FirstType(ps) else NO_NEXT);
  }

  lemma ReceiveAllStep(su: Suite, keys: Keys, fb: Buffer, packets: seq<Bytes>, order: seq<nat>)
    requires order != [] && forall k :: 0 <= k < |order| ==> order[k] < |packets|
    ensures var n := |order| - 1;
      ReceiveAll(su, keys, fb, Pick(packets, order))
      == Receive(su, keys, ReceiveAll(su, keys, fb, Pick(packets, order[..n])), packets[order[n]]).0
  {
    hide Receive;
    var n := |order| - 1;
    assert Pick(packets, order)[..n] == Pick(packets, order[..n]);
  }

  /** While some fragment is missing, the receiver only collects. */
  lemma {:induction false} CollectsUntilFull(s: Sender, ps: seq<Payload>, per: nat, exchange: Byte, msgId: nat,
                                             ivs: seq<Bytes>, packets: seq<Bytes>, fb: Buffer, order: seq<nat>,
                                             missing: nat)
    requires s.su.Laws() && SenderWellFormed(s, msgId) && per > 0 && AllEncodable(ps)
    requires FragmentsOf(s, ps, per, exchange, msgId, ivs, packets) && |EncChain(ps)| <= MAX_PACKET && msgId !in fb
    requires forall k :: 0 <= k < |order| ==> order[k] < |packets|
    requires missing < |packets| && missing !in order
    ensures ReceiveAll(s.su, s.keys.Mirrored(), fb, Pick(packets, order))
         == Deliver(fb, Deliveries(Chunks(EncChain(ps), per), msgId, order))
    decreases |order|
  {
    hide Chunks, BuildSkf, Receive, EncChain, Deliver, Pad, SkfLength;
    if order == [] {
      DeliverNothing(fb);
    } else {
      CollectsUntilFull(s, ps, per, exchange, msgId, ivs, packets, fb, order[..|order| - 1], missing);
      CollectsOneMore(s, ps, per, exchange, msgId, ivs, packets, fb, order, missing);
      ReceiveAllStep(s.su, s.keys.Mirrored(), fb, packets, order);
    }
  }

  lemma CollectComplete(fb: Buffer, f: Fragment, first: Byte, inner: Bytes)
    requires Add(fb, f.msgId, f.num, f.total, f.plain).1 == Ok(true)
    requires var fb1 := Add(fb, f.msgId, f.num, f.total, f.plain).0;
      Reassemble(fb1, f.msgId) == (fb1 - {f.msgId}, Ok(inner))
    ensures var (fb2, r) := Collect(fb, f, first);
      && f.msgId !in fb2
      && match LenientWalk(inner, first)
         case Err => r == Err
         case Ok(ps) => r == Ok((f.msgId, ps))
  {
  }

  lemma AsManyChunks(s: Sender, ps: seq<Payload>, per: nat, exchange: Byte, msgId: nat,
                     ivs: seq<Bytes>, packets: seq<Bytes>)
    requires per > 0 && AllEncodable(ps) && FragmentsOf(s, ps, per, exchange, msgId, ivs, packets)
    ensures |Chunks(EncChain(ps), per)| == |packets| < U16_SIZE - 1
  {
    hide Chunks, BuildSkf, EncChain, Pad, SkfLength;
  }

  /** The delivery that fills the set hands the concatenated pieces to the payload walker. */
  lemma LastPiece(fb: Buffer, ds: seq<Delivery>, id: nat, pieces: seq<Bytes>, first: Byte)
    requires 0 < |pieces| < U16_SIZE - 1 && |Concat(pieces)| <= MAX_PACKET && id !in fb && FromPieces(ds, id, pieces)
    requires ds != [] && Numbers(ds) == Range(|pieces|) && ds[|ds| - 1].num !in Numbers(ds[..|ds| - 1])
    ensures var d := ds[|ds| - 1];
      var (fb2, r) := Collect(Deliver(fb, ds[..|ds| - 1]), Fragment(id, d.num, |pieces|, d.plain), first);
      && id !in fb2
      && match LenientWalk(Concat(pieces), first)
         case Err => r == Err
         case Ok(ps) => r == Ok((id, ps))
  {
    hide Add, Collect, Concat, Deliver, Reassemble, LenientWalk, Numbers, LastAnswer, Range;
    var d := ds[|ds| - 1];
    assert d.id == id && d.total == |pieces|;
    DeliverPieces(fb, ds, id, pieces);
    ReassembledInAnyOrder(fb, ds, id, pieces);
    DeliverLast(fb, ds);
    CollectComplete(Deliver(fb, ds[..|ds| - 1]), Fragment(id, d.num, |pieces|, d.plain), first, Concat(pieces));
  }

  lemma EveryNumber(cut: seq<Bytes>, msgId: nat, order: seq<nat>)
    requires (forall k :: 0 <= k < |order| ==> order[k] < |cut|) && forall j :: 0 <= j < |cut| ==> j in order
    ensures Numbers(Deliveries(cut, msgId, order)) == Range(|cut|)
  {
    var ds := Deliveries(cut, msgId, order);
    forall k | 1 <= k <= |cut| ensures k in Numbers(ds) {
      assert k - 1 in order;
      var i :| 0 <= i < |order| && order[i] == k - 1;
      assert ds[i].num == k;
    }
  }

  lemma LastIsNew(cut: seq<Bytes>, msgId: nat, order: seq<nat>)
    requires order != [] && (forall k :: 0 <= k < |order| ==> order[k] < |cut|)
    requires order[|order| - 1] !in order[..|order| - 1]
    ensures var ds := Deliveries(cut, msgId, order); ds[|ds| - 1].num !in Numbers(ds[..|ds| - 1])
  {
    var ds := Deliveries(cut, msgId, order);
    var init := ds[..|ds| - 1];
    forall i | 0 <= i < |init| ensures init[i].num != ds[|ds| - 1].num {
      assert order[..|order| - 1][i] == order[i];
    }
  }

  lemma AllNumbers(cut: seq<Bytes>, msgId: nat, order: seq<nat>)
    requires order != [] && (forall k :: 0 <= k < |order| ==> order[k] < |cut|)
    requires forall j :: 0 <= j < |cut| ==> j in order
    requires order[|order| - 1] !in order[..|order| - 1]
    ensures var ds := Deliveries(cut, msgId, order);
      && Numbers(ds) == Range(|cut|) && FromPieces(ds, msgId, cut)
      && ds[|ds| - 1].num !in Numbers(ds[..|ds| - 1])
  {
    EveryNumber(cut, msgId, order);
    LastIsNew(cut, msgId, order);
  }

  /** The last delivery of an order that visits every chunk hands the whole chain to the payload walker. */
  lemma LastOfOrder(fb: Buffer, inner: Bytes, per: nat, msgId: nat, order: seq<nat>, first: Byte)
    requires per > 0 && |inner| <= MAX_PACKET && NumFragments(|inner|, per) < U16_SIZE - 1
    requires msgId !in fb && order != []
    requires forall k :: 0 <= k < |order| ==> order[k] < |Chunks(inner, per)|
    requires order[|order| - 1] !in order[..|order| - 1] && forall j :: 0 <= j < |Chunks(inner, per)| ==> j in order
    ensures var n, cut := |order| - 1, Chunks(inner, per);
      var before := Deliver(fb, Deliveries(cut, msgId, order[..n]));
      var (fb2, r) := Collect(before, Fragment(msgId, order[n] + 1, |cut|, cut[order[n]]), first);
      && msgId !in fb2
      && match LenientWalk(inner, first)
         case Err => r == Err
         case Ok(ps) => r == Ok((msgId, ps))
  {
    hide Chunks, Collect, Concat, LenientWalk, Deliver, Numbers, FromPieces, Range;
    var n, cut := |order| - 1, Chunks(inner, per);
    var ds := Deliveries(cut, msgId, order);
    assert ds[..n] == Deliveries(cut, msgId, order[..n]);
    ChunksConcat(inner, per);
    AllNumbers(cut, msgId, order);
    LastPiece(fb, ds, msgId, cut, first);
  }

  lemma NoFirstType(d: Bytes)
    ensures LenientWalk(d, NO_NEXT) == Ok([])
  {
  }

  /**
   The last fragment to arrive completes the message whatever the order, and the chain is reassembled
   correctly; but the payloads are recovered if and only if fragment 1 is the one that completes the set,
   because the first payload type is read from the last arrival and only fragment 1 carries it.
   */
  lemma FragmentedMessageArrives(s: Sender, ps: seq<Payload>, per: nat, exchange: Byte, msgId: nat,
                                 ivs: seq<Bytes>, packets: seq<Bytes>, fb: Buffer, order: seq<nat>)
    requires s.su.Laws() && SenderWellFormed(s, msgId) && per > 0 && AllWellFormed(ps)
    requires FragmentsOf(s, ps, per, exchange, msgId, ivs, packets) && |EncChain(ps)| <= MAX_PACKET && msgId !in fb
    requires order != [] && forall k :: 0 <= k < |order| ==> order[k] < |packets|
    requires order[|order| - 1] !in order[..|order| - 1] && forall j :: 0 <= j < |packets| ==> j in order
    ensures var n := |order| - 1;
      var before := ReceiveAll(s.su, s.keys.Mirrored(), fb, Pick(packets, order[..n]));
      var (after, r) := Receive(s.su, s.keys.Mirrored(), before, packets[order[n]]);
      && msgId !in after
      && r == Ok((msgId, if order[n] == 0 then NormAll(ps) else []))
  {
    hide Chunks, BuildSkf, Receive, Collect, Concat, EncChain, LenientWalk, StrictWalk, NormAll, Deliver, Numbers,
      FromPieces, Deliveries, Pick, FragmentsOf;
    var n, cut := |order| - 1, Chunks(EncChain(ps), per);
    AsManyChunks(s, ps, per, exchange, msgId, ivs, packets);
    assert order[n] < |packets| && order[n] !in order[..n];
    CollectsUntilFull(s, ps, per, exchange, msgId, ivs, packets, fb, order[..n], order[n]);
    var before := Deliver(fb, Deliveries(cut, msgId, order[..n]));
    ReceiveIsCollect(s, ps, per, exchange, msgId, ivs, packets, before, order[n]);
    var first := if order[n] == 0 then FirstType(ps) else NO_NEXT;
    LastOfOrder(fb, EncChain(ps), per, msgId, order, first);
    ChainRoundTrip(ps);
    WalkersAgree(EncChain(ps), FirstType(ps));
    NoFirstType(EncChain(ps));
  }
}
