/**
 The session's sending and receiving paths as the source runs them: the message-ID counter, the cutting
 loop over the chain's own buffer, the choice between one SK packet and fragments, and `decryptAndParse`.
 */
module Session {
  import opened Bytes
  import opened IkePayload
  import opened IkePacket
  import opened Envelope
  import opened FragmentBuffer
  import opened Fragmentation
  import opened FragmentPackets

  /** The loop with which both sending functions serialise a payload chain. */
  method EncodeChain(ps: seq<Payload>) returns (data: Bytes)
    requires AllEncodable(ps)
    ensures data == EncChain(ps)
  {
    hide EncBody, Link;
    data := [];
    for i := 0 to |ps|
      invariant data + EncChain(ps[i..]) == EncChain(ps)
    {
      var next := NO_NEXT;
      if i < |ps| - 1 {
        next := ps[i + 1].Type();
      }
      var body, _ := EncodeBody(ps[i]);
      ChainLoop(data, ps, i);
      data := data + Link(next, body);
    }
  }

  // ---------- cutting in place ----------

  /** The chain's buffer when chunk `i` is about to be cut: earlier padding has reached into its first bytes. */
  ghost predicate BufferAt(su: Suite, inner: Bytes, buf: seq<Byte>, per: nat, i: nat)
    requires per > 0 && su.blockSize > 0
  {
    && |inner| <= |buf|
    && forall j :: i * per <= j < |inner| ==>
         buf[j] == if !su.aead && i > 0 && Overwritten(PadLen(per, su.blockSize), |buf|, i * per, j - i * per)
                   then PadByte(PadLen(per, su.blockSize), j - i * per) else inner[j]
  }

  lemma CutChunk(su: Suite, inner: Bytes, buf: seq<Byte>, per: nat, i: nat)
    requires per > 0 && su.blockSize > 0 && BufferAt(su, inner, buf, per, i) && i < NumFragments(|inner|, per)
    ensures var end := MinNat((i + 1) * per, |inner|);
      i * per <= end && buf[i * per..end] == SentChunk(su, inner, |buf|, per, i)
  {
    hide PadLen, PadByte, Overwritten;
    StartInside(|inner|, per, i);
    assert (i + 1) * per == i * per + per;
    var end := MinNat((i + 1) * per, |inner|);
    var c := Chunk(inner, per, i);
    forall k | 0 <= k < end - i * per ensures buf[i * per..end][k] == SentChunk(su, inner, |buf|, per, i)[k] {
      assert c[k] == inner[i * per + k];
    }
  }

  /** Cutting and padding chunk `i` leaves the buffer as chunk `i + 1` needs it. */
  lemma PaddedOver(su: Suite, inner: Bytes, buf: seq<Byte>, buf': seq<Byte>, per: nat, i: nat, end: nat, pad: nat)
    requires per > 0 && 0 < su.blockSize <= per && BufferAt(su, inner, buf, per, i) && |buf'| == |buf|
    requires i < NumFragments(|inner|, per)
    requires end == MinNat((i + 1) * per, |inner|) && i * per <= end && pad == PadLen(end - i * per, su.blockSize)
    requires forall j :: 0 <= j < |buf| ==>
        buf'[j] == if !su.aead && j >= end && Overwritten(pad, |buf|, end, j - end)
                   then PadByte(pad, j - end) else buf[j]
    ensures BufferAt(su, inner, buf', per, i + 1)
  {
    hide PadLen, PadByte;
    PadLenBound(per, su.blockSize);
    assert (i + 1) * per == i * per + per;
    if i + 1 < NumFragments(|inner|, per) {
      StartInside(|inner|, per, i + 1);
    } else {
      EndReached(|inner|, per);
      MulMonotone(NumFragments(|inner|, per), i + 1, per);
    }
  }

  /** Go's `append` of the padding to the slice that ends at `end`: in place while the buffer has capacity. */
  method AppendPadding(buf: array<Byte>, end: nat, pad: nat)
    requires end <= buf.Length
    modifies buf
    ensures forall j :: 0 <= j < buf.Length ==>
      buf[j] == if j >= end && Overwritten(pad, buf.Length, end, j - end) then PadByte(pad, j - end) else old(buf[j])
    ensures buf[..] == if end + pad > buf.Length then old(buf[..])
                       else if end + pad == buf.Length then old(buf[..end]) + Zeros(pad)
                       else old(buf[..end]) + Zeros(pad) + [pad % 256] + old(buf[end + pad + 1..])
  {
    if end + pad <= buf.Length {
      for k := 0 to pad
        invariant forall j :: 0 <= j < buf.Length ==> buf[j] == if end <= j < end + k then 0 else old(buf[j])
      {
        buf[end + k] := 0;
      }
      if end + pad + 1 <= buf.Length {
        buf[end + pad] := pad % 256;
      }
    }
  }

  /**
   The cutting loop of `fragmentMessage` with the padding of `buildSKFPacket`. `buf` holds the serialised
   chain in its first `len` bytes, its length is the slice's capacity, and the result is what each fragment
   encrypts.
   */
  method CutInPlace(su: Suite, buf: array<Byte>, len: nat, per: nat) returns (texts: seq<Bytes>)
    requires len <= buf.Length && per > 0 && 0 < su.blockSize <= per
    modifies buf
    ensures |texts| == NumFragments(len, per)
    ensures forall i :: 0 <= i < |texts| ==>
      texts[i] == Pad(su, Sent(su, old(buf[..len]), buf.Length, per)[i])
  {
    hide PadLen, PadByte, Overwritten, SentChunk;
    ghost var inner := buf[..len];
    var n := NumFragments(len, per);
    texts := [];
    for i := 0 to n
      invariant |texts| == i
      invariant forall k :: 0 <= k < i ==> texts[k] == Pad(su, Sent(su, inner, buf.Length, per)[k])
      invariant BufferAt(su, inner, buf[..], per, i)
    {
      StartInside(len, per, i);
      CutChunk(su, inner, buf[..], per, i);
      var start := i * per;
      var end := MinNat((i + 1) * per, len);
      var chunk := buf[start..end];
      assert chunk == buf[..][start..end];
      texts := texts + [Pad(su, chunk)];
      ghost var before := buf[..];
      if !su.aead {
        AppendPadding(buf, end, PadLen(|chunk|, su.blockSize));
      }
      PaddedOver(su, inner, before, buf[..], per, i, end, PadLen(|chunk|, su.blockSize));
    }
  }

  // ---------- the session ----------

  /** What `sendEncryptedWithRetry` registers with the request window. */
  datatype Outgoing = Outgoing(msgId: nat, packets: seq<Bytes>)

  ghost predicate Carries(packet: Bytes, msgId: nat) {
    DecHeader(packet).Ok? && DecHeader(packet).value.msgId == msgId
  }

  lemma BuiltCarries(s: Sender, text: Bytes, num: nat, total: nat, exchange: Byte, msgId: nat, first: Byte, iv: Bytes)
    requires SenderWellFormed(s, msgId) && BuildSkf(s, text, num, total, exchange, msgId, first, iv).Ok?
    ensures Carries(BuildSkf(s, text, num, total, exchange, msgId, first, iv).value, msgId)
  {
    hide EncHeader, DecHeader, PutU16;
    var hdr := SealHeader(s, SKF, exchange, false, msgId, HEADER_LEN + SkfLength(s.su, text, iv) % U16_SIZE);
    var d := BuildSkf(s, text, num, total, exchange, msgId, first, iv).value;
    assert d == EncHeader(hdr) + d[HEADER_LEN..];
    HeaderRoundTrip(hdr, d[HEADER_LEN..]);
  }

  lemma SealedCarries(s: Sender, ps: seq<Payload>, exchange: Byte, msgId: nat, response: bool, iv: Bytes)
    requires AllEncodable(ps) && SenderWellFormed(s, msgId) && Seal(s, ps, exchange, msgId, response, iv).Ok?
    ensures Carries(Seal(s, ps, exchange, msgId, response, iv).value, msgId)
  {
    hide EncHeader, DecHeader, PutU16, Pad, EncChain;
    var len := HEADER_LEN + 4 + |iv| + CipherLen(s.su, Pad(s.su, EncChain(ps))) + s.su.Icv();
    var hdr := SealHeader(s, SK, exchange, response, msgId, len);
    var d := Seal(s, ps, exchange, msgId, response, iv).value;
    assert d == EncHeader(hdr) + d[HEADER_LEN..];
    HeaderRoundTrip(hdr, d[HEADER_LEN..]);
  }

  lemma AllPresent(got: map<nat, Bytes>)
    requires (forall k :: k in got ==> k < U16_SIZE) && Pieces(got, 0, U16_SIZE - 1).Ok?
    ensures |got| == U16_SIZE
  {
    hide Range, Pieces;
    forall k | 0 <= k < U16_SIZE ensures k in got {
      if k !in got {
        PiecesGap(got, 0, U16_SIZE - 1, k);
      }
    }
    assert got.Keys == Range(U16_SIZE - 1) + {0};
  }

  /** A set whose count equals its total never sends the reassembly loop around its 16-bit counter. */
  lemma CompleteNeverLoops(fs: FragSet)
    requires (forall k :: k in fs.received ==> k < U16_SIZE) && |fs.received| % U16_SIZE == fs.total
    ensures !Loops(fs)
  {
    if Loops(fs) {
      AllPresent(fs.received);
    }
  }

  ghost predicate AllCarry(packets: seq<Bytes>, msgId: nat) {
    forall i :: 0 <= i < |packets| ==> Carries(packets[i], msgId)
  }

  /** Bytes of text per fragment; positive for every suite and MTU that can occur. */
  function Room(su: Suite, mtu: nat): (per: nat)
    requires Sized(su) && su.blockSize > 0 && MTU_MIN <= mtu <= MTU_MAX
    ensures su.blockSize <= per
  {
    PerFragment(su, mtu)
  }

  lemma RoomForTwo(su: Suite, mtu: nat, inner: Bytes)
    requires Sized(su) && su.blockSize > 0 && MTU_MIN <= mtu <= MTU_MAX && ShouldFragment(su, mtu, |inner|)
    ensures NumFragments(|inner|, Room(su, mtu)) >= 2
  {
    FragmentingCuts(su, mtu, inner);
  }

  /** `packets` are the fragments of the chain of `ps` as they are really sent, in order, under one ID. */
  ghost predicate AsFragments(me: Sender, mtu: nat, ps: seq<Payload>, exchange: Byte, spare: nat, ivs: nat -> Bytes,
                              msgId: nat, packets: seq<Bytes>): (b: bool)
    requires AllEncodable(ps) && Sized(me.su) && me.su.blockSize > 0 && MTU_MIN <= mtu <= MTU_MAX
    ensures b ==> |packets| >= 2
  {
    var texts := Sent(me.su, EncChain(ps), |EncChain(ps)| + spare, Room(me.su, mtu));
    && 2 <= |packets| == |texts| <= 255
    && forall i :: 0 <= i < |texts| ==>
         BuildSkf(me, Pad(me.su, texts[i]), i + 1, |texts|, exchange, msgId, FirstType(ps), ivs(i)) == Ok(packets[i])
  }

  lemma FragmentsCarry(me: Sender, mtu: nat, ps: seq<Payload>, exchange: Byte, spare: nat, ivs: nat -> Bytes,
                       msgId: nat, packets: seq<Bytes>)
    requires AllEncodable(ps) && Sized(me.su) && me.su.blockSize > 0 && MTU_MIN <= mtu <= MTU_MAX
    requires SenderWellFormed(me, msgId) && AsFragments(me, mtu, ps, exchange, spare, ivs, msgId, packets)
    ensures AllCarry(packets, msgId)
  {
    hide BuildSkf, Carries, Sent, Pad, EncChain;
    var texts := Sent(me.su, EncChain(ps), |EncChain(ps)| + spare, Room(me.su, mtu));
    forall i | 0 <= i < |packets| ensures Carries(packets[i], msgId) {
      BuiltCarries(me, Pad(me.su, texts[i]), i + 1, |texts|, exchange, msgId, FirstType(ps), ivs(i));
    }
  }

  lemma AsManyTexts(me: Sender, mtu: nat, ps: seq<Payload>, exchange: Byte, spare: nat, ivs: nat -> Bytes,
                    msgId: nat, packets: seq<Bytes>)
    requires AllEncodable(ps) && Sized(me.su) && me.su.blockSize > 0 && MTU_MIN <= mtu <= MTU_MAX
    requires AsFragments(me, mtu, ps, exchange, spare, ivs, msgId, packets)
    ensures |packets| == NumFragments(|EncChain(ps)|, Room(me.su, mtu)) <= 255
  {
    hide EncChain, BuildSkf, SentChunk;
    var len, per := |EncChain(ps)|, Room(me.su, mtu);
    assert EncChain(ps)[..len] == EncChain(ps);
  }

  /** Building a fragment uses the sending keys only. */
  lemma BuildIgnoresRest(s: Sender, k: Keys, text: Bytes, num: nat, total: nat, exchange: Byte, msgId: nat,
                         first: Byte, iv: Bytes)
    requires k.ei == s.keys.ei && k.ai == s.keys.ai
    ensures BuildSkf(s.(keys := k), text, num, total, exchange, msgId, first, iv)
         == BuildSkf(s, text, num, total, exchange, msgId, first, iv)
  {
    hide PutU16, EncHeader;
  }

  /** Nothing but the first bytes of SK_er may differ, and only with an AEAD suite. */
  predicate TailKept(su: Suite, k: Keys, k': Keys) {
    && k' == k.(er := k'.er) && |k'.er| == |k.er|
    && (su.ivSize <= |k.er| ==> k'.er[su.ivSize..] == k.er[su.ivSize..])
    && (!su.aead ==> k' == k)
  }

  lemma KeepsTailSame(su: Suite, k: Keys)
    ensures TailKept(su, k, k)
  {
  }

  lemma LastDrawn(id: nat)
    requires id < U32_SIZE
    ensures ((id + 1) % U32_SIZE + U32_SIZE - 1) % U32_SIZE == id
  {
  }

  // ---------- keys that share one buffer ----------

  /**
   The keys after encrypting under SK_ei. An AEAD suite appends the IV to the salt in place, over the first bytes
   of SK_er, which follows SK_ei in the key material.
   */
  function AfterEncrypt(su: Suite, k: Keys, iv: Bytes): (k': Keys)
    ensures k'.ei == k.ei && k'.ai == k.ai && |k'.er| == |k.er|
  {
    k.(er := AfterAppend(su, k.er, iv))
  }

  lemma AfterTwice(su: Suite, k: Keys, iv: Bytes, iv': Bytes)
    requires |iv| == |iv'|
    ensures AfterEncrypt(su, AfterEncrypt(su, k, iv), iv') == AfterEncrypt(su, k, iv')
  {
  }

  /** Whether sealing gets as far as encrypting. */
  predicate Encrypts(s: Sender, ps: seq<Payload>, exchange: Byte, msgId: nat, response: bool, iv: Bytes)
    requires AllEncodable(ps)
  {
    var plain := Pad(s.su, EncChain(ps));
    var len := HEADER_LEN + 4 + |iv| + CipherLen(s.su, plain) + s.su.Icv();
    s.su.enc(plain, s.keys.ei, iv, EncHeader(SealHeader(s, SK, exchange, response, msgId, len))).Ok?
  }

  lemma SealedEncrypts(s: Sender, ps: seq<Payload>, exchange: Byte, msgId: nat, response: bool, iv: Bytes)
    requires AllEncodable(ps) && Seal(s, ps, exchange, msgId, response, iv).Ok?
    ensures Encrypts(s, ps, exchange, msgId, response, iv)
  {
    hide Pad, EncChain, EncHeader, PutU16;
  }

  lemma AfterKeepsTail(su: Suite, k: Keys, iv: Bytes)
    requires |iv| == su.ivSize
    ensures TailKept(su, k, AfterEncrypt(su, k, iv))
  {
  }

  /** The IV of a datagram whose decryption is attempted under an AEAD suite. */
  function OpenedIv(su: Suite, data: Bytes): (r: Option<Bytes>)
    ensures r.Some? ==> |r.value| == su.ivSize
  {
    match DecHeader(data)
    case Err => None
    case Ok(h) =>
      if h.next == SKF then
        if |data| < 36 + su.ivSize then None else Some(data[36..36 + su.ivSize])
      else if h.next == SK && |data| >= 32 then
        var n := GetU16(data[30..32]);
        if 28 + n > |data| || n < 4 + su.ivSize then None else Some(data[32..32 + su.ivSize])
      else None
  }

  /** The IV a receiver finds in a sealed message or a fragment is the one it was sealed with. */
  lemma SealedIv(s: Sender, ps: seq<Payload>, exchange: Byte, msgId: nat, response: bool, iv: Bytes)
    requires s.su.Laws() && AllEncodable(ps) && SenderWellFormed(s, msgId) && |iv| == s.su.ivSize && Fits(s.su, iv, ps)
    requires Seal(s, ps, exchange, msgId, response, iv).Ok?
    ensures OpenedIv(s.su, Seal(s, ps, exchange, msgId, response, iv).value) == Some(iv)
  {
    hide Seal, Fits, Pad, EncChain, GetBE, GetU16;
    SealedWire(s, ps, exchange, msgId, response, iv);
    U16IsBigEndian(0, Seal(s, ps, exchange, msgId, response, iv).value[30..32]);
  }

  lemma FragmentIv(s: Sender, text: Bytes, num: nat, total: nat, exchange: Byte, msgId: nat, first: Byte, iv: Bytes)
    requires s.su.Laws() && SenderWellFormed(s, msgId) && num < U16_SIZE && total < U16_SIZE && |iv| == s.su.ivSize
    requires SkfLength(s.su, text, iv) < U16_SIZE
    requires BuildSkf(s, text, num, total, exchange, msgId, first, iv).Ok?
    ensures OpenedIv(s.su, BuildSkf(s, text, num, total, exchange, msgId, first, iv).value) == Some(iv)
  {
    hide BuildSkf, SkfLength, GetBE, GetU16;
    SkfWire(s, text, num, total, exchange, msgId, first, iv);
  }

  lemma NoHeaderNoIv(su: Suite, data: Bytes)
    ensures DecHeader(data).Err? ==> OpenedIv(su, data) == None
  {
    hide DecHeader;
  }

  /** Opening a sealed message with a key that does not open it is an error. */
  lemma WrongKeyRefuses(s: Sender, keys: Keys, ps: seq<Payload>, exchange: Byte, msgId: nat, iv: Bytes)
    requires s.su.aead && s.su.Laws() && AllEncodable(ps) && |iv| == s.su.ivSize && Fits(s.su, iv, ps)
    requires Seal(s, ps, exchange, msgId, true, iv).Ok? && Apart(s.su, EncChain(ps), iv, s.keys.ei, keys.er)
    ensures var d := Seal(s, ps, exchange, msgId, true, iv).value;
      |d| >= HEADER_LEN && OpenSk(s.su, keys, d) == Err
  {
    hide Seal, EncChain, EncHeader, PutU16, GetU16, LenientWalk, SealHeader;
    SealedForm(s, ps, exchange, msgId, true, iv);
    var plain := EncChain(ps);
    var len := HEADER_LEN + 4 + |iv| + CipherLen(s.su, plain) + s.su.Icv();
    var aad := EncHeader(SealHeader(s, SK, exchange, true, msgId, len));
    var c := s.su.enc(plain, s.keys.ei, iv, aad).value;
    SealedLayout(aad, FirstType(ps), 4 + |iv| + |c|, iv, c, []);
    var body := aad + [FirstType(ps), 0] + PutU16(4 + |iv| + |c|) + iv + c;
    assert body + [] == body;
    assert Seal(s, ps, exchange, msgId, true, iv).value == body;
  }

  /**
   A request and its reply under an AEAD suite: after sending, the session opens the peer's reply with the peer's
   key if and only if the IV it sent equals the first bytes of SK_er. Then it recovers the payloads; otherwise it
   decrypts under another key, and refuses the reply if that key does not open it.
   */
  lemma ReplyAfterSending(me: Sender, iv: Bytes, ps: seq<Payload>, exchange: Byte, msgId: nat, iv': Bytes)
    requires me.su.aead && me.su.Laws() && AllWellFormed(ps) && SenderWellFormed(me, msgId)
    requires |iv| == |iv'| == me.su.ivSize <= |me.keys.er| && Fits(me.su, iv', ps)
    requires Seal(me.(keys := me.keys.Mirrored()), ps, exchange, msgId, true, iv').Ok?
    ensures var peer := me.(keys := me.keys.Mirrored());
      var reply := Seal(peer, ps, exchange, msgId, true, iv').value;
      var after := AfterEncrypt(me.su, me.keys, iv);
      && (after.er == peer.keys.ei <==> iv == me.keys.er[..|iv|])
      && |reply| >= HEADER_LEN
      && (iv == me.keys.er[..|iv|] ==> OpenSk(me.su, after, reply) == Ok(NormAll(ps)))
      && (iv != me.keys.er[..|iv|] && Apart(me.su, EncChain(ps), iv', peer.keys.ei, after.er) ==>
            OpenSk(me.su, after, reply) == Err)
  {
    hide Seal, OpenSk, EncChain, EncHeader, DecHeader, NormAll, PutU16;
    var peer := me.(keys := me.keys.Mirrored());
    var after := AfterEncrypt(me.su, me.keys, iv);
    EnvelopeRoundTrip(peer, ps, exchange, msgId, true, iv');
    assert peer.keys.Mirrored() == me.keys;
    AppendKeepsExactly(me.su, me.keys.er, iv);
    if iv != me.keys.er[..|iv|] && Apart(me.su, EncChain(ps), iv', peer.keys.ei, after.er) {
      WrongKeyRefuses(peer, after, ps, exchange, msgId, iv');
    }
  }

  lemma HeaderBounds(data: Bytes)
    requires DecHeader(data).Ok?
    ensures DecHeader(data).value.spiR == GetBE(data[8..16]) < U64_SIZE
  {
    hide GetBE, Radix;
    RadixValues();
    BECanonical(data[8..16]);
  }

  lemma FragmentBounds(su: Suite, keys: Keys, data: Bytes)
    requires |data| >= HEADER_LEN && OpenSkf(su, keys, data).Ok?
    ensures OpenSkf(su, keys, data).value.num < U16_SIZE && OpenSkf(su, keys, data).value.total < U16_SIZE
  {
    hide CheckMac, Unpad, GetBE;
  }

  lemma CompleteSet(fb: Buffer, f: Fragment)
    requires Accounted(fb) && f.num < U16_SIZE && f.total < U16_SIZE
    ensures var (fb1, r) := Add(fb, f.msgId, f.num, f.total, f.plain);
      r == Ok(true) ==> f.msgId in fb1 && fb1[f.msgId].total < U16_SIZE && !Loops(fb1[f.msgId])
  {
    hide Loops, Held;
    var (fb1, r) := Add(fb, f.msgId, f.num, f.total, f.plain);
    if r == Ok(true) {
      AddAccounted(fb, f.msgId, f.num, f.total, f.plain);
      CompleteNeverLoops(fb1[f.msgId]);
    }
  }

  lemma ReassembleAccounted(fb: Buffer, id: nat)
    requires Accounted(fb)
    ensures Accounted(Reassemble(fb, id).0)
  {
    hide Held, Pieces;
  }

  class Session {
    const su: Suite
    const fragmentBuf: FragmentBuffer
    const fragmentationSupported: bool
    var mtu: nat
    var spiI: nat
    var spiR: nat
    var keys: Keys
    var skPi: Bytes
    var sequenceNumber: nat

    /** Besides field widths: under an AEAD suite the keys behind SK_ei and SK_er are at least as long as an IV. */
    ghost predicate Valid()
      reads this
    {
      && spiI < U64_SIZE && spiR < U64_SIZE && sequenceNumber < U32_SIZE && MTU_MIN <= mtu <= MTU_MAX
      && (su.aead ==> su.ivSize <= |keys.er| && su.ivSize <= |skPi|)
    }

    function Self(): Sender
      reads this
    {
      Sender(su, keys, spiI, spiR)
    }

    constructor (suite: Suite, ks: Keys, pi: Bytes, initiator: nat, responder: nat, fragments: bool)
      requires initiator < U64_SIZE && responder < U64_SIZE
      requires suite.aead ==> suite.ivSize <= |ks.er| && suite.ivSize <= |pi|
      ensures Valid() && fresh(fragmentBuf) && fragmentBuf.frags == map[]
      ensures Self() == Sender(suite, ks, initiator, responder) && skPi == pi && sequenceNumber == 0 && mtu == MTU_MAX
    {
      su, keys, skPi, spiI, spiR, fragmentationSupported := suite, ks, pi, initiator, responder, fragments;
      sequenceNumber, mtu := 0, MTU_MAX;
      fragmentBuf := new FragmentBuffer();
    }

    /** The PMTU branch of the network event monitor. */
    method OnPathMtu(reported: nat)
      requires Valid()
      modifies this`mtu
      ensures Valid() && mtu == PmtuEvent(old(mtu), reported)
    {
      if reported < mtu && reported >= MTU_MIN {
        mtu := reported;
      }
    }

    /** `NextSequenceNumber`: an atomic 32-bit increment. */
    method NextSequenceNumber() returns (id: nat)
      requires Valid()
      modifies this`sequenceNumber
      ensures Valid() && id == old(sequenceNumber) && sequenceNumber == (id + 1) % U32_SIZE
    {
      id := sequenceNumber;
      sequenceNumber := (sequenceNumber + 1) % U32_SIZE;
    }

    /** The calls of `buildSKFPacket`, each under the keys that the one before it has left. */
    method BuildAll(texts: seq<Bytes>, exchange: Byte, msgId: nat, first: Byte, ivs: nat -> Bytes)
      returns (r: Result<seq<Bytes>>)
      requires Valid() && forall i :: |ivs(i)| == su.ivSize
      modifies this`keys
      ensures Valid() && TailKept(su, old(keys), keys)
      ensures r.Ok? ==>
        && |r.value| == |texts|
        && (forall k :: 0 <= k < |texts| ==>
              BuildSkf(old(Self()), texts[k], k + 1, |texts|, exchange, msgId, first, ivs(k)) == Ok(r.value[k]))
        && (texts != [] ==> keys == AfterEncrypt(su, old(keys), ivs(|texts| - 1)))
    {
      hide BuildSkf, AfterEncrypt, TailKept;
      ghost var me := Self();
      var n := |texts|;
      KeepsTailSame(su, keys);
      var packets: seq<Bytes> := [];
      for i := 0 to n
        invariant |packets| == i && Valid() && Self() == me.(keys := keys)
        invariant keys == if i == 0 then me.keys else AfterEncrypt(su, me.keys, ivs(i - 1))
        invariant TailKept(su, me.keys, keys)
        invariant forall k :: 0 <= k < i ==>
          BuildSkf(me, texts[k], k + 1, n, exchange, msgId, first, ivs(k)) == Ok(packets[k])
      {
        var p := BuildSkf(Self(), texts[i], i + 1, n, exchange, msgId, first, ivs(i));
        BuildIgnoresRest(me, keys, texts[i], i + 1, n, exchange, msgId, first, ivs(i));
        if p.Err? { return Err; }
        if i > 0 {
          AfterTwice(su, me.keys, ivs(i - 1), ivs(i));
        }
        AfterKeepsTail(su, me.keys, ivs(i));
        keys := AfterEncrypt(su, keys, ivs(i));
        packets := packets + [p.value];
      }
      return Ok(packets);
    }

    /**
     `fragmentMessage`: an empty result means the chain needs no fragmenting. `spare` is the capacity left in
     the chain's buffer, `ivs` the random IVs, of which the last one used is left in SK_er under an AEAD suite.
     */
    method FragmentMessage(ps: seq<Payload>, exchange: Byte, spare: nat, ivs: nat -> Bytes)
      returns (r: Result<seq<Bytes>>)
      requires Valid() && AllEncodable(ps) && Sized(su) && su.blockSize > 0 && forall i :: |ivs(i)| == su.ivSize
      modifies this`sequenceNumber, this`keys
      ensures Valid()
      ensures var n := NumFragments(|EncChain(ps)|, Room(su, mtu));
        && (n > 255 ==> r == Err && sequenceNumber == old(sequenceNumber) && keys == old(keys))
        && (n <= 1 ==> r == Ok([]) && sequenceNumber == old(sequenceNumber) && keys == old(keys))
        && (1 < n <= 255 ==> sequenceNumber == (old(sequenceNumber) + 1) % U32_SIZE)
        && (1 < n <= 255 && r.Ok? ==>
              && AsFragments(old(Self()), mtu, ps, exchange, spare, ivs, old(sequenceNumber), r.value)
              && keys == AfterEncrypt(su, old(keys), ivs(n - 1)))
      ensures TailKept(su, old(keys), keys)
    {
      hide EncChain, BuildSkf, Pad, Sent, AfterEncrypt, TailKept;
      KeepsTailSame(su, keys);
      var inner := EncodeChain(ps);
      var per := Room(su, mtu);
      var n := NumFragments(|inner|, per);
      if n > MAX_FRAGMENTS { return Err; }
      if n <= 1 { return Ok([]); }
      var msgId := NextSequenceNumber();
      var buf := new Byte[|inner| + spare](j requires j >= 0 => if j < |inner| then inner[j] else 0);
      assert buf[..|inner|] == inner;
      var texts := CutInPlace(su, buf, |inner|, per);
      r := BuildAll(texts, exchange, msgId, FirstType(ps), ivs);
    }

    /** `encryptAndWrap`. */
    method EncryptAndWrap(ps: seq<Payload>, exchange: Byte, iv: Bytes) returns (r: Result<Bytes>)
      requires Valid() && AllEncodable(ps) && |iv| == su.ivSize
      modifies this`sequenceNumber, this`keys
      ensures Valid() && sequenceNumber == (old(sequenceNumber) + 1) % U32_SIZE
      ensures r == Seal(old(Self()), ps, exchange, old(sequenceNumber), false, iv)
      ensures keys == if Encrypts(old(Self()), ps, exchange, old(sequenceNumber), false, iv)
                      then AfterEncrypt(su, old(keys), iv) else old(keys)
      ensures r.Ok? ==> keys == AfterEncrypt(su, old(keys), iv)
    {
      hide Seal, AfterEncrypt, Encrypts;
      var msgId := NextSequenceNumber();
      r := Seal(Self(), ps, exchange, msgId, false, iv);
      if r.Ok? {
        SealedEncrypts(Self(), ps, exchange, msgId, false, iv);
      }
      if Encrypts(Self(), ps, exchange, msgId, false, iv) {
        keys := AfterEncrypt(su, keys, iv);
      }
    }

    /**
     `sendEncryptedWithRetry` up to the hand-over to the window: a success draws exactly one ID, and registers
     the very ID that every packet carries in its header, fragmented or not. Fragments are used exactly when
     the peer supports them and the message is too large. Under an AEAD suite the last IV is left in SK_er.
     */
    method SendEncrypted(ps: seq<Payload>, exchange: Byte, spare: nat, ivs: nat -> Bytes) returns (r: Result<Outgoing>)
      requires Valid() && AllEncodable(ps) && Sized(su) && su.blockSize > 0 && forall i :: |ivs(i)| == su.ivSize
      modifies this`sequenceNumber, this`keys
      ensures Valid()
      ensures sequenceNumber == old(sequenceNumber) || sequenceNumber == (old(sequenceNumber) + 1) % U32_SIZE
      ensures TailKept(su, old(keys), keys)
      ensures r.Ok? ==>
        && sequenceNumber == (old(sequenceNumber) + 1) % U32_SIZE
        && r.value.msgId == old(sequenceNumber)
        && AllCarry(r.value.packets, old(sequenceNumber))
        && |r.value.packets| > 0 && keys == AfterEncrypt(su, old(keys), ivs(|r.value.packets| - 1))
        && if fragmentationSupported && ShouldFragment(su, mtu, |EncChain(ps)|)
           then AsFragments(old(Self()), mtu, ps, exchange, spare, ivs, old(sequenceNumber), r.value.packets)
           else |r.value.packets| == 1
                && Seal(old(Self()), ps, exchange, old(sequenceNumber), false, ivs(0)) == Ok(r.value.packets[0])
    {
      hide EncChain, Seal, Carries, AsFragments, ShouldFragment, NumFragments, Room, Sized, AfterEncrypt, Encrypts,
        TailKept;
      ghost var id, me := sequenceNumber, Self();
      KeepsTailSame(su, keys);
      AfterKeepsTail(su, keys, ivs(0));
      var packets: seq<Bytes> := [];
      var inner := EncodeChain(ps);
      if fragmentationSupported && ShouldFragment(su, mtu, |inner|) {
        RoomForTwo(su, mtu, inner);
        var f := FragmentMessage(ps, exchange, spare, ivs);
        if f.Err? { return Err; }
        packets := f.value;
        FragmentsCarry(me, mtu, ps, exchange, spare, ivs, id, packets);
        AsManyTexts(me, mtu, ps, exchange, spare, ivs, id, packets);
      }
      if |packets| == 0 {
        var p := EncryptAndWrap(ps, exchange, ivs(0));
        if p.Err? { return Err; }
        SealedCarries(me, ps, exchange, id, false, ivs(0));
        packets := [p.value];
      }
      LastDrawn(id);
      return Ok(Outgoing((sequenceNumber + U32_SIZE - 1) % U32_SIZE, packets));
    }

    method CollectFragment(f: Fragment, first: Byte) returns (r: Result<(nat, seq<Payload>)>)
      requires Accounted(fragmentBuf.frags) && f.num < U16_SIZE && f.total < U16_SIZE
      modifies fragmentBuf
      ensures Accounted(fragmentBuf.frags)
      ensures (fragmentBuf.frags, r) == Collect(old(fragmentBuf.frags), f, first)
    {
      hide Accounted, Add, Reassemble, LenientWalk;
      AddAccounted(fragmentBuf.frags, f.msgId, f.num, f.total, f.plain);
      CompleteSet(fragmentBuf.frags, f);
      var complete := fragmentBuf.AddFragment(f.msgId, f.num, f.total, f.plain);
      if complete.Err? { return Err; }
      if !complete.value { return Ok((f.msgId, [])); }
      ReassembleAccounted(fragmentBuf.frags, f.msgId);
      var inner := fragmentBuf.ReassembleFragments(f.msgId);
      if inner.Err? { return Err; }
      var ps := ParsePayloads(inner.value, first);
      if ps.Err? { return Err; }
      return Ok((f.msgId, ps.value));
    }

    /**
     `decryptAndParse`: also adopts the peer's SPI from the header. Under an AEAD suite attempting to decrypt
     leaves the IV in SK_pi.
     */
    method DecryptAndParse(data: Bytes) returns (r: Result<(nat, seq<Payload>)>)
      requires Valid() && Accounted(fragmentBuf.frags)
      modifies this`spiR, this`skPi, fragmentBuf
      ensures Valid() && Accounted(fragmentBuf.frags)
      ensures (fragmentBuf.frags, r) == Receive(su, keys, old(fragmentBuf.frags), data)
      ensures spiR == if |data| >= 28 then GetBE(data[8..16]) else old(spiR)
      ensures skPi == match OpenedIv(su, data)
                      case None => old(skPi)
                      case Some(iv) => AfterAppend(su, old(skPi), iv)
    {
      hide OpenSk, OpenSkf, DecHeader, DecPacket, LenientWalk, Accounted, Add, Reassemble, OpenedIv, AfterAppend;
      var h := DecHeader(data);
      NoHeaderNoIv(su, data);
      if h.Err? { return Err; }
      HeaderBounds(data);
      spiR := h.value.spiR;
      var iv := OpenedIv(su, data);
      if iv.Some? {
        skPi := AfterAppend(su, skPi, iv.value);
      }
      if h.value.next == SKF {
        var f := OpenSkf(su, keys, data);
        if f.Err? { return Err; }
        FragmentBounds(su, keys, data);
        r := CollectFragment(f.value, data[HEADER_LEN]);
      } else if h.value.next == SK {
        var ps := OpenSk(su, keys, data);
        if ps.Err? { return Err; }
        return Ok((h.value.msgId, ps.value));
      } else {
        var p := DecodePacket(data);
        if p.Err? { return Err; }
        return Ok((h.value.msgId, p.value.1));
      }
    }
  }

  // ---------- from one session to its peer ----------

  function FirstIvs(ivs: nat -> Bytes, n: nat): (r: seq<Bytes>)
    ensures |r| == n && forall i :: 0 <= i < n ==> r[i] == ivs(i)
  {
    seq(n, i requires 0 <= i < n => ivs(i))
  }

  lemma ChunkBound(inner: Bytes, per: nat, i: nat)
    requires per > 0 && i < NumFragments(|inner|, per)
    ensures |Chunks(inner, per)[i]| <= per
  {
    StartInside(|inner|, per, i);
    assert (i + 1) * per == i * per + per;
  }

  /** The fragments a session sends are those of the chain, whenever padding does not disturb the next chunk. */
  lemma SentAreFragments(me: Sender, mtu: nat, ps: seq<Payload>, exchange: Byte, spare: nat, ivs: nat -> Bytes,
                         msgId: nat, packets: seq<Bytes>)
    requires AllEncodable(ps) && me.su.Laws() && Sized(me.su) && MTU_MIN <= mtu <= MTU_MAX
    requires forall i :: |ivs(i)| == me.su.ivSize
    requires AsFragments(me, mtu, ps, exchange, spare, ivs, msgId, packets)
    requires me.su.aead || PaddingHarmless(me.su, EncChain(ps), |EncChain(ps)| + spare, Room(me.su, mtu))
    ensures FragmentsOf(me, ps, Room(me.su, mtu), exchange, msgId, FirstIvs(ivs, |packets|), packets)
  {
    hide BuildSkf, Pad, EncChain, SentChunk, Chunk, PaddingHarmless, SkfLength;
    var inner, per := EncChain(ps), Room(me.su, mtu);
    var texts, cut := Sent(me.su, inner, |inner| + spare, per), Chunks(inner, per);
    if me.su.aead {
      AeadSendsChunks(me.su, inner, |inner| + spare, per);
    }
    forall i | 0 <= i < |cut|
      ensures texts[i] == cut[i] && SkfLength(me.su, Pad(me.su, cut[i]), ivs(i)) < U16_SIZE
    {
      if !me.su.aead {
        HarmlessChunk(me.su, inner, |inner| + spare, per, i);
      }
      ChunkBound(inner, per, i);
      SkfFitsMtu(me, mtu, cut[i], i + 1, |cut|, exchange, msgId, FirstType(ps), ivs(i));
    }
  }

  /**
   A fragmented message from one session to its peer: delivered in any order and with any duplication, the
   payloads come out with the last arrival exactly when that is fragment 1, and are silently empty otherwise.
   */
  lemma FragmentedDelivery(me: Sender, mtu: nat, ps: seq<Payload>, exchange: Byte, spare: nat, ivs: nat -> Bytes,
                           msgId: nat, packets: seq<Bytes>, fb: Buffer, order: seq<nat>)
    requires AllWellFormed(ps) && me.su.Laws() && Sized(me.su) && MTU_MIN <= mtu <= MTU_MAX
    requires SenderWellFormed(me, msgId)
    requires forall i :: |ivs(i)| == me.su.ivSize
    requires AsFragments(me, mtu, ps, exchange, spare, ivs, msgId, packets)
    requires me.su.aead || PaddingHarmless(me.su, EncChain(ps), |EncChain(ps)| + spare, Room(me.su, mtu))
    requires |EncChain(ps)| <= MAX_PACKET && msgId !in fb
    requires order != [] && forall k :: 0 <= k < |order| ==> order[k] < |packets|
    requires order[|order| - 1] !in order[..|order| - 1] && forall j :: 0 <= j < |packets| ==> j in order
    ensures var n := |order| - 1;
      var before := ReceiveAll(me.su, me.keys.Mirrored(), fb, Pick(packets, order[..n]));
      Receive(me.su, me.keys.Mirrored(), before, packets[order[n]]).1
      == Ok((msgId, if order[n] == 0 then NormAll(ps) else []))
  {
    hide AsFragments, PaddingHarmless, FragmentsOf, EncChain, Receive, ReceiveAll, NormAll;
    SentAreFragments(me, mtu, ps, exchange, spare, ivs, msgId, packets);
    FragmentedMessageArrives(me, ps, Room(me.su, mtu), exchange, msgId, FirstIvs(ivs, |packets|), packets, fb, order);
  }
}
