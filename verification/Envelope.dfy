/**
 The encrypted SK payload (section 3.14 of RFC 7296): padding, sealing, opening. Cipher and MAC are
 parameters; the only laws used are decrypt-after-encrypt and the output lengths.
 */
module Envelope {
  import opened Bytes
  import opened IkeSa
  import opened IkePayload
  import opened IkePacket

  type Cipher = (Bytes, Bytes, Bytes, Bytes) -> Result<Bytes>

  /** A negotiated suite: `enc` and `dec` take text, key, IV and associated data; `mac` takes key and data. */
  datatype Suite = Suite(
    aead: bool, integ: bool, ivSize: nat, blockSize: nat, icvSize: nat,
    enc: Cipher, dec: Cipher, mac: (Bytes, Bytes) -> Bytes)
  {
    ghost predicate Laws() {
      && 0 < blockSize <= 256
      && (forall p: Bytes, k: Bytes, iv: Bytes, aad: Bytes :: enc(p, k, iv, aad).Ok? ==>
            && dec(enc(p, k, iv, aad).value, k, iv, aad) == Ok(p)
            && |enc(p, k, iv, aad).value| == |p| + if aead then 16 else 0)
      && (forall k: Bytes, d: Bytes :: |mac(k, d)| == icvSize)
    }

    predicate Macs() {
      !aead && integ
    }

    /** The ICV a separate MAC adds. */
    function Icv(): nat {
      if Macs() then icvSize else 0
    }
  }

  /** The session keys of one direction pair; the peer holds the same four with the roles exchanged. */
  datatype Keys = Keys(ei: Bytes, er: Bytes, ai: Bytes, ar: Bytes) {
    function Mirrored(): Keys {
      Keys(er, ei, ar, ai)
    }
  }

  // ---------- keys that share one buffer ----------

  /**
   What an AEAD suite leaves of the key material behind a key it is used with: the IV is appended to the salt at
   the end of the key in place, over the first bytes that follow.
   */
  function AfterAppend(su: Suite, behind: Bytes, iv: Bytes): (b: Bytes)
    ensures |b| == |behind|
  {
    if su.aead && |iv| <= |behind| then iv + behind[|iv|..] else behind
  }

  lemma AppendKeepsExactly(su: Suite, behind: Bytes, iv: Bytes)
    requires su.aead && |iv| <= |behind|
    ensures AfterAppend(su, behind, iv)[..|iv|] == iv && AfterAppend(su, behind, iv)[|iv|..] == behind[|iv|..]
    ensures AfterAppend(su, behind, iv) == behind <==> iv == behind[..|iv|]
  {
    assert AfterAppend(su, behind, iv)[..|iv|] == iv;
    assert behind == behind[..|iv|] + behind[|iv|..];
  }

  /** The key `k'` does not open what was sealed under `k`. */
  ghost predicate Apart(su: Suite, plain: Bytes, iv: Bytes, k: Bytes, k': Bytes) {
    forall aad: Bytes :: su.enc(plain, k, iv, aad).Ok? ==> su.dec(su.enc(plain, k, iv, aad).value, k', iv, aad).Err?
  }

  // ---------- padding ----------

  function PadLen(n: nat, block: nat): nat
    requires block > 0
  {
    if (n + 1) % block != 0 then block - (n + 1) % block else 0
  }

  /** CBC padding: zeros and a length byte; AEAD suites take the text as it is. */
  function Pad(su: Suite, p: Bytes): Bytes {
    if su.aead || su.blockSize == 0 then p
    else p + Zeros(PadLen(|p|, su.blockSize)) + [PadLen(|p|, su.blockSize) % 256]
  }

  function Unpad(su: Suite, p: Bytes): Result<Bytes> {
    if su.aead then Ok(p)
    else if |p| < 1 || |p| < 1 + p[|p| - 1] as int then Err
    else Ok(p[..|p| - 1 - p[|p| - 1] as int])
  }

  lemma PadLenBound(n: nat, block: nat)
    requires block > 0
    ensures PadLen(n, block) < block
    ensures (n + PadLen(n, block) + 1) % block == 0
  {
    var r := (n + 1) % block;
    if r != 0 {
      var q := (n + 1) / block;
      assert n + 1 == block * q + r;
      assert n + PadLen(n, block) + 1 == block * (q + 1) + 0;
      ModUnique(n + PadLen(n, block) + 1, block, q + 1, 0);
    }
  }

  /** For every length, hence every padding residue, removing the padding gives the text back. */
  lemma PadRoundTrip(su: Suite, p: Bytes)
    requires 0 < su.blockSize <= 256
    ensures Unpad(su, Pad(su, p)) == Ok(p)
    ensures |p| <= |Pad(su, p)| <= |p| + su.blockSize
  {
    hide PadLen;
    PadLenBound(|p|, su.blockSize);
    if !su.aead {
      var n := PadLen(|p|, su.blockSize);
      var d := Pad(su, p);
      assert d[|d| - 1] == n && d[..|p|] == p;
    }
  }

  /** Under CBC the text is followed by zeros up to the last byte of a block, and by the number of those zeros. */
  lemma PadBytes(su: Suite, p: Bytes)
    requires !su.aead && 0 < su.blockSize <= 256
    ensures var d, n := Pad(su, p), |Pad(su, p)| - |p| - 1;
      && |d| % su.blockSize == 0 && 0 <= n < su.blockSize
      && d[..|p|] == p && d[|d| - 1] == n && forall i :: |p| <= i < |p| + n ==> d[i] == 0
  {
    hide PadLen;
    PadLenBound(|p|, su.blockSize);
  }

  // ---------- sealing and opening ----------

  const VERSION: Byte := 0x20
  const FLAG_INITIATOR: Byte := 0x08
  const FLAG_RESPONSE: Byte := 0x20

  /** Who sends: the SPI pair in the header and the keys. */
  datatype Sender = Sender(su: Suite, keys: Keys, spiI: nat, spiR: nat)

  function SealHeader(s: Sender, next: Byte, exchange: Byte, response: bool, msgId: nat, length: nat): Header {
    Header(s.spiI, s.spiR, next, VERSION, exchange,
           if response then FLAG_INITIATOR + FLAG_RESPONSE else FLAG_INITIATOR, msgId, length % U32_SIZE)
  }

  function WithMac(su: Suite, key: Bytes, packet: Bytes): Bytes {
    if su.Macs() then packet + su.mac(key, packet) else packet
  }

  function CipherLen(su: Suite, plain: Bytes): nat {
    |plain| + if su.aead then 16 else 0
  }

  /** `encryptAndWrapWithMsgID`, with the random IV as a parameter. */
  function Seal(s: Sender, ps: seq<Payload>, exchange: Byte, msgId: nat, response: bool, iv: Bytes): Result<Bytes>
    requires AllEncodable(ps)
  {
    if !s.su.aead && s.su.blockSize == 0 then Err
    else
      var plain := Pad(s.su, EncChain(ps));
      var bodyLen := |iv| + CipherLen(s.su, plain) + s.su.Icv();
      var hdr := SealHeader(s, SK, exchange, response, msgId, HEADER_LEN + 4 + bodyLen);
      var aad := EncHeader(hdr);
      match s.su.enc(plain, s.keys.ei, iv, aad)
      case Err => Err
      case Ok(c) =>
        if |c| != CipherLen(s.su, plain) then Err
        else
          var packet := aad + [FirstType(ps), 0] + PutU16(4 + |iv| + |c| + s.su.Icv()) + iv + c;
          var sealed := WithMac(s.su, s.keys.ai, packet);
          if |sealed| % U32_SIZE != hdr.length then Err else Ok(sealed)
  }

  /** The ciphertext in front of its ICV, once the ICV has been checked over everything before it. */
  function CheckMac(su: Suite, key: Bytes, data: Bytes, from: nat, to: nat): Result<Bytes>
    requires from <= to <= |data|
  {
    if !su.Macs() then Ok(data[from..to])
    else if to - from < su.icvSize then Err
    else
      var end := to - su.icvSize;
      if su.mac(key, data[..end]) != data[end..to] then Err else Ok(data[from..end])
  }

  /** The SK branch of `decryptAndParse`. */
  function OpenSk(su: Suite, keys: Keys, data: Bytes): Result<seq<Payload>>
    requires |data| >= HEADER_LEN
  {
    if |data| < 32 then Err
    else
      var n := GetU16(data[30..32]);
      // a length below four is a slice error in the source
      if 28 + n > |data| || n < 4 then Err
      else if n - 4 < su.ivSize then Err
      else
        var start := 32 + su.ivSize;
        match CheckMac(su, keys.ar, data, start, 28 + n)
        case Err => Err
        case Ok(c) =>
          match su.dec(c, keys.er, data[32..start], data[..HEADER_LEN])
          case Err => Err
          case Ok(padded) =>
            match Unpad(su, padded)
            case Err => Err
            case Ok(plain) => LenientWalk(plain, data[HEADER_LEN])
  }

  lemma SealedLayout(aad: Bytes, next: Byte, n: nat, iv: Bytes, c: Bytes, icv: Bytes)
    requires |aad| == HEADER_LEN && n == 4 + |iv| + |c| + |icv| < U16_SIZE
    ensures var body := aad + [next, 0] + PutU16(n) + iv + c;
      var d := body + icv;
      && d[28] == next && GetU16(d[30..32]) == n && |d| == 28 + n
      && d[32..32 + |iv|] == iv && d[..28] == aad
      && d[32 + |iv|..32 + |iv| + |c|] == c
      && d[..32 + |iv| + |c|] == body && d[32 + |iv| + |c|..28 + n] == icv
  {
    hide PutU16, GetU16;
    var body := aad + [next, 0] + PutU16(n) + iv + c;
    assert (body + icv)[30..32] == PutU16(n);
    U16RoundTrip(n);
  }

  /** Opening what the layout describes: the MAC matches, the cipher inverts, the padding comes off. */
  lemma OpensSealed(su: Suite, keys: Keys, aad: Bytes, next: Byte, iv: Bytes, c: Bytes, plain: Bytes)
    requires su.Laws() && |iv| == su.ivSize && |aad| == HEADER_LEN
    requires 4 + |iv| + |c| + su.Icv() < U16_SIZE
    requires su.dec(c, keys.er, iv, aad) == Ok(Pad(su, plain))
    ensures var body := aad + [next, 0] + PutU16(4 + |iv| + |c| + su.Icv()) + iv + c;
      OpenSk(su, keys, WithMac(su, keys.ar, body)) == LenientWalk(plain, next)
  {
    hide PutU16, GetU16, Pad, Unpad, LenientWalk;
    var n := 4 + |iv| + |c| + su.Icv();
    var body := aad + [next, 0] + PutU16(n) + iv + c;
    var icv := if su.Macs() then su.mac(keys.ar, body) else [];
    SealedLayout(aad, next, n, iv, c, icv);
    assert WithMac(su, keys.ar, body) == body + icv;
    PadRoundTrip(su, plain);
  }

  /** What a successful seal produced. */
  lemma SealedForm(s: Sender, ps: seq<Payload>, exchange: Byte, msgId: nat, response: bool, iv: Bytes)
    requires AllEncodable(ps) && s.su.Laws() && Seal(s, ps, exchange, msgId, response, iv).Ok?
    ensures var plain := Pad(s.su, EncChain(ps));
      var len := HEADER_LEN + 4 + |iv| + CipherLen(s.su, plain) + s.su.Icv();
      var hdr := SealHeader(s, SK, exchange, response, msgId, len);
      var aad := EncHeader(hdr);
      && s.su.enc(plain, s.keys.ei, iv, aad).Ok?
      && var c := s.su.enc(plain, s.keys.ei, iv, aad).value;
      && |c| == CipherLen(s.su, plain)
      && s.su.dec(c, s.keys.ei, iv, aad) == Ok(plain)
      && Seal(s, ps, exchange, msgId, response, iv).value
         == WithMac(s.su, s.keys.ai, aad + [FirstType(ps), 0] + PutU16(4 + |iv| + |c| + s.su.Icv()) + iv + c)
  {
    hide Pad, EncChain, EncHeader, PutU16, WithMac;
  }

  /** Sealing succeeds exactly when the cipher accepts the padded text under the header as associated data. */
  lemma SealsExactly(s: Sender, ps: seq<Payload>, exchange: Byte, msgId: nat, response: bool, iv: Bytes)
    requires AllEncodable(ps) && s.su.Laws()
    ensures var plain := Pad(s.su, EncChain(ps));
      var len := 32 + |iv| + CipherLen(s.su, plain) + s.su.Icv();
      var aad := EncHeader(SealHeader(s, SK, exchange, response, msgId, len));
      Seal(s, ps, exchange, msgId, response, iv).Ok? <==> s.su.enc(plain, s.keys.ei, iv, aad).Ok?
  {
    hide Pad, EncChain, EncHeader, PutU16;
  }

  predicate SenderWellFormed(s: Sender, msgId: nat) {
    s.spiI < U64_SIZE && s.spiR < U64_SIZE && msgId < U32_SIZE
  }

  /** The envelope's 16-bit length: whether the sealed contents fit. */
  predicate Fits(su: Suite, iv: Bytes, ps: seq<Payload>)
    requires AllEncodable(ps)
  {
    4 + |iv| + CipherLen(su, Pad(su, EncChain(ps))) + su.Icv() < U16_SIZE
  }

  /** The header of a sealed packet names its message ID, its type, and its own length. */
  lemma SealedHead(s: Sender, ps: seq<Payload>, exchange: Byte, msgId: nat, response: bool, iv: Bytes)
    requires s.su.Laws() && AllEncodable(ps) && SenderWellFormed(s, msgId) && Fits(s.su, iv, ps)
    requires Seal(s, ps, exchange, msgId, response, iv).Ok?
    ensures var packet := Seal(s, ps, exchange, msgId, response, iv).value;
      && DecHeader(packet).Ok? && |packet| >= HEADER_LEN
      && var h := DecHeader(packet).value; h.msgId == msgId && h.next == SK && h.length == |packet|
  {
    hide Seal, Pad, EncChain, EncHeader, DecHeader, PutU16;
    var len := HEADER_LEN + 4 + |iv| + CipherLen(s.su, Pad(s.su, EncChain(ps))) + s.su.Icv();
    var hdr := SealHeader(s, SK, exchange, response, msgId, len);
    SealedForm(s, ps, exchange, msgId, response, iv);
    var packet := Seal(s, ps, exchange, msgId, response, iv).value;
    assert packet == EncHeader(hdr) + packet[HEADER_LEN..];
    HeaderRoundTrip(hdr, packet[HEADER_LEN..]);
  }

  /** The peer with mirrored keys walks the very chain that was sealed. */
  lemma SealedOpens(s: Sender, ps: seq<Payload>, exchange: Byte, msgId: nat, response: bool, iv: Bytes)
    requires s.su.Laws() && AllEncodable(ps) && |iv| == s.su.ivSize && Fits(s.su, iv, ps)
    requires Seal(s, ps, exchange, msgId, response, iv).Ok?
    requires |Seal(s, ps, exchange, msgId, response, iv).value| >= HEADER_LEN
    ensures OpenSk(s.su, s.keys.Mirrored(), Seal(s, ps, exchange, msgId, response, iv).value)
         == LenientWalk(EncChain(ps), FirstType(ps))
  {
    hide Seal, OpenSk, Pad, EncChain, EncHeader, PutU16, LenientWalk;
    var plain := Pad(s.su, EncChain(ps));
    var len := HEADER_LEN + 4 + |iv| + CipherLen(s.su, plain) + s.su.Icv();
    var aad := EncHeader(SealHeader(s, SK, exchange, response, msgId, len));
    SealedForm(s, ps, exchange, msgId, response, iv);
    var c := s.su.enc(plain, s.keys.ei, iv, aad).value;
    OpensSealed(s.su, s.keys.Mirrored(), aad, FirstType(ps), iv, c, EncChain(ps));
  }

  /**
   Envelope round trip: what one side seals, the peer with mirrored keys opens to the same payloads and
   message ID, for any payload list that fits, including the empty one.
   */
  lemma EnvelopeRoundTrip(s: Sender, ps: seq<Payload>, exchange: Byte, msgId: nat, response: bool, iv: Bytes)
    requires s.su.Laws() && AllWellFormed(ps) && SenderWellFormed(s, msgId) && |iv| == s.su.ivSize && Fits(s.su, iv, ps)
    requires Seal(s, ps, exchange, msgId, response, iv).Ok?
    ensures var packet := Seal(s, ps, exchange, msgId, response, iv).value;
      && DecHeader(packet).Ok? && DecHeader(packet).value.msgId == msgId && DecHeader(packet).value.next == SK
      && DecHeader(packet).value.length == |packet|
      && OpenSk(s.su, s.keys.Mirrored(), packet) == Ok(NormAll(ps))
  {
    hide Seal, OpenSk, EncChain, DecHeader, NormAll, StrictWalk, LenientWalk, Fits;
    SealedHead(s, ps, exchange, msgId, response, iv);
    SealedOpens(s, ps, exchange, msgId, response, iv);
    ChainRoundTrip(ps);
    WalkersAgree(EncChain(ps), FirstType(ps));
  }

  // ---------- what the MAC protects ----------

  /** A checked ICV is the MAC of everything in front of it. */
  lemma CheckedMac(su: Suite, key: Bytes, data: Bytes, from: nat, to: nat)
    requires from <= to <= |data| && su.Macs()
    ensures CheckMac(su, key, data, from, to).Ok?
      <==> from + su.icvSize <= to && data[to - su.icvSize..to] == su.mac(key, data[..to - su.icvSize])
  {
  }

  /**
   No datagram is opened under CBC and HMAC unless the last bytes of what its SK payload covers are the MAC of
   everything before them, from the first byte of the header on.
   */
  lemma OpenChecksMac(su: Suite, keys: Keys, d: Bytes)
    requires !su.aead && su.integ && |d| >= HEADER_LEN && OpenSk(su, keys, d).Ok?
    ensures |d| >= 32
    ensures var end := 28 + GetBE(d[30..32]);
      && 32 + su.ivSize + su.icvSize <= end <= |d|
      && d[end - su.icvSize..end] == su.mac(keys.ar, d[..end - su.icvSize])
  {
    hide GetU16, GetBE, CheckMac, Unpad, LenientWalk;
    U16IsBigEndian(0, d[30..32]);
    var end := 28 + GetU16(d[30..32]);
    CheckedMac(su, keys.ar, d, 32 + su.ivSize, end);
  }

  /** Before its ICV is looked at, a packet opens to what lies behind the check. */
  lemma OpensIfChecked(su: Suite, keys: Keys, d: Bytes, d': Bytes)
    requires su.Macs() && su.icvSize <= |d| == |d'| && d[..|d| - su.icvSize] == d'[..|d| - su.icvSize]
    requires 32 + su.ivSize + su.icvSize <= |d| == 28 + GetU16(d[30..32])
    requires d[|d| - su.icvSize..] == su.mac(keys.ar, d[..|d| - su.icvSize])
    ensures OpenSk(su, keys, d')
         == if d'[|d| - su.icvSize..] == d[|d| - su.icvSize..] then OpenSk(su, keys, d) else Err
  {
    hide GetU16, Unpad, LenientWalk;
    var end := |d| - su.icvSize;
    assert d'[30..32] == d'[..end][30..32] && d[30..32] == d[..end][30..32];
    assert d[end..|d|] == d[end..] && d'[end..|d|] == d'[end..];
    if d'[end..] == d[end..] {
      assert d == d[..end] + d[end..] && d' == d'[..end] + d'[end..];
    }
  }

  /**
   A sealed packet on the wire, CBC or AEAD: the header, the generic payload header, the IV, the ciphertext bound to
   the header, and with a separate MAC the ICV over everything before it.
   */
  lemma SealedWire(s: Sender, ps: seq<Payload>, exchange: Byte, msgId: nat, response: bool, iv: Bytes)
    requires s.su.Laws() && AllEncodable(ps) && SenderWellFormed(s, msgId) && Fits(s.su, iv, ps)
    requires Seal(s, ps, exchange, msgId, response, iv).Ok?
    ensures var d, n := Seal(s, ps, exchange, msgId, response, iv).value, 32 + |iv|;
      && var end := |d| - (if !s.su.aead && s.su.integ then s.su.icvSize else 0);
      && n <= end
      && GetBE(d[..8]) == s.spiI && GetBE(d[8..16]) == s.spiR
      && d[16] == 46 && d[17] == 0x20 && d[18] == exchange && d[19] == (if response then 0x28 else 0x08)
      && GetBE(d[20..24]) == msgId && GetBE(d[24..28]) == |d|
      && d[28] == FirstType(ps) && GetBE(d[30..32]) == |d| - 28 && d[32..n] == iv
      && s.su.enc(Pad(s.su, EncChain(ps)), s.keys.ei, iv, d[..28]) == Ok(d[n..end])
      && (!s.su.aead && s.su.integ ==> d[end..] == s.su.mac(s.keys.ai, d[..end]))
  {
    hide Seal, Pad, EncChain, EncHeader, PutU16, GetU16, GetBE;
    var len := HEADER_LEN + 4 + |iv| + CipherLen(s.su, Pad(s.su, EncChain(ps))) + s.su.Icv();
    var hdr := SealHeader(s, SK, exchange, response, msgId, len);
    SealedForm(s, ps, exchange, msgId, response, iv);
    var d := Seal(s, ps, exchange, msgId, response, iv).value;
    var c := s.su.enc(Pad(s.su, EncChain(ps)), s.keys.ei, iv, EncHeader(hdr)).value;
    var body := EncHeader(hdr) + [FirstType(ps), 0] + PutU16(len - 28) + iv + c;
    SealedLayout(EncHeader(hdr), FirstType(ps), len - 28, iv, c, d[|body|..]);
    assert d == body + d[|body|..];
    HeaderWire(hdr, d[HEADER_LEN..]);
    assert d == EncHeader(hdr) + d[HEADER_LEN..];
    U16IsBigEndian(0, d[30..32]);
  }

  /**
   A sealed packet whose ICV is replaced by other bytes of its length: the peer opens it to the payloads if and only
   if those bytes are the MAC of the rest.
   */
  lemma SealedAcceptsExactly(s: Sender, ps: seq<Payload>, exchange: Byte, msgId: nat, response: bool, iv: Bytes,
                             icv: Bytes)
    requires s.su.Laws() && AllWellFormed(ps) && SenderWellFormed(s, msgId) && |iv| == s.su.ivSize && Fits(s.su, iv, ps)
    requires Seal(s, ps, exchange, msgId, response, iv).Ok? && !s.su.aead && s.su.integ && |icv| == s.su.icvSize
    ensures var d := Seal(s, ps, exchange, msgId, response, iv).value;
      && |d| >= HEADER_LEN + s.su.icvSize && var body := d[..|d| - s.su.icvSize];
      OpenSk(s.su, s.keys.Mirrored(), body + icv) == if icv == s.su.mac(s.keys.ai, body) then Ok(NormAll(ps)) else Err
  {
    hide Seal, Pad, EncChain, DecHeader, OpenSk, GetBE, GetU16, Fits, NormAll, FirstType;
    EnvelopeRoundTrip(s, ps, exchange, msgId, response, iv);
    SealedWire(s, ps, exchange, msgId, response, iv);
    var d := Seal(s, ps, exchange, msgId, response, iv).value;
    var body := d[..|d| - s.su.icvSize];
    U16IsBigEndian(0, d[30..32]);
    OpensIfChecked(s.su, s.keys.Mirrored(), d, body + icv);
  }
}
