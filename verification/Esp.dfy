/** ESP encapsulation and decapsulation (RFC 4303) for AEAD and CBC+HMAC suites, and the packet counter. */
module Esp {
  import opened Bytes
  import opened Envelope

  // ---------- padding ----------

  function PadLen(n: nat, block: nat): nat
    requires block > 0
  {
    if (n + 2) % block != 0 then block - (n + 2) % block else 0
  }

  /** The self-describing padding 1, 2, 3, ... */
  function Filler(n: nat): (b: Bytes)
    ensures |b| == n
  {
    seq(n, i requires 0 <= i < n => (i + 1) % 256)
  }

  /** The IP version of the inner packet decides the next-header byte. */
  function NextHeader(inner: Bytes): Byte {
    if inner == [] then 0
    else if inner[0] / 16 == 4 then 4
    else if inner[0] / 16 == 6 then 41
    else 0
  }

  function Padded(inner: Bytes, block: nat): Bytes
    requires block > 0
  {
    var n := PadLen(|inner|, block);
    inner + Filler(n) + [n % 256, NextHeader(inner)]
  }

  function Stripped(d: Bytes): Result<Bytes> {
    if |d| < 2 || |d| < 2 + d[|d| - 2] as int then Err else Ok(d[..|d| - 2 - d[|d| - 2] as int])
  }

  /** Padding aligns every inner packet to the block size and comes off again. */
  lemma PaddingRoundTrip(inner: Bytes, block: nat)
    requires 0 < block <= 256
    ensures Stripped(Padded(inner, block)) == Ok(inner)
    ensures |Padded(inner, block)| % block == 0
  {
    var n := PadLen(|inner|, block);
    var d := Padded(inner, block);
    assert d[|d| - 2] == n && d[..|inner|] == inner;
    var x := |inner| + 2;
    assert x == block * (x / block) + x % block;
    if x % block != 0 {
      assert x + n == block * (x / block + 1) + 0;
      ModUnique(x + n, block, x / block + 1, 0);
    }
  }

  // ---------- packets ----------

  /** The parts of a security association that packets depend on. */
  datatype Sa = Sa(spi: nat, su: Suite, encKey: Bytes, integKey: Bytes)

  function EspHeader(spi: nat, seqNum: nat): (b: Bytes)
    ensures |b| == 8
  {
    PutBE(spi, 4) + PutBE(seqNum, 4)
  }

  function Sealed(sa: Sa, seqNum: nat, data: Bytes, iv: Bytes): Result<Bytes> {
    var header := EspHeader(sa.spi, seqNum);
    match sa.su.enc(data, sa.encKey, iv, header)
    case Err => Err
    case Ok(c) => Ok(WithMac(sa.su, sa.integKey, header + iv + c))
  }

  /** `Decapsulate`: an association with SPI zero accepts any SPI. */
  function Decapsulate(sa: Sa, packet: Bytes): Result<Bytes> {
    var start := 8 + sa.su.ivSize;
    if |packet| < 8 then Err
    else if sa.spi != 0 && GetBE(packet[..4]) != sa.spi then Err
    else if |packet| < start then Err
    else match CheckMac(sa.su, sa.integKey, packet, start, |packet|)
      case Err => Err
      case Ok(c) =>
        match sa.su.dec(c, sa.encKey, packet[8..start], packet[..8])
        case Err => Err
        case Ok(data) => Stripped(data)
  }

  lemma EspLayout(header: Bytes, iv: Bytes, c: Bytes, icv: Bytes)
    requires |header| == 8
    ensures var body, d := header + iv + c, header + iv + c + icv;
      && |d| == 8 + |iv| + |c| + |icv|
      && d[..8] == header && d[8..8 + |iv|] == iv && d[8 + |iv|..8 + |iv| + |c|] == c
      && d[..8 + |iv| + |c|] == body && d[8 + |iv| + |c|..] == icv && d[8 + |iv| + |c|..|d|] == icv
      && d[..4] == header[..4]
  {
  }

  /**
   ESP round trip: whatever the inner packet, the association that holds the same keys, and the same SPI or
   none, decapsulates what the other encapsulated, in AEAD and in CBC+HMAC mode.
   */
  lemma EspRoundTrip(sa: Sa, peer: Sa, seqNum: nat, inner: Bytes, iv: Bytes)
    requires sa.su.Laws() && |iv| == sa.su.ivSize && sa.spi < U32_SIZE
    requires peer == sa.(spi := peer.spi) && (peer.spi == 0 || peer.spi == sa.spi)
    requires Sealed(sa, seqNum, Padded(inner, sa.su.blockSize), iv).Ok?
    ensures Decapsulate(peer, Sealed(sa, seqNum, Padded(inner, sa.su.blockSize), iv).value) == Ok(inner)
  {
    hide Padded, Stripped, PutBE, GetBE, Radix;
    var data := Padded(inner, sa.su.blockSize);
    var header := EspHeader(sa.spi, seqNum);
    var c := sa.su.enc(data, sa.encKey, iv, header).value;
    var icv := if sa.su.Macs() then sa.su.mac(sa.integKey, header + iv + c) else [];
    EspLayout(header, iv, c, icv);
    assert Sealed(sa, seqNum, data, iv).value == header + iv + c + icv;
    PaddingRoundTrip(inner, sa.su.blockSize);
    RadixValues();
    BERoundTrip(sa.spi, 4);
    assert header[..4] == PutBE(sa.spi, 4);
  }

  /** What is encrypted: the inner packet, the bytes 1, 2, 3, ..., their number, and the next-header byte. */
  lemma PaddedBytes(inner: Bytes, block: nat)
    requires 0 < block <= 256
    ensures var d, n := Padded(inner, block), |Padded(inner, block)| - |inner| - 2;
      && 0 <= n < block && d[..|inner|] == inner
      && (forall i :: |inner| <= i < |inner| + n ==> d[i] == i - |inner| + 1)
      && d[|d| - 2] == n
      && d[|d| - 1] == (if inner != [] && inner[0] / 16 == 4 then 4
                        else if inner != [] && inner[0] / 16 == 6 then 41 else 0)
  {
  }

  /** A packet on the wire: SPI, sequence number, IV, ciphertext bound to the first two, and the ICV of a MAC. */
  lemma EspWire(sa: Sa, seqNum: nat, data: Bytes, iv: Bytes)
    requires sa.su.Laws() && sa.spi < U32_SIZE && Sealed(sa, seqNum, data, iv).Ok?
    ensures var d, n := Sealed(sa, seqNum, data, iv).value, 8 + |iv|;
      && var end := |d| - (if !sa.su.aead && sa.su.integ then sa.su.icvSize else 0);
      && n <= end
      && GetBE(d[..4]) == sa.spi && GetBE(d[4..8]) == seqNum % U32_SIZE && d[8..n] == iv
      && sa.su.enc(data, sa.encKey, iv, d[..8]) == Ok(d[n..end])
      && (!sa.su.aead && sa.su.integ ==> d[end..] == sa.su.mac(sa.integKey, d[..end]))
  {
    hide PutBE, GetBE, Radix;
    var header := EspHeader(sa.spi, seqNum);
    var c := sa.su.enc(data, sa.encKey, iv, header).value;
    var d := Sealed(sa, seqNum, data, iv).value;
    EspLayout(header, iv, c, d[8 + |iv| + |c|..]);
    assert d == header + iv + c + d[8 + |iv| + |c|..];
    RadixValues();
    BERoundTrip(sa.spi, 4);
    BERoundTrip(seqNum, 4);
    assert d[..4] == PutBE(sa.spi, 4) && d[4..8] == PutBE(seqNum, 4);
  }

  /** Encapsulation succeeds exactly when the cipher accepts the padded packet under the eight header bytes. */
  lemma SealsExactly(sa: Sa, seqNum: nat, data: Bytes, iv: Bytes)
    ensures Sealed(sa, seqNum, data, iv).Ok?
      <==> sa.su.enc(data, sa.encKey, iv, PutBE(sa.spi, 4) + PutBE(seqNum, 4)).Ok?
  {
  }

  /** Nothing is decapsulated under CBC and HMAC unless the last bytes are the MAC of everything before them. */
  lemma DecapsulateChecksMac(sa: Sa, d: Bytes)
    requires !sa.su.aead && sa.su.integ && Decapsulate(sa, d).Ok?
    ensures 8 + sa.su.ivSize + sa.su.icvSize <= |d|
    ensures var end := |d| - sa.su.icvSize; d[end..] == sa.su.mac(sa.integKey, d[..end])
    ensures sa.spi != 0 ==> GetBE(d[..4]) == sa.spi
  {
    hide GetBE, CheckMac, Stripped;
    CheckedMac(sa.su, sa.integKey, d, 8 + sa.su.ivSize, |d|);
  }

  lemma DecapsulatesIfChecked(sa: Sa, d: Bytes, d': Bytes)
    requires sa.su.Macs() && 8 + sa.su.ivSize + sa.su.icvSize <= |d| == |d'|
    requires d[..|d| - sa.su.icvSize] == d'[..|d| - sa.su.icvSize]
    requires d[|d| - sa.su.icvSize..] == sa.su.mac(sa.integKey, d[..|d| - sa.su.icvSize])
    ensures Decapsulate(sa, d')
         == if d'[|d| - sa.su.icvSize..] == d[|d| - sa.su.icvSize..] then Decapsulate(sa, d) else Err
  {
    hide GetBE, Stripped;
    var end := |d| - sa.su.icvSize;
    assert d[end..|d|] == d[end..] && d'[end..|d|] == d'[end..];
    if d'[end..] == d[end..] {
      assert d == d[..end] + d[end..] && d' == d'[..end] + d'[end..];
    }
  }

  /** A packet whose ICV is replaced is decapsulated if and only if the new bytes are the MAC of the rest. */
  lemma EspAcceptsExactly(sa: Sa, peer: Sa, seqNum: nat, inner: Bytes, iv: Bytes, icv: Bytes)
    requires sa.su.Laws() && |iv| == sa.su.ivSize && sa.spi < U32_SIZE
    requires peer == sa.(spi := peer.spi) && (peer.spi == 0 || peer.spi == sa.spi)
    requires Sealed(sa, seqNum, Padded(inner, sa.su.blockSize), iv).Ok?
    requires !sa.su.aead && sa.su.integ && |icv| == sa.su.icvSize
    ensures var d := Sealed(sa, seqNum, Padded(inner, sa.su.blockSize), iv).value;
      && |d| >= sa.su.icvSize && var body := d[..|d| - sa.su.icvSize];
      Decapsulate(peer, body + icv) == if icv == sa.su.mac(sa.integKey, body) then Ok(inner) else Err
  {
    hide Padded, Sealed, Decapsulate, GetBE;
    EspRoundTrip(sa, peer, seqNum, inner, iv);
    EspWire(sa, seqNum, Padded(inner, sa.su.blockSize), iv);
    var d := Sealed(sa, seqNum, Padded(inner, sa.su.blockSize), iv).value;
    DecapsulatesIfChecked(peer, d, d[..|d| - sa.su.icvSize] + icv);
  }

  lemma WrongKeyRefuses(sa: Sa, peer: Sa, seqNum: nat, text: Bytes, iv: Bytes)
    requires sa.su == peer.su && sa.su.aead && |iv| == sa.su.ivSize
    requires Sealed(peer, seqNum, text, iv).Ok? && Apart(sa.su, text, iv, peer.encKey, sa.encKey)
    ensures Decapsulate(sa, Sealed(peer, seqNum, text, iv).value) == Err
  {
    hide Stripped, PutBE, GetBE;
    var header := EspHeader(peer.spi, seqNum);
    var c := peer.su.enc(text, peer.encKey, iv, header).value;
    EspLayout(header, iv, c, []);
    assert header + iv + c + [] == header + iv + c;
  }

  /**
   The keys of the two directions are neighbours in one key material, the outbound one first. After an outbound
   AEAD packet the inbound association still has the peer's key if and only if the IV sent equals the first bytes
   of that key. Then it gives back what the peer sends; otherwise it refuses it, unless the altered key opens it.
   */
  lemma InboundAfterSending(inbound: Sa, peer: Sa, iv: Bytes, seqNum: nat, inner: Bytes, iv': Bytes)
    requires inbound.su.aead && inbound.su.Laws() && peer.spi < U32_SIZE
    requires inbound == peer.(spi := inbound.spi) && (inbound.spi == 0 || inbound.spi == peer.spi)
    requires |iv| == |iv'| == inbound.su.ivSize <= |inbound.encKey|
    requires Sealed(peer, seqNum, Padded(inner, peer.su.blockSize), iv').Ok?
    ensures var after := inbound.(encKey := AfterAppend(inbound.su, inbound.encKey, iv));
      var text := Padded(inner, peer.su.blockSize);
      var packet := Sealed(peer, seqNum, text, iv').value;
      && (after.encKey == peer.encKey <==> iv == inbound.encKey[..|iv|])
      && (iv == inbound.encKey[..|iv|] ==> Decapsulate(after, packet) == Ok(inner))
      && (iv != inbound.encKey[..|iv|] && Apart(peer.su, text, iv', peer.encKey, after.encKey) ==>
            Decapsulate(after, packet) == Err)
  {
    hide Padded, Sealed, Decapsulate, AfterAppend, Apart;
    var after := inbound.(encKey := AfterAppend(inbound.su, inbound.encKey, iv));
    var text := Padded(inner, peer.su.blockSize);
    AppendKeepsExactly(inbound.su, inbound.encKey, iv);
    EspRoundTrip(peer, inbound, seqNum, inner, iv');
    if iv != inbound.encKey[..|iv|] && Apart(peer.su, text, iv', peer.encKey, after.encKey) {
      WrongKeyRefuses(after, peer, seqNum, text, iv');
    }
  }

  // ---------- the packet counter ----------

  /** The 32-bit number of the `k`-th packet of an association, counting from one. */
  function SequenceOf(k: nat): nat {
    k % U64_SIZE % U32_SIZE
  }

  lemma SequenceWraps(k: nat)
    ensures SequenceOf(k) == k % U32_SIZE
  {
    var q := k / U64_SIZE;
    assert k == U64_SIZE * q + k % U64_SIZE;
    assert k == U32_SIZE * (U32_SIZE * q) + k % U64_SIZE;
  }

  /** Two packets carry the same number exactly when they are a multiple of 2^32 packets apart. */
  lemma SequenceRepeatsExactly(i: nat, j: nat)
    requires i <= j
    ensures SequenceOf(i) == SequenceOf(j) <==> (j - i) % U32_SIZE == 0
  {
    SequenceWraps(i);
    SequenceWraps(j);
  }

  /** In the first 2^32 - 1 packets no number repeats, and none is zero. */
  lemma SequenceFresh(i: nat, j: nat)
    requires 1 <= i < j < U32_SIZE
    ensures SequenceOf(i) != SequenceOf(j) && SequenceOf(i) != 0 && SequenceOf(j) != 0
  {
    SequenceRepeatsExactly(i, j);
    SequenceWraps(i);
    SequenceWraps(j);
  }

  /** The buffer that is encrypted: the packet, then the padding written byte by byte, then the two trailer bytes. */
  method PadBuffer(inner: Bytes, block: nat) returns (data: array<Byte>)
    requires block > 0
    ensures fresh(data) && data[..] == Padded(inner, block)
  {
    var size, padLen := |inner|, 0;
    if (size + 2) % block != 0 {
      padLen := block - (size + 2) % block;
    }
    assert padLen == PadLen(size, block);
    hide PadLen;
    data := new Byte[size + padLen + 2](i requires i >= 0 => if i < |inner| then inner[i] else 0);
    assert data[..size] == inner;
    for i := 0 to padLen
      invariant data[..size] == inner
      invariant data[size..size + i] == Filler(i)
    {
      data[size + i] := (i + 1) % 256;
      assert data[size..size + i + 1] == data[size..size + i] + [(i + 1) % 256];
    }
    data[size + padLen] := padLen % 256;
    data[size + padLen + 1] := NextHeader(inner);
    assert data[..] == data[..size] + data[size..size + padLen] + [data[size + padLen], data[size + padLen + 1]];
  }

  class SecurityAssociation {
    const sa: Sa
    /** The key material behind the encryption key: for an outbound association, the inbound key. */
    var behind: Bytes
    var sequenceNumber: nat
    ghost var sent: nat

    ghost predicate Valid()
      reads this
    {
      sa.su.blockSize > 0 && sequenceNumber == sent % U64_SIZE && (sa.su.aead ==> sa.su.ivSize <= |behind|)
    }

    constructor (params: Sa, next: Bytes)
      requires params.su.blockSize > 0 && (params.su.aead ==> params.su.ivSize <= |next|)
      ensures Valid() && sa == params && behind == next && sent == 0
    {
      sa, behind, sequenceNumber, sent := params, next, 0, 0;
    }

    /** `NextSequenceNumber`: an atomic 64-bit increment, of which the low half is used. */
    method NextSequenceNumber() returns (n: nat)
      requires Valid()
      modifies this`sequenceNumber, this`sent
      ensures Valid() && sent == old(sent) + 1 && n == SequenceOf(sent) == sent % 0x1_0000_0000
    {
      sequenceNumber := (sequenceNumber + 1) % U64_SIZE;
      sent := sent + 1;
      n := sequenceNumber % U32_SIZE;
      SequenceWraps(sent);
    }

    /**
     `Encapsulate`: every call consumes one number, and fills the padding in a fresh buffer. An AEAD suite leaves
     the IV in the key material behind its key.
     */
    method Encapsulate(inner: Bytes, iv: Bytes) returns (r: Result<Bytes>)
      requires Valid() && |iv| == sa.su.ivSize
      modifies this
      ensures Valid() && sent == old(sent) + 1
      ensures behind == if r.Ok? then AfterAppend(sa.su, old(behind), iv) else old(behind)
      ensures r == Sealed(sa, SequenceOf(sent), Padded(inner, sa.su.blockSize), iv)
    {
      hide Sealed, AfterAppend;
      var seqNum := NextSequenceNumber();
      var data := PadBuffer(inner, sa.su.blockSize);
      r := Sealed(sa, seqNum, data[..], iv);
      if r.Ok? {
        behind := AfterAppend(sa.su, behind, iv);
      }
    }
  }
}
