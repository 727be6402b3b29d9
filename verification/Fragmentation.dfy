/**
 Sending fragments (section 2.5 of RFC 7383): when to fragment, how the serialised payload chain is cut,
 what bytes each fragment really carries, and how one fragment is built and opened again.
 */
module Fragmentation {
  import opened Bytes
  import opened IkePayload
  import opened IkePacket
  import opened Envelope
  import opened FragmentBuffer

  const OVERHEAD := 64
  const MAX_FRAGMENTS := 255
  const MTU_MIN := 500
  const MTU_MAX := 1280

  // ---------- path MTU ----------

  /** The reaction to an ICMP "fragmentation needed" event: only lower, and never below 500. */
  function PmtuEvent(mtu: nat, reported: nat): nat {
    if reported < mtu && reported >= MTU_MIN then reported else mtu
  }

  function Pmtu(events: seq<nat>): nat {
    if events == [] then MTU_MAX else PmtuEvent(Pmtu(events[..|events| - 1]), events[|events| - 1])
  }

  /** After any series of events the MTU is the default or the smallest usable report so far. */
  lemma {:induction false} PmtuRange(events: seq<nat>)
    ensures 500 <= Pmtu(events) <= 1280
    ensures Pmtu(events) == 1280 || Pmtu(events) in events
    ensures forall i :: 0 <= i < |events| && events[i] >= 500 ==> Pmtu(events) <= events[i]
  {
    if events == [] {
    } else {
      PmtuRange(events[..|events| - 1]);
    }
  }

  // ---------- cutting ----------

  /** The ICV space reserved per fragment. */
  function Reserve(su: Suite): nat {
    if su.aead then 16 else su.Icv()
  }

  /** Bytes of text per fragment; not positive when the MTU is too small. */
  function PerFragment(su: Suite, mtu: nat): int {
    var room := mtu - OVERHEAD - su.ivSize - Reserve(su);
    if !su.aead && su.blockSize > 0 then room - su.blockSize else room
  }

  function NumFragments(len: nat, per: nat): nat
    requires per > 0
  {
    (len + per - 1) / per
  }

  /** The size `shouldFragment` expects of a single SK packet. */
  function Estimate(su: Suite, len: nat): nat {
    32 + su.ivSize + len + Reserve(su)
  }

  /** `shouldFragment` on a chain of `len` bytes, when the peer supports fragmentation. */
  predicate ShouldFragment(su: Suite, mtu: nat, len: nat) {
    Estimate(su, len) > mtu
  }

  /** What it does not count: the IP and UDP headers, and the padding of a block cipher with its length byte. */
  function NotCounted(su: Suite, len: nat): nat {
    28 + if su.aead || su.blockSize == 0 then 0 else PadLen(len, su.blockSize) + 1
  }

  /**
   A message sent unfragmented fits the path exactly when the estimate and what it leaves out do together; so one
   that passes the estimate exceeds the MTU by at most 28 bytes and, with a block cipher, one block.
   */
  lemma SealFitsExactly(s: Sender, mtu: nat, ps: seq<Payload>, exchange: Byte, msgId: nat, response: bool, iv: Bytes)
    requires AllEncodable(ps) && s.su.Laws() && |iv| == s.su.ivSize
    requires Seal(s, ps, exchange, msgId, response, iv).Ok?
    ensures var size, len := |Seal(s, ps, exchange, msgId, response, iv).value| + 28, |EncChain(ps)|;
      && (ShouldFragment(s.su, mtu, len)
          <==> mtu < 32 + |iv| + len + if s.su.aead then 16 else if s.su.integ then s.su.icvSize else 0)
      && (size <= mtu <==> Estimate(s.su, len) + NotCounted(s.su, len) <= mtu)
      && (!ShouldFragment(s.su, mtu, len) ==> size <= mtu + 28 + if s.su.aead then 0 else s.su.blockSize)
  {
    hide EncChain, EncHeader, PutU16, PadLen;
    SealedForm(s, ps, exchange, msgId, response, iv);
    PadLenBound(|EncChain(ps)|, s.su.blockSize);
  }

  function MinNat(a: nat, b: nat): nat {
    if a < b then a else b
  }

  function Chunk(inner: Bytes, per: nat, i: nat): Bytes
    requires per > 0 && i * per <= |inner|
  {
    inner[i * per..MinNat((i + 1) * per, |inner|)]
  }

  lemma MulMonotone(a: nat, b: nat, m: nat)
    requires a <= b
    ensures a * m <= b * m
  {
  }

  lemma StartInside(len: nat, per: nat, i: nat)
    requires per > 0 && i < NumFragments(len, per)
    ensures i * per < len
  {
    var n := NumFragments(len, per);
    var x := len + per - 1;
    assert x == per * n + x % per;
    assert i * per + per == (i + 1) * per;
    MulMonotone(i + 1, n, per);
    assert n * per == per * n;
  }

  lemma EndReached(len: nat, per: nat)
    requires per > 0
    ensures len <= NumFragments(len, per) * per
  {
    var x := len + per - 1;
    assert x == per * (x / per) + x % per;
    assert NumFragments(len, per) * per == per * (x / per);
  }

  function Chunks(inner: Bytes, per: nat): (cs: seq<Bytes>)
    requires per > 0
    ensures |cs| == NumFragments(|inner|, per)
  {
    seq(NumFragments(|inner|, per), i requires 0 <= i < NumFragments(|inner|, per) =>
      StartInside(|inner|, per, i); Chunk(inner, per, i))
  }

  lemma ConcatNone(pieces: seq<Bytes>)
    requires pieces == []
    ensures Concat(pieces) == []
  {
  }

  lemma {:induction false} ChunksPrefix(inner: Bytes, per: nat, k: nat)
    requires per > 0 && k <= NumFragments(|inner|, per)
    ensures Concat(Chunks(inner, per)[..k]) == inner[..MinNat(k * per, |inner|)]
  {
    hide Concat;
    if k == 0 {
      ConcatNone(Chunks(inner, per)[..0]);
    } else {
      StartInside(|inner|, per, k - 1);
      ChunksPrefix(inner, per, k - 1);
      var cs := Chunks(inner, per);
      assert cs[..k] == cs[..k - 1] + [cs[k - 1]];
      ConcatAppend(cs[..k - 1], cs[k - 1]);
      assert k * per == (k - 1) * per + per;
    }
  }

  /** The chunks, in order, are exactly the serialised chain. */
  lemma ChunksConcat(inner: Bytes, per: nat)
    requires per > 0
    ensures Concat(Chunks(inner, per)) == inner
  {
    var n := NumFragments(|inner|, per);
    ChunksPrefix(inner, per, n);
    EndReached(|inner|, per);
    assert Chunks(inner, per)[..n] == Chunks(inner, per);
  }

  /** The sizes a suite may have for the MTU range to leave room for text. */
  predicate Sized(su: Suite) {
    su.ivSize <= 16 && su.icvSize <= 32 && su.blockSize <= 16
  }

  lemma TwoChunks(len: nat, per: nat)
    requires 0 < per < len
    ensures NumFragments(len, per) >= 2
  {
    EndReached(len, per);
    if NumFragments(len, per) < 2 {
      MulMonotone(NumFragments(len, per), 1, per);
    }
  }

  /**
   Whenever the sender decides to fragment, cutting yields at least two chunks, none of them empty, for
   every MTU the events can leave.
   */
  lemma FragmentingCuts(su: Suite, mtu: nat, inner: Bytes)
    requires Sized(su) && MTU_MIN <= mtu <= MTU_MAX && ShouldFragment(su, mtu, |inner|)
    ensures PerFragment(su, mtu) > 0
    ensures NumFragments(|inner|, PerFragment(su, mtu)) >= 2
    ensures forall c :: c in Chunks(inner, PerFragment(su, mtu)) ==> 0 < |c| <= PerFragment(su, mtu)
  {
    var per: nat := PerFragment(su, mtu);
    TwoChunks(|inner|, per);
    forall i | 0 <= i < NumFragments(|inner|, per)
      ensures 0 < |Chunks(inner, per)[i]| <= per
    {
      StartInside(|inner|, per, i);
      assert (i + 1) * per == i * per + per;
    }
  }

  // ---------- the bytes a fragment really carries ----------

  /**
   In CBC mode the source pads a chunk by appending to a slice of the chain's own buffer. While the buffer
   has capacity, the padding lands on the bytes that follow the chunk, which open the next chunk. `cap` is
   that capacity: the byte at distance `k` after a full chunk is overwritten by the padding zeros, or by the
   length byte that ends them.
   */
  predicate Overwritten(pad: nat, cap: nat, start: nat, k: nat) {
    (k < pad && start + pad <= cap) || (k == pad && start + pad + 1 <= cap)
  }

  function PadByte(pad: nat, k: nat): Byte {
    if k < pad then 0 else pad % 256
  }

  /** Chunk `i` as it is encrypted, after the padding of chunk `i - 1` was written. */
  function SentChunk(su: Suite, inner: Bytes, cap: nat, per: nat, i: nat): (c: Bytes)
    requires per > 0 && i * per <= |inner|
    ensures |c| == |Chunk(inner, per, i)|
  {
    var c := Chunk(inner, per, i);
    if su.aead || su.blockSize == 0 || i == 0 then c
    else
      var pad := PadLen(per, su.blockSize);
      seq(|c|, k requires 0 <= k < |c| => if Overwritten(pad, cap, i * per, k) then PadByte(pad, k) else c[k])
  }

  function Sent(su: Suite, inner: Bytes, cap: nat, per: nat): (cs: seq<Bytes>)
    requires per > 0
    ensures |cs| == NumFragments(|inner|, per)
  {
    seq(NumFragments(|inner|, per), i requires 0 <= i < NumFragments(|inner|, per) =>
      StartInside(|inner|, per, i); SentChunk(su, inner, cap, per, i))
  }

  /** The chain already holds, after every cut, the padding bytes that will be written there. */
  ghost predicate PaddingHarmless(su: Suite, inner: Bytes, cap: nat, per: nat)
    requires per > 0 && su.blockSize > 0
  {
    var pad := PadLen(per, su.blockSize);
    forall i, k ::
      (&& 0 < i < NumFragments(|inner|, per) && 0 <= k <= pad
       && i * per + k < |inner| && Overwritten(pad, cap, i * per, k))
      ==> inner[i * per + k] == PadByte(pad, k)
  }

  /** With an AEAD suite the fragments carry exactly the chunks. */
  lemma AeadSendsChunks(su: Suite, inner: Bytes, cap: nat, per: nat)
    requires per > 0 && su.aead
    ensures Sent(su, inner, cap, per) == Chunks(inner, per)
    ensures Concat(Sent(su, inner, cap, per)) == inner
  {
    ChunksConcat(inner, per);
  }

  lemma {:induction false} ConcatInjective(a: seq<Bytes>, b: seq<Bytes>)
    requires |a| == |b| && forall i :: 0 <= i < |a| ==> |a[i]| == |b[i]|
    ensures Concat(a) == Concat(b) ==> a == b
  {
    if a != [] && Concat(a) == Concat(b) {
      assert a[0] == Concat(a)[..|a[0]|] && b[0] == Concat(b)[..|b[0]|];
      assert Concat(a[1..]) == Concat(a)[|a[0]|..] && Concat(b[1..]) == Concat(b)[|b[0]|..];
      ConcatInjective(a[1..], b[1..]);
      assert a == [a[0]] + a[1..] && b == [b[0]] + b[1..];
    }
  }

  lemma HarmlessChunk(su: Suite, inner: Bytes, cap: nat, per: nat, i: nat)
    requires per > 0 && !su.aead && 0 < su.blockSize <= per && PaddingHarmless(su, inner, cap, per)
    requires i < NumFragments(|inner|, per)
    ensures i * per <= |inner| && SentChunk(su, inner, cap, per, i) == Chunk(inner, per, i)
  {
    hide PadLen;
    StartInside(|inner|, per, i);
    var c, d := Chunk(inner, per, i), SentChunk(su, inner, cap, per, i);
    forall k | 0 <= k < |c| ensures d[k] == c[k] {
      assert c[k] == inner[i * per + k];
    }
  }

  lemma ChunkHarmless(su: Suite, inner: Bytes, cap: nat, per: nat, i: nat, k: nat)
    requires per > 0 && !su.aead && 0 < su.blockSize <= per && 0 < i < NumFragments(|inner|, per)
    requires i * per <= |inner| && SentChunk(su, inner, cap, per, i) == Chunk(inner, per, i)
    requires k <= PadLen(per, su.blockSize) && i * per + k < |inner|
    requires Overwritten(PadLen(per, su.blockSize), cap, i * per, k)
    ensures inner[i * per + k] == PadByte(PadLen(per, su.blockSize), k)
  {
    hide PadLen;
    PadLenBound(per, su.blockSize);
    var c, d := Chunk(inner, per, i), SentChunk(su, inner, cap, per, i);
    assert (i + 1) * per == i * per + per;
    assert c[k] == inner[i * per + k];
    assert d[k] == c[k];
  }

  /**
   With a block cipher the fragments carry the serialised chain if and only if the chain happens to hold
   the padding bytes after every cut: the padding is written into the next chunk before it is sent.
   */
  lemma CbcSendsChainExactly(su: Suite, inner: Bytes, cap: nat, per: nat)
    requires per > 0 && !su.aead && 0 < su.blockSize <= per && cap >= |inner|
    ensures Concat(Sent(su, inner, cap, per)) == inner <==> PaddingHarmless(su, inner, cap, per)
  {
    hide SentChunk, Chunk, Concat, PadLen, PadByte, Overwritten;
    var sent, cut, pad := Sent(su, inner, cap, per), Chunks(inner, per), PadLen(per, su.blockSize);
    forall i | 0 <= i < |cut| ensures |sent[i]| == |cut[i]| {
      StartInside(|inner|, per, i);
    }
    ChunksConcat(inner, per);
    ConcatInjective(sent, cut);
    if PaddingHarmless(su, inner, cap, per) {
      forall i | 0 <= i < |cut| ensures sent[i] == cut[i] {
        HarmlessChunk(su, inner, cap, per, i);
      }
    }
    if sent == cut {
      forall i, k | 0 < i < |cut| && 0 <= k <= pad && i * per + k < |inner| && Overwritten(pad, cap, i * per, k)
        ensures inner[i * per + k] == PadByte(pad, k)
      {
        StartInside(|inner|, per, i);
        assert sent[i] == cut[i];
        ChunkHarmless(su, inner, cap, per, i, k);
      }
    }
  }

  /** A chain on which it fails: any chain whose byte at the first cut is not the first padding byte. */
  lemma CbcCorrupts(su: Suite, inner: Bytes, cap: nat, per: nat)
    requires per > 0 && !su.aead && 0 < su.blockSize <= per && cap >= |inner| && |inner| > per + su.blockSize
    requires inner[per] != PadByte(PadLen(per, su.blockSize), 0)
    ensures Concat(Sent(su, inner, cap, per)) != inner
  {
    hide Sent, Concat, PadByte, PadLen;
    PadLenBound(per, su.blockSize);
    CbcSendsChainExactly(su, inner, cap, per);
    TwoChunks(|inner|, per);
    var pad := PadLen(per, su.blockSize);
    assert inner[1 * per + 0] != PadByte(pad, 0) && Overwritten(pad, cap, 1 * per, 0);
  }
}
