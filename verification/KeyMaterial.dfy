/**
 IKE key material: prf+ of section 2.13 of RFC 7296, the layout of the seven keys for initial and rekeyed
 SAs, and what encrypting with a key that is a slice of that material does to its neighbours.
 */
module KeyMaterial {
  import opened Bytes

  type PrfFn = (Bytes, Bytes) -> Bytes

  const MAX_BLOCKS := 254

  /** A pseudo-random function with a fixed, non-empty output. */
  ghost predicate Prf(prf: PrfFn, h: nat) {
    h > 0 && forall k: Bytes, d: Bytes :: |prf(k, d)| == h
  }

  /** T1 = prf(K, S | 1), Tn = prf(K, Tn-1 | S | n). */
  function T(prf: PrfFn, key: Bytes, seed: Bytes, n: nat): Bytes
    requires n > 0
  {
    if n == 1 then prf(key, seed + [1]) else prf(key, T(prf, key, seed, n - 1) + seed + [n % 256])
  }

  /** T1 | T2 | ... | Tn. */
  function Stream(prf: PrfFn, key: Bytes, seed: Bytes, n: nat): Bytes {
    if n == 0 then [] else Stream(prf, key, seed, n - 1) + T(prf, key, seed, n)
  }

  lemma {:induction false} StreamLength(prf: PrfFn, h: nat, key: Bytes, seed: Bytes, n: nat)
    requires Prf(prf, h)
    ensures |Stream(prf, key, seed, n)| == n * h
  {
    if n == 0 {
    } else {
      StreamLength(prf, h, key, seed, n - 1);
      assert |T(prf, key, seed, n)| == h;
      assert n * h == (n - 1) * h + h;
    }
  }

  lemma {:induction false} StreamExtends(prf: PrfFn, key: Bytes, seed: Bytes, m: nat, n: nat)
    requires m <= n
    ensures Stream(prf, key, seed, m) <= Stream(prf, key, seed, n)
  {
    if m >= n {
    } else {
      StreamExtends(prf, key, seed, m, n - 1);
    }
  }

  /** The recursive definition: the first `total` bytes of the stream, of which the source can use 254 blocks. */
  function PrfPlus(prf: PrfFn, h: nat, key: Bytes, seed: Bytes, total: nat): Result<Bytes>
    requires Prf(prf, h)
  {
    if total > MAX_BLOCKS * h then Err
    else
      StreamLength(prf, h, key, seed, MAX_BLOCKS);
      Ok(Stream(prf, key, seed, MAX_BLOCKS)[..total])
  }

  /** It succeeds exactly up to 254 outputs, and a shorter output is a prefix of a longer one. */
  lemma PrfPlusPrefix(prf: PrfFn, h: nat, key: Bytes, seed: Bytes, short: nat, long: nat)
    requires Prf(prf, h) && short <= long
    ensures PrfPlus(prf, h, key, seed, long).Ok? <==> long <= 254 * h
    ensures PrfPlus(prf, h, key, seed, long).Ok? ==>
      && PrfPlus(prf, h, key, seed, short).Ok?
      && |PrfPlus(prf, h, key, seed, short).value| == short
      && PrfPlus(prf, h, key, seed, short).value <= PrfPlus(prf, h, key, seed, long).value
  {
    hide Stream;
    StreamLength(prf, h, key, seed, MAX_BLOCKS);
  }

  /** Any number of blocks that is enough gives the same result. */
  lemma PrfPlusFrom(prf: PrfFn, h: nat, key: Bytes, seed: Bytes, total: nat, n: nat)
    requires Prf(prf, h) && n <= MAX_BLOCKS && |Stream(prf, key, seed, n)| >= total
    ensures PrfPlus(prf, h, key, seed, total) == Ok(Stream(prf, key, seed, n)[..total])
  {
    hide Stream;
    StreamExtends(prf, key, seed, n, MAX_BLOCKS);
    StreamLength(prf, h, key, seed, MAX_BLOCKS);
    var a, b := Stream(prf, key, seed, n), Stream(prf, key, seed, MAX_BLOCKS);
    assert a[..total] == b[..total];
  }

  lemma StreamStart(prf: PrfFn, key: Bytes, seed: Bytes)
    ensures Stream(prf, key, seed, 0) == []
  {
  }

  lemma NextBlock(prf: PrfFn, key: Bytes, seed: Bytes, n: nat)
    requires 1 <= n <= 255
    ensures Stream(prf, key, seed, n) == Stream(prf, key, seed, n - 1) + T(prf, key, seed, n)
    ensures T(prf, key, seed, n)
         == if n == 1 then prf(key, seed + [n]) else prf(key, T(prf, key, seed, n - 1) + seed + [n])
  {
  }

  lemma BlockBounds(h: nat, n: nat)
    requires n >= 1
    ensures 0 <= (n - 1) * h && (n - 1) * h + h == n * h
  {
  }

  /** The `n`-th `h` bytes, counting from one. */
  function BlockOf(r: Bytes, h: nat, n: nat): Bytes
    requires n >= 1 && n * h <= |r|
  {
    BlockBounds(h, n);
    r[(n - 1) * h..n * h]
  }

  lemma BlockOfPrefix(a: Bytes, b: Bytes, h: nat, n: nat)
    requires a <= b && n >= 1 && n * h <= |a|
    ensures BlockOf(a, h, n) == BlockOf(b, h, n)
  {
    var x, y := (n - 1) * h, n * h;
    BlockBounds(h, n);
    assert a[x..y] == b[..|a|][x..y] == b[x..y];
  }

  lemma StreamBlock(prf: PrfFn, h: nat, key: Bytes, seed: Bytes, n: nat)
    requires Prf(prf, h) && 1 <= n && n * h <= |Stream(prf, key, seed, n)|
    ensures BlockOf(Stream(prf, key, seed, n), h, n) == T(prf, key, seed, n)
  {
    hide T;
    StreamLength(prf, h, key, seed, n - 1);
    StreamLength(prf, h, key, seed, n);
  }

  lemma MoreBlocks(h: nat, m: nat, n: nat)
    requires h > 0 && m < n
    ensures m * h + h <= n * h
  {
    assert (n - m - 1) * h >= 0;
  }

  /** A block of the result is the block of the stream with its number. */
  lemma ResultBlock(prf: PrfFn, h: nat, key: Bytes, seed: Bytes, total: nat, n: nat)
    requires Prf(prf, h) && PrfPlus(prf, h, key, seed, total).Ok? && n >= 1 && n * h <= total
    ensures n <= MAX_BLOCKS && |PrfPlus(prf, h, key, seed, total).value| == total
    ensures BlockOf(PrfPlus(prf, h, key, seed, total).value, h, n) == T(prf, key, seed, n)
  {
    hide Stream, T, BlockOf;
    if n > MAX_BLOCKS {
      MoreBlocks(h, MAX_BLOCKS, n);
    }
    var r, whole, upTo := PrfPlus(prf, h, key, seed, total).value, Stream(prf, key, seed, MAX_BLOCKS),
                          Stream(prf, key, seed, n);
    StreamLength(prf, h, key, seed, MAX_BLOCKS);
    StreamLength(prf, h, key, seed, n);
    StreamExtends(prf, key, seed, n, MAX_BLOCKS);
    StreamBlock(prf, h, key, seed, n);
    BlockOfPrefix(r, whole, h, n);
    BlockOfPrefix(upTo, whole, h, n);
  }

  /**
   prf+ of section 2.13 of RFC 7296: every block of the result is the PRF of the block before it, of which the first
   has none, then the seed, then the block's number.
   */
  lemma PrfPlusBlocks(prf: PrfFn, h: nat, key: Bytes, seed: Bytes, total: nat, n: nat)
    requires Prf(prf, h) && PrfPlus(prf, h, key, seed, total).Ok? && n >= 1 && n * h <= total
    ensures var r := PrfPlus(prf, h, key, seed, total).value;
      && |r| == total && n < 256
      && (n == 1 ==> BlockOf(r, h, 1) == prf(key, seed + [1]))
      && (n > 1 ==> (n - 1) * h <= total && BlockOf(r, h, n) == prf(key, BlockOf(r, h, n - 1) + seed + [n]))
  {
    hide PrfPlus, T, BlockOf;
    ResultBlock(prf, h, key, seed, total, n);
    NextBlock(prf, key, seed, n);
    if n > 1 {
      BlockBounds(h, n);
      ResultBlock(prf, h, key, seed, total, n - 1);
    }
  }

  /** The loop of `PrfPlus`: it gives up once the block counter passes 255, so a 255th block is never used. */
  method PrfPlusLoop(prf: PrfFn, ghost h: nat, key: Bytes, seed: Bytes, total: nat) returns (r: Result<Bytes>)
    requires Prf(prf, h)
    ensures r == PrfPlus(prf, h, key, seed, total)
  {
    hide Stream, T, PrfPlus;
    var result: Bytes := [];
    var last: Bytes := [];
    var blockIndex: nat := 1;
    StreamStart(prf, key, seed);
    while |result| < total
      invariant 1 <= blockIndex <= 255
      invariant result == Stream(prf, key, seed, blockIndex - 1)
      invariant blockIndex > 1 ==> last == T(prf, key, seed, blockIndex - 1)
      decreases 256 - blockIndex
    {
      NextBlock(prf, key, seed, blockIndex);
      if blockIndex == 1 {
        last := prf(key, seed + [blockIndex % 256]);
      } else {
        last := prf(key, last + seed + [blockIndex % 256]);
      }
      result := result + last;
      blockIndex := blockIndex + 1;
      if blockIndex > 255 {
        StreamLength(prf, h, key, seed, MAX_BLOCKS);
        PrfPlusPrefix(prf, h, key, seed, total, total);
        return Err;
      }
    }
    PrfPlusFrom(prf, h, key, seed, total, blockIndex - 1);
    return Ok(result[..total]);
  }

  // ---------- the seven keys ----------

  datatype IkeKeys = IkeKeys(d: Bytes, ai: Bytes, ar: Bytes, ei: Bytes, er: Bytes, pi: Bytes, pr: Bytes) {
    function Joined(): Bytes {
      d + ai + ar + ei + er + pi + pr
    }
  }

  /** Key sizes of a negotiated suite: PRF, integrity, and encryption with its salt. */
  datatype Sizes = Sizes(prf: nat, integ: nat, enc: nat) {
    function Total(): nat {
      3 * prf + 2 * integ + 2 * enc
    }
  }

  /** What negotiation has set: the PRF's key length, and the key sizes of the cipher and the MAC, if any. */
  datatype Negotiated = Negotiated(aead: bool, prfLen: nat, encLen: Option<nat>, integLen: Option<nat>)

  /**
   An AEAD suite has a 4-byte salt behind each encryption key and no integrity keys. A missing cipher is an
   error, and so is a missing MAC that the suite needs.
   */
  function SizesOf(n: Negotiated): (r: Result<Sizes>)
    ensures r.Ok? <==> n.encLen.Some? && (n.aead || n.integLen.Some?)
    ensures r.Ok? && n.aead ==> r.value.integ == 0 && r.value.enc == n.encLen.value + 4
    ensures r.Ok? && !n.aead ==> r.value.integ == n.integLen.value && r.value.enc == n.encLen.value
  {
    if n.encLen.None? then Err
    else if n.aead then Ok(Sizes(n.prfLen, 0, n.encLen.value + 4))
    else if n.integLen.None? then Err
    else Ok(Sizes(n.prfLen, n.integLen.value, n.encLen.value))
  }

  /** The keys are the material, in the order SK_d, SK_ai, SK_ar, SK_ei, SK_er, SK_pi, SK_pr, each of its own size. */
  predicate Partition(k: IkeKeys, z: Sizes, mat: Bytes) {
    && k.Joined() == mat
    && |k.d| == z.prf && |k.pi| == z.prf && |k.pr| == z.prf
    && |k.ai| == z.integ && |k.ar| == z.integ
    && |k.ei| == z.enc && |k.er| == z.enc
  }

  lemma SplitOff(a: Bytes, x: Bytes, b: Bytes, y: Bytes)
    requires a + x == b + y && |x| == |y|
    ensures a == b && x == y
  {
    assert a == (a + x)[..|a|] && b == (b + y)[..|b|];
    assert x == (a + x)[|a|..] && y == (b + y)[|b|..];
  }

  /** A partition is unique: two derivations that partition the same material agree on every key. */
  lemma PartitionUnique(a: IkeKeys, b: IkeKeys, z: Sizes, mat: Bytes)
    requires Partition(a, z, mat) && Partition(b, z, mat)
    ensures a == b
  {
    SplitOff(a.d + a.ai + a.ar + a.ei + a.er + a.pi, a.pr, b.d + b.ai + b.ar + b.ei + b.er + b.pi, b.pr);
    SplitOff(a.d + a.ai + a.ar + a.ei + a.er, a.pi, b.d + b.ai + b.ar + b.ei + b.er, b.pi);
    SplitOff(a.d + a.ai + a.ar + a.ei, a.er, b.d + b.ai + b.ar + b.ei, b.er);
    SplitOff(a.d + a.ai + a.ar, a.ei, b.d + b.ai + b.ar, b.ei);
    SplitOff(a.d + a.ai, a.ar, b.d + b.ai, b.ar);
    SplitOff(a.d, a.ai, b.d, b.ai);
  }

  lemma Adjoin(mat: Bytes, c: nat, e: nat)
    requires c <= e <= |mat|
    ensures mat[..c] + mat[c..e] == mat[..e]
  {
  }

  lemma Pieces(mat: Bytes, a: nat, b: nat, c: nat, d: nat, e: nat, f: nat)
    requires a <= b <= c <= d <= e <= f <= |mat|
    ensures mat[..a] + mat[a..b] + mat[b..c] + mat[c..d] + mat[d..e] + mat[e..f] + mat[f..] == mat
  {
    Adjoin(mat, a, b);
    Adjoin(mat, b, c);
    Adjoin(mat, c, d);
    Adjoin(mat, d, e);
    Adjoin(mat, e, f);
  }

  /** The keys by their positions: SK_d, SK_ai, SK_ar, SK_ei, SK_er, SK_pi and SK_pr one behind the other. */
  lemma PartitionExactly(k: IkeKeys, z: Sizes, mat: Bytes)
    requires |mat| == 3 * z.prf + 2 * z.integ + 2 * z.enc
    ensures var ai, ar := z.prf, z.prf + z.integ;
      var ei, er := ar + z.integ, ar + z.integ + z.enc;
      var pi, pr := er + z.enc, er + z.enc + z.prf;
      Partition(k, z, mat)
      <==> k == IkeKeys(mat[..ai], mat[ai..ar], mat[ar..ei], mat[ei..er], mat[er..pi], mat[pi..pr], mat[pr..])
  {
    var ai, ar := z.prf, z.prf + z.integ;
    var ei, er := ar + z.integ, ar + z.integ + z.enc;
    var pi, pr := er + z.enc, er + z.enc + z.prf;
    Pieces(mat, ai, ar, ei, er, pi, pr);
    var q := IkeKeys(mat[..ai], mat[ai..ar], mat[ar..ei], mat[ei..er], mat[er..pi], mat[pi..pr], mat[pr..]);
    assert Partition(q, z, mat);
    if Partition(k, z, mat) {
      PartitionUnique(k, q, z, mat);
    }
  }

  /** The next `n` bytes at the cursor, behind what has been taken before. */
  method Take(mat: Bytes, ghost taken: Bytes, cursor: nat, n: nat) returns (key: Bytes, next: nat)
    requires cursor + n <= |mat| && taken == mat[..cursor]
    ensures |key| == n && next == cursor + n && taken + key == mat[..next]
  {
    Adjoin(mat, cursor, cursor + n);
    key, next := mat[cursor..cursor + n], cursor + n;
  }

  /** Cutting the material with a moving cursor, as both derivations do. */
  method CutKeys(mat: Bytes, z: Sizes) returns (k: IkeKeys)
    requires |mat| == z.Total()
    ensures Partition(k, z, mat)
  {
    var cursor := 0;
    var d, c0 := Take(mat, [], cursor, z.prf);
    var ai, ar: Bytes := [], [];
    cursor := c0;
    if z.integ > 0 {
      ai, cursor := Take(mat, d, cursor, z.integ);
      ar, cursor := Take(mat, d + ai, cursor, z.integ);
    }
    assert d + ai + ar == mat[..cursor] && cursor == z.prf + 2 * z.integ;
    var ei, er, pi, pr;
    ei, cursor := Take(mat, d + ai + ar, cursor, z.enc);
    er, cursor := Take(mat, d + ai + ar + ei, cursor, z.enc);
    pi, cursor := Take(mat, d + ai + ar + ei + er, cursor, z.prf);
    pr, cursor := Take(mat, d + ai + ar + ei + er + pi, cursor, z.prf);
    assert mat[..cursor] == mat;
    k := IkeKeys(d, ai, ar, ei, er, pi, pr);
  }

  /** What a derivation starts from. */
  datatype Exchange = Exchange(dhSecret: Option<Bytes>, ni: Bytes, nr: Bytes, spiI: nat, spiR: nat)

  /** The common tail of both derivations: prf+ of SKEYSEED over Ni | Nr | SPIi | SPIr. */
  method ExpandKeys(prf: PrfFn, ghost h: nat, skeyseed: Bytes, x: Exchange, z: Sizes) returns (r: Result<IkeKeys>)
    requires Prf(prf, h)
    ensures r.Ok? <==> z.Total() <= 254 * h
    ensures r.Ok? ==>
      var mat := PrfPlus(prf, h, skeyseed, x.ni + x.nr + PutBE(x.spiI, 8) + PutBE(x.spiR, 8), z.Total());
      mat.Ok? && Partition(r.value, z, mat.value)
  {
    hide Stream;
    var seed := x.ni + x.nr + (PutBE(x.spiI, 8) + PutBE(x.spiR, 8));
    assert seed == x.ni + x.nr + PutBE(x.spiI, 8) + PutBE(x.spiR, 8);
    PrfPlusPrefix(prf, h, skeyseed, seed, z.Total(), z.Total());
    var mat := PrfPlusLoop(prf, h, skeyseed, seed, z.Total());
    if mat.Err? { return Err; }
    var k := CutKeys(mat.value, z);
    return Ok(k);
  }

  /**
   `GenerateIKESAKeys`: the seven keys partition prf+ of SKEYSEED = prf(Ni | Nr, g^ir); what is missing is an error.
   */
  method GenerateInitialKeys(prf: PrfFn, ghost h: nat, x: Exchange, n: Negotiated) returns (r: Result<IkeKeys>)
    requires Prf(prf, h)
    ensures r.Ok? <==> x.dhSecret.Some? && SizesOf(n).Ok? && SizesOf(n).value.Total() <= 254 * h
    ensures r.Ok? ==>
      var skeyseed := prf(x.ni + x.nr, x.dhSecret.value);
      var spiSeed := x.ni + x.nr + PutBE(x.spiI, 8) + PutBE(x.spiR, 8);
      var mat := PrfPlus(prf, h, skeyseed, spiSeed, SizesOf(n).value.Total());
      mat.Ok? && Partition(r.value, SizesOf(n).value, mat.value)
  {
    hide PrfPlus, Partition;
    if x.dhSecret.None? { return Err; }
    var z := SizesOf(n);
    if z.Err? { return Err; }
    r := ExpandKeys(prf, h, prf(x.ni + x.nr, x.dhSecret.value), x, z.value);
  }

  /**
   `GenerateIKESARekeyKeys`: the same layout, from SKEYSEED = prf(SK_d of the old SA, g^ir | Ni | Nr); empty inputs are
   refused.
   */
  method GenerateRekeyKeys(prf: PrfFn, ghost h: nat, oldSkD: Bytes, x: Exchange, n: Negotiated)
    returns (r: Result<IkeKeys>)
    requires Prf(prf, h)
    ensures r.Ok? <==> oldSkD != [] && x.dhSecret.Some? && x.dhSecret.value != [] && SizesOf(n).Ok?
                       && SizesOf(n).value.Total() <= 254 * h
    ensures r.Ok? ==>
      var skeyseed := prf(oldSkD, x.dhSecret.value + x.ni + x.nr);
      var spiSeed := x.ni + x.nr + PutBE(x.spiI, 8) + PutBE(x.spiR, 8);
      var mat := PrfPlus(prf, h, skeyseed, spiSeed, SizesOf(n).value.Total());
      mat.Ok? && Partition(r.value, SizesOf(n).value, mat.value)
  {
    hide PrfPlus, Partition;
    if |oldSkD| == 0 || x.dhSecret.None? || |x.dhSecret.value| == 0 { return Err; }
    var z := SizesOf(n);
    if z.Err? { return Err; }
    r := ExpandKeys(prf, h, prf(oldSkD, x.dhSecret.value + x.ni + x.nr), x, z.value);
  }

  // ---------- keys that share one buffer ----------

  /**
   The GCM nonce is built by appending the IV to the salt, which is the tail of a key that is itself a slice
   of the key material. While the material has capacity behind the key, the append overwrites it.
   */
  method GcmNonce(mat: array<Byte>, end: nat, iv: Bytes) returns (nonce: Bytes)
    requires 4 <= end <= mat.Length
    modifies mat
    ensures nonce == old(mat[end - 4..end]) + iv
    ensures mat[..] == if end + |iv| <= mat.Length
                       then old(mat[..end]) + iv + old(mat[end + |iv|..]) else old(mat[..])
  {
    nonce := mat[end - 4..end] + iv;
    if end + |iv| <= mat.Length {
      for i := 0 to |iv|
        invariant forall j :: 0 <= j < mat.Length ==> mat[j] == if end <= j < end + i then iv[j - end] else old(mat[j])
      {
        mat[end + i] := iv[i];
      }
    }
  }

  /**
   Encrypting under SK_ei leaves the seven keys as they were if and only if the IV happens to equal the
   first eight bytes of SK_er: the IV replaces them, and no other key changes.
   */
  lemma GcmEncryptKeepsKeysExactly(k: IkeKeys, k': IkeKeys, z: Sizes, mat: Bytes, mat': Bytes, iv: Bytes)
    requires |iv| == 8 && z.integ == 0 && z.enc >= 8
    requires Partition(k, z, mat) && Partition(k', z, mat')
    requires var end := z.prf + z.enc; mat' == mat[..end] + iv + mat[end + 8..]
    ensures k' == k.(er := iv + k.er[8..])
    ensures k' == k <==> iv == k.er[..8]
  {
    var q := k.(er := iv + k.er[8..]);
    var end := z.prf + z.enc;
    assert k.d + k.ai + k.ar + k.ei == mat[..end];
    assert mat == k.d + k.ei + k.er + k.pi + k.pr;
    assert mat[end + 8..] == k.er[8..] + k.pi + k.pr;
    assert q.Joined() == mat';
    PartitionUnique(k', q, z, mat');
    assert (iv + k.er[8..])[..8] == iv;
    assert k.er == k.er[..8] + k.er[8..];
  }

  /**
   Decrypting under SK_er does the same to the first eight bytes of SK_pi, so the keys survive exactly when
   the received IV equals them.
   */
  lemma GcmDecryptKeepsKeysExactly(k: IkeKeys, k': IkeKeys, z: Sizes, mat: Bytes, mat': Bytes, iv: Bytes)
    requires |iv| == 8 && z.integ == 0 && z.prf >= 8
    requires Partition(k, z, mat) && Partition(k', z, mat')
    requires var end := z.prf + 2 * z.enc; mat' == mat[..end] + iv + mat[end + 8..]
    ensures k' == k.(pi := iv + k.pi[8..])
    ensures k' == k <==> iv == k.pi[..8]
  {
    var q := k.(pi := iv + k.pi[8..]);
    var end := z.prf + 2 * z.enc;
    assert k.d + k.ai + k.ar + k.ei + k.er == mat[..end];
    assert mat == k.d + k.ei + k.er + k.pi + k.pr;
    assert mat[end + 8..] == k.pi[8..] + k.pr;
    assert q.Joined() == mat';
    PartitionUnique(k', q, z, mat');
    assert (iv + k.pi[8..])[..8] == iv;
    assert k.pi == k.pi[..8] + k.pi[8..];
  }
}
