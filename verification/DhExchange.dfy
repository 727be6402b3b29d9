/** Finite-field Diffie-Hellman over the MODP groups 2 and 14, with fixed-width encodings. */
module DhExchange {
  import opened Bytes
  import Routes

  // ---------- powers ----------

  function Pow(b: nat, e: nat): nat {
    if e == 0 then 1 else b * Pow(b, e - 1)
  }

  /** `big.Int.Exp`. */
  function Exp(b: nat, e: nat, m: nat): (r: nat)
    requires m > 0
    ensures r < m
  {
    Pow(b, e) % m
  }

  lemma MulAssociates(x: nat, y: nat, z: nat)
    ensures x * (y * z) == (x * y) * z
  {
  }

  lemma {:induction false} PowAdd(b: nat, i: nat, j: nat)
    ensures Pow(b, i + j) == Pow(b, i) * Pow(b, j)
  {
    if i == 0 {
      assert Pow(b, 0) * Pow(b, j) == Pow(b, j);
    } else {
      PowAdd(b, i - 1, j);
      assert Pow(b, i + j) == b * Pow(b, i - 1 + j);
      MulAssociates(b, Pow(b, i - 1), Pow(b, j));
    }
  }

  /** What makes a power: none is one, one is the base, and exponents add. */
  lemma Powers(b: nat, i: nat, j: nat)
    ensures Pow(b, 0) == 1 && Pow(b, 1) == b && Pow(b, i + j) == Pow(b, i) * Pow(b, j)
  {
    assert Pow(b, 1) == b * Pow(b, 0);
    PowAdd(b, i, j);
  }

  lemma {:induction false} PowMul(b: nat, i: nat, j: nat)
    ensures Pow(Pow(b, i), j) == Pow(b, i * j)
  {
    if j == 0 {
      assert i * j == 0;
    } else {
      PowMul(b, i, j - 1);
      assert i * j == i + i * (j - 1);
      PowAdd(b, i, i * (j - 1));
    }
  }

  lemma MulSplit(m: nat, q: nat, r: nat, t: nat, s: nat)
    ensures (m * q + r) * (m * t + s) == m * (q * (m * t + s) + r * t) + r * s
  {
    var y := m * t + s;
    assert (m * q + r) * y == m * q * y + r * y;
    assert r * y == r * (m * t) + r * s == m * (r * t) + r * s;
    assert m * q * y == m * (q * y);
  }

  lemma MulMod(x: nat, y: nat, m: nat)
    requires m > 0
    ensures (x * y) % m == ((x % m) * (y % m)) % m
  {
    var r, s := x % m, y % m;
    var q, t := x / m, y / m;
    var low := r * s;
    MulSplit(m, q, r, t, s);
    assert x == m * q + r && y == m * t + s;
    assert low == m * (low / m) + low % m;
    var k := q * y + r * t;
    assert m * k + m * (low / m) == m * (k + low / m);
    ModUnique(x * y, m, k + low / m, low % m);
  }

  lemma SameResidue(b: nat, u: nat, v: nat, m: nat)
    requires m > 0 && u % m == v % m
    ensures ((b % m) * u) % m == (b * v) % m
  {
    var r := b % m;
    ModUnique(r, m, 0, r);
    MulMod(r, u, m);
    MulMod(b, v, m);
  }

  /** A power of a residue is the residue of the power. */
  lemma {:induction false} PowOfResidue(b: nat, e: nat, m: nat)
    requires m > 0
    ensures Pow(b % m, e) % m == Pow(b, e) % m
  {
    if e == 0 {
    } else {
      PowOfResidue(b, e - 1, m);
      SameResidue(b, Pow(b % m, e - 1), Pow(b, e - 1), m);
    }
  }

  /** The two orders of exponentiation meet. */
  lemma ExpCommutes(g: nat, a: nat, b: nat, m: nat)
    requires m > 0
    ensures Exp(Exp(g, a, m), b, m) == Exp(Exp(g, b, m), a, m)
  {
    PowOfResidue(Pow(g, a), b, m);
    PowOfResidue(Pow(g, b), a, m);
    PowMul(g, a, b);
    PowMul(g, b, a);
    assert a * b == b * a;
  }

  // ---------- fixed-width encodings ----------

  /** `big.Int.Bytes`: no leading zero bytes. */
  function MinBytes(x: nat): Bytes {
    if x == 0 then [] else MinBytes(x / 256) + [x % 256]
  }

  /** `(P.BitLen() + 7) / 8`. */
  function KeyLen(p: nat): nat {
    (Routes.BitLen(p) + 7) / 8
  }

  lemma {:induction false} BitLenBelow(x: nat, k: nat)
    requires x < Pow2(k)
    ensures Routes.BitLen(x) <= k
  {
    if k > 0 && x > 0 {
      BitLenBelow(x / 2, k - 1);
    }
  }

  lemma BitLenOfByte(x: nat)
    requires 0 < x < 256
    ensures 1 <= Routes.BitLen(x) <= 8
  {
    assert x / 2 / 2 / 2 / 2 / 2 / 2 / 2 / 2 == 0;
    BitLenBelow(x, 8);
  }

  lemma BitLenPerByte(x: nat)
    requires x >= 256
    ensures Routes.BitLen(x) == 8 + Routes.BitLen(x / 256)
  {
    var a, b, c, d := x / 2, x / 4, x / 8, x / 16;
    assert Routes.BitLen(x) == 1 + Routes.BitLen(a) && a / 2 == b && b / 2 == c && c / 2 == d;
    assert Routes.BitLen(a) == 3 + Routes.BitLen(d) by {
      assert Routes.BitLen(a) == 1 + Routes.BitLen(b);
      assert Routes.BitLen(b) == 1 + Routes.BitLen(c);
    }
    var e, f, g, h := d / 2, d / 4, d / 8, d / 16;
    assert Routes.BitLen(d) == 1 + Routes.BitLen(e) && e / 2 == f && f / 2 == g && g / 2 == h;
    assert Routes.BitLen(e) == 3 + Routes.BitLen(h) by {
      assert Routes.BitLen(e) == 1 + Routes.BitLen(f);
      assert Routes.BitLen(f) == 1 + Routes.BitLen(g);
    }
    assert h == x / 256;
  }

  /** `KeyLen` is the number of bytes the modulus needs. */
  lemma {:induction false} KeyLenIsWidth(p: nat)
    requires p > 0
    ensures KeyLen(p) > 0 && Radix(KeyLen(p) - 1) <= p < Radix(KeyLen(p))
    decreases p
  {
    if p < 256 {
      BitLenOfByte(p);
      assert Radix(1) == 256 * Radix(0);
    } else {
      BitLenPerByte(p);
      KeyLenIsWidth(p / 256);
      assert KeyLen(p) == KeyLen(p / 256) + 1;
    }
  }

  lemma {:induction false} ZeroBytes(n: nat)
    ensures PutBE(0, n) == Zeros(n)
  {
    if n == 0 {
    } else {
      ZeroBytes(n - 1);
    }
  }

  /** Left-padding the shortest encoding with zeros is the fixed-width encoding. */
  lemma {:induction false} LeftPadded(x: nat, n: nat)
    requires x < Radix(n)
    ensures |MinBytes(x)| <= n
    ensures Zeros(n - |MinBytes(x)|) + MinBytes(x) == PutBE(x, n)
  {
    if x == 0 {
      ZeroBytes(n);
      assert Zeros(n) + MinBytes(0) == Zeros(n);
    } else {
      LeftPadded(x / 256, n - 1);
      var zeros := Zeros(n - |MinBytes(x)|);
      assert zeros + (MinBytes(x / 256) + [x % 256]) == (zeros + MinBytes(x / 256)) + [x % 256];
    }
  }

  lemma EncodesExactly(v: nat, w: nat)
    requires v < Radix(w)
    ensures GetBE(PutBE(v, w)) == v
  {
    hide PutBE, GetBE, Radix;
    BERoundTrip(v, w);
    ModUnique(v, Radix(w), 0, v);
  }

  /** The left-padding both encoders do, for a value below the modulus. */
  method FixedWidth(x: nat, p: nat) returns (b: Bytes)
    requires x < p
    ensures b == PutBE(x, KeyLen(p)) && GetBE(b) == x
  {
    hide MinBytes, KeyLen, PutBE, GetBE, Radix;
    KeyLenIsWidth(p);
    LeftPadded(x, KeyLen(p));
    EncodesExactly(x, KeyLen(p));
    var keyLen := KeyLen(p);
    b := MinBytes(x);
    if |b| < keyLen {
      b := Zeros(keyLen - |b|) + b;
    }
  }

  // ---------- the exchange ----------

  /** The range check on a peer's public value. */
  predicate InRange(p: nat, y: nat) {
    1 < y && y + 1 < p
  }

  /** What `ComputeSharedSecret` returns. */
  function Secret(p: nat, x: nat, peer: Bytes): Result<Bytes>
    requires p > 0
  {
    var y := GetBE(peer);
    if InRange(p, y) then Ok(PutBE(Exp(y, x, p), KeyLen(p))) else Err
  }

  function Public(p: nat, g: nat, x: nat): Bytes
    requires p > 0
  {
    PutBE(Exp(g, x, p), KeyLen(p))
  }

  lemma PublicDecodes(p: nat, g: nat, x: nat)
    requires p > 0
    ensures GetBE(Public(p, g, x)) == Exp(g, x, p) && |Public(p, g, x)| == KeyLen(p)
  {
    hide PutBE, GetBE, KeyLen, Exp;
    KeyLenIsWidth(p);
    EncodesExactly(Exp(g, x, p), KeyLen(p));
  }

  /** Exponentiating a public value gives the power of the product of both keys. */
  lemma ExpOfExp(g: nat, a: nat, b: nat, m: nat)
    requires m > 0
    ensures Exp(Exp(g, b, m), a, m) == Pow(g, a * b) % m
  {
    PowOfResidue(Pow(g, b), a, m);
    PowMul(g, b, a);
    assert a * b == b * a;
  }

  /**
   Two parties that use the same group: the public values denote the powers of the generator, each accepts the other
   exactly when that value lies strictly between 1 and p - 1, and when both do they hold the same secret: the
   generator to the product of both keys, exactly as wide as the modulus.
   */
  lemma Agreement(p: nat, g: nat, a: nat, b: nat)
    requires p > 0
    ensures GetBE(Public(p, g, b)) == Pow(g, b) % p
    ensures Secret(p, a, Public(p, g, b)).Ok? <==> 1 < Pow(g, b) % p < p - 1
    ensures Secret(p, a, Public(p, g, b)).Ok? && Secret(p, b, Public(p, g, a)).Ok? ==>
      var s := Secret(p, a, Public(p, g, b)).value;
      && Secret(p, b, Public(p, g, a)) == Ok(s)
      && GetBE(s) == Pow(g, a * b) % p && |s| == KeyLen(p)
      && Radix(KeyLen(p) - 1) <= p < Radix(KeyLen(p))
  {
    hide PutBE, GetBE, KeyLen, Pow, Radix;
    PublicDecodes(p, g, a);
    PublicDecodes(p, g, b);
    ExpCommutes(g, a, b, p);
    ExpOfExp(g, a, b, p);
    KeyLenIsWidth(p);
    EncodesExactly(Exp(Exp(g, b, p), a, p), KeyLen(p));
  }

  /** Keys are drawn from zero up, and the key zero gives a public value that every peer refuses. */
  lemma ZeroKeyIsRefused(p: nat, g: nat, x: nat)
    requires p > 1
    ensures Secret(p, x, Public(p, g, 0)) == Err
  {
    hide PutBE, GetBE, KeyLen;
    PublicDecodes(p, g, 0);
    ModUnique(1, p, 0, 1);
  }

  // ---------- the two groups ----------

  const PRIME_1024: seq<nat> := [
    0xFFFFFFFFFFFFFFFF, 0xC90FDAA22168C234, 0xC4C6628B80DC1CD1, 0x29024E088A67CC74,
    0x020BBEA63B139B22, 0x514A08798E3404DD, 0xEF9519B3CD3A431B, 0x302B0A6DF25F1437,
    0x4FE1356D6D51C245, 0xE485B576625E7EC6, 0xF44C42E9A637ED6B, 0x0BFF5CB6F406B7ED,
    0xEE386BFB5A899FA5, 0xAE9F24117C4B1FE6, 0x49286651ECE65381, 0xFFFFFFFFFFFFFFFF
  ]

  const PRIME_2048: seq<nat> := [
    0xFFFFFFFFFFFFFFFF, 0xC90FDAA22168C234, 0xC4C6628B80DC1CD1, 0x29024E088A67CC74,
    0x020BBEA63B139B22, 0x514A08798E3404DD, 0xEF9519B3CD3A431B, 0x302B0A6DF25F1437,
    0x4FE1356D6D51C245, 0xE485B576625E7EC6, 0xF44C42E9A637ED6B, 0x0BFF5CB6F406B7ED,
    0xEE386BFB5A899FA5, 0xAE9F24117C4B1FE6, 0x49286651ECE45B3D, 0xC2007CB8A163BF05,
    0x98DA48361C55D39A, 0x69163FA8FD24CF5F, 0x83655D23DCA3AD96, 0x1C62F356208552BB,
    0x9ED529077096966D, 0x670C354E4ABC9804, 0xF1746C08CA18217C, 0x32905E462E36CE3B,
    0xE39E772C180E8603, 0x9B2783A2EC07A28F, 0xB5C55DF06F4C52C9, 0xDE2BCBF695581718,
    0x3995497CEA956AE5, 0x15D2261898FA0510, 0x15728E5A8AACAA68, 0xFFFFFFFFFFFFFFFF
  ]

  /** The number written as 64-bit words, most significant first. */
  function FromWords(ws: seq<nat>): nat {
    if ws == [] then 0 else U64_SIZE * FromWords(ws[..|ws| - 1]) + ws[|ws| - 1]
  }

  predicate Words(ws: seq<nat>) {
    forall i :: 0 <= i < |ws| ==> ws[i] < U64_SIZE
  }

  lemma RadixOfWord(k: nat)
    ensures Radix(8 * (k + 1)) == U64_SIZE * Radix(8 * k)
  {
    var r := Radix(8 * k);
    assert Radix(8 * k + 2) == 256 * (256 * r);
    assert Radix(8 * k + 4) == 256 * (256 * Radix(8 * k + 2));
    assert Radix(8 * k + 6) == 256 * (256 * Radix(8 * k + 4));
    assert Radix(8 * k + 8) == 256 * (256 * Radix(8 * k + 6));
  }

  lemma {:induction false} WordsWidth(ws: seq<nat>)
    requires Words(ws) && |ws| > 0 && ws[0] >= U64_SIZE / 2
    ensures Radix(8 * |ws|) <= 2 * FromWords(ws)
    ensures FromWords(ws) < Radix(8 * |ws|)
  {
    var rest := ws[..|ws| - 1];
    RadixOfWord(|rest|);
    if |ws| == 1 {
      assert FromWords(rest) == 0;
      assert Radix(0) == 1;
    } else {
      WordsWidth(rest);
    }
  }

  lemma {:induction false} RadixMonotone(i: nat, j: nat)
    requires i <= j
    ensures Radix(i) <= Radix(j)
  {
    if i >= j {
    } else {
      RadixMonotone(i, j - 1);
    }
  }

  lemma KeyLenFrom(p: nat, w: nat)
    requires w > 0 && Radix(w - 1) <= p < Radix(w)
    ensures KeyLen(p) == w
  {
    hide KeyLen;
    KeyLenIsWidth(p);
    if KeyLen(p) < w {
      RadixMonotone(KeyLen(p), w - 1);
    } else if w < KeyLen(p) {
      RadixMonotone(w, KeyLen(p) - 1);
    }
  }

  function Modulus(group: nat): (p: Option<nat>)
    ensures p.Some? <==> group in {2, 14}
  {
    if group == 2 then Some(FromWords(PRIME_1024))
    else if group == 14 then Some(FromWords(PRIME_2048))
    else None
  }

  /** Group 2 exchanges 128 bytes, group 14 exchanges 256. */
  lemma GroupWidths(group: nat)
    requires Modulus(group).Some?
    ensures KeyLen(Modulus(group).value) == if group == 2 then 128 else 256
    ensures Modulus(group).value > 3
  {
    hide FromWords, KeyLen;
    var ws := if group == 2 then PRIME_1024 else PRIME_2048;
    WordsWidth(ws);
    var w := 8 * |ws|;
    assert Radix(w) == 256 * Radix(w - 1);
    assert Radix(w - 1) == 256 * Radix(w - 2);
    KeyLenFrom(FromWords(ws), w);
  }

  class DiffieHellman {
    const group: nat
    const p: nat
    const g: nat
    var privateKey: Option<nat>
    var publicKey: Option<nat>
    var sharedKey: Bytes

    /** Whenever a private key is present, the public key belongs to it. */
    ghost predicate Valid()
      reads this
    {
      && g == 2 && Modulus(group) == Some(p) && p > 3
      && (privateKey.Some? ==> publicKey == Some(Exp(g, privateKey.value, p)))
    }

    constructor (group: nat, p: nat)
      requires Modulus(group) == Some(p)
      ensures Valid() && this.group == group && this.p == p && g == 2 && privateKey == None && publicKey == None
    {
      this.group, this.p, g := group, p, 2;
      privateKey, publicKey, sharedKey := None, None, [];
      new;
      GroupWidths(group);
    }

    /** `NewDiffieHellman`: only two groups are known. */
    static method Create(group: nat) returns (dh: DiffieHellman?)
      ensures dh != null <==> group in {2, 14}
      ensures dh != null ==> fresh(dh) && dh.Valid() && dh.group == group && dh.privateKey == None
    {
      var p := Modulus(group);
      if p == None {
        return null;
      }
      dh := new DiffieHellman(group, p.value);
    }

    /** `GenerateKey`, with the draw of the random source; a failed draw leaves no private key. */
    method GenerateKey(draw: Option<nat>) returns (ok: bool)
      requires Valid() && (draw.Some? ==> draw.value < p)
      modifies this`privateKey, this`publicKey
      ensures Valid() && privateKey == draw && ok == draw.Some?
      ensures publicKey == if ok then Some(Pow(2, draw.value) % p) else old(publicKey)
    {
      privateKey := draw;
      if draw == None {
        return false;
      }
      publicKey := Some(Exp(g, draw.value, p));
      return true;
    }

    /** The secret is stored only when the peer's value passes the range check. */
    method ComputeSharedSecret(peer: Bytes) returns (r: Result<Bytes>)
      requires Valid() && (1 < GetBE(peer) < p - 1 ==> privateKey.Some?)
      modifies this`sharedKey
      ensures Valid() && (r.Ok? <==> 1 < GetBE(peer) < p - 1)
      ensures r.Ok? ==> r == Secret(p, privateKey.value, peer)
      ensures r.Ok? ==> |r.value| == KeyLen(p) && GetBE(r.value) == Pow(GetBE(peer), privateKey.value) % p
      ensures sharedKey == if r.Ok? then r.value else old(sharedKey)
    {
      var y := GetBE(peer);
      if y <= 1 || y >= p - 1 {
        return Err;
      }
      sharedKey := FixedWidth(Exp(y, privateKey.value, p), p);
      return Ok(sharedKey);
    }

    method PublicKeyBytes() returns (b: Bytes)
      requires Valid() && privateKey.Some?
      ensures b == Public(p, g, privateKey.value) && GetBE(b) == publicKey.value
    {
      b := FixedWidth(publicKey.value, p);
    }
  }
}
