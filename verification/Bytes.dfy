/** Byte strings, the big-endian integers written into them, and the failure type shared by every decoder. */
module Bytes {

  type Byte = x: int | 0 <= x < 256
  type Bytes = seq<Byte>

  datatype Option<+T> = None | Some(value: T)

  datatype Result<+T> = Ok(value: T) | Err

  const U16_SIZE := 0x1_0000
  const U32_SIZE := 0x1_0000_0000
  const U64_SIZE := 0x1_0000_0000_0000_0000

  /** `binary.BigEndian.PutUint16` of `uint16(n)`: the value is truncated to 16 bits. */
  function PutU16(n: nat): (b: Bytes)
    ensures |b| == 2
  {
    [(n / 256) % 256, n % 256]
  }

  function GetU16(b: Bytes): (n: nat)
    requires |b| == 2
    ensures n < U16_SIZE
  {
    (b[0] as int) * 256 + b[1] as int
  }

  function Pow2(k: nat): (p: nat)
    ensures p > 0
  {
    if k == 0 then 1 else 2 * Pow2(k - 1)
  }

  /** 256 to the power `w`: the number of values that fit in `w` bytes. */
  function Radix(w: nat): (r: nat)
    ensures r > 0
  {
    if w == 0 then 1 else 256 * Radix(w - 1)
  }

  /** The low `w` bytes of `n`, most significant first. */
  function PutBE(n: nat, w: nat): (b: Bytes)
    ensures |b| == w
  {
    if w == 0 then [] else PutBE(n / 256, w - 1) + [n % 256]
  }

  /** The number a big-endian byte string denotes. */
  function GetBE(b: Bytes): nat
  {
    if b == [] then 0 else 256 * GetBE(b[..|b| - 1]) + b[|b| - 1] as int
  }

  lemma MulAtLeast(d: int, k: int)
    requires d > 0 && k > 0
    ensures d * k >= d
  {
  }

  lemma QuotientUnique(d: int, q: int, r: int, p: int, s: int)
    requires 0 <= r < d && 0 <= s < d && d * q + r == d * p + s
    ensures q == p && r == s
  {
    if q > p {
      MulAtLeast(d, q - p);
    } else if q < p {
      MulAtLeast(d, p - q);
    }
  }

  lemma ModUnique(n: int, d: int, q: int, r: int)
    requires 0 <= r < d && n == d * q + r
    ensures n % d == r && n / d == q
  {
    QuotientUnique(d, q, r, n / d, n % d);
  }

  lemma ModSplit(n: nat, m: nat)
    requires m > 0
    ensures 256 * ((n / 256) % m) + n % 256 == n % (256 * m)
  {
    var q := n / 256;
    var r := 256 * (q % m) + n % 256;
    assert n == 256 * (m * (q / m) + q % m) + n % 256;
    assert n == (256 * m) * (q / m) + r;
    ModUnique(n, 256 * m, q / m, r);
  }

  lemma U16RoundTrip(n: nat)
    ensures GetU16(PutU16(n)) == n % U16_SIZE
  {
    ModSplit(n, 256);
  }

  /** A 16-bit field is a big-endian number of two bytes. */
  lemma U16IsBigEndian(n: nat, b: Bytes)
    requires |b| == 2
    ensures PutU16(n) == PutBE(n, 2) && GetU16(b) == GetBE(b)
  {
    assert PutBE(n, 2) == PutBE(n / 256, 1) + [n % 256];
    assert PutBE(n / 256, 1) == PutBE(n / 256 / 256, 0) + [n / 256 % 256];
    assert GetBE(b[..1]) == 256 * GetBE(b[..1][..0]) + b[0] as int;
  }

  /** A number below 2^16 in a 16-bit field. */
  lemma U16Wire(n: nat)
    requires n < U16_SIZE
    ensures GetBE(PutU16(n)) == n && GetU16(PutU16(n)) == n
  {
    U16RoundTrip(n);
    U16IsBigEndian(n, PutU16(n));
  }

  lemma RadixValues()
    ensures Radix(2) == U16_SIZE && Radix(4) == U32_SIZE && Radix(8) == U64_SIZE
  {
    assert Radix(4) == 0x1_0000 * Radix(2);
    assert Radix(8) == 256 * (256 * (256 * (256 * Radix(4))));
  }

  /** Writing `n` into `w` bytes and reading it back gives `n` truncated to `w` bytes. */
  lemma {:induction false} BERoundTrip(n: nat, w: nat)
    ensures GetBE(PutBE(n, w)) == n % Radix(w)
  {
    if w == 0 {
    } else {
      BERoundTrip(n / 256, w - 1);
      ModSplit(n, Radix(w - 1));
      assert PutBE(n, w)[..w - 1] == PutBE(n / 256, w - 1);
    }
  }

  /** Every byte string is the encoding of the number it denotes, at its own width. */
  lemma {:induction false} BECanonical(b: Bytes)
    ensures GetBE(b) < Radix(|b|)
    ensures PutBE(GetBE(b), |b|) == b
  {
    if b == [] {
    } else {
      BECanonical(b[..|b| - 1]);
    }
  }

  lemma Scaled(a: nat, r: nat)
    ensures a * (256 * r) == 256 * (a * r)
  {
  }

  lemma RadixSum(a: nat, b: nat)
    ensures Radix(a + b) == Radix(a) * Radix(b)
    decreases b
  {
    if b > 0 {
      RadixSum(a, b - 1);
      Scaled(Radix(a), Radix(b - 1));
    }
  }

  lemma {:induction false} GetBEJoin(x: Bytes, y: Bytes)
    ensures GetBE(x + y) == GetBE(x) * Radix(|y|) + GetBE(y)
    decreases |y|
  {
    if y == [] {
      assert x + y == x;
    } else {
      var n := |y|;
      GetBEJoin(x, y[..n - 1]);
      assert (x + y)[..|x| + n - 1] == x + y[..n - 1];
      Scaled(GetBE(x), Radix(n - 1));
    }
  }

  /** The leading byte weighs as much as the rest can count. */
  lemma {:induction false} HeadAndTail(b: Bytes)
    requires b != []
    ensures GetBE(b) == b[0] as int * Radix(|b| - 1) + GetBE(b[1..])
  {
    var n := |b|;
    if n > 1 {
      HeadAndTail(b[..n - 1]);
      assert b[..n - 1][1..] == b[1..][..n - 2];
      assert b[1..][n - 2] == b[n - 1];
      assert b[..n - 1][0] == b[0];
      Scaled(b[0], Radix(n - 2));
    } else {
      assert b[..0] == [] && b[1..] == [];
    }
  }

  /** A freshly made slice: `n` zero bytes. */
  function Zeros(n: nat): (b: Bytes)
    ensures |b| == n
    ensures forall i :: 0 <= i < n ==> b[i] == 0
  {
    seq(n, _ => 0)
  }

  /** Zeros in front do not change the number. */
  lemma {:induction false} LeadingZeros(n: nat, b: Bytes)
    ensures GetBE(Zeros(n) + b) == GetBE(b)
  {
    if n == 0 {
      assert Zeros(0) + b == b;
    } else {
      LeadingZeros(n - 1, b);
      assert (Zeros(n) + b)[1..] == Zeros(n - 1) + b;
      HeadAndTail(Zeros(n) + b);
    }
  }

  /** Go's `copy` into a fresh buffer of `n` bytes: longer sources are cut, shorter ones zero-padded. */
  function Fit(src: Bytes, n: nat): (b: Bytes)
    ensures |b| == n
    ensures |src| == n ==> b == src
  {
    if |src| >= n then src[..n] else src + Zeros(n - |src|)
  }

  /** A decoded list behind the elements decoded before it. */
  function Prepend<T>(acc: seq<T>, r: Result<seq<T>>): Result<seq<T>> {
    match r
    case Ok(v) => Ok(acc + v)
    case Err => Err
  }

  lemma PrependJoin<T>(a: seq<T>, b: seq<T>, r: Result<seq<T>>)
    ensures Prepend(a, Prepend(b, r)) == Prepend(a + b, r)
  {
    if r.Ok? {
      assert a + (b + r.value) == (a + b) + r.value;
    }
  }

  lemma PrependNone<T>(r: Result<seq<T>>)
    ensures Prepend([], r) == r
  {
    if r.Ok? {
      assert [] + r.value == r.value;
    }
  }

  /** A subset is no larger, and smaller unless it is the whole. */
  lemma SubsetSize<T>(a: set<T>, b: set<T>)
    requires a <= b
    ensures |a| <= |b|
    ensures a != b ==> |a| < |b|
  {
    assert b == a + (b - a);
  }
}
