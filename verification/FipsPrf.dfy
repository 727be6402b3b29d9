/** The FIPS 186-2 generator that expands an EAP master key (section 7 of RFC 4187), on 20-byte big-endian arrays. */
module FipsPrf {
  import opened Bytes

  /** The SHA-1 compression of one 64-byte block. */
  type Compress = Bytes -> Bytes

  ghost predicate Twenty(sha: Compress) {
    forall b: Bytes :: |sha(b)| == 20
  }

  // ---------- addition modulo 2^160 ----------

  lemma CarryStep(a: Byte, b: Byte, carry: nat, s: nat, r: nat, low: nat, restA: nat, restB: nat)
    requires s == a + b + carry && low + carry * r == restA + restB
    ensures (s % 256) * r + low + (s / 256) * (256 * r) == a * r + restA + (b * r + restB)
  {
    assert s == 256 * (s / 256) + s % 256;
    assert (s / 256) * (256 * r) == (256 * (s / 256)) * r;
    assert (s % 256) * r + (256 * (s / 256)) * r == s * r;
    assert s * r == a * r + b * r + carry * r;
  }

  lemma SumOf(total: nat, carry: nat, low: nat, r: nat)
    requires low < r && low + carry * r == total
    ensures total % r == low
  {
    ModUnique(total, r, carry, low);
  }

  lemma EmptySuffixes()
    ensures GetBE([]) == 0 && Radix(0) == 1
  {
  }

  lemma RadixStep(n: nat)
    ensures Radix(n + 1) == 256 * Radix(n)
  {
  }

  lemma SuffixValue(x: Bytes, i: nat)
    requires i < |x| == 20
    ensures GetBE(x[i..]) == x[i] * Radix(19 - i) + GetBE(x[i + 1..])
  {
    HeadAndTail(x[i..]);
    assert x[i..][1..] == x[i + 1..];
  }

  /** `addMod20`, right also when the destination is one of the summands. */
  method AddMod20(a: array<Byte>, b: array<Byte>, dst: array<Byte>)
    requires a.Length == 20 && b.Length == 20 && dst.Length == 20
    modifies dst
    ensures GetBE(dst[..]) == (old(GetBE(a[..])) + old(GetBE(b[..]))) % Radix(20)
  {
    hide GetBE, Radix;
    ghost var a0, b0 := a[..], b[..];
    var carry: nat := 0;
    var i := 19;
    EmptySuffixes();
    assert dst[20..] == [] && a0[20..] == [] && b0[20..] == [];
    assert carry * Radix(0) == 0;
    while i >= 0
      invariant -1 <= i <= 19
      invariant a[..i + 1] == a0[..i + 1] && b[..i + 1] == b0[..i + 1]
      invariant GetBE(dst[i + 1..]) + carry * Radix(19 - i) == GetBE(a0[i + 1..]) + GetBE(b0[i + 1..])
    {
      assert a[i] == a0[i] && b[i] == b0[i];
      var s := a[i] as int + b[i] as int + carry;
      ghost var low, r := GetBE(dst[i + 1..]), Radix(19 - i);
      ghost var suffix := dst[i + 1..];
      CarryStep(a[i], b[i], carry, s, r, low, GetBE(a0[i + 1..]), GetBE(b0[i + 1..]));
      dst[i] := s % 256;
      carry := s / 256;
      SuffixValue(a0, i);
      SuffixValue(b0, i);
      assert dst[i + 1..] == suffix;
      assert dst[i..] == dst[..][i..] && suffix == dst[..][i + 1..];
      SuffixValue(dst[..], i);
      RadixStep(19 - i);
      i := i - 1;
    }
    assert dst[0..] == dst[..] && a0[0..] == a0 && b0[0..] == b0;
    BECanonical(dst[..]);
    SumOf(GetBE(a0) + GetBE(b0), carry, GetBE(dst[..]), Radix(20));
  }

  // ---------- the generator ----------

  /** Seeds and keys are right-aligned in 20 bytes. */
  function RightAlign(b: Bytes): (r: Bytes)
    ensures |r| == 20
  {
    if |b| >= 20 then b[|b| - 20..] else Zeros(20 - |b|) + b
  }

  lemma MultipleDropped(k: nat, x: nat, m: nat)
    requires m > 0
    ensures (k * m + x) % m == x % m
  {
    assert x == m * (x / m) + x % m;
    assert k * m + x == m * (k + x / m) + x % m;
    ModUnique(k * m + x, m, k + x / m, x % m);
  }

  lemma DropOne(b: Bytes, n: nat)
    requires |b| > n
    ensures GetBE(b) % Radix(n) == GetBE(b[1..]) % Radix(n)
  {
    hide GetBE, Radix;
    var r, m := Radix(|b| - 1 - n), Radix(n);
    var d: nat := b[0];
    HeadAndTail(b);
    RadixSum(|b| - 1 - n, n);
    assert d * (r * m) == (d * r) * m;
    MultipleDropped(d * r, GetBE(b[1..]), m);
  }

  lemma {:induction false} DropLeading(b: Bytes, n: nat)
    requires |b| >= n
    ensures GetBE(b[|b| - n..]) == GetBE(b) % Radix(n)
    decreases |b|
  {
    hide GetBE, Radix;
    if |b| == n {
      BECanonical(b);
      assert b[0..] == b;
      SumOf(GetBE(b), 0, GetBE(b), Radix(n));
    } else {
      DropLeading(b[1..], n);
      assert b[1..][|b| - 1 - n..] == b[|b| - n..];
      DropOne(b, n);
    }
  }

  /** Aligning keeps the number modulo 2^160. */
  lemma RightAlignValue(b: Bytes)
    ensures GetBE(RightAlign(b)) == GetBE(b) % Radix(20)
  {
    hide GetBE, Radix;
    if |b| >= 20 {
      DropLeading(b, 20);
    } else {
      LeadingZeros(20 - |b|, b);
      DropLeading(Zeros(20 - |b|) + b, 20);
      assert (Zeros(20 - |b|) + b)[0..] == Zeros(20 - |b|) + b;
    }
  }

  /** The twenty bytes that the generator gives out in the state `xkey`. */
  function Word(sha: Compress, xseed: nat, xkey: nat): Bytes {
    sha(PutBE((xkey + xseed) % Radix(20), 20) + Zeros(44))
  }

  /** The next state: the old one, plus the word given out, plus one, modulo 2^160. */
  function NextKey(sha: Compress, xseed: nat, xkey: nat): nat {
    (xkey + GetBE(Word(sha, xseed, xkey)) + 1) % Radix(20)
  }

  function After(sha: Compress, xseed: nat, xkey: nat, n: nat): nat
    decreases n
  {
    if n == 0 then xkey else After(sha, xseed, NextKey(sha, xseed, xkey), n - 1)
  }

  function Output(sha: Compress, xseed: nat, xkey: nat, n: nat): Bytes
    decreases n
  {
    if n == 0 then [] else Word(sha, xseed, xkey) + Output(sha, xseed, NextKey(sha, xseed, xkey), n - 1)
  }

  lemma {:induction false} OutputSplit(sha: Compress, xseed: nat, xkey: nat, m: nat, n: nat)
    ensures Output(sha, xseed, xkey, m + n)
         == Output(sha, xseed, xkey, m) + Output(sha, xseed, After(sha, xseed, xkey, m), n)
    decreases m
  {
    hide Word, NextKey;
    if m == 0 {
      assert [] + Output(sha, xseed, xkey, n) == Output(sha, xseed, xkey, n);
    } else {
      var word, next := Word(sha, xseed, xkey), NextKey(sha, xseed, xkey);
      OutputSplit(sha, xseed, next, m - 1, n);
      var head, tail := Output(sha, xseed, next, m - 1), Output(sha, xseed, After(sha, xseed, next, m - 1), n);
      assert Output(sha, xseed, xkey, m + n) == word + Output(sha, xseed, next, m - 1 + n);
      assert word + (head + tail) == (word + head) + tail;
    }
  }

  lemma {:induction false} AfterSplit(sha: Compress, xseed: nat, xkey: nat, m: nat, n: nat)
    ensures After(sha, xseed, xkey, m + n) == After(sha, xseed, After(sha, xseed, xkey, m), n)
    decreases m
  {
    hide Word, NextKey;
    if m == 0 {
    } else {
      AfterSplit(sha, xseed, NextKey(sha, xseed, xkey), m - 1, n);
    }
  }

  lemma {:induction false} OutputLength(sha: Compress, xseed: nat, xkey: nat, n: nat)
    requires Twenty(sha)
    ensures |Output(sha, xseed, xkey, n)| == 20 * n
    decreases n
  {
    hide NextKey, GetBE, PutBE, Radix;
    if n == 0 {
    } else {
      OutputLength(sha, xseed, NextKey(sha, xseed, xkey), n - 1);
    }
  }

  /** The number of 40-byte blocks a request uses up. */
  function Blocks(outLen: int): nat {
    if outLen <= 0 then 0 else (outLen + 39) / 40
  }

  /** What a request for `outLen` bytes returns. */
  function Answer(sha: Compress, xseed: nat, xkey: nat, outLen: int): (b: Bytes)
    requires Twenty(sha)
    ensures |b| == if outLen <= 0 then 0 else outLen
  {
    OutputLength(sha, xseed, xkey, 2 * Blocks(outLen));
    if outLen <= 0 then [] else Output(sha, xseed, xkey, 2 * Blocks(outLen))[..outLen]
  }

  /**
   A request of whole blocks followed by another one gives the same bytes, and leaves the same state, as one
   request for both.
   */
  lemma RequestsCombine(sha: Compress, xseed: nat, xkey: nat, k: nat, outLen: nat)
    requires Twenty(sha)
    ensures Answer(sha, xseed, xkey, 40 * k)
            + Answer(sha, xseed, After(sha, xseed, xkey, 2 * Blocks(40 * k)), outLen)
         == Answer(sha, xseed, xkey, 40 * k + outLen)
    ensures After(sha, xseed, After(sha, xseed, xkey, 2 * Blocks(40 * k)), 2 * Blocks(outLen))
         == After(sha, xseed, xkey, 2 * Blocks(40 * k + outLen))
  {
    hide Output, After;
    var n := Blocks(outLen);
    assert Blocks(40 * k) == k && Blocks(40 * k + outLen) == k + n;
    OutputSplit(sha, xseed, xkey, 2 * k, 2 * n);
    AfterSplit(sha, xseed, xkey, 2 * k, 2 * n);
    OutputLength(sha, xseed, xkey, 2 * k);
    OutputLength(sha, xseed, After(sha, xseed, xkey, 2 * k), 2 * n);
    assert 2 * (k + n) == 2 * k + 2 * n;
  }

  lemma OneIsOne(one: Bytes)
    requires |one| == 20 && one[19] == 1 && forall i :: 0 <= i < 19 ==> one[i] == 0
    ensures GetBE(one) == 1
  {
    assert one == Zeros(19) + [1];
    LeadingZeros(19, [1]);
    assert [1][..0] == [];
  }

  lemma AddTwice(k: nat, x: nat, m: nat)
    requires m > 0
    ensures ((k + x) % m + 1) % m == (k + x + 1) % m
  {
    var y := k + x;
    assert y == m * (y / m) + y % m;
    MultipleDropped(y / m, y % m + 1, m);
    assert (y / m) * m + (y % m + 1) == y + 1;
  }

  lemma TwoRounds(sha: Compress, s: nat, k: nat)
    ensures Output(sha, s, k, 2) == Word(sha, s, k) + Word(sha, s, NextKey(sha, s, k))
    ensures After(sha, s, k, 2) == NextKey(sha, s, NextKey(sha, s, k))
  {
    var k1 := NextKey(sha, s, k);
    assert Output(sha, s, k1, 1) == Word(sha, s, k1) + Output(sha, s, NextKey(sha, s, k1), 0);
    assert After(sha, s, k1, 1) == After(sha, s, NextKey(sha, s, k1), 0);
  }

  lemma NoRounds(sha: Compress, s: nat, k: nat)
    ensures Output(sha, s, k, 0) == [] && After(sha, s, k, 0) == k
  {
  }

  /**
   The first forty bytes, and with them, by `RequestsCombine`, all others: two words, each the hash of the state plus
   the seed, padded with zeros to one input block, and behind each word the state grows by that word and one.
   */
  lemma FirstBlock(sha: Compress, xseed: nat, k0: nat)
    requires Twenty(sha)
    ensures var w0 := sha(PutBE((k0 + xseed) % Radix(20), 20) + Zeros(44));
      var k1 := (k0 + GetBE(w0) + 1) % Radix(20);
      var w1 := sha(PutBE((k1 + xseed) % Radix(20), 20) + Zeros(44));
      && Answer(sha, xseed, k0, 40) == w0 + w1
      && After(sha, xseed, k0, 2 * Blocks(40)) == (k1 + GetBE(w1) + 1) % Radix(20)
  {
    hide Output, After, GetBE, PutBE, Radix;
    assert Blocks(40) == 1;
    TwoRounds(sha, xseed, k0);
    OutputLength(sha, xseed, k0, 2);
  }

  /** A request for fewer bytes is the front of a longer one that uses as many blocks. */
  lemma ShorterRequest(sha: Compress, xseed: nat, k0: nat, k: nat, outLen: int)
    requires Twenty(sha) && 40 * k < outLen <= 40 * (k + 1)
    ensures Blocks(outLen) == k + 1
    ensures Answer(sha, xseed, k0, outLen) == Answer(sha, xseed, k0, 40 * (k + 1))[..outLen]
  {
    hide Output;
    assert Blocks(40 * (k + 1)) == k + 1;
    OutputLength(sha, xseed, k0, 2 * (k + 1));
  }

  class Generator {
    const xkey: array<Byte>
    const sha: Compress

    ghost predicate Valid()
      reads this
    {
      xkey.Length == 20 && Twenty(sha)
    }

    ghost function Key(): nat
      reads this, xkey
    {
      GetBE(xkey[..])
    }

    /** `NewFIPS1862PRFSHA1`: a longer key keeps its last 20 bytes, a shorter one is padded on the left. */
    constructor (key: Bytes, sha: Compress)
      requires Twenty(sha)
      ensures Valid() && fresh(xkey) && this.sha == sha && Key() == GetBE(key) % Radix(20)
    {
      var aligned := RightAlign(key);
      var buffer := new Byte[20](i requires 0 <= i < 20 => aligned[i]);
      xkey, this.sha := buffer, sha;
      new;
      assert xkey[..] == aligned;
      RightAlignValue(key);
    }

    /** The state update at the end of a round, by two additions through a temporary. */
    method Advance(sum: Bytes)
      requires Valid() && |sum| == 20
      modifies xkey
      ensures Key() == ((old(Key()) + GetBE(sum)) % Radix(20) + 1) % Radix(20)
    {
      hide GetBE, Radix;
      var sumBytes := new Byte[20](i requires 0 <= i < 20 => sum[i]);
      assert sumBytes[..] == sum;
      var one, tmp := new Byte[20](_ => 0), new Byte[20](_ => 0);
      one[19] := 1;
      OneIsOne(one[..]);
      AddMod20(xkey, sumBytes, tmp);
      AddMod20(tmp, one, xkey);
    }

    /** One of the two rounds of `block`. */
    method Round(xseed: array<Byte>, ghost seed: nat) returns (sum: Bytes)
      requires Valid() && xseed.Length == 20 && xseed != xkey && GetBE(xseed[..]) == seed
      modifies xkey
      ensures sum == sha(PutBE((old(Key()) + seed) % Radix(20), 20) + Zeros(44)) == Word(sha, seed, old(Key()))
      ensures Key() == (old(Key()) + GetBE(sum) + 1) % Radix(20) == NextKey(sha, seed, old(Key()))
    {
      hide GetBE, Radix, PutBE;
      ghost var k0 := Key();
      var xval := new Byte[20](_ => 0);
      AddMod20(xkey, xseed, xval);
      BECanonical(xval[..]);
      sum := sha(xval[..] + Zeros(44));
      assert sum == Word(sha, seed, k0);
      Advance(sum);
      AddTwice(k0, GetBE(sum), Radix(20));
    }

    /** `block`: two rounds, forty bytes. */
    method Block(seed: Bytes) returns (out: Bytes)
      requires Valid()
      modifies xkey
      ensures out == Output(sha, GetBE(seed) % Radix(20), old(Key()), 2)
      ensures Key() == After(sha, GetBE(seed) % Radix(20), old(Key()), 2)
    {
      hide GetBE, Radix, Word, NextKey;
      ghost var k0 := Key();
      var aligned := RightAlign(seed);
      var xseed := new Byte[20](i requires 0 <= i < 20 => aligned[i]);
      assert xseed[..] == aligned;
      RightAlignValue(seed);
      ghost var s := GetBE(seed) % Radix(20);
      var first := Round(xseed, s);
      var second := Round(xseed, s);
      out := first + second;
      TwoRounds(sha, s, k0);
    }

    /** `Bytes`: whole blocks are drawn until there is enough, and the end of the last one is dropped. */
    method Request(seed: Bytes, outLen: int) returns (out: Bytes)
      requires Valid()
      modifies xkey
      ensures out == Answer(sha, GetBE(seed) % Radix(20), old(Key()), outLen)
      ensures Key() == After(sha, GetBE(seed) % Radix(20), old(Key()), 2 * Blocks(outLen))
    {
      hide GetBE, Radix, Output, After;
      ghost var s, k0 := GetBE(seed) % Radix(20), Key();
      NoRounds(sha, s, k0);
      out := [];
      if outLen <= 0 {
        return;
      }
      ghost var n := 0;
      while |out| < outLen
        invariant n == Blocks(|out|) && Key() == After(sha, s, k0, 2 * n)
        invariant |out| < outLen ==> |out| == 40 * n && out == Output(sha, s, k0, 2 * n)
        invariant |out| >= outLen ==> n == Blocks(outLen) && out == Answer(sha, s, k0, outLen)
        decreases outLen - |out|
      {
        OutputSplit(sha, s, k0, 2 * n, 2);
        AfterSplit(sha, s, k0, 2 * n, 2);
        OutputLength(sha, s, k0, 2 * n + 2);
        var block := Block(seed);
        OutputLength(sha, s, After(sha, s, k0, 2 * n), 2);
        var need := outLen - |out|;
        ghost var whole := out + block;
        if need >= |block| {
          out := out + block;
        } else {
          out := out + block[..need];
        }
        n := n + 1;
        assert 2 * n == 2 * (n - 1) + 2;
        assert out == whole[..|out|];
      }
    }
  }
}
