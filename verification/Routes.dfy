/**
 IPv4 range to CIDR decomposition: the greedy loop that turns a traffic selector's address range
 into routes, its exact cover of the range, and its optimality among all CIDR lists.
 */
module Routes {
  import opened Bytes

  predicate Aligned(x: nat, k: nat) {
    x % Pow2(k) == 0
  }

  type Prefix = p: nat | p <= 32

  /** A route: a network address and a prefix length. */
  datatype Cidr = Cidr(addr: nat, prefix: Prefix) {
    predicate WellFormed() {
      && Aligned(addr, HostBits())
      && addr + Size() <= U32_SIZE
    }

    function HostBits(): nat {
      32 - prefix
    }

    function Size(): (n: nat)
      ensures n > 0
    {
      Pow2(HostBits())
    }

    /** Prefix match as a router does it: the bits above the host part agree. */
    predicate Contains(x: nat) {
      x / Size() == addr / Size()
    }

    predicate Spans(x: nat) {
      addr <= x < addr + Size()
    }
  }

  ghost predicate InSome(cs: seq<Cidr>, x: nat) {
    exists i :: 0 <= i < |cs| && cs[i].Contains(x)
  }

  /** The union of the listed networks is exactly the half-open range `[lo, hi)`; overlaps are allowed. */
  ghost predicate Covers(cs: seq<Cidr>, lo: nat, hi: nat) {
    && (forall c :: c in cs ==> c.WellFormed())
    && (forall x: nat :: InSome(cs, x) <==> lo <= x < hi)
  }

  // ---------- dyadic arithmetic ----------

  lemma Pow2_32()
    ensures Pow2(32) == U32_SIZE
  {
    assert Pow2(8) == 256;
    assert Pow2(16) == 256 * Pow2(8);
    assert Pow2(24) == 256 * Pow2(16);
    assert Pow2(32) == 256 * Pow2(24);
  }

  /** Alignment to a larger power of two is evenness plus alignment of the half. */
  lemma AlignedHalve(x: nat, k: nat)
    requires k > 0
    ensures Aligned(x, k) <==> x % 2 == 0 && Aligned(x / 2, k - 1)
  {
    var m := Pow2(k - 1);
    var q, r := (x / 2) / m, (x / 2) % m;
    assert x / 2 == m * q + r;
    assert x == (2 * m) * q + (2 * r + x % 2);
    ModUnique(x, 2 * m, q, 2 * r + x % 2);
  }

  lemma {:induction false} AlignedWeaken(x: nat, i: nat, j: nat)
    requires i <= j && Aligned(x, j)
    ensures Aligned(x, i)
    decreases i
  {
    if i == 0 {
    } else {
      AlignedHalve(x, i);
      AlignedHalve(x, j);
      AlignedWeaken(x / 2, i - 1, j - 1);
    }
  }

  lemma {:induction false} AlignedStep(x: nat, k: nat)
    requires Aligned(x, k)
    ensures Aligned(x + Pow2(k), k)
  {
    var m := Pow2(k);
    assert x + m == m * (x / m + 1) + 0;
    ModUnique(x + m, m, x / m + 1, 0);
  }

  /** Two aligned blocks that meet are nested: the smaller lies inside the larger. */
  lemma {:induction false} Laminar(a: nat, i: nat, b: nat, j: nat)
    requires i <= j && Aligned(a, i) && Aligned(b, j)
    requires a < b + Pow2(j) && b < a + Pow2(i)
    ensures b <= a && a + Pow2(i) <= b + Pow2(j)
    decreases i
  {
    if i == 0 {
    } else {
      AlignedHalve(a, i);
      AlignedHalve(b, j);
      Laminar(a / 2, i - 1, b / 2, j - 1);
    }
  }

  lemma SameQuotient(m: nat, a: nat, x: nat)
    requires m > 0 && a % m == 0
    ensures x / m == a / m <==> a <= x < a + m
  {
    var q := a / m;
    assert a == m * q && x == m * (x / m) + x % m;
    if a <= x < a + m {
      ModUnique(x, m, q, x - a);
    }
  }

  /** For a well-formed network, prefix matching is membership in its address interval. */
  lemma ContainsIsSpans(c: Cidr, x: nat)
    requires c.WellFormed()
    ensures c.Contains(x) <==> c.Spans(x)
  {
    SameQuotient(c.Size(), c.addr, x);
  }

  lemma CoversSpans(cs: seq<Cidr>, lo: nat, hi: nat, c: Cidr)
    requires Covers(cs, lo, hi) && c in cs
    ensures lo <= c.addr && c.addr + c.Size() <= hi
  {
    var last := c.addr + c.Size() - 1;
    ContainsIsSpans(c, c.addr);
    ContainsIsSpans(c, last);
    assert InSome(cs, c.addr) && InSome(cs, last);
  }

  // ---------- the greedy decomposition ----------

  predicate Fits(lo: nat, hi: nat, k: nat) {
    k <= 32 && Aligned(lo, k) && lo + Pow2(k) <= hi
  }

  /** The largest block exponent up to `k` that is aligned at `lo` and stays inside the range. */
  function BestFrom(lo: nat, hi: nat, k: nat): (b: nat)
    requires lo < hi && k <= 32
    ensures b <= k && Fits(lo, hi, b)
    ensures forall j :: b < j <= k ==> !Fits(lo, hi, j)
  {
    if k == 0 || Fits(lo, hi, k) then k else BestFrom(lo, hi, k - 1)
  }

  function Greedy(lo: nat, hi: nat): seq<Cidr>
    decreases hi - lo
  {
    if lo >= hi then []
    else
      var k := BestFrom(lo, hi, 32);
      [Cidr(lo, 32 - k)] + Greedy(lo + Pow2(k), hi)
  }

  lemma CoversNone(lo: nat)
    ensures Covers([], lo, lo)
  {
  }

  lemma CoversOne(c: Cidr)
    requires c.WellFormed()
    ensures Covers([c], c.addr, c.addr + c.Size())
  {
    forall x: nat
      ensures InSome([c], x) <==> c.addr <= x < c.addr + c.Size()
    {
      ContainsIsSpans(c, x);
      assert [c][0] == c;
    }
  }

  lemma InSomeJoin(a: seq<Cidr>, b: seq<Cidr>, x: nat)
    ensures InSome(a + b, x) <==> InSome(a, x) || InSome(b, x)
  {
    if InSome(a, x) {
      var i :| 0 <= i < |a| && a[i].Contains(x);
      assert (a + b)[i] == a[i];
    }
    if InSome(b, x) {
      var i :| 0 <= i < |b| && b[i].Contains(x);
      assert (a + b)[|a| + i] == b[i];
    }
  }

  lemma CoversJoin(a: seq<Cidr>, b: seq<Cidr>, lo: nat, mid: nat, hi: nat)
    requires lo <= mid <= hi && Covers(a, lo, mid) && Covers(b, mid, hi)
    ensures Covers(a + b, lo, hi)
  {
    hide InSome;
    forall x: nat ensures InSome(a + b, x) <==> lo <= x < hi {
      InSomeJoin(a, b, x);
    }
  }

  /** The list is in ascending order and its networks do not overlap. */
  ghost predicate Ascending(cs: seq<Cidr>) {
    forall i, j :: 0 <= i < j < |cs| ==> cs[i].addr + cs[i].Size() <= cs[j].addr
  }

  /** A network in front of a list that covers what follows it. */
  lemma CoversCons(c: Cidr, rest: seq<Cidr>, hi: nat)
    requires c.WellFormed() && c.addr + c.Size() <= hi && Covers(rest, c.addr + c.Size(), hi) && Ascending(rest)
    ensures Covers([c] + rest, c.addr, hi) && Ascending([c] + rest)
  {
    hide Covers, Aligned;
    CoversOne(c);
    CoversJoin([c], rest, c.addr, c.addr + c.Size(), hi);
    forall j | 0 <= j < |rest| ensures c.addr + c.Size() <= rest[j].addr {
      CoversSpans(rest, c.addr + c.Size(), hi, rest[j]);
    }
  }

  lemma AscendingNone()
    ensures Ascending([])
  {
  }

  /** The greedy list covers exactly the range, in ascending order, without overlap. */
  lemma {:induction false} GreedyCovers(lo: nat, hi: nat)
    requires lo <= hi <= U32_SIZE
    ensures Covers(Greedy(lo, hi), lo, hi)
    ensures Ascending(Greedy(lo, hi))
    decreases hi - lo
  {
    hide Covers, Ascending;
    if lo == hi {
      CoversNone(lo);
      AscendingNone();
    } else {
      var k := BestFrom(lo, hi, 32);
      GreedyCovers(lo + Pow2(k), hi);
      CoversCons(Cidr(lo, 32 - k), Greedy(lo + Pow2(k), hi), hi);
    }
  }

  // ---------- optimality ----------

  function StartingFrom(cs: seq<Cidr>, m: nat): (r: seq<Cidr>)
    ensures forall c :: c in r <==> c in cs && c.addr >= m
    ensures |r| <= |cs|
    ensures (exists c :: c in cs && c.addr < m) ==> |r| < |cs|
  {
    if cs == [] then []
    else if cs[0].addr >= m then [cs[0]] + StartingFrom(cs[1..], m)
    else StartingFrom(cs[1..], m)
  }

  /** No listed network straddles the end of the first greedy block. */
  lemma NoStraddle(cs: seq<Cidr>, lo: nat, hi: nat, c: Cidr)
    requires lo < hi <= U32_SIZE && Covers(cs, lo, hi) && c in cs
    ensures var mid := lo + Pow2(BestFrom(lo, hi, 32)); c.addr < mid ==> c.addr + c.Size() <= mid
  {
    var k := BestFrom(lo, hi, 32);
    var mid := lo + Pow2(k);
    CoversSpans(cs, lo, hi, c);
    if c.addr < mid {
      if c.HostBits() <= k {
        Laminar(c.addr, c.HostBits(), lo, k);
      } else {
        Laminar(lo, k, c.addr, c.HostBits());
        assert Fits(lo, hi, c.HostBits());
      }
    }
  }

  lemma RestCovered(cs: seq<Cidr>, lo: nat, hi: nat)
    requires lo < hi <= U32_SIZE && Covers(cs, lo, hi)
    ensures var mid := lo + Pow2(BestFrom(lo, hi, 32)); Covers(StartingFrom(cs, mid), mid, hi)
  {
    var mid := lo + Pow2(BestFrom(lo, hi, 32));
    var rest := StartingFrom(cs, mid);
    forall x: nat
      ensures InSome(rest, x) <==> mid <= x < hi
    {
      if InSome(rest, x) {
        var i :| 0 <= i < |rest| && rest[i].Contains(x);
        ContainsIsSpans(rest[i], x);
        CoversSpans(cs, lo, hi, rest[i]);
      }
      if mid <= x < hi {
        assert InSome(cs, x);
        var i :| 0 <= i < |cs| && cs[i].Contains(x);
        ContainsIsSpans(cs[i], x);
        NoStraddle(cs, lo, hi, cs[i]);
        assert cs[i] in rest;
      }
    }
  }

  /** Some listed network holds the first address, so the rest of the list is shorter. */
  lemma FirstNeedsOne(cs: seq<Cidr>, lo: nat, mid: nat, hi: nat)
    requires lo < mid <= hi && Covers(cs, lo, hi)
    ensures |StartingFrom(cs, mid)| < |cs|
  {
    assert InSome(cs, lo);
    var i :| 0 <= i < |cs| && cs[i].Contains(lo);
    ContainsIsSpans(cs[i], lo);
    assert cs[i] in cs && cs[i].addr < mid;
  }

  /** Optimality: no list of networks whose union is exactly the range is shorter than the greedy one. */
  lemma {:induction false} GreedyMinimal(cs: seq<Cidr>, lo: nat, hi: nat)
    requires lo <= hi <= U32_SIZE && Covers(cs, lo, hi)
    ensures |Greedy(lo, hi)| <= |cs|
    decreases hi - lo
  {
    hide Covers, StartingFrom, Pow2;
    if lo >= hi {
    } else {
      var mid := lo + Pow2(BestFrom(lo, hi, 32));
      var rest := StartingFrom(cs, mid);
      RestCovered(cs, lo, hi);
      FirstNeedsOne(cs, lo, mid, hi);
      GreedyMinimal(rest, mid, hi);
      assert |Greedy(lo, hi)| == 1 + |Greedy(mid, hi)|;
    }
  }

  // ---------- the 62-block bound, by a short witness cover and optimality ----------

  /** A cover of the first `n` addresses of the aligned block `[base, base + 2^w)`. */
  function HeadCover(base: nat, w: nat, n: nat): (cs: seq<Cidr>)
    requires w <= 32 && n <= Pow2(w)
    ensures |cs| <= if n == Pow2(w) then 1 else w
    decreases w
  {
    if n == 0 then []
    else if n == Pow2(w) then [Cidr(base, 32 - w)]
    else
      var half := Pow2(w - 1);
      if n <= half then HeadCover(base, w - 1, n)
      else [Cidr(base, 33 - w)] + HeadCover(base + half, w - 1, n - half)
  }

  /** A cover of the last `n` addresses of the aligned block `[base, base + 2^w)`. */
  function TailCover(base: nat, w: nat, n: nat): (cs: seq<Cidr>)
    requires w <= 32 && n <= Pow2(w)
    ensures |cs| <= if n == Pow2(w) then 1 else w
    decreases w
  {
    if n == 0 then []
    else if n == Pow2(w) then [Cidr(base, 32 - w)]
    else
      var half := Pow2(w - 1);
      if n <= half then TailCover(base + half, w - 1, n)
      else TailCover(base, w - 1, n - half) + [Cidr(base + half, 33 - w)]
  }

  lemma Pow2Twice(w: nat)
    ensures Pow2(w) == if w == 0 then 1 else 2 * Pow2(w - 1)
  {
  }

  lemma HalvesAligned(base: nat, w: nat)
    requires w > 0 && Aligned(base, w)
    ensures Aligned(base, w - 1) && Aligned(base + Pow2(w - 1), w - 1)
  {
    AlignedWeaken(base, w - 1, w);
    AlignedStep(base, w - 1);
  }

  lemma HeadJoin(base: nat, w: nat, n: nat)
    requires 0 < w <= 32 && Pow2(w - 1) < n < Pow2(w)
    requires Aligned(base, w - 1) && base + Pow2(w) <= U32_SIZE
    requires Covers(HeadCover(base + Pow2(w - 1), w - 1, n - Pow2(w - 1)), base + Pow2(w - 1), base + n)
    ensures Covers(HeadCover(base, w, n), base, base + n)
  {
    hide Covers, Aligned;
    var c := Cidr(base, 33 - w);
    CoversOne(c);
    CoversJoin([c], HeadCover(base + Pow2(w - 1), w - 1, n - Pow2(w - 1)), base, base + Pow2(w - 1), base + n);
  }

  lemma {:induction false} HeadCovers(base: nat, w: nat, n: nat)
    requires w <= 32 && n <= Pow2(w) && Aligned(base, w) && base + Pow2(w) <= U32_SIZE
    ensures Covers(HeadCover(base, w, n), base, base + n)
    decreases w
  {
    hide Covers, Aligned, Pow2;
    Pow2Twice(w);
    if n == 0 {
      CoversNone(base);
    } else if n == Pow2(w) {
      CoversOne(Cidr(base, 32 - w));
    } else {
      HalvesAligned(base, w);
      if n <= Pow2(w - 1) {
        HeadCovers(base, w - 1, n);
      } else {
        HeadCovers(base + Pow2(w - 1), w - 1, n - Pow2(w - 1));
        HeadJoin(base, w, n);
      }
    }
  }

  lemma TailJoin(base: nat, w: nat, n: nat)
    requires 0 < w <= 32 && Pow2(w - 1) < n < Pow2(w)
    requires Aligned(base + Pow2(w - 1), w - 1) && base + Pow2(w) <= U32_SIZE
    requires Covers(TailCover(base, w - 1, n - Pow2(w - 1)), base + Pow2(w) - n, base + Pow2(w - 1))
    ensures Covers(TailCover(base, w, n), base + Pow2(w) - n, base + Pow2(w))
  {
    hide Covers, Aligned;
    var mid := base + Pow2(w - 1);
    var c := Cidr(mid, 33 - w);
    CoversOne(c);
    CoversJoin(TailCover(base, w - 1, n - Pow2(w - 1)), [c], base + Pow2(w) - n, mid, base + Pow2(w));
  }

  lemma {:induction false} TailCovers(base: nat, w: nat, n: nat)
    requires w <= 32 && n <= Pow2(w) && Aligned(base, w) && base + Pow2(w) <= U32_SIZE
    ensures Covers(TailCover(base, w, n), base + Pow2(w) - n, base + Pow2(w))
    decreases w
  {
    hide Covers, Aligned, Pow2;
    Pow2Twice(w);
    if n == 0 {
      CoversNone(base + Pow2(w));
    } else if n == Pow2(w) {
      CoversOne(Cidr(base, 32 - w));
    } else {
      HalvesAligned(base, w);
      if n <= Pow2(w - 1) {
        TailCovers(base + Pow2(w - 1), w - 1, n);
      } else {
        TailCovers(base, w - 1, n - Pow2(w - 1));
        TailJoin(base, w, n);
      }
    }
  }

  /** A range around the middle of an aligned block: the tail of the lower half and the head of the upper one. */
  lemma MiddleCover(base: nat, w: nat, lo: nat, hi: nat) returns (cs: seq<Cidr>)
    requires 0 < w <= 32 && base + Pow2(w) <= U32_SIZE && Aligned(base, w - 1) && Aligned(base + Pow2(w - 1), w - 1)
    requires base <= lo < base + Pow2(w - 1) < hi <= base + Pow2(w) && hi - lo != Pow2(w)
    ensures Covers(cs, lo, hi)
    ensures |cs| <= if w <= 1 then 1 else 2 * w - 2
  {
    hide Covers, Aligned, Pow2;
    Pow2Twice(w);
    var mid := base + Pow2(w - 1);
    var tail, head := TailCover(base, w - 1, mid - lo), HeadCover(mid, w - 1, hi - mid);
    TailCovers(base, w - 1, mid - lo);
    HeadCovers(mid, w - 1, hi - mid);
    CoversJoin(tail, head, lo, mid, hi);
    cs := tail + head;
  }

  /** Any range inside an aligned block of 2^w addresses has a cover of at most 2w - 2 networks (or one). */
  lemma {:induction false} ShortCover(base: nat, w: nat, lo: nat, hi: nat) returns (cs: seq<Cidr>)
    requires w <= 32 && Aligned(base, w) && base + Pow2(w) <= U32_SIZE
    requires base <= lo <= hi <= base + Pow2(w)
    ensures Covers(cs, lo, hi)
    ensures |cs| <= if w <= 1 then 1 else 2 * w - 2
    decreases w
  {
    hide Covers, Aligned, Pow2;
    Pow2Twice(w);
    if lo == hi {
      cs := [];
      CoversNone(lo);
    } else if hi - lo == Pow2(w) {
      cs := [Cidr(base, 32 - w)];
      CoversOne(cs[0]);
    } else {
      var half := Pow2(w - 1);
      var mid := base + half;
      HalvesAligned(base, w);
      if hi <= mid {
        cs := ShortCover(base, w - 1, lo, hi);
      } else if mid <= lo {
        cs := ShortCover(mid, w - 1, lo, hi);
      } else {
        cs := MiddleCover(base, w, lo, hi);
      }
    }
  }

  /** A decomposition never has more than 62 routes. */
  lemma GreedyAtMost62(lo: nat, hi: nat)
    requires lo <= hi <= U32_SIZE
    ensures |Greedy(lo, hi)| <= 62
  {
    Pow2_32();
    var cs := ShortCover(0, 32, lo, hi);
    GreedyMinimal(cs, lo, hi);
  }

  /** The whole address space yields the single default route, as the full-range shortcut assumes. */
  lemma GreedyFullRange()
    ensures Greedy(0, U32_SIZE) == [Cidr(0, 0)]
  {
    Pow2_32();
    assert Fits(0, U32_SIZE, 32);
    assert Greedy(U32_SIZE, U32_SIZE) == [];
  }

  // ---------- the loop of the source ----------

  /** `bits.TrailingZeros32` of a non-zero word. */
  function TrailingZeros(x: nat): nat
    requires x > 0
  {
    if x % 2 == 1 then 0 else 1 + TrailingZeros(x / 2)
  }

  /** `bits.Len64`: the number of bits needed to write `x`. */
  function BitLen(x: nat): nat {
    if x == 0 then 0 else 1 + BitLen(x / 2)
  }

  lemma {:induction false} TrailingZerosAligned(x: nat, k: nat)
    requires x > 0
    ensures Aligned(x, k) <==> k <= TrailingZeros(x)
  {
    if k == 0 {
    } else {
      AlignedHalve(x, k);
      if x % 2 == 0 {
        TrailingZerosAligned(x / 2, k - 1);
      }
    }
  }

  lemma {:induction false} TrailingZerosBound(x: nat, w: nat)
    requires 0 < x < Pow2(w)
    ensures TrailingZeros(x) < w
  {
    if x % 2 == 0 {
      TrailingZerosBound(x / 2, w - 1);
    }
  }

  lemma {:induction false} BitLenPow2(k: nat)
    ensures BitLen(Pow2(k)) == k + 1
  {
    if k == 0 {
    } else {
      assert Pow2(k) / 2 == Pow2(k - 1);
      BitLenPow2(k - 1);
    }
  }

  lemma BestIsUnique(lo: nat, hi: nat, k: nat)
    requires lo < hi && Fits(lo, hi, k)
    requires forall j :: k < j <= 32 ==> !Fits(lo, hi, j)
    ensures k == BestFrom(lo, hi, 32)
  {
  }

  /** The block chosen at `cur`: start from its alignment and halve until it fits. */
  method LargestBlock(cur: nat, endU: nat) returns (maxBlock: nat)
    requires cur <= endU < U32_SIZE
    ensures maxBlock == Pow2(BestFrom(cur, endU + 1, 32))
  {
    Pow2_32();
    ghost var k := 32;
    if cur == 0 {
      maxBlock := Pow2(32);
    } else {
      k := TrailingZeros(cur);
      TrailingZerosBound(cur, 32);
      forall j ensures k < j <= 32 ==> !Aligned(cur, j) {
        if j > k { TrailingZerosAligned(cur, j); }
      }
      TrailingZerosAligned(cur, k);
      maxBlock := Pow2(TrailingZeros(cur));
    }
    ghost var limit := endU + 1;
    var remaining := endU - cur + 1;
    while maxBlock > remaining
      invariant k <= 32 && maxBlock == Pow2(k) && Aligned(cur, k)
      invariant forall j :: k < j <= 32 ==> !Fits(cur, limit, j)
      decreases k
    {
      AlignedWeaken(cur, k - 1, k);
      maxBlock := maxBlock / 2;
      k := k - 1;
    }
    BestIsUnique(cur, endU + 1, k);
  }

  lemma GreedyUnfold(out: seq<Cidr>, lo: nat, hi: nat, block: nat, prefix: Prefix)
    requires lo < hi && block == Pow2(BestFrom(lo, hi, 32)) && prefix == 32 - (BitLen(block) - 1)
    ensures out + Greedy(lo, hi) == out + [Cidr(lo, prefix)] + Greedy(lo + block, hi)
  {
    hide Pow2, BestFrom, BitLen;
    BitLenPow2(BestFrom(lo, hi, 32));
    assert Greedy(lo, hi) == [Cidr(lo, prefix)] + Greedy(lo + block, hi);
  }

  lemma BlockPrefix(lo: nat, hi: nat, block: nat)
    requires lo < hi && block == Pow2(BestFrom(lo, hi, 32))
    ensures 1 <= BitLen(block) <= 33 && block > 0 && lo + block <= hi
  {
    BitLenPow2(BestFrom(lo, hi, 32));
  }

  method CidrLoop(su: nat, eu: nat) returns (out: seq<Cidr>)
    requires su <= eu < U32_SIZE
    ensures out == Greedy(su, eu + 1)
  {
    hide Pow2, BestFrom, BitLen;
    var cur := su;
    ghost var hi := eu + 1;
    ghost var whole := Greedy(su, hi);
    out := [];
    assert out + Greedy(cur, hi) == whole;
    while cur <= eu
      invariant su <= cur <= hi
      invariant out + Greedy(cur, hi) == whole
    {
      var maxBlock := LargestBlock(cur, eu);
      BlockPrefix(cur, hi, maxBlock);
      var prefix: Prefix := 32 - (BitLen(maxBlock) - 1);
      GreedyUnfold(out, cur, hi, maxBlock, prefix);
      out := out + [Cidr(cur, prefix)];
      cur := cur + maxBlock;
    }
  }

  /** `ipv4RangeToCIDRs` after the addresses have been read as 32-bit numbers. */
  method RangeToCidrs(su: nat, eu: nat) returns (r: Result<seq<Cidr>>)
    requires su < U32_SIZE && eu < U32_SIZE
    ensures r == if su > eu then Err else Ok(Greedy(su, eu + 1))
  {
    if su > eu {
      return Err;
    }
    var out := CidrLoop(su, eu);
    r := Ok(out);
  }
}
