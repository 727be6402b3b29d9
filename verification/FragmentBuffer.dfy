/**
 Receiving fragments (section 2.6 of RFC 7383): the buffer that collects the decrypted pieces of each
 message ID, its size accounting, and reassembly in fragment order whatever the order of arrival.
 */
module FragmentBuffer {
  import opened Bytes

  const MAX_PACKET := 65536

  /** The pieces received for one message ID. */
  datatype FragSet = FragSet(total: nat, received: map<nat, Bytes>, totalLen: nat)

  type Buffer = map<nat, FragSet>

  function Current(fb: Buffer, id: nat, total: nat): FragSet {
    if id !in fb || total > fb[id].total then FragSet(total, map[], 0) else fb[id]
  }

  /** `addFragment`: the new buffer and either an error or whether all fragments are now there. */
  function Add(fb: Buffer, id: nat, num: nat, total: nat, plain: Bytes): (Buffer, Result<bool>) {
    var fs := Current(fb, id, total);
    if fs.total != total then (fb, Err)
    else if num in fs.received then (fb, Ok(false))
    else if fs.totalLen + |plain| > MAX_PACKET then (fb - {id}, Err)
    else
      var got := fs.received[num := plain];
      (fb[id := FragSet(total, got, fs.totalLen + |plain|)], Ok(|got| % U16_SIZE == total))
  }

  /** Pieces `from..total` in order, or an error at the first gap. */
  function Pieces(got: map<nat, Bytes>, from: nat, total: nat): Result<Bytes>
    decreases total + 1 - from
  {
    if from > total then Ok([])
    else if from !in got then Err
    else match Pieces(got, from + 1, total)
      case Err => Err
      case Ok(rest) => Ok(got[from] + rest)
  }

  /** The 16-bit loop counter of the source wraps to 0 after 65535 and then asks for fragment 0. */
  predicate Loops(fs: FragSet) {
    fs.total == U16_SIZE - 1 && Pieces(fs.received, 0, fs.total).Ok?
  }

  /** `reassemble`. */
  function Reassemble(fb: Buffer, id: nat): (Buffer, Result<Bytes>) {
    if id !in fb then (fb, Err)
    else
      var fs := fb[id];
      if fs.total >= U16_SIZE - 1 then (fb, Err)
      else match Pieces(fs.received, 1, fs.total)
        case Err => (fb, Err)
        case Ok(data) => (fb - {id}, Ok(data))
  }

  // ---------- size accounting over arbitrary deliveries ----------

  /** The bytes held under fragment numbers below `n`. */
  function Held(got: map<nat, Bytes>, n: nat): nat {
    if n == 0 then 0 else Held(got, n - 1) + if n - 1 in got then |got[n - 1]| else 0
  }

  lemma {:induction false} HeldInsert(got: map<nat, Bytes>, num: nat, plain: Bytes, n: nat)
    requires num !in got
    ensures Held(got[num := plain], n) == Held(got, n) + if num < n then |plain| else 0
  {
    if n == 0 {
    } else {
      HeldInsert(got, num, plain, n - 1);
    }
  }

  lemma {:induction false} HeldEmpty(n: nat)
    ensures Held(map[], n) == 0
  {
    if n == 0 {
    } else {
      HeldEmpty(n - 1);
    }
  }

  /** Every stored set accounts for exactly the bytes it holds, and never for more than 64 KiB. */
  ghost predicate Accounted(fb: Buffer) {
    forall id :: id in fb ==>
      && fb[id].totalLen == Held(fb[id].received, U16_SIZE) <= MAX_PACKET
      && fb[id].total < U16_SIZE
      && forall k :: k in fb[id].received ==> k < U16_SIZE
  }

  lemma AddAccounted(fb: Buffer, id: nat, num: nat, total: nat, plain: Bytes)
    requires Accounted(fb) && num < U16_SIZE && total < U16_SIZE
    ensures Accounted(Add(fb, id, num, total, plain).0)
  {
    hide Held;
    var fs := Current(fb, id, total);
    HeldEmpty(U16_SIZE);
    if num !in fs.received {
      HeldInsert(fs.received, num, plain, U16_SIZE);
    }
  }

  datatype Delivery = Delivery(id: nat, num: nat, total: nat, plain: Bytes)

  /** The buffer after any sequence of deliveries, and the answer to the last of them. */
  function Deliver(fb: Buffer, ds: seq<Delivery>): Buffer {
    if ds == [] then fb
    else
      var init := Deliver(fb, ds[..|ds| - 1]);
      var d := ds[|ds| - 1];
      Add(init, d.id, d.num, d.total, d.plain).0
  }

  function LastAnswer(fb: Buffer, ds: seq<Delivery>): Result<bool>
    requires ds != []
  {
    var d := ds[|ds| - 1];
    Add(Deliver(fb, ds[..|ds| - 1]), d.id, d.num, d.total, d.plain).1
  }

  /** Under arbitrary deliveries, with duplicates and changing totals, the accounting stays exact. */
  lemma {:induction false} DeliverAccounted(fb: Buffer, ds: seq<Delivery>)
    requires Accounted(fb)
    requires forall i :: 0 <= i < |ds| ==> ds[i].num < U16_SIZE && ds[i].total < U16_SIZE
    ensures Accounted(Deliver(fb, ds))
  {
    hide Accounted;
    if ds == [] {
    } else {
      var n := |ds| - 1;
      DeliverAccounted(fb, ds[..n]);
      AddAccounted(Deliver(fb, ds[..n]), ds[n].id, ds[n].num, ds[n].total, ds[n].plain);
    }
  }

  /** A smaller total is refused without a trace; a larger one starts the set afresh; other IDs are untouched. */
  lemma TotalsChange(fb: Buffer, id: nat, num: nat, total: nat, plain: Bytes)
    requires id in fb
    ensures var (fb', r) := Add(fb, id, num, total, plain);
      && (total < fb[id].total ==> fb' == fb && r == Err)
      && (total > fb[id].total && |plain| <= MAX_PACKET ==>
            id in fb' && fb'[id] == FragSet(total, map[num := plain], |plain|))
      && (forall other :: other != id ==> (other in fb' <==> other in fb) && (other in fb ==> fb'[other] == fb[other]))
  {
  }

  /** The first fragment of a message starts a set; it is not even kept when it is too large alone. */
  lemma FirstFragment(fb: Buffer, id: nat, num: nat, total: nat, plain: Bytes)
    requires id !in fb
    ensures Add(fb, id, num, total, plain)
         == if |plain| > 65536 then (fb, Err)
            else (fb[id := FragSet(total, map[num := plain], |plain|)], Ok(total == 1))
  {
    assert |map[num := plain]| == 1;
    assert fb - {id} == fb;
  }

  /**
   Another fragment of a set, with its total: a number that is there already changes nothing, whatever the bytes, a
   new one is kept, and one that makes the set too large drops the whole set.
   */
  lemma NextFragment(fb: Buffer, id: nat, num: nat, total: nat, plain: Bytes)
    requires id in fb && fb[id].total == total
    ensures var (fb', r) := Add(fb, id, num, total, plain);
      && (num in fb[id].received ==> fb' == fb && r == Ok(false))
      && (num !in fb[id].received && fb[id].totalLen + |plain| > 65536 ==> fb' == fb - {id} && r == Err)
      && (num !in fb[id].received && fb[id].totalLen + |plain| <= 65536 ==>
            && id in fb' && fb'[id].total == total && fb'[id].totalLen == fb[id].totalLen + |plain|
            && fb'[id].received == fb[id].received[num := plain]
            && r == Ok((|fb[id].received| + 1) % 65536 == total))
  {
  }

  // ---------- one message, delivered in any order ----------

  function Concat(pieces: seq<Bytes>): Bytes {
    if pieces == [] then [] else pieces[0] + Concat(pieces[1..])
  }

  /** All deliveries carry the same ID and total and the right piece for their number. */
  ghost predicate FromPieces(ds: seq<Delivery>, id: nat, pieces: seq<Bytes>) {
    forall i :: 0 <= i < |ds| ==>
      ds[i].id == id && ds[i].total == |pieces| && 1 <= ds[i].num <= |pieces| && ds[i].plain == pieces[ds[i].num - 1]
  }

  function Numbers(ds: seq<Delivery>): set<nat> {
    set i | 0 <= i < |ds| :: ds[i].num
  }

  function SubPieces(nums: set<nat>, pieces: seq<Bytes>): map<nat, Bytes> {
    map k | k in nums && 1 <= k <= |pieces| :: pieces[k - 1]
  }

  function Range(n: nat): (r: set<nat>)
    ensures forall k :: k in r <==> 1 <= k <= n
    ensures |r| == n
  {
    if n == 0 then {} else Range(n - 1) + {n}
  }

  /** A set of fragment numbers is full exactly when it has as many elements as there are fragments. */
  lemma FullByCount(nums: set<nat>, n: nat)
    requires nums <= Range(n)
    ensures |nums| <= n
    ensures |nums| == n <==> nums == Range(n)
  {
    assert Range(n) == nums + (Range(n) - nums);
  }

  lemma {:induction false} HeldSubset(nums: set<nat>, pieces: seq<Bytes>, n: nat)
    ensures Held(SubPieces(nums, pieces), n) <= Held(SubPieces(Range(|pieces|), pieces), n)
  {
    if n == 0 {
    } else {
      HeldSubset(nums, pieces, n - 1);
    }
  }

  function Lengths(pieces: seq<Bytes>, k: nat): nat
    requires k <= |pieces|
  {
    if k == 0 then 0 else Lengths(pieces, k - 1) + |pieces[k - 1]|
  }

  lemma {:induction false} HeldAll(pieces: seq<Bytes>, n: nat)
    requires n > 0
    ensures Held(SubPieces(Range(|pieces|), pieces), n)
         == Lengths(pieces, if n - 1 <= |pieces| then n - 1 else |pieces|)
  {
    var all := SubPieces(Range(|pieces|), pieces);
    if n == 1 {
      assert 0 !in all;
      assert Held(all, 0) == 0;
    } else {
      HeldAll(pieces, n - 1);
    }
  }

  lemma {:induction false} ConcatAppend(pieces: seq<Bytes>, last: Bytes)
    ensures Concat(pieces + [last]) == Concat(pieces) + last
  {
    if pieces == [] {
      assert [] + [last] == [last] && Concat([last]) == last + Concat([]);
    } else {
      ConcatAppend(pieces[1..], last);
      assert (pieces + [last])[1..] == pieces[1..] + [last];
    }
  }

  lemma {:induction false} LengthsConcat(pieces: seq<Bytes>, k: nat)
    requires k <= |pieces|
    ensures Lengths(pieces, k) == |Concat(pieces[..k])|
  {
    if k == 0 {
    } else {
      LengthsConcat(pieces, k - 1);
      ConcatAppend(pieces[..k - 1], pieces[k - 1]);
      assert pieces[..k] == pieces[..k - 1] + [pieces[k - 1]];
    }
  }

  lemma HeldFits(nums: set<nat>, pieces: seq<Bytes>)
    requires |pieces| < U16_SIZE && |Concat(pieces)| <= MAX_PACKET
    ensures Held(SubPieces(nums, pieces), U16_SIZE) <= MAX_PACKET
  {
    hide Held, Concat, Lengths, SubPieces;
    HeldSubset(nums, pieces, U16_SIZE);
    HeldAll(pieces, U16_SIZE);
    LengthsConcat(pieces, |pieces|);
    assert pieces[..|pieces|] == pieces;
  }

  lemma SubPiecesInsert(seen: set<nat>, pieces: seq<Bytes>, num: nat)
    requires seen <= Range(|pieces|) && 1 <= num <= |pieces|
    ensures SubPieces({}, pieces) == map[] && seen + {num} <= Range(|pieces|)
    ensures SubPieces(seen, pieces)[num := pieces[num - 1]] == SubPieces(seen + {num}, pieces)
    ensures SubPieces(seen, pieces).Keys == seen && SubPieces(seen + {num}, pieces).Keys == seen + {num}
  {
  }

  lemma AddSeen(fb: Buffer, id: nat, num: nat, total: nat, plain: Bytes)
    requires Current(fb, id, total).total == total && num in Current(fb, id, total).received
    ensures Add(fb, id, num, total, plain) == (fb, Ok(false)) && id in fb && fb[id] == Current(fb, id, total)
  {
  }

  lemma AddUnseen(fb: Buffer, id: nat, num: nat, total: nat, plain: Bytes)
    requires var fs := Current(fb, id, total);
      fs.total == total && num !in fs.received && fs.totalLen + |plain| <= MAX_PACKET
    ensures var fs := Current(fb, id, total);
      var got := fs.received[num := plain];
      Add(fb, id, num, total, plain)
      == (fb[id := FragSet(total, got, fs.totalLen + |plain|)], Ok(|got.Keys| % U16_SIZE == total))
  {
    hide Current;
  }

  /** The state of a message whose deliveries so far have given the pieces in `seen`. */
  ghost predicate Holds(fb: Buffer, id: nat, seen: set<nat>, pieces: seq<Bytes>) {
    var got := SubPieces(seen, pieces);
    && (seen == {} ==> id !in fb)
    && (seen != {} ==> id in fb && fb[id] == FragSet(|pieces|, got, Held(got, U16_SIZE)))
  }

  lemma HoldsCurrent(fb: Buffer, id: nat, seen: set<nat>, pieces: seq<Bytes>)
    requires Holds(fb, id, seen, pieces)
    ensures Current(fb, id, |pieces|)
         == FragSet(|pieces|, SubPieces(seen, pieces), Held(SubPieces(seen, pieces), U16_SIZE))
  {
    hide Held;
    HeldEmpty(U16_SIZE);
    assert SubPieces({}, pieces) == map[];
  }

  lemma AddStepSeen(fb: Buffer, id: nat, seen: set<nat>, pieces: seq<Bytes>, num: nat)
    requires seen <= Range(|pieces|) && 1 <= num <= |pieces| && num in seen && Holds(fb, id, seen, pieces)
    ensures Add(fb, id, num, |pieces|, pieces[num - 1]) == (fb, Ok(false))
  {
    hide Held, Holds, SubPieces, Range, Add, Current;
    HoldsCurrent(fb, id, seen, pieces);
    SubPiecesInsert(seen, pieces, num);
    AddSeen(fb, id, num, |pieces|, pieces[num - 1]);
  }

  lemma SmallCount(n: nat)
    requires n < U16_SIZE
    ensures n % U16_SIZE == n
  {
  }

  lemma AddStepUnseen(fb: Buffer, id: nat, seen: set<nat>, pieces: seq<Bytes>, num: nat)
    requires |pieces| < U16_SIZE && |Concat(pieces)| <= MAX_PACKET && seen <= Range(|pieces|) && 1 <= num <= |pieces|
    requires num !in seen && Holds(fb, id, seen, pieces)
    ensures var got := SubPieces(seen + {num}, pieces);
      Add(fb, id, num, |pieces|, pieces[num - 1])
      == (fb[id := FragSet(|pieces|, got, Held(got, U16_SIZE))], Ok(seen + {num} == Range(|pieces|)))
  {
    hide Held, Holds, Concat, SubPieces, Range, Add, Current;
    var got := SubPieces(seen, pieces);
    HoldsCurrent(fb, id, seen, pieces);
    SubPiecesInsert(seen, pieces, num);
    HeldInsert(got, num, pieces[num - 1], U16_SIZE);
    HeldFits(seen + {num}, pieces);
    FullByCount(seen + {num}, |pieces|);
    AddUnseen(fb, id, num, |pieces|, pieces[num - 1]);
    SmallCount(|seen + {num}|);
  }

  /** One more delivery: a seen number changes nothing, a new one completes the set when none is missing after it. */
  lemma AddStep(fb: Buffer, id: nat, seen: set<nat>, pieces: seq<Bytes>, num: nat)
    requires |pieces| < U16_SIZE && |Concat(pieces)| <= MAX_PACKET && seen <= Range(|pieces|) && 1 <= num <= |pieces|
    requires Holds(fb, id, seen, pieces)
    ensures var (fb', r) := Add(fb, id, num, |pieces|, pieces[num - 1]);
      Holds(fb', id, seen + {num}, pieces) && r == Ok(num !in seen && seen + {num} == Range(|pieces|))
  {
    hide Held, Concat, SubPieces, Range, Add;
    if num in seen {
      AddStepSeen(fb, id, seen, pieces, num);
      assert seen + {num} == seen;
    } else {
      AddStepUnseen(fb, id, seen, pieces, num);
    }
  }

  lemma NumbersGrow(ds: seq<Delivery>)
    requires ds != []
    ensures Numbers(ds) == Numbers(ds[..|ds| - 1]) + {ds[|ds| - 1].num}
    ensures ds[..|ds| - 1] == [] ==> Numbers(ds[..|ds| - 1]) == {}
  {
    var init := ds[..|ds| - 1];
    forall k | k in Numbers(ds) ensures k in Numbers(init) + {ds[|ds| - 1].num} {
      var i :| 0 <= i < |ds| && ds[i].num == k;
      assert i < |init| ==> init[i] == ds[i];
    }
    forall k | k in Numbers(init) ensures k in Numbers(ds) {
      var i :| 0 <= i < |init| && init[i].num == k;
      assert ds[i] == init[i];
    }
  }

  lemma NumbersInRange(ds: seq<Delivery>, id: nat, pieces: seq<Bytes>)
    requires FromPieces(ds, id, pieces)
    ensures Numbers(ds) <= Range(|pieces|)
  {
  }

  /**
   In any order and with any duplication: the buffer holds exactly the pieces seen so far, and a delivery
   reports completion exactly when it is the first of its number and no number is missing any more.
   */
  lemma {:induction false} DeliverPieces(fb: Buffer, ds: seq<Delivery>, id: nat, pieces: seq<Bytes>)
    requires |pieces| < U16_SIZE && |Concat(pieces)| <= MAX_PACKET && id !in fb && FromPieces(ds, id, pieces)
    ensures ds == [] ==> id !in Deliver(fb, ds)
    ensures ds != [] ==>
      var got := SubPieces(Numbers(ds), pieces);
      && id in Deliver(fb, ds) && Deliver(fb, ds)[id] == FragSet(|pieces|, got, Held(got, U16_SIZE))
      && LastAnswer(fb, ds) == Ok(ds[|ds| - 1].num !in Numbers(ds[..|ds| - 1]) && Numbers(ds) == Range(|pieces|))
  {
    hide Add, Held, Concat, SubPieces;
    if ds == [] {
    } else {
      var n := |ds| - 1;
      var init, d := ds[..n], ds[n];
      DeliverPieces(fb, init, id, pieces);
      NumbersGrow(ds);
      NumbersInRange(init, id, pieces);
      assert init != [] ==> init[0].num in Numbers(init);
      AddStep(Deliver(fb, init), id, Numbers(init), pieces, d.num);
    }
  }

  lemma {:induction false} PiecesInOrder(pieces: seq<Bytes>, from: nat)
    requires 1 <= from <= |pieces| + 1
    ensures Pieces(SubPieces(Range(|pieces|), pieces), from, |pieces|) == Ok(Concat(pieces[from - 1..]))
    decreases |pieces| + 1 - from
  {
    if from > |pieces| {
    } else {
      PiecesInOrder(pieces, from + 1);
      assert pieces[from - 1..][1..] == pieces[from..];
    }
  }

  /**
   Reassembly after a completing delivery gives the pieces in fragment order and forgets the message;
   the order of arrival does not matter.
   */
  lemma ReassembledInAnyOrder(fb: Buffer, ds: seq<Delivery>, id: nat, pieces: seq<Bytes>)
    requires 0 < |pieces| < U16_SIZE - 1 && |Concat(pieces)| <= MAX_PACKET && id !in fb && FromPieces(ds, id, pieces)
    requires ds != [] && LastAnswer(fb, ds) == Ok(true)
    ensures Numbers(ds) == Range(|pieces|)
    ensures Reassemble(Deliver(fb, ds), id) == (Deliver(fb, ds) - {id}, Ok(Concat(pieces)))
  {
    hide Concat, SubPieces, LastAnswer, Deliver, Pieces, Held;
    DeliverPieces(fb, ds, id, pieces);
    PiecesInOrder(pieces, 1);
    assert pieces[0..] == pieces;
  }

  lemma {:induction false} PiecesGap(got: map<nat, Bytes>, from: nat, total: nat, k: nat)
    requires from <= k <= total && k !in got
    ensures Pieces(got, from, total) == Err
    decreases k - from
  {
    if from < k && from in got {
      PiecesGap(got, from + 1, total, k);
    }
  }

  /** Reassembly of one message succeeds exactly when all of its fragments have arrived, and only then forgets it. */
  lemma ReassemblesExactlyWhenFull(fb: Buffer, ds: seq<Delivery>, id: nat, pieces: seq<Bytes>)
    requires 0 < |pieces| < U16_SIZE - 1 && |Concat(pieces)| <= MAX_PACKET && id !in fb
    requires FromPieces(ds, id, pieces) && ds != []
    ensures var (fb', r) := Reassemble(Deliver(fb, ds), id);
      && (r.Ok? <==> Numbers(ds) == Range(|pieces|))
      && (r.Err? ==> fb' == Deliver(fb, ds))
  {
    hide Concat, Deliver, Held, LastAnswer, Pieces;
    DeliverPieces(fb, ds, id, pieces);
    NumbersInRange(ds, id, pieces);
    if Numbers(ds) == Range(|pieces|) {
      PiecesInOrder(pieces, 1);
    } else {
      var missing := Range(|pieces|) - Numbers(ds);
      assert Range(|pieces|) == Numbers(ds) * Range(|pieces|) + missing;
      var k :| k in missing;
      PiecesGap(SubPieces(Numbers(ds), pieces), 1, |pieces|, k);
    }
  }

  // ---------- the size limit ----------

  /** Whatever is held for `id` are pieces of this message under their numbers. */
  ghost predicate OnlyPieces(fb: Buffer, id: nat, pieces: seq<Bytes>) {
    id in fb ==>
      && fb[id].total == |pieces|
      && forall k :: k in fb[id].received ==> 1 <= k <= |pieces| && fb[id].received[k] == pieces[k - 1]
  }

  lemma AddKeepsPieces(fb: Buffer, id: nat, pieces: seq<Bytes>, num: nat)
    requires OnlyPieces(fb, id, pieces) && 1 <= num <= |pieces|
    ensures OnlyPieces(Add(fb, id, num, |pieces|, pieces[num - 1]).0, id, pieces)
  {
  }

  lemma {:induction false} DeliverKeepsPieces(fb: Buffer, ds: seq<Delivery>, id: nat, pieces: seq<Bytes>)
    requires OnlyPieces(fb, id, pieces) && FromPieces(ds, id, pieces)
    ensures OnlyPieces(Deliver(fb, ds), id, pieces)
  {
    hide Add, OnlyPieces;
    if ds == [] {
    } else {
      var n := |ds| - 1;
      DeliverKeepsPieces(fb, ds[..n], id, pieces);
      AddKeepsPieces(Deliver(fb, ds[..n]), id, pieces, ds[n].num);
    }
  }

  /** A complete set of pieces holds all their bytes. */
  lemma CompleteHeld(fb: Buffer, id: nat, pieces: seq<Bytes>)
    requires OnlyPieces(fb, id, pieces) && id in fb && 0 < |pieces| < U16_SIZE && |fb[id].received.Keys| == |pieces|
    ensures Held(fb[id].received, U16_SIZE) == |Concat(pieces)|
  {
    hide Held, Concat, Lengths;
    var got := fb[id].received;
    FullByCount(got.Keys, |pieces|);
    assert got == SubPieces(Range(|pieces|), pieces);
    HeldAll(pieces, U16_SIZE);
    LengthsConcat(pieces, |pieces|);
    assert pieces[..|pieces|] == pieces;
  }

  lemma NothingHeld(fb: Buffer, id: nat, pieces: seq<Bytes>)
    requires id !in fb
    ensures OnlyPieces(fb, id, pieces)
  {
  }

  lemma CompletedSet(fb: Buffer, id: nat, num: nat, total: nat, plain: Bytes)
    requires Accounted(fb) && num < U16_SIZE && total < U16_SIZE
    requires Add(fb, id, num, total, plain).1 == Ok(true)
    ensures var fb1 := Add(fb, id, num, total, plain).0;
      && id in fb1 && fb1[id].total == total && |fb1[id].received.Keys| % U16_SIZE == total
      && num in fb1[id].received && forall k :: k in fb1[id].received ==> k < U16_SIZE
  {
    hide Held;
  }

  lemma CountBound(keys: set<nat>, n: nat)
    requires forall k :: k in keys ==> k < n
    ensures |keys| <= n
  {
    if n == 0 {
      assert keys == {};
    } else {
      FullByCount(keys - {0}, n - 1);
    }
  }

  /** Numbers below 2^16 whose count is `total` modulo 2^16, for `total` above zero, are `total` many. */
  lemma ExactCount(keys: set<nat>, total: nat)
    requires (forall k :: k in keys ==> k < U16_SIZE) && |keys| % U16_SIZE == total && total > 0
    ensures |keys| == total
  {
    hide Range;
    CountBound(keys, U16_SIZE);
  }

  /** A message of more than 64 KiB is never reported complete, in any order and with any duplication. */
  lemma TooLargeNeverCompletes(fb: Buffer, ds: seq<Delivery>, id: nat, pieces: seq<Bytes>)
    requires Accounted(fb) && id !in fb && FromPieces(ds, id, pieces) && ds != []
    requires 0 < |pieces| < U16_SIZE && |Concat(pieces)| > MAX_PACKET
    ensures LastAnswer(fb, ds) != Ok(true)
  {
    hide Add, Concat, Held, Deliver, OnlyPieces;
    var n, d := |ds| - 1, ds[|ds| - 1];
    var before := Deliver(fb, ds[..n]);
    DeliverAccounted(fb, ds[..n]);
    NothingHeld(fb, id, pieces);
    DeliverKeepsPieces(fb, ds[..n], id, pieces);
    AddKeepsPieces(before, id, pieces, d.num);
    AddAccounted(before, id, d.num, |pieces|, d.plain);
    if LastAnswer(fb, ds) == Ok(true) {
      CompletedSet(before, id, d.num, |pieces|, d.plain);
      var after := Add(before, id, d.num, |pieces|, d.plain).0;
      ExactCount(after[id].received.Keys, |pieces|);
      CompleteHeld(after, id, pieces);
      assert false;
    }
  }

  /** The pieces in their own order. */
  function InOrder(id: nat, pieces: seq<Bytes>): (ds: seq<Delivery>)
    ensures |ds| == |pieces|
  {
    seq(|pieces|, i requires 0 <= i < |pieces| => Delivery(id, i + 1, |pieces|, pieces[i]))
  }

  lemma InOrderNumbers(id: nat, pieces: seq<Bytes>)
    requires pieces != []
    ensures var ds := InOrder(id, pieces);
      FromPieces(ds, id, pieces) && Numbers(ds) == Range(|pieces|) && ds[|ds| - 1].num !in Numbers(ds[..|ds| - 1])
  {
    var ds := InOrder(id, pieces);
    forall k | 1 <= k <= |pieces| ensures k in Numbers(ds) {
      assert ds[k - 1].num == k;
    }
  }

  /** So a message can be received, in some order, if and only if it is at most 64 KiB. */
  lemma ReceivableExactly(fb: Buffer, id: nat, pieces: seq<Bytes>)
    requires Accounted(fb) && id !in fb && 0 < |pieces| < U16_SIZE
    ensures (exists ds :: FromPieces(ds, id, pieces) && ds != [] && LastAnswer(fb, ds) == Ok(true))
       <==> |Concat(pieces)| <= MAX_PACKET
  {
    hide LastAnswer, Concat, FromPieces, Accounted, Range, Numbers, InOrder;
    if |Concat(pieces)| <= MAX_PACKET {
      InOrderNumbers(id, pieces);
      DeliverPieces(fb, InOrder(id, pieces), id, pieces);
      assert LastAnswer(fb, InOrder(id, pieces)) == Ok(true);
    } else {
      forall ds | FromPieces(ds, id, pieces) && ds != [] ensures LastAnswer(fb, ds) != Ok(true) {
        TooLargeNeverCompletes(fb, ds, id, pieces);
      }
    }
  }

  // ---------- stray numbers ----------

  /** A full count of numbers in 1..total leaves no gap. */
  lemma {:induction false} PiecesFull(got: map<nat, Bytes>, from: nat, total: nat)
    requires forall k :: from <= k <= total ==> k in got
    ensures Pieces(got, from, total).Ok?
    decreases total + 1 - from
  {
    if from > total {
    } else {
      PiecesFull(got, from + 1, total);
    }
  }

  lemma NoPieces(got: map<nat, Bytes>)
    ensures Pieces(got, 1, 0) == Ok([])
  {
  }

  lemma FullOrGap(got: map<nat, Bytes>, total: nat)
    requires |got.Keys| == total > 0
    ensures Pieces(got, 1, total).Ok? <==> forall k :: k in got ==> 1 <= k <= total
  {
    hide Pieces, Range;
    if forall k :: k in got ==> 1 <= k <= total {
      FullByCount(got.Keys, total);
      PiecesFull(got, 1, total);
    } else {
      var stray :| stray in got && !(1 <= stray <= total);
      var inside := got.Keys * Range(total);
      assert inside <= got.Keys - {stray};
      SubsetSize(inside, got.Keys - {stray});
      FullByCount(inside, total);
      assert inside != Range(total);
      assert Range(total) - inside != {};
      var k :| k in Range(total) - inside;
      PiecesGap(got, 1, total, k);
    }
  }

  /**
   The numbers must lie in 1..total, which the source does not check. When a delivery reports completion, the
   message can be reassembled if and only if they do, whichever arrival brought a stray number. Apart from that
   only the totals 0, which needs no fragment, and 65535, at which the loop counter wraps, are special.
   */
  lemma StrayNumber(fb: Buffer, id: nat, num: nat, total: nat, plain: Bytes)
    requires Accounted(fb) && num < U16_SIZE && total < U16_SIZE
    requires Add(fb, id, num, total, plain).1 == Ok(true)
    ensures var fb1 := Add(fb, id, num, total, plain).0;
      && id in fb1
      && (Reassemble(fb1, id).1.Ok?
          <==> total == 0 || (total < U16_SIZE - 1 && forall k :: k in fb1[id].received ==> 1 <= k <= total))
  {
    hide Add, Pieces, Accounted, Range;
    CompletedSet(fb, id, num, total, plain);
    var got := Add(fb, id, num, total, plain).0[id].received;
    if total == 0 {
      NoPieces(got);
    } else if total < U16_SIZE - 1 {
      ExactCount(got.Keys, total);
      FullOrGap(got, total);
    }
  }

  lemma PrependNothing(acc: Bytes)
    ensures Prepend(acc, Ok([])) == Ok(acc)
  {
    assert acc + [] == acc;
  }

  lemma PrependPiece(acc: Bytes, got: map<nat, Bytes>, i: nat, total: nat)
    requires i <= total && i in got
    ensures Prepend(acc, Pieces(got, i, total)) == Prepend(acc + got[i], Pieces(got, i + 1, total))
  {
    match Pieces(got, i + 1, total)
    case Err =>
    case Ok(rest) => assert acc + (got[i] + rest) == acc + got[i] + rest;
  }

  /** The buffer as the source keeps it: one field, updated in place. */
  class FragmentBuffer {
    var frags: Buffer

    constructor ()
      ensures frags == map[]
    {
      frags := map[];
    }

    method AddFragment(id: nat, num: nat, total: nat, plain: Bytes) returns (r: Result<bool>)
      requires num < U16_SIZE && total < U16_SIZE
      modifies this
      ensures (frags, r) == Add(old(frags), id, num, total, plain)
    {
      var fs := FragSet(total, map[], 0);
      if id in frags {
        fs := frags[id];
      }
      if total > fs.total {
        fs := FragSet(total, map[], 0);
      } else if fs.total != total {
        return Err;
      }
      if num in fs.received {
        return Ok(false);
      }
      fs := fs.(totalLen := fs.totalLen + |plain|);
      if fs.totalLen > MAX_PACKET {
        frags := frags - {id};
        return Err;
      }
      fs := fs.(received := fs.received[num := plain]);
      frags := frags[id := fs];
      return Ok(|fs.received| % U16_SIZE == fs.total);
    }

    /** The loop of `reassemble` with its 16-bit counter; it would not end on a set for which `Loops` holds. */
    method ReassembleFragments(id: nat) returns (r: Result<Bytes>)
      requires id in frags ==> frags[id].total < U16_SIZE && !Loops(frags[id])
      modifies this
      ensures (frags, r) == Reassemble(old(frags), id)
    {
      if id !in frags { return Err; }
      var fs := frags[id];
      ghost var got, whole := fs.received, Pieces(fs.received, 1, fs.total);
      var result: Bytes := [];
      var i := 1;
      ghost var wrapped := false;
      assert Prepend(result, whole) == whole by { PrependNone(whole); }
      while i <= fs.total
        invariant frags == old(frags) && i < U16_SIZE
        invariant !wrapped ==> 1 <= i <= fs.total + 1 && Prepend(result, Pieces(got, i, fs.total)) == whole
        invariant wrapped ==> fs.total == U16_SIZE - 1 && i == 0 && 0 !in got
        decreases !wrapped, fs.total + 1 - i
      {
        if i !in fs.received {
          return Err;
        }
        PrependPiece(result, got, i, fs.total);
        result := result + fs.received[i];
        if i + 1 == U16_SIZE {
          wrapped := true;
        }
        i := (i + 1) % U16_SIZE;
      }
      PrependNothing(result);
      frags := frags - {id};
      return Ok(result);
    }
  }
}
