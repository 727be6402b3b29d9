/**
 The software SIM: sequence-number runs over Milenage's authentication token. The functions f1 to f5* are
 parameters of which only the output lengths are known.
 */
module SoftSim {
  import opened Bytes

  // ---------- exclusive or ----------

  /** Exclusive or of the low `w` bits. */
  function XorBits(a: nat, b: nat, w: nat): (r: nat)
    ensures r < Pow2(w)
  {
    if w == 0 then 0 else (if a % 2 == b % 2 then 0 else 1) + 2 * XorBits(a / 2, b / 2, w - 1)
  }

  lemma {:induction false} XorTwice(a: nat, b: nat, w: nat)
    requires a < Pow2(w)
    ensures XorBits(XorBits(a, b, w), b, w) == a
  {
    if w == 0 {
    } else {
      var r := XorBits(a, b, w);
      assert r / 2 == XorBits(a / 2, b / 2, w - 1);
      XorTwice(a / 2, b / 2, w - 1);
    }
  }

  lemma XorSplit(a: nat, b: nat, w: nat)
    requires w > 0
    ensures XorBits(a, b, w) % 2 == if a % 2 == b % 2 then 0 else 1
    ensures XorBits(a, b, w) / 2 == XorBits(a / 2, b / 2, w - 1)
  {
  }

  lemma HalveThenShift(n: nat, k: nat)
    requires k > 0
    ensures n / 2 / Pow2(k - 1) == n / Pow2(k)
  {
    var p, q := Pow2(k - 1), n / 2 / Pow2(k - 1);
    var r := 2 * (n / 2 - p * q) + n % 2;
    assert n / 2 == p * q + n / 2 % p;
    assert n == (2 * p) * q + r;
    ModUnique(n, 2 * p, q, r);
  }

  /** Bit `k` of the result is set exactly when it differs in the two numbers. */
  lemma {:induction false} XorBitwise(a: nat, b: nat, w: nat, k: nat)
    requires k < w
    ensures (XorBits(a, b, w) / Pow2(k)) % 2 == 1 <==> (a / Pow2(k)) % 2 != (b / Pow2(k)) % 2
  {
    hide XorBits;
    XorSplit(a, b, w);
    if k == 0 {
    } else {
      hide Pow2;
      XorBitwise(a / 2, b / 2, w - 1, k - 1);
      HalveThenShift(XorBits(a, b, w), k);
      HalveThenShift(a, k);
      HalveThenShift(b, k);
    }
  }

  lemma Pow2Byte()
    ensures Pow2(8) == 256
  {
  }

  function XorByte(a: Byte, b: Byte): Byte {
    Pow2Byte();
    XorBits(a, b, 8)
  }

  function Xor(x: Bytes, y: Bytes): (r: Bytes)
    requires |x| == |y|
    ensures |r| == |x|
  {
    seq(|x|, i requires 0 <= i < |x| => XorByte(x[i], y[i]))
  }

  /** Masking twice with the same key stream gives the text back. */
  lemma XorInvolutive(x: Bytes, y: Bytes)
    requires |x| == |y|
    ensures Xor(Xor(x, y), y) == x
  {
    Pow2Byte();
    forall i | 0 <= i < |x| ensures XorByte(XorByte(x[i], y[i]), y[i]) == x[i] {
      XorTwice(x[i], y[i], 8);
    }
  }

  // ---------- Milenage tokens ----------

  /** f1 gives MAC-A and MAC-S, f2f5 gives RES and AK. */
  datatype Milenage = Milenage(
    f1: (Bytes, Bytes, Bytes) -> (Bytes, Bytes), f2f5: Bytes -> (Bytes, Bytes),
    f3: Bytes -> Bytes, f4: Bytes -> Bytes, f5star: Bytes -> Bytes)
  {
    ghost predicate Lengths() {
      && (forall r: Bytes, s: Bytes, a: Bytes :: |f1(r, s, a).0| == 8 && |f1(r, s, a).1| == 8)
      && (forall r: Bytes :: |f2f5(r).1| == 6 && |f5star(r)| == 6)
    }
  }

  const SQN_LIMIT := 0x1_0000_0000_0000

  function DecodeSqn(b: Bytes): nat {
    if |b| < 6 then 0 else GetBE(b[..6])
  }

  /** `EncodeSQN`: two 16- and 32-bit writes. */
  function EncodeSqn(sqn: nat): (b: Bytes)
    ensures |b| == 6
  {
    PutBE(sqn / U32_SIZE, 2) + PutBE(sqn % U32_SIZE, 4)
  }

  lemma SqnRoundTrip(sqn: nat)
    requires sqn < SQN_LIMIT
    ensures DecodeSqn(EncodeSqn(sqn)) == sqn && GetBE(EncodeSqn(sqn)) == sqn
  {
    hide PutBE, GetBE, Radix;
    RadixValues();
    var b := EncodeSqn(sqn);
    assert b[..6] == b;
    GetBEJoin(PutBE(sqn / U32_SIZE, 2), PutBE(sqn % U32_SIZE, 4));
    BERoundTrip(sqn / U32_SIZE, 2);
    BERoundTrip(sqn % U32_SIZE, 4);
  }

  /** `GenerateAUTN`: the masked sequence number, the AMF, and MAC-A. */
  function GenerateAutn(m: Milenage, rand: Bytes, sqn: Bytes, amf: Bytes): Result<Bytes>
    requires m.Lengths()
  {
    if |rand| != 16 || |sqn| != 6 || |amf| != 2 then Err
    else Ok(Xor(sqn, m.f2f5(rand).1) + amf + m.f1(rand, sqn, amf).0)
  }

  /** `GenerateAUTS`. */
  function GenerateAuts(m: Milenage, rand: Bytes, sqn: Bytes): Bytes
    requires m.Lengths() && |sqn| == 6
  {
    Xor(sqn, m.f5star(rand)) + m.f1(rand, sqn, [0, 0]).1
  }

  datatype Answer =
    | Accepted(res: Bytes, ck: Bytes, ik: Bytes)
    | OutOfSync(auts: Bytes)
    | Rejected

  /** The sequence number an AUTN carries under its RAND. */
  function Carried(m: Milenage, rand: Bytes, autn: Bytes): Bytes
    requires m.Lengths() && |autn| == 16
  {
    Xor(autn[..6], m.f2f5(rand).1)
  }

  /** `VerifyAUTN`. */
  function VerifyAutn(m: Milenage, rand: Bytes, autn: Bytes, expected: nat): Answer
    requires m.Lengths()
  {
    if |rand| != 16 || |autn| != 16 then Rejected
    else
      var sqn := Carried(m, rand, autn);
      if m.f1(rand, sqn, autn[6..8]).0 != autn[8..16] then Rejected
      else if DecodeSqn(sqn) < expected then OutOfSync(GenerateAuts(m, rand, sqn))
      else Accepted(m.f2f5(rand).0, m.f3(rand), m.f4(rand))
  }

  /** The SIM's next state and answer for one challenge. */
  function Aka(m: Milenage, stored: nat, rand: Bytes, autn: Bytes): (nat, Answer)
    requires m.Lengths()
  {
    var a := VerifyAutn(m, rand, autn, stored);
    if a.Accepted? then (DecodeSqn(Carried(m, rand, autn)) + 1, a) else (stored, a)
  }

  lemma AutnParts(m: Milenage, rand: Bytes, sqn: Bytes, amf: Bytes)
    requires m.Lengths() && |rand| == 16 && |sqn| == 6 && |amf| == 2
    ensures var autn := GenerateAutn(m, rand, sqn, amf).value;
      && |autn| == 16 && Carried(m, rand, autn) == sqn
      && autn[6..8] == amf && autn[8..16] == m.f1(rand, sqn, amf).0
  {
    hide Xor;
    var autn := GenerateAutn(m, rand, sqn, amf).value;
    assert autn[..6] == Xor(sqn, m.f2f5(rand).1);
    XorInvolutive(sqn, m.f2f5(rand).1);
  }

  /**
   A token made by `GenerateAUTN` is accepted exactly when its sequence number is at least the stored one.
   Otherwise the SIM reports loss of synchronisation, and the number masked in the AUTS is the rejected one.
   */
  lemma GeneratedAcceptedExactly(m: Milenage, rand: Bytes, n: nat, amf: Bytes, stored: nat)
    requires m.Lengths() && |rand| == 16 && |amf| == 2 && n < SQN_LIMIT
    ensures var autn := GenerateAutn(m, rand, EncodeSqn(n), amf).value;
      var a := VerifyAutn(m, rand, autn, stored);
      && (a.Accepted? <==> n >= stored)
      && (n < stored ==> a.OutOfSync? && |a.auts| == 14 && DecodeSqn(Xor(a.auts[..6], m.f5star(rand))) == n)
      && Aka(m, stored, rand, autn).0 == if n >= stored then n + 1 else stored
  {
    hide Xor, EncodeSqn, DecodeSqn, GenerateAutn, Carried;
    var sqn := EncodeSqn(n);
    AutnParts(m, rand, sqn, amf);
    SqnRoundTrip(n);
    XorInvolutive(sqn, m.f5star(rand));
    assert GenerateAuts(m, rand, sqn)[..6] == Xor(sqn, m.f5star(rand));
  }

  /**
   Every challenge of the right lengths. It is rejected exactly when the last eight bytes of its token differ from
   MAC-A over the unmasked sequence number and the AMF. A token with the right MAC is accepted exactly when its number
   is at least the stored one: then the answer is RES, CK and IK, and the number behind it is stored. Otherwise the
   answer is an AUTS that ends in MAC-S for AMF 00 00, and nothing is stored.
   */
  lemma ChallengeExactly(m: Milenage, stored: nat, rand: Bytes, autn: Bytes)
    requires m.Lengths() && |rand| == 16 && |autn| == 16
    ensures var (next, a) := Aka(m, stored, rand, autn);
      var sqn := Xor(autn[..6], m.f2f5(rand).1);
      && (a == Rejected <==> autn[8..] != m.f1(rand, sqn, autn[6..8]).0)
      && (a.Accepted? <==> autn[8..] == m.f1(rand, sqn, autn[6..8]).0 && GetBE(sqn) >= stored)
      && (a.Accepted? ==> a == Accepted(m.f2f5(rand).0, m.f3(rand), m.f4(rand)) && next == GetBE(sqn) + 1)
      && (a.OutOfSync? ==> |a.auts| == 14 && a.auts[..6] == Xor(sqn, m.f5star(rand))
                           && a.auts[6..] == m.f1(rand, sqn, [0, 0]).1)
      && (!a.Accepted? ==> next == stored)
  {
    hide Xor, GetBE;
    var sqn := Carried(m, rand, autn);
    assert sqn[..6] == sqn && autn[8..16] == autn[8..];
  }

  /** A token of another length is rejected, and so is a RAND of another length. */
  lemma MalformedRejected(m: Milenage, stored: nat, rand: Bytes, autn: Bytes)
    requires m.Lengths() && (|rand| != 16 || |autn| != 16)
    ensures Aka(m, stored, rand, autn) == (stored, Rejected)
  {
  }

  lemma SameNumber(m: Milenage, rand: Bytes, autn: Bytes, autn': Bytes)
    requires m.Lengths() && |autn| == |autn'| == 16 && autn[..8] == autn'[..8]
    ensures Xor(autn'[..6], m.f2f5(rand).1) == Carried(m, rand, autn)
  {
    assert autn[..6] == autn[..8][..6] && autn'[..6] == autn'[..8][..6];
  }

  /** The last eight bytes of a generated token cannot be replaced by others, whatever its number. */
  lemma ForgedRejected(m: Milenage, stored: nat, rand: Bytes, sqn: Bytes, amf: Bytes, mac: Bytes)
    requires m.Lengths() && |rand| == 16 && |sqn| == 6 && |amf| == 2 && |mac| == 8
    ensures var autn := GenerateAutn(m, rand, sqn, amf).value;
      mac != autn[8..] ==> Aka(m, stored, rand, autn[..8] + mac) == (stored, Rejected)
  {
    hide Xor, GetBE, Aka, Carried;
    var autn := GenerateAutn(m, rand, sqn, amf).value;
    AutnParts(m, rand, sqn, amf);
    var forged := autn[..8] + mac;
    SameNumber(m, rand, autn, forged);
    assert forged[6..8] == autn[6..8] && forged[8..] == mac && autn[8..16] == autn[8..];
    ChallengeExactly(m, stored, rand, forged);
  }

  // ---------- runs ----------

  datatype Challenge = Challenge(rand: Bytes, autn: Bytes)

  /** The stored sequence number before each challenge of a series, and after the last. */
  function Stored(m: Milenage, start: nat, cs: seq<Challenge>): nat
    requires m.Lengths()
  {
    if cs == [] then start
    else
      var c := cs[|cs| - 1];
      Aka(m, Stored(m, start, cs[..|cs| - 1]), c.rand, c.autn).0
  }

  /** Whether challenge `i` of the series is accepted when it arrives. */
  predicate AcceptedAt(m: Milenage, start: nat, cs: seq<Challenge>, i: nat)
    requires m.Lengths() && i < |cs|
  {
    VerifyAutn(m, cs[i].rand, cs[i].autn, Stored(m, start, cs[..i])).Accepted?
  }

  lemma AkaGrows(m: Milenage, stored: nat, rand: Bytes, autn: Bytes)
    requires m.Lengths()
    ensures var (next, a) := Aka(m, stored, rand, autn);
      && (a.Accepted? ==> |autn| == 16 && next == DecodeSqn(Carried(m, rand, autn)) + 1 > stored)
      && (!a.Accepted? ==> next == stored)
  {
    hide Carried, DecodeSqn;
  }

  lemma {:induction false} StoredGrows(m: Milenage, start: nat, cs: seq<Challenge>, i: nat)
    requires m.Lengths() && i <= |cs|
    ensures Stored(m, start, cs[..i]) <= Stored(m, start, cs)
    decreases |cs| - i
  {
    hide VerifyAutn, DecodeSqn, Carried;
    if i < |cs| {
      var n := |cs| - 1;
      StoredGrows(m, start, cs[..n], i);
      assert cs[..n][..i] == cs[..i];
      AkaGrows(m, Stored(m, start, cs[..n]), cs[n].rand, cs[n].autn);
    } else {
      assert cs[..i] == cs;
    }
  }

  /**
   Over any series of challenges: accepted sequence numbers strictly increase, so no challenge is accepted
   twice, and a challenge that is not accepted leaves the stored number alone.
   */
  lemma NoReplay(m: Milenage, start: nat, cs: seq<Challenge>, i: nat, j: nat)
    requires m.Lengths() && i < j < |cs| && AcceptedAt(m, start, cs, i)
    ensures |cs[i].autn| == 16
    ensures AcceptedAt(m, start, cs, j) ==>
      && |cs[j].autn| == 16
      && DecodeSqn(Carried(m, cs[i].rand, cs[i].autn)) < DecodeSqn(Carried(m, cs[j].rand, cs[j].autn))
      && cs[i] != cs[j]
    ensures !AcceptedAt(m, start, cs, j) ==> Stored(m, start, cs[..j + 1]) == Stored(m, start, cs[..j])
  {
    hide VerifyAutn, DecodeSqn, Carried;
    assert cs[..i + 1][..i] == cs[..i] && cs[..j + 1][..j] == cs[..j] && cs[..j][..i + 1] == cs[..i + 1];
    AkaGrows(m, Stored(m, start, cs[..i]), cs[i].rand, cs[i].autn);
    AkaGrows(m, Stored(m, start, cs[..j]), cs[j].rand, cs[j].autn);
    StoredGrows(m, start, cs[..j], i + 1);
  }

  /** The SIM object: one field, advanced by each accepted challenge. */
  class SoftSIM {
    const milenage: Milenage
    var sqn: nat

    constructor (m: Milenage)
      ensures milenage == m && sqn == 0
    {
      milenage, sqn := m, 0;
    }

    method SetSQN(n: nat)
      modifies this
      ensures sqn == n
    {
      sqn := n;
    }

    /** `CalculateAKA`: recovers the sequence number a second time to store its successor. */
    method CalculateAKA(rand: Bytes, autn: Bytes) returns (a: Answer)
      requires milenage.Lengths()
      modifies this
      ensures (sqn, a) == Aka(milenage, old(sqn), rand, autn)
    {
      a := VerifyAutn(milenage, rand, autn, sqn);
      if a.Accepted? {
        var ak := milenage.f2f5(rand).1;
        var plain: Bytes := [];
        for i := 0 to 6
          invariant |plain| == i && forall k :: 0 <= k < i ==> plain[k] == XorByte(autn[k], ak[k])
        {
          plain := plain + [XorByte(autn[i], ak[i])];
        }
        assert plain == Carried(milenage, rand, autn);
        sqn := DecodeSqn(plain) + 1;
      }
    }
  }
}
