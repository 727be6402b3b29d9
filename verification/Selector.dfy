/**
 Traffic-selector matching of outgoing packets, and its agreement with the routes installed for the same
 selectors.
 */
module Selector {
  import opened Bytes
  import opened IkePayload
  import opened Routes

  const PROTO_TCP: Byte := 6
  const PROTO_UDP: Byte := 17

  /** `net.IP.To4`: four bytes, or the last four of an IPv4-mapped address. */
  function To4(ip: Bytes): Option<Bytes> {
    if |ip| == 4 then Some(ip)
    else if |ip| == 16 && ip[..10] == Zeros(10) && ip[10] == 255 && ip[11] == 255 then Some(ip[12..])
    else None
  }

  /** `net.IP.To16`. */
  function To16(ip: Bytes): Option<Bytes> {
    if |ip| == 4 then Some(Zeros(10) + [255, 255] + ip)
    else if |ip| == 16 then Some(ip)
    else None
  }

  /** `bytes.Compare(a, b) <= 0`. */
  predicate LexLeq(a: Bytes, b: Bytes) {
    if a == [] then true
    else if b == [] then false
    else if a[0] != b[0] then a[0] < b[0]
    else LexLeq(a[1..], b[1..])
  }

  /** One iteration of the loop in `matchSelectors`. */
  predicate Accepts(ts: TrafficSelector, dst: Bytes, proto: Byte, port: nat) {
    && (ts.proto == 0 || ts.proto == proto)
    && (ts.proto == PROTO_TCP || ts.proto == PROTO_UDP ==> ts.startPort <= port <= ts.endPort)
    && (if ts.tsType == TS_IPV4 then
          && To4(dst).Some? && |ts.startAddr| == 4 && |ts.endAddr| == 4
          && GetBE(ts.startAddr) <= GetBE(To4(dst).value) <= GetBE(ts.endAddr)
        else if ts.tsType == TS_IPV6 then
          && To16(dst).Some? && |ts.startAddr| == 16 && |ts.endAddr| == 16
          && LexLeq(ts.startAddr, To16(dst).value) && LexLeq(To16(dst).value, ts.endAddr)
        else false)
  }

  /** `matchSelectors`: a nil selector is skipped, the first accepting one decides. */
  function MatchSelectors(dst: Bytes, proto: Byte, port: nat, tss: seq<Option<TrafficSelector>>): (b: bool)
    ensures b <==> exists i :: 0 <= i < |tss| && tss[i].Some? && Accepts(tss[i].value, dst, proto, port)
  {
    if tss == [] then false
    else if tss[0].Some? && Accepts(tss[0].value, dst, proto, port) then true
    else MatchSelectors(dst, proto, port, tss[1..])
  }

  // ---------- byte order is number order ----------

  lemma HigherDigit(a: int, b: int, r: int, x: int, y: int)
    requires a < b && 0 <= x < r && 0 <= y < r
    ensures a * r + x < b * r + y
  {
    MulAtLeast(r, b - a);
    assert r * (b - a) == b * r - a * r;
  }

  /** On byte strings of one length, lexicographic order is the order of the numbers they denote. */
  lemma {:induction false} LexIsNumeric(a: Bytes, b: Bytes)
    requires |a| == |b|
    ensures LexLeq(a, b) <==> GetBE(a) <= GetBE(b)
  {
    if a == [] {
    } else {
      hide GetBE, Radix;
      HeadAndTail(a);
      HeadAndTail(b);
      BECanonical(a[1..]);
      BECanonical(b[1..]);
      var r, x, y := Radix(|a| - 1), GetBE(a[1..]), GetBE(b[1..]);
      if a[0] < b[0] {
        HigherDigit(a[0] as int, b[0] as int, r, x, y);
      } else if b[0] < a[0] {
        HigherDigit(b[0] as int, a[0] as int, r, y, x);
      } else {
        LexIsNumeric(a[1..], b[1..]);
      }
    }
  }

  /** The number of the first IPv4-mapped IPv6 address, ::ffff:0:0. */
  const MAPPED := 0xFFFF_0000_0000

  lemma MappedPrefix()
    ensures GetBE(Zeros(10) + [255, 255]) == 0xFFFF
  {
    hide GetBE, Radix;
    LeadingZeros(10, [255, 255]);
    U16IsBigEndian(0, [255, 255]);
  }

  /** The number of an address among the IPv6 addresses; an IPv4 address counts as its mapped one. */
  function Number(ip: Bytes): nat {
    if |ip| == 4 then MAPPED + GetBE(ip) else GetBE(ip)
  }

  lemma NumberOf16(ip: Bytes)
    requires |ip| == 4 || |ip| == 16
    ensures To16(ip).Some? && |To16(ip).value| == 16 && GetBE(To16(ip).value) == Number(ip)
  {
    hide GetBE, Radix;
    if |ip| == 4 {
      MappedPrefix();
      RadixValues();
      GetBEJoin(Zeros(10) + [255, 255], ip);
    }
  }

  /** An address has an IPv4 form exactly when its number is one of the 2^32 mapped ones. */
  lemma NumberOf4(ip: Bytes)
    requires |ip| == 4 || |ip| == 16
    ensures To4(ip).Some? <==> MAPPED <= Number(ip) < MAPPED + U32_SIZE
    ensures To4(ip).Some? ==> |To4(ip).value| == 4 && GetBE(To4(ip).value) == Number(ip) - MAPPED
  {
    hide GetBE, Radix, PutBE;
    RadixValues();
    MappedPrefix();
    if |ip| == 4 {
      BECanonical(ip);
    } else {
      var head, mapped := ip[..12], Zeros(10) + [255, 255];
      assert ip == head + ip[12..];
      GetBEJoin(head, ip[12..]);
      BECanonical(ip[12..]);
      BECanonical(head);
      BECanonical(mapped);
      assert head == mapped <==> ip[..10] == Zeros(10) && ip[10] == 255 && ip[11] == 255 by {
        assert head == ip[..10] + [ip[10], ip[11]];
        assert head[..10] == ip[..10] && mapped[..10] == Zeros(10);
      }
    }
  }

  /** Whether a selector admits a protocol and, for TCP and UDP selectors, a port. */
  predicate Admits(ts: TrafficSelector, proto: Byte, port: nat) {
    (ts.proto == 0 || ts.proto == proto) && (ts.proto == 6 || ts.proto == 17 ==> ts.startPort <= port <= ts.endPort)
  }

  lemma Ipv4Value(a: Bytes)
    requires |a| == 4
    ensures GetBE(a) < U32_SIZE
  {
    hide GetBE, Radix;
    RadixValues();
    BECanonical(a);
  }

  /**
   A well-formed selector accepts a packet exactly when it admits its protocol and port, and the number of the
   destination lies between its ends: those of an IPv6 selector, or those of an IPv4 selector among the mapped
   addresses.
   */
  lemma AcceptsExactly(ts: TrafficSelector, dst: Bytes, proto: Byte, port: nat)
    requires ts.WellFormed() && (|dst| == 4 || |dst| == 16)
    ensures var base := if ts.tsType == 7 then 0xFFFF_0000_0000 else 0;
      Accepts(ts, dst, proto, port)
      <==> Admits(ts, proto, port) && base + GetBE(ts.startAddr) <= Number(dst) <= base + GetBE(ts.endAddr)
  {
    hide GetBE, LexLeq, To4, To16, Number;
    NumberOf4(dst);
    NumberOf16(dst);
    if ts.tsType == TS_IPV4 {
      Ipv4Value(ts.startAddr);
      Ipv4Value(ts.endAddr);
    } else {
      LexIsNumeric(ts.startAddr, To16(dst).value);
      LexIsNumeric(To16(dst).value, ts.endAddr);
    }
  }

  /** An address of any other length is accepted by no selector. */
  lemma OtherLengthsRefused(ts: TrafficSelector, dst: Bytes, proto: Byte, port: nat)
    requires |dst| != 4 && |dst| != 16
    ensures !Accepts(ts, dst, proto, port)
  {
  }

  /** An any-protocol IPv6 selector accepts exactly the addresses between its ends, as numbers. */
  lemma Ipv6Accepts(ts: TrafficSelector, dst: Bytes, proto: Byte, port: nat)
    requires ts.WellFormed() && ts.tsType == TS_IPV6 && ts.proto == 0 && |dst| == 16
    ensures Accepts(ts, dst, proto, port) <==> GetBE(ts.startAddr) <= GetBE(dst) <= GetBE(ts.endAddr)
  {
    hide GetBE, Accepts;
    AcceptsExactly(ts, dst, proto, port);
  }

  // ---------- routes ----------

  /** `isFullIPv4Range`. */
  predicate IsFullIpv4Range(ts: TrafficSelector) {
    && ts.tsType == TS_IPV4 && |ts.startAddr| == 4 && |ts.endAddr| == 4
    && GetBE(ts.startAddr) == 0 && GetBE(ts.endAddr) == U32_SIZE - 1
  }

  /** What `ipv4RangeToCIDRs` answers for a pair of addresses. */
  function CidrsOf(start: Bytes, end: Bytes): Result<seq<Cidr>> {
    match (To4(start), To4(end))
    case (Some(s), Some(e)) => if GetBE(s) > GetBE(e) then Err else Ok(Greedy(GetBE(s), GetBE(e) + 1))
    case _ => Err
  }

  /**
   A pair of addresses, in either form, has a decomposition exactly when both are IPv4 addresses in order; its networks
   then hold exactly the addresses from the first to the second.
   */
  lemma CidrsExactly(start: Bytes, end: Bytes, x: nat)
    requires (|start| == 4 || |start| == 16) && (|end| == 4 || |end| == 16) && x < U32_SIZE
    ensures CidrsOf(start, end).Ok?
      <==> 0xFFFF_0000_0000 <= Number(start) <= Number(end) < 0x1_0000_0000_0000
    ensures CidrsOf(start, end).Ok? ==>
      (InSome(CidrsOf(start, end).value, x) <==> Number(start) <= 0xFFFF_0000_0000 + x <= Number(end))
  {
    hide GetBE, To4, Number, Greedy, InSome;
    NumberOf4(start);
    NumberOf4(end);
    if CidrsOf(start, end).Ok? {
      GreedyCovers(Number(start) - MAPPED, Number(end) - MAPPED + 1);
    }
  }

  method Ipv4RangeToCidrs(start: Bytes, end: Bytes) returns (r: Result<seq<Cidr>>)
    ensures r == CidrsOf(start, end)
  {
    hide GetBE, Greedy;
    var s, e := To4(start), To4(end);
    if s.None? || e.None? { return Err; }
    Ipv4Value(s.value);
    Ipv4Value(e.value);
    r := RangeToCidrs(GetBE(s.value), GetBE(e.value));
  }

  /** What the route list of one IPv4 selector should be. */
  function RoutesOf(ts: TrafficSelector, policyRouting: bool): seq<Cidr> {
    if IsFullIpv4Range(ts) && !policyRouting then []
    else match CidrsOf(ts.startAddr, ts.endAddr)
      case Ok(cidrs) => cidrs
      case Err => []
  }

  /**
   The routes added for one IPv4 selector: errors add nothing, and without policy routing the full range is
   skipped to leave the host's default route alone.
   */
  method RoutesFor(ts: TrafficSelector, policyRouting: bool) returns (cidrs: seq<Cidr>)
    requires ts.tsType == TS_IPV4
    ensures cidrs == RoutesOf(ts, policyRouting)
  {
    hide GetBE, Greedy;
    if !policyRouting && IsFullIpv4Range(ts) {
      return [];
    }
    if IsFullIpv4Range(ts) {
      GreedyFullRange();
      return [Cidr(0, 0)];
    }
    var r := Ipv4RangeToCidrs(ts.startAddr, ts.endAddr);
    cidrs := if r.Ok? then r.value else [];
  }

  /**
   Routing and matching agree: an address is inside the routes installed for an any-protocol IPv4 selector
   if and only if the matcher accepts packets to it, whatever their protocol and port. An inverted range
   gives no routes and matches nothing.
   */
  lemma RoutesAgreeWithMatcher(ts: TrafficSelector, dst: Bytes, proto: Byte, port: nat)
    requires ts.WellFormed() && ts.tsType == TS_IPV4 && ts.proto == 0 && |dst| == 4
    ensures match CidrsOf(ts.startAddr, ts.endAddr)
            case Ok(cidrs) => MatchSelectors(dst, proto, port, [Some(ts)]) <==> InSome(cidrs, GetBE(dst))
            case Err => !MatchSelectors(dst, proto, port, [Some(ts)])
  {
    hide GetBE, Greedy, InSome, MatchSelectors;
    Ipv4Value(ts.startAddr);
    Ipv4Value(ts.endAddr);
    Ipv4Value(dst);
    var s, e := GetBE(ts.startAddr), GetBE(ts.endAddr);
    assert MatchSelectors(dst, proto, port, [Some(ts)]) <==> Accepts(ts, dst, proto, port) by {
      assert [Some(ts)][0] == Some(ts);
    }
    if s <= e {
      GreedyCovers(s, e + 1);
    }
  }

  /**
   The routes really installed: with policy routing they contain exactly the addresses the matcher accepts, and
   without it they do exactly when the selector is not the full range, which matches everything and is skipped.
   */
  lemma InstalledRoutesAgree(ts: TrafficSelector, dst: Bytes, proto: Byte, port: nat, policyRouting: bool)
    requires ts.WellFormed() && ts.tsType == TS_IPV4 && ts.proto == 0 && |dst| == 4
    ensures (MatchSelectors(dst, proto, port, [Some(ts)]) <==> InSome(RoutesOf(ts, policyRouting), GetBE(dst)))
       <==> policyRouting || GetBE(ts.startAddr) != 0 || GetBE(ts.endAddr) != 0xFFFF_FFFF
  {
    hide GetBE, Greedy, MatchSelectors;
    RoutesAgreeWithMatcher(ts, dst, proto, port);
    Ipv4Value(dst);
    if IsFullIpv4Range(ts) {
      GreedyCovers(0, U32_SIZE);
    }
  }

  // ---------- the whole list ----------

  /** The IPv4 routes of a list of selectors, one after another. */
  function AllRoutes(tss: seq<TrafficSelector>, policyRouting: bool): seq<Cidr> {
    if tss == [] then []
    else (if tss[0].tsType == TS_IPV4 then RoutesOf(tss[0], policyRouting) else []) + AllRoutes(tss[1..], policyRouting)
  }

  lemma NoRoutes(policyRouting: bool)
    ensures AllRoutes([], policyRouting) == []
  {
  }

  lemma RoutesStep(acc: seq<Cidr>, tss: seq<TrafficSelector>, i: nat, policyRouting: bool)
    requires i < |tss|
    ensures var here := if tss[i].tsType == TS_IPV4 then RoutesOf(tss[i], policyRouting) else [];
      acc + AllRoutes(tss[i..], policyRouting) == (acc + here) + AllRoutes(tss[i + 1..], policyRouting)
  {
    hide RoutesOf;
    assert tss[i..][1..] == tss[i + 1..];
  }

  /** The loop that collects them. */
  method InstallRoutes(tss: seq<TrafficSelector>, policyRouting: bool) returns (routes: seq<Cidr>)
    ensures routes == AllRoutes(tss, policyRouting)
  {
    hide RoutesOf, AllRoutes;
    routes := [];
    ghost var whole := AllRoutes(tss, policyRouting);
    assert tss[0..] == tss && [] + whole == whole;
    for i := 0 to |tss|
      invariant routes + AllRoutes(tss[i..], policyRouting) == whole
    {
      RoutesStep(routes, tss, i, policyRouting);
      if tss[i].tsType == TS_IPV4 {
        var cidrs := RoutesFor(tss[i], policyRouting);
        routes := routes + cidrs;
      } else {
        assert routes + [] == routes;
      }
    }
    NoRoutes(policyRouting);
    assert tss[|tss|..] == [] && routes + [] == routes;
  }

  /** The selector accepts the address but adds no IPv4 route: a skipped full range, or IPv6 at the mapped address. */
  predicate AcceptsUnrouted(ts: TrafficSelector, dst: Bytes, proto: Byte, port: nat, policyRouting: bool) {
    (IsFullIpv4Range(ts) && !policyRouting) || (ts.tsType == TS_IPV6 && Accepts(ts, dst, proto, port))
  }

  lemma NoRoute(x: nat)
    ensures !InSome([], x)
  {
  }

  lemma OneSelector(ts: TrafficSelector, dst: Bytes, proto: Byte, port: nat, policyRouting: bool)
    requires ts.WellFormed() && ts.proto == 0 && |dst| == 4
    ensures Accepts(ts, dst, proto, port)
       <==> (ts.tsType == TS_IPV4 && InSome(RoutesOf(ts, policyRouting), GetBE(dst)))
            || AcceptsUnrouted(ts, dst, proto, port, policyRouting)
  {
    hide GetBE, Greedy, InSome;
    if ts.tsType == TS_IPV4 {
      Ipv4Value(ts.startAddr);
      Ipv4Value(ts.endAddr);
      Ipv4Value(dst);
      var s, e := GetBE(ts.startAddr), GetBE(ts.endAddr);
      if s <= e {
        GreedyCovers(s, e + 1);
      }
      NoRoute(GetBE(dst));
    }
  }

  ghost predicate SomeAccepts(tss: seq<TrafficSelector>, dst: Bytes, proto: Byte, port: nat) {
    exists i :: 0 <= i < |tss| && Accepts(tss[i], dst, proto, port)
  }

  ghost predicate SomeUnrouted(tss: seq<TrafficSelector>, dst: Bytes, proto: Byte, port: nat, policyRouting: bool) {
    exists i :: 0 <= i < |tss| && AcceptsUnrouted(tss[i], dst, proto, port, policyRouting)
  }

  lemma SomeStep(tss: seq<TrafficSelector>, dst: Bytes, proto: Byte, port: nat, policyRouting: bool)
    requires tss != []
    ensures SomeAccepts(tss, dst, proto, port)
       <==> Accepts(tss[0], dst, proto, port) || SomeAccepts(tss[1..], dst, proto, port)
    ensures SomeUnrouted(tss, dst, proto, port, policyRouting)
       <==> AcceptsUnrouted(tss[0], dst, proto, port, policyRouting)
            || SomeUnrouted(tss[1..], dst, proto, port, policyRouting)
  {
    hide Accepts, AcceptsUnrouted;
    var rest := tss[1..];
    assert forall i :: 0 <= i < |rest| ==> rest[i] == tss[i + 1];
    assert forall i :: 0 < i < |tss| ==> tss[i] == rest[i - 1];
  }

  lemma {:induction false} ListAccepts(tss: seq<TrafficSelector>, dst: Bytes, proto: Byte, port: nat,
                                       policyRouting: bool)
    requires (forall i :: 0 <= i < |tss| ==> tss[i].WellFormed() && tss[i].proto == 0) && |dst| == 4
    ensures SomeAccepts(tss, dst, proto, port)
       <==> InSome(AllRoutes(tss, policyRouting), GetBE(dst)) || SomeUnrouted(tss, dst, proto, port, policyRouting)
  {
    hide GetBE, InSome, RoutesOf, Accepts, AcceptsUnrouted;
    if tss == [] {
      NoRoute(GetBE(dst));
    } else {
      var here := if tss[0].tsType == TS_IPV4 then RoutesOf(tss[0], policyRouting) else [];
      OneSelector(tss[0], dst, proto, port, policyRouting);
      NoRoute(GetBE(dst));
      InSomeJoin(here, AllRoutes(tss[1..], policyRouting), GetBE(dst));
      ListAccepts(tss[1..], dst, proto, port, policyRouting);
      SomeStep(tss, dst, proto, port, policyRouting);
    }
  }

  function Present(tss: seq<TrafficSelector>): (r: seq<Option<TrafficSelector>>)
    ensures |r| == |tss| && forall i :: 0 <= i < |tss| ==> r[i] == Some(tss[i])
  {
    seq(|tss|, i requires 0 <= i < |tss| => Some(tss[i]))
  }

  /**
   For a whole list of any-protocol selectors: every routed address is matched, and routes and matcher agree on an
   IPv4 address exactly when it is routed or no selector accepts it without adding a route. Such a selector is a
   full IPv4 range without policy routing, or an IPv6 range that holds the IPv4-mapped address.
   */
  lemma InstalledListAgrees(tss: seq<TrafficSelector>, dst: Bytes, proto: Byte, port: nat, policyRouting: bool)
    requires (forall i :: 0 <= i < |tss| ==> tss[i].WellFormed() && tss[i].proto == 0) && |dst| == 4
    ensures var routed := InSome(AllRoutes(tss, policyRouting), GetBE(dst));
      var matched := MatchSelectors(dst, proto, port, Present(tss));
      && (routed ==> matched)
      && ((matched <==> routed) <==> routed || !SomeUnrouted(tss, dst, proto, port, policyRouting))
  {
    hide GetBE, InSome, AllRoutes, Accepts, SomeUnrouted;
    ListAccepts(tss, dst, proto, port, policyRouting);
    assert MatchSelectors(dst, proto, port, Present(tss)) <==> SomeAccepts(tss, dst, proto, port);
  }
}
