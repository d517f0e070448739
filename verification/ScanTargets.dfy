/** The bounded set of targets of a network scan (src/cmnd_linux/discovery.py). */
module ScanTargets {
  import opened Wrappers

  /** An IPv4 or IPv6 address as a number. */
  datatype Address = Address(v6: bool, value: nat)

  /** A network: its first address and how many addresses it has. */
  datatype Network = Network(v6: bool, base: nat, size: nat)

  datatype TargetError = InvalidMax | RangeTooLarge | NotPermitted | IsolatedMode | TooMany | NoTarget

  const MULTICAST_V6 := 0xFF00_0000_0000_0000_0000_0000_0000_0000

  predicate Multicast(a: Address) {
    if a.v6 then a.value >= MULTICAST_V6 else 0xE000_0000 <= a.value < 0xF000_0000
  }

  predicate Loopback(a: Address) {
    if a.v6 then a.value == 1 else 0x7F00_0000 <= a.value < 0x8000_0000
  }

  predicate Inside(a: Address, n: Network) {
    a.v6 == n.v6 && n.base <= a.value < n.base + n.size
  }

  predicate Permitted(a: Address, allowed: seq<Network>) {
    !Multicast(a) && a.value != 0 && exists n <- allowed :: Inside(a, n)
  }

  predicate Acceptable(a: Address, allowed: seq<Network>, isolated: bool) {
    Permitted(a, allowed) && (isolated ==> Loopback(a))
  }

  /** The addresses with values from `first` up to `end`. */
  function Addresses(v6: bool, first: nat, end: nat): set<Address>
    decreases end
  {
    if first >= end then {} else Addresses(v6, first, end - 1) + {Address(v6, end - 1)}
  }

  lemma {:induction false} AddressesAre(v6: bool, first: nat, end: nat, a: Address)
    ensures a in Addresses(v6, first, end) <==> a.v6 == v6 && first <= a.value < end
    decreases end
  {
    if first < end { AddressesAre(v6, first, end - 1, a); }
  }

  /** The hosts of a network: without its outermost addresses unless it has at most two. */
  function Hosts(n: Network): set<Address> {
    if n.size <= 2 then Addresses(n.v6, n.base, n.base + n.size)
    else Addresses(n.v6, n.base + 1, if n.v6 then n.base + n.size else n.base + n.size - 1)
  }

  function Union(networks: seq<Network>): set<Address> {
    if networks == [] then {} else Union(networks[..|networks| - 1]) + Hosts(networks[|networks| - 1])
  }

  lemma {:induction false} UnionGrows(networks: seq<Network>, k: nat)
    requires k <= |networks|
    ensures Union(networks[..k]) <= Union(networks)
    ensures |Union(networks[..k])| <= |Union(networks)|
  {
    if k < |networks| {
      UnionGrows(networks[..|networks| - 1], k);
      assert networks[..|networks| - 1][..k] == networks[..k];
      Smaller(Union(networks[..k]), Union(networks));
    } else {
      assert networks[..k] == networks;
    }
  }

  lemma UnionHas(networks: seq<Network>, k: nat)
    requires k < |networks|
    ensures Hosts(networks[k]) <= Union(networks)
  {
    hide Hosts;
    UnionGrows(networks, k + 1);
    assert networks[..k + 1][..k] == networks[..k];
  }

  lemma Smaller(a: set<Address>, b: set<Address>)
    requires a <= b
    ensures |a| <= |b|
  {
    assert b == a + (b - a);
  }

  // ---- What is asked for, and what may be ----

  /** The address is a host of a requested network. */
  predicate Asked(a: Address, requested: seq<Network>) {
    exists n <- requested ::
      && n.v6 == a.v6 && n.base <= a.value && a.value - n.base < n.size
      && (n.size > 2 ==> a.value > n.base && (!n.v6 ==> a.value - n.base < n.size - 1))
  }

  /** A unicast address of an allowed range, and one of this machine in isolated mode. */
  predicate May(a: Address, allowed: seq<Network>, isolated: bool) {
    && a.value > 0
    && (if a.v6 then a.value / 0x1_0000_0000_0000_0000_0000_0000_0000 < 0xFF00 else a.value / 0x1000_0000 != 14)
    && (exists n <- allowed :: n.v6 == a.v6 && n.base <= a.value && a.value - n.base < n.size)
    && (isolated ==> if a.v6 then a.value == 1 else a.value / 0x100_0000 == 127)
  }

  lemma MayIs(a: Address, allowed: seq<Network>, isolated: bool)
    ensures Acceptable(a, allowed, isolated) <==> May(a, allowed, isolated)
  {
    if n :| n in allowed && Inside(a, n) { assert n.v6 == a.v6 && n.base <= a.value && a.value - n.base < n.size; }
    if n :| n in allowed && n.v6 == a.v6 && n.base <= a.value && a.value - n.base < n.size { assert Inside(a, n); }
  }

  lemma PermittedIs(a: Address, allowed: seq<Network>)
    ensures Permitted(a, allowed) <==> May(a, allowed, false)
    ensures Permitted(a, allowed) && Loopback(a) <==> May(a, allowed, true)
  {
    MayIs(a, allowed, false);
    MayIs(a, allowed, true);
  }

  lemma HostsAre(n: Network, a: Address)
    ensures a in Hosts(n) <==> Asked(a, [n])
  {
    if n.size <= 2 { AddressesAre(n.v6, n.base, n.base + n.size, a); }
    else { AddressesAre(n.v6, n.base + 1, if n.v6 then n.base + n.size else n.base + n.size - 1, a); }
    assert n in [n];
  }

  lemma AskedLast(requested: seq<Network>, a: Address)
    requires requested != []
    ensures Asked(a, requested) <==> Asked(a, requested[..|requested| - 1]) || Asked(a, [requested[|requested| - 1]])
  {
    var front, last := requested[..|requested| - 1], requested[|requested| - 1];
    assert requested == front + [last] && last in [last];
  }

  lemma {:induction false} UnionAre(requested: seq<Network>, a: Address)
    ensures a in Union(requested) <==> Asked(a, requested)
  {
    if requested != [] {
      UnionAre(requested[..|requested| - 1], a);
      HostsAre(requested[|requested| - 1], a);
      AskedLast(requested, a);
    }
  }

  lemma {:induction false} AcceptableAre(allowed: seq<Network>, isolated: bool, requested: seq<Network>, max: int)
    ensures AllAcceptable(allowed, isolated, requested, max)
            <==> (forall n <- requested :: n.size <= max + 2) && forall a :: Asked(a, requested) ==> May(a, allowed, isolated)
  {
    hide Hosts, Acceptable, Asked, May;
    forall a ensures Acceptable(a, allowed, isolated) <==> May(a, allowed, isolated) { MayIs(a, allowed, isolated); }
    forall n, a ensures a in Hosts(n) <==> Asked(a, [n]) { HostsAre(n, a); }
    forall a, n | n in requested && Asked(a, [n]) ensures Asked(a, requested) { AskedOne(requested, n, a); }
    if forall n <- requested :: forall a <- Hosts(n) :: Acceptable(a, allowed, isolated) {
      forall a | Asked(a, requested) ensures May(a, allowed, isolated) {
        var n := AskedIn(requested, a);
        assert a in Hosts(n);
      }
    }
  }

  lemma AskedOne(requested: seq<Network>, n: Network, a: Address)
    requires n in requested && Asked(a, [n])
    ensures Asked(a, requested)
  {
  }

  lemma AskedIn(requested: seq<Network>, a: Address) returns (n: Network)
    requires Asked(a, requested)
    ensures n in requested && Asked(a, [n])
  {
    n :| n in requested && n.v6 == a.v6 && n.base <= a.value && a.value - n.base < n.size
         && (n.size > 2 ==> a.value > n.base && (!n.v6 ==> a.value - n.base < n.size - 1));
    assert n in [n];
  }

  // ---- Collecting ----

  /** The hosts of one network, if every one of them is acceptable. */
  method AddHosts(n: Network, allowed: seq<Network>, isolated: bool, found: set<Address>) returns (r: Result<set<Address>, TargetError>)
    ensures r.Ok? <==> forall a <- Hosts(n) :: Acceptable(a, allowed, isolated)
    ensures r.Ok? ==> r.value == found + Hosts(n)
    ensures r.Err? ==> r.error == NotPermitted || r.error == IsolatedMode
    ensures r == Err(NotPermitted) ==> exists a <- Hosts(n) :: !Permitted(a, allowed)
    ensures r == Err(IsolatedMode) ==> isolated && exists a <- Hosts(n) :: Permitted(a, allowed) && !Loopback(a)
  {
    var first := if n.size <= 2 then n.base else n.base + 1;
    var end := if n.size <= 2 || n.v6 then n.base + n.size else n.base + n.size - 1;
    var all := found;
    for value := first to end
      invariant all == found + Addresses(n.v6, first, value)
      invariant forall a <- Addresses(n.v6, first, value) :: Acceptable(a, allowed, isolated)
    {
      var address := Address(n.v6, value);
      AddressesAre(n.v6, first, end, address);
      if !Permitted(address, allowed) {
        assert address in Hosts(n) && !Acceptable(address, allowed, isolated);
        return Err(NotPermitted);
      }
      if isolated && !Loopback(address) {
        assert address in Hosts(n) && !Acceptable(address, allowed, isolated);
        return Err(IsolatedMode);
      }
      all := all + {address};
    }
    r := Ok(all);
  }

  /** Every requested network is small enough and all its hosts are acceptable. */
  predicate AllAcceptable(allowed: seq<Network>, isolated: bool, requested: seq<Network>, max: int) {
    forall n <- requested :: n.size <= max + 2 && forall a <- Hosts(n) :: Acceptable(a, allowed, isolated)
  }

  method CollectTargets(allowed: seq<Network>, isolated: bool, requested: seq<Network>, max: int) returns (r: Result<set<Address>, TargetError>)
    ensures r.Ok? <==> AllAcceptable(allowed, isolated, requested, max) && 1 <= |Union(requested)| <= max
    ensures r.Ok? ==> r.value == Union(requested)
    ensures r == Err(NoTarget) ==> Union(requested) == {}
    ensures r == Err(RangeTooLarge) ==> exists n <- requested :: n.size > max + 2
    ensures r == Err(TooMany) ==> |Union(requested)| > max
    ensures r == Err(NotPermitted) ==> exists a <- Union(requested) :: !Permitted(a, allowed)
    ensures r == Err(IsolatedMode) ==> isolated && exists a <- Union(requested) :: Permitted(a, allowed) && !Loopback(a)
    ensures r != Err(InvalidMax)
  {
    hide Hosts, Acceptable, Permitted, Loopback;
    var found: set<Address> := {};
    for k := 0 to |requested|
      invariant AllAcceptable(allowed, isolated, requested[..k], max)
      invariant found == Union(requested[..k]) && (k > 0 ==> |found| <= max)
    {
      assert requested[..k + 1][..k] == requested[..k];
      if requested[k].size > max + 2 { return Err(RangeTooLarge); }
      var added := AddHosts(requested[k], allowed, isolated, found);
      if added.Err? {
        UnionHas(requested, k);
        return Err(added.error);
      }
      found := added.value;
      if |found| > max {
        UnionGrows(requested, k + 1);
        return Err(TooMany);
      }
    }
    assert requested[..|requested|] == requested;
    if found == {} { return Err(NoTarget); }
    r := Ok(found);
  }

  // ---- Order ----

  /** IPv4 before IPv6, then by value. */
  predicate Before(a: Address, b: Address) {
    (!a.v6 && b.v6) || (a.v6 == b.v6 && a.value < b.value)
  }

  predicate Ascending(s: seq<Address>) { forall i, j :: 0 <= i < j < |s| ==> Before(s[i], s[j]) }

  function Elements(s: seq<Address>): (r: set<Address>)
    ensures forall i :: 0 <= i < |s| ==> s[i] in r
  {
    set a | a in s
  }

  /** An ascending list with one more address. */
  method Place(s: seq<Address>, a: Address) returns (r: seq<Address>)
    requires Ascending(s) && a !in s
    ensures Ascending(r) && |r| == |s| + 1 && Elements(r) == Elements(s) + {a}
  {
    hide Elements;
    var k := 0;
    while k < |s| && Before(s[k], a)
      invariant 0 <= k <= |s| && forall i :: 0 <= i < k ==> Before(s[i], a)
    {
      k := k + 1;
    }
    assert forall i :: k <= i < |s| ==> Before(a, s[i]) by {
      if k < |s| { assert s[k] in s && Before(a, s[k]); }
    }
    r := s[..k] + [a] + s[k..];
    PlacedElements(s, a, k);
  }

  lemma PlacedElements(s: seq<Address>, a: Address, k: nat)
    requires k <= |s|
    ensures Elements(s[..k] + [a] + s[k..]) == Elements(s) + {a}
  {
    assert s == s[..k] + s[k..];
  }

  /**
   The targets of a scan: in ascending order and without repetition exactly
   the hosts of the requested networks, accepted exactly when there is one,
   all are permitted and there are at most `max`.
   */
  method Targets(allowed: seq<Network>, isolated: bool, requested: seq<Network>, max: int) returns (r: Result<seq<Address>, TargetError>)
    ensures r.Ok? <==> 1 <= max <= 4096 && AllAcceptable(allowed, isolated, requested, max) && 1 <= |Union(requested)| <= max
    ensures r.Ok? ==> Ascending(r.value) && |r.value| == |Union(requested)| && Elements(r.value) == Union(requested)
    ensures r == Err(InvalidMax) <==> !(1 <= max <= 4096)
    ensures r == Err(NoTarget) ==> forall a :: !Asked(a, requested)
    ensures r == Err(RangeTooLarge) ==> exists n <- requested :: n.size > max + 2
    ensures r == Err(TooMany) ==> |Union(requested)| > max
    ensures r == Err(NotPermitted) ==> exists a :: Asked(a, requested) && !May(a, allowed, false)
    ensures r == Err(IsolatedMode) ==> isolated && exists a :: Asked(a, requested) && May(a, allowed, false) && !May(a, allowed, true)
    ensures r.Ok? ==> forall i, j :: 0 <= i < j < |r.value| ==>
              if r.value[i].v6 == r.value[j].v6 then r.value[i].value < r.value[j].value else r.value[j].v6
    ensures r.Ok? ==> forall a :: a in r.value <==> Asked(a, requested)
    ensures forall a :: a in Union(requested) <==> Asked(a, requested)
    ensures r.Ok? <==>
              && 1 <= max <= 4096 && (forall n <- requested :: n.size <= max + 2)
              && (forall a :: Asked(a, requested) ==> May(a, allowed, isolated)) && 1 <= |Union(requested)| <= max
  {
    hide Asked, May, Union, AllAcceptable, Permitted, Loopback;
    forall a ensures Permitted(a, allowed) <==> May(a, allowed, false) { PermittedIs(a, allowed); }
    forall a ensures Permitted(a, allowed) && Loopback(a) <==> May(a, allowed, true) { PermittedIs(a, allowed); }
    AcceptableAre(allowed, isolated, requested, max);
    forall a ensures a in Union(requested) <==> Asked(a, requested) { UnionAre(requested, a); }
    if !(1 <= max <= 4096) { return Err(InvalidMax); }
    var collected := CollectTargets(allowed, isolated, requested, max);
    if collected.Err? { return Err(collected.error); }
    var list: seq<Address> := [];
    var rest := collected.value;
    while rest != {}
      invariant rest <= collected.value && Ascending(list) && |list| + |rest| == |collected.value|
      invariant Elements(list) == collected.value - rest
      decreases rest
    {
      var a :| a in rest;
      assert a !in Elements(list);
      rest := rest - {a};
      list := Place(list, a);
    }
    r := Ok(list);
  }

  /** A scan never leaves the permitted ranges, and in isolated mode never leaves this machine. */
  lemma {:induction false} TargetsAcceptable(allowed: seq<Network>, isolated: bool, requested: seq<Network>, max: int, a: Address)
    requires AllAcceptable(allowed, isolated, requested, max) && a in Union(requested)
    ensures Acceptable(a, allowed, isolated)
  {
    var n := |requested| - 1;
    if a in Hosts(requested[n]) {
      assert requested[n] in requested;
    } else {
      assert forall m <- requested[..n] :: m in requested;
      TargetsAcceptable(allowed, isolated, requested[..n], max, a);
    }
  }
}
