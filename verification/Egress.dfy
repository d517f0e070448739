/** The firewall chain of the service users (src/cmnd_linux/egress.py). */
module Egress {
  import opened Sequences
  import opened Wrappers

  datatype Family = V4 | V6

  datatype Address = Address(family: Family, value: nat)

  /** An address in text and a port, as the policy file holds them. */
  datatype Endpoint = Endpoint(text: string, port: int)

  datatype Policy = Policy(chain: string, uids: seq<int>, endpoints: seq<Endpoint>)

  datatype PolicyError = BadChain | BadUids | BadUid | BadAddress | BadPort

  /** What each text parses to; a text that is missing here is not an address. */
  type Addresses = map<string, Address>

  const MAX_UID := 0x7FFF_FFFF

  predicate IsMulticast(a: Address) {
    match a.family
    case V4 => a.value / 0x1000_0000 == 14
    case V6 => a.value / 0x100_0000_0000_0000_0000_0000_0000_0000 == 0xFF
  }

  predicate ValidChain(chain: string) {
    && 6 <= |chain| <= 25 && chain[..5] == "CMND_"
    && forall i :: 5 <= i < |chain| ==> 'A' <= chain[i] <= 'Z' || '0' <= chain[i] <= '9' || chain[i] == '_'
  }

  predicate Distinct(uids: seq<int>) {
    forall i, j :: 0 <= i < j < |uids| ==> uids[i] != uids[j]
  }

  predicate ValidEndpoint(endpoint: Endpoint, addresses: Addresses) {
    && endpoint.text in addresses
    && !IsMulticast(addresses[endpoint.text]) && addresses[endpoint.text].value != 0
    && 1 <= endpoint.port <= 65535
  }

  predicate ValidPolicy(policy: Policy, addresses: Addresses) {
    && ValidChain(policy.chain)
    && policy.uids != [] && Distinct(policy.uids)
    && (forall i :: 0 <= i < |policy.uids| ==> 1 <= policy.uids[i] <= MAX_UID)
    && (forall i :: 0 <= i < |policy.endpoints| ==> ValidEndpoint(policy.endpoints[i], addresses))
  }

  /** What a policy must be, in the terms of its file. */
  predicate Lawful(policy: Policy, addresses: Addresses) {
    && "CMND_" <= policy.chain && 1 <= |policy.chain| - 5 <= 20
    && (forall c <- policy.chain[5..] :: c == '_' || ('0' <= c && c <= '9') || ('A' <= c && c <= 'Z'))
    && |policy.uids| > 0
    && (forall i, j :: 0 <= i < |policy.uids| && 0 <= j < |policy.uids| && i != j ==> policy.uids[i] != policy.uids[j])
    && (forall u <- policy.uids :: 0 < u < 0x8000_0000)
    && forall e <- policy.endpoints ::
         && e.text in addresses && 0 < e.port < 65536
         && var a := addresses[e.text];
            && a.value > 0
            && (a.family.V4? ==> !(0xE000_0000 <= a.value < 0xF000_0000))
            && (a.family.V6? ==> !(0xFF00_0000_0000_0000_0000_0000_0000_0000 <= a.value < 0x1_0000_0000_0000_0000_0000_0000_0000_0000))
  }

  lemma ValidIsLawful(policy: Policy, addresses: Addresses)
    ensures ValidPolicy(policy, addresses) <==> Lawful(policy, addresses)
  {
    ChainLawful(policy.chain);
    UidsLawful(policy.uids);
    EndpointsLawful(policy.endpoints, addresses);
  }

  lemma ChainLawful(chain: string)
    ensures ValidChain(chain)
            <==> && "CMND_" <= chain && 1 <= |chain| - 5 <= 20
                 && forall c <- chain[5..] :: c == '_' || ('0' <= c && c <= '9') || ('A' <= c && c <= 'Z')
  {
    if |chain| >= 5 {
      forall i | 5 <= i < |chain| ensures chain[i] in chain[5..] { assert chain[5..][i - 5] == chain[i]; }
      assert "CMND_" <= chain <==> chain[..5] == "CMND_";
    }
  }

  lemma UidsLawful(uids: seq<int>)
    ensures Distinct(uids) <==> forall i, j :: 0 <= i < |uids| && 0 <= j < |uids| && i != j ==> uids[i] != uids[j]
    ensures (forall i :: 0 <= i < |uids| ==> 1 <= uids[i] <= MAX_UID) <==> forall u <- uids :: 0 < u < 0x8000_0000
  {
    if forall u <- uids :: 0 < u < 0x8000_0000 {
      forall i | 0 <= i < |uids| ensures 1 <= uids[i] <= MAX_UID { assert uids[i] in uids; }
    }
  }

  lemma EndpointsLawful(endpoints: seq<Endpoint>, addresses: Addresses)
    ensures (forall i :: 0 <= i < |endpoints| ==> ValidEndpoint(endpoints[i], addresses))
            <==> forall e <- endpoints ::
                   && e.text in addresses && 0 < e.port < 65536
                   && var a := addresses[e.text];
                      && a.value > 0
                      && (a.family.V4? ==> !(0xE000_0000 <= a.value < 0xF000_0000))
                      && (a.family.V6? ==> !(0xFF00_0000_0000_0000_0000_0000_0000_0000 <= a.value < 0x1_0000_0000_0000_0000_0000_0000_0000_0000))
  {
    if forall i :: 0 <= i < |endpoints| ==> ValidEndpoint(endpoints[i], addresses) {
      forall e <- endpoints ensures ValidEndpoint(e, addresses) { }
    } else {
      var i :| 0 <= i < |endpoints| && !ValidEndpoint(endpoints[i], addresses);
      assert endpoints[i] in endpoints;
    }
  }

  /** The checks of the program in its order. */
  method Validate(policy: Policy, addresses: Addresses) returns (r: Option<PolicyError>)
    ensures r.None? <==> ValidPolicy(policy, addresses)
    ensures r.None? <==> Lawful(policy, addresses)
    ensures r == Some(BadChain) <==> !ValidChain(policy.chain)
    ensures r == Some(BadUids) <==> ValidChain(policy.chain) && (policy.uids == [] || !Distinct(policy.uids))
    ensures r == Some(BadUid) <==>
              && ValidChain(policy.chain) && policy.uids != [] && Distinct(policy.uids)
              && exists u <- policy.uids :: !(0 < u < 0x8000_0000)
    ensures r == Some(BadPort) ==> exists e <- policy.endpoints :: !(0 < e.port < 65536)
  {
    ValidIsLawful(policy, addresses);
    UidsLawful(policy.uids);
    hide Lawful;
    if !ValidChain(policy.chain) { return Some(BadChain); }
    if policy.uids == [] || !Distinct(policy.uids) { return Some(BadUids); }
    if exists i :: 0 <= i < |policy.uids| && !(1 <= policy.uids[i] <= MAX_UID) { return Some(BadUid); }
    for i := 0 to |policy.endpoints|
      invariant forall j :: 0 <= j < i ==> ValidEndpoint(policy.endpoints[j], addresses)
    {
      var endpoint := policy.endpoints[i];
      if endpoint.text !in addresses || IsMulticast(addresses[endpoint.text]) || addresses[endpoint.text].value == 0 {
        assert !ValidEndpoint(endpoint, addresses);
        return Some(BadAddress);
      }
      if !(1 <= endpoint.port <= 65535) {
        assert !ValidEndpoint(endpoint, addresses);
        return Some(BadPort);
      }
    }
    return None;
  }

  // ---- The sorted set of endpoints ----

  /** The order of Python's strings. */
  predicate TextLess(a: string, b: string) {
    b != [] && (a == [] || a[0] < b[0] || (a[0] == b[0] && TextLess(a[1..], b[1..])))
  }

  lemma PrefixHead(a: string, b: string)
    requires a != [] && b != []
    ensures forall i :: 0 < i <= |a| && i <= |b| && a[..i] == b[..i] ==> a[0] == b[0]
  {
    forall i | 0 < i <= |a| && i <= |b| && a[..i] == b[..i] ensures a[0] == b[0] { assert a[..i][0] == a[0] && b[..i][0] == b[0]; }
  }

  /** At the first difference the smaller character comes first, and a text before its continuations. */
  lemma {:induction false} TextOrder(a: string, b: string)
    ensures TextLess(a, b) <==> (a <= b && a != b) || exists i :: 0 <= i < |a| && i < |b| && a[..i] == b[..i] && a[i] < b[i]
  {
    if a != [] && b != [] {
      TextOrder(a[1..], b[1..]);
      if a[0] == b[0] {
        assert a == [a[0]] + a[1..] && b == [b[0]] + b[1..];
        if i :| 0 <= i < |a| && i < |b| && a[..i] == b[..i] && a[i] < b[i] {
          assert i > 0 && a[1..][..i - 1] == a[..i][1..] && b[1..][..i - 1] == b[..i][1..];
          assert a[1..][i - 1] < b[1..][i - 1];
        }
        if i :| 0 <= i < |a[1..]| && i < |b[1..]| && a[1..][..i] == b[1..][..i] && a[1..][i] < b[1..][i] {
          assert a[..i + 1] == [a[0]] + a[1..][..i] && b[..i + 1] == [b[0]] + b[1..][..i];
          assert a[i + 1] < b[i + 1];
        }
      } else {
        PrefixHead(a, b);
        if a[0] < b[0] { assert a[..0] == b[..0]; }
      }
    }
  }

  predicate Less(a: Endpoint, b: Endpoint) {
    TextLess(a.text, b.text) || (a.text == b.text && a.port < b.port)
  }

  lemma {:induction false} TextIrreflexive(a: string)
    ensures !TextLess(a, a)
  {
    if a != [] { TextIrreflexive(a[1..]); }
  }

  lemma {:induction false} TextTotal(a: string, b: string)
    ensures a == b || TextLess(a, b) || TextLess(b, a)
    ensures !(TextLess(a, b) && TextLess(b, a))
  {
    if a != [] && b != [] && a[0] == b[0] {
      TextTotal(a[1..], b[1..]);
      assert a == [a[0]] + a[1..] && b == [b[0]] + b[1..];
    }
  }

  lemma {:induction false} TextTransitive(a: string, b: string, c: string)
    requires TextLess(a, b) && TextLess(b, c)
    ensures TextLess(a, c)
  {
    if a != [] && a[0] == b[0] && b[0] == c[0] { TextTransitive(a[1..], b[1..], c[1..]); }
  }

  lemma LessTotal(a: Endpoint, b: Endpoint)
    ensures a == b || Less(a, b) || Less(b, a)
    ensures !Less(a, a)
    ensures !(Less(a, b) && Less(b, a))
  {
    TextTotal(a.text, b.text);
    TextIrreflexive(a.text);
  }

  lemma LessTransitive(a: Endpoint, b: Endpoint, c: Endpoint)
    requires Less(a, b) && Less(b, c)
    ensures Less(a, c)
  {
    if TextLess(a.text, b.text) && TextLess(b.text, c.text) { TextTransitive(a.text, b.text, c.text); }
  }

  function Insert(e: Endpoint, sorted: seq<Endpoint>): seq<Endpoint> {
    if sorted == [] || Less(e, sorted[0]) then [e] + sorted
    else if e == sorted[0] then sorted
    else [sorted[0]] + Insert(e, sorted[1..])
  }

  /** `sorted(set(endpoints))`. */
  function SortedSet(endpoints: seq<Endpoint>): seq<Endpoint> {
    if endpoints == [] then [] else Insert(endpoints[0], SortedSet(endpoints[1..]))
  }

  predicate Increasing(s: seq<Endpoint>) {
    forall i, j :: 0 <= i < j < |s| ==> Less(s[i], s[j])
  }

  lemma {:induction false} InsertMembers(e: Endpoint, sorted: seq<Endpoint>, x: Endpoint)
    ensures x in Insert(e, sorted) <==> x == e || x in sorted
  {
    if sorted == [] || Less(e, sorted[0]) || e == sorted[0] {
    } else {
      InsertMembers(e, sorted[1..], x);
      assert sorted == [sorted[0]] + sorted[1..];
    }
  }

  lemma {:induction false} InsertIncreasing(e: Endpoint, sorted: seq<Endpoint>)
    requires Increasing(sorted)
    ensures Increasing(Insert(e, sorted))
  {
    if sorted == [] {
    } else if Less(e, sorted[0]) {
      forall j | 0 <= j < |sorted|
        ensures Less(e, sorted[j])
      {
        if j > 0 { LessTransitive(e, sorted[0], sorted[j]); }
      }
    } else if e != sorted[0] {
      LessTotal(e, sorted[0]);
      InsertIncreasing(e, sorted[1..]);
      var tail := Insert(e, sorted[1..]);
      forall j | 0 <= j < |tail|
        ensures Less(sorted[0], tail[j])
      {
        InsertMembers(e, sorted[1..], tail[j]);
        if tail[j] != e {
          var k :| 0 <= k < |sorted[1..]| && sorted[1..][k] == tail[j];
          assert Less(sorted[0], sorted[k + 1]);
        }
      }
    }
  }

  lemma {:induction false} SortedSetCorrect(endpoints: seq<Endpoint>)
    ensures Increasing(SortedSet(endpoints))
    ensures forall x :: x in SortedSet(endpoints) <==> x in endpoints
  {
    if endpoints != [] {
      SortedSetCorrect(endpoints[1..]);
      InsertIncreasing(endpoints[0], SortedSet(endpoints[1..]));
      forall x
        ensures x in SortedSet(endpoints) <==> x in endpoints
      {
        InsertMembers(endpoints[0], SortedSet(endpoints[1..]), x);
        assert endpoints == [endpoints[0]] + endpoints[1..];
      }
    }
  }

  /** A set has one increasing list. */
  lemma {:induction false} IncreasingUnique(s: seq<Endpoint>, t: seq<Endpoint>)
    requires Increasing(s) && Increasing(t) && forall x :: x in s <==> x in t
    ensures s == t
  {
    assert s != [] ==> s[0] in s;
    assert t != [] ==> t[0] in t;
    if s != [] && t != [] {
      var i :| 0 <= i < |t| && t[i] == s[0];
      var j :| 0 <= j < |s| && s[j] == t[0];
      if i > 0 && j > 0 {
        assert Less(t[0], t[i]) && Less(s[0], s[j]);
        LessTotal(s[0], t[0]);
      }
      LessTotal(s[0], s[0]);
      assert s[0] == t[0];
      forall x
        ensures x in s[1..] <==> x in t[1..]
      {
        HeadOut(s, x);
        HeadOut(t, x);
      }
      IncreasingUnique(s[1..], t[1..]);
      assert s == [s[0]] + s[1..] && t == [t[0]] + t[1..];
    }
  }

  lemma HeadOut(s: seq<Endpoint>, x: Endpoint)
    requires s != [] && Increasing(s)
    ensures x in s[1..] <==> x in s && x != s[0]
  {
    LessTotal(s[0], s[0]);
    assert s == [s[0]] + s[1..];
    if x in s[1..] {
      var k :| 0 <= k < |s[1..]| && s[1..][k] == x;
      assert Less(s[0], s[k + 1]);
    }
  }

  // ---- Rules and packets ----

  datatype Condition = Established | Within(first: nat, last: nat) | TcpTo(value: nat, port: int) | Marked

  datatype Rule = Rule(condition: Condition, accept: bool)

  datatype Packet = Packet(family: Family, established: bool, destination: nat, tcp: bool, port: int)

  datatype Verdict = Accept | Reject | Return

  /** 127.0.0.0/8 or ::1/128. */
  predicate IsLoopback(family: Family, value: nat) {
    if family.V4? then value / 0x100_0000 == 127 else value == 1
  }

  predicate Matches(condition: Condition, packet: Packet) {
    match condition
    case Established => packet.established
    case Within(first, last) => first <= packet.destination <= last
    case TcpTo(value, port) => packet.tcp && packet.destination == value && packet.port == port
    case Marked => true
  }

  /** First match decides; a packet that matches nothing returns to the caller's chain. */
  function Decide(rules: seq<Rule>, packet: Packet): Verdict {
    if rules == [] then Return
    else if Matches(rules[0].condition, packet) then (if rules[0].accept then Accept else Reject)
    else Decide(rules[1..], packet)
  }

  /** The rules of the endpoints of one family, in order. */
  function EndpointRules(endpoints: seq<Endpoint>, addresses: Addresses, family: Family): seq<Rule>
    requires forall i :: 0 <= i < |endpoints| ==> endpoints[i].text in addresses
  {
    if endpoints == [] then []
    else
      var address := addresses[endpoints[0].text];
      (if address.family == family then [Rule(TcpTo(address.value, endpoints[0].port), true)] else [])
      + EndpointRules(endpoints[1..], addresses, family)
  }

  lemma SortedSetParses(policy: Policy, addresses: Addresses)
    requires ValidPolicy(policy, addresses)
    ensures forall i :: 0 <= i < |SortedSet(policy.endpoints)| ==> SortedSet(policy.endpoints)[i].text in addresses
  {
    SortedSetCorrect(policy.endpoints);
    forall i | 0 <= i < |SortedSet(policy.endpoints)|
      ensures SortedSet(policy.endpoints)[i].text in addresses
    {
      assert SortedSet(policy.endpoints)[i] in policy.endpoints;
    }
  }

  /** The loopback network of the family, as an address range. */
  function LoopbackRule(family: Family): Rule {
    Rule(if family.V4? then Within(0x7F00_0000, 0x7FFF_FFFF) else Within(1, 1), true)
  }

  function Render(policy: Policy, addresses: Addresses, family: Family): seq<Rule>
    requires ValidPolicy(policy, addresses)
  {
    SortedSetParses(policy, addresses);
    [Rule(Established, true), LoopbackRule(family)]
    + EndpointRules(SortedSet(policy.endpoints), addresses, family)
    + [Rule(Marked, false)]
  }

  /** The list-building loop of the program. */
  method RenderRules(policy: Policy, addresses: Addresses, family: Family) returns (lines: seq<Rule>)
    requires ValidPolicy(policy, addresses)
    ensures lines == Render(policy, addresses, family)
  {
    lines := [Rule(Established, true), LoopbackRule(family)];
    var endpoints := SortedSet(policy.endpoints);
    SortedSetParses(policy, addresses);
    for i := 0 to |endpoints|
      invariant lines + EndpointRules(endpoints[i..], addresses, family)
                == [Rule(Established, true), LoopbackRule(family)] + EndpointRules(endpoints, addresses, family)
    {
      var address := addresses[endpoints[i].text];
      assert endpoints[i..][1..] == endpoints[i + 1..];
      if address.family == family {
        lines := lines + [Rule(TcpTo(address.value, endpoints[i].port), true)];
      }
    }
    lines := lines + [Rule(Marked, false)];
  }

  /** TCP to this endpoint. */
  predicate Serves(e: Endpoint, addresses: Addresses, packet: Packet) {
    && packet.tcp && e.text in addresses
    && addresses[e.text] == Address(packet.family, packet.destination) && e.port == packet.port
  }

  predicate Listed(endpoints: seq<Endpoint>, addresses: Addresses, packet: Packet) {
    exists e :: e in endpoints && Serves(e, addresses, packet)
  }

  /** The policy's own decision on a packet. */
  predicate Allowed(policy: Policy, addresses: Addresses, packet: Packet) {
    || packet.established
    || IsLoopback(packet.family, packet.destination)
    || Listed(policy.endpoints, addresses, packet)
  }

  lemma ListedCons(head: Endpoint, tail: seq<Endpoint>, addresses: Addresses, packet: Packet)
    ensures Listed([head] + tail, addresses, packet)
            <==> Serves(head, addresses, packet) || Listed(tail, addresses, packet)
  {
    if Serves(head, addresses, packet) {
      assert head in [head] + tail;
    }
    if Listed(tail, addresses, packet) {
      var e :| e in tail && Serves(e, addresses, packet);
      assert e in [head] + tail;
    }
  }

  lemma {:induction false} DecideEndpoints(endpoints: seq<Endpoint>, addresses: Addresses, packet: Packet)
    requires forall i :: 0 <= i < |endpoints| ==> endpoints[i].text in addresses
    ensures Decide(EndpointRules(endpoints, addresses, packet.family) + [Rule(Marked, false)], packet)
            == if Listed(endpoints, addresses, packet) then Accept else Reject
  {
    var rules := EndpointRules(endpoints, addresses, packet.family) + [Rule(Marked, false)];
    if endpoints != [] {
      var rest := EndpointRules(endpoints[1..], addresses, packet.family) + [Rule(Marked, false)];
      assert forall i :: 0 <= i < |endpoints[1..]| ==> endpoints[1..][i] == endpoints[i + 1];
      DecideEndpoints(endpoints[1..], addresses, packet);
      ListedCons(endpoints[0], endpoints[1..], addresses, packet);
      assert [endpoints[0]] + endpoints[1..] == endpoints;
      if addresses[endpoints[0].text].family == packet.family {
        assert rules[1..] == rest;
      } else {
        assert rules == rest;
      }
    } else {
      assert rules == [Rule(Marked, false)];
    }
  }

  /** The rendered chain accepts exactly the packets the policy allows and rejects all others. */
  lemma RenderRefinesPolicy(policy: Policy, addresses: Addresses, packet: Packet)
    requires ValidPolicy(policy, addresses)
    ensures Decide(Render(policy, addresses, packet.family), packet)
            == if Allowed(policy, addresses, packet) then Accept else Reject
  {
    SortedSetParses(policy, addresses);
    SortedSetCorrect(policy.endpoints);
    var sorted := SortedSet(policy.endpoints);
    var rest := EndpointRules(sorted, addresses, packet.family) + [Rule(Marked, false)];
    DecideEndpoints(sorted, addresses, packet);
    assert Listed(sorted, addresses, packet) <==> Listed(policy.endpoints, addresses, packet);
    assert Render(policy, addresses, packet.family)[1..] == [LoopbackRule(packet.family)] + rest;
    assert ([LoopbackRule(packet.family)] + rest)[1..] == rest;
  }

  /** Order and repetition of the endpoints do not change the rules. */
  lemma RenderIgnoresOrder(p: Policy, q: Policy, addresses: Addresses, family: Family)
    requires ValidPolicy(p, addresses) && ValidPolicy(q, addresses)
    requires forall e :: e in p.endpoints <==> e in q.endpoints
    ensures Render(p, addresses, family) == Render(q, addresses, family)
  {
    SortedSetCorrect(p.endpoints);
    SortedSetCorrect(q.endpoints);
    IncreasingUnique(SortedSet(p.endpoints), SortedSet(q.endpoints));
  }

  // ---- The host's rules ----

  /** A rule of OUTPUT: traffic of one user jumps to a chain, or anything else. */
  datatype OutputRule = Owner(uid: int, chain: string) | Foreign(id: nat)

  predicate HasMarker(rules: seq<Rule>) {
    exists r :: r in rules && r.condition == Marked
  }

  /** OUTPUT after a jump has been inserted at its head for every user without one. */
  function Attach(output: seq<OutputRule>, uids: seq<int>, chain: string): seq<OutputRule>
    decreases |uids|
  {
    if uids == [] then output else Attach(AttachOne(output, uids[0], chain), uids[1..], chain)
  }

  function AttachOne(output: seq<OutputRule>, uid: int, chain: string): seq<OutputRule> {
    if Owner(uid, chain) in output then output else [Owner(uid, chain)] + output
  }

  /** A jump to the policy's chain for one of its users. */
  predicate IsJump(rule: OutputRule, uids: seq<int>, chain: string) {
    rule.Owner? && rule.chain == chain && rule.uid in uids
  }

  /** The old rules in order, behind new jumps of listed users. */
  predicate Gained(before: seq<OutputRule>, after: seq<OutputRule>, uids: seq<int>, chain: string) {
    && |after| >= |before|
    && after[|after| - |before|..] == before
    && forall i :: 0 <= i < |after| - |before| ==> IsJump(after[i], uids, chain)
  }

  lemma GainedHead(before: seq<OutputRule>, after: seq<OutputRule>, uid: int, uids: seq<int>, chain: string)
    requires Gained(before, after, uids, chain) && uid in uids
    ensures Gained(before, [Owner(uid, chain)] + after, uids, chain)
  {
    var next := [Owner(uid, chain)] + after;
    assert next[|next| - |before|..] == after[|after| - |before|..];
  }

  lemma GainedOne(before: seq<OutputRule>, after: seq<OutputRule>, uid: int, uids: seq<int>, chain: string)
    requires Gained(before, after, uids, chain) && uid in uids
    ensures Gained(before, AttachOne(after, uid, chain), uids, chain)
  {
    GainedHead(before, after, uid, uids, chain);
  }

  lemma {:induction false} AttachGains(before: seq<OutputRule>, after: seq<OutputRule>, todo: seq<int>, uids: seq<int>, chain: string)
    requires Gained(before, after, uids, chain) && forall u :: u in todo ==> u in uids
    ensures Gained(before, Attach(after, todo, chain), uids, chain)
    ensures forall r :: r in after ==> r in Attach(after, todo, chain)
    ensures forall u :: u in todo ==> Owner(u, chain) in Attach(after, todo, chain)
    decreases |todo|
  {
    if todo != [] {
      var next := AttachOne(after, todo[0], chain);
      GainedOne(before, after, todo[0], uids, chain);
      AttachGains(before, next, todo[1..], uids, chain);
      assert Owner(todo[0], chain) in next;
      assert todo == [todo[0]] + todo[1..];
    }
  }

  lemma {:induction false} AttachNothing(output: seq<OutputRule>, uids: seq<int>, chain: string)
    requires forall u :: u in uids ==> Owner(u, chain) in output
    ensures Attach(output, uids, chain) == output
    decreases |uids|
  {
    if uids != [] {
      assert uids[0] in uids;
      AttachNothing(output, uids[1..], chain);
    }
  }

  /** The filter table of one family. */
  datatype Table = Table(chains: map<string, seq<Rule>>, output: seq<OutputRule>)

  /** The table with the policy applied. */
  function Applied(table: Table, policy: Policy, addresses: Addresses, family: Family): Table
    requires ValidPolicy(policy, addresses)
  {
    Table(table.chains[policy.chain := Render(policy, addresses, family)], Attach(table.output, policy.uids, policy.chain))
  }

  /** Applying a policy twice is applying it once. */
  lemma AppliedTwice(table: Table, policy: Policy, addresses: Addresses, family: Family)
    requires ValidPolicy(policy, addresses)
    ensures Applied(Applied(table, policy, addresses, family), policy, addresses, family)
            == Applied(table, policy, addresses, family)
  {
    AttachGains(table.output, table.output, policy.uids, policy.uids, policy.chain);
    AttachNothing(Attach(table.output, policy.uids, policy.chain), policy.uids, policy.chain);
  }

  /**
   Nothing else changes: every other chain stays, the old OUTPUT rules stay in
   order behind new jumps of listed users, and every listed user has a jump.
   */
  lemma AppliedFrame(table: Table, policy: Policy, addresses: Addresses, family: Family)
    requires ValidPolicy(policy, addresses)
    ensures var after := Applied(table, policy, addresses, family);
            && after.chains.Keys == table.chains.Keys + {policy.chain}
            && after.chains[policy.chain] == Render(policy, addresses, family)
            && (forall c :: c in table.chains && c != policy.chain ==> after.chains[c] == table.chains[c])
            && Gained(table.output, after.output, policy.uids, policy.chain)
            && (forall u :: u in policy.uids ==> Owner(u, policy.chain) in after.output)
  {
    AttachGains(table.output, table.output, policy.uids, policy.uids, policy.chain);
  }

  /** Partly applied: the chain is old or rendered, and OUTPUT has at most gained jumps at its head. */
  predicate Touched(before: Table, after: Table, policy: Policy, addresses: Addresses, family: Family)
    requires ValidPolicy(policy, addresses)
  {
    && (after.chains == before.chains || after.chains == before.chains[policy.chain := Render(policy, addresses, family)])
    && Gained(before.output, after.output, policy.uids, policy.chain)
  }

  /** The chain is as rendered and every user has a jump to it. */
  predicate Enforced(table: Table, policy: Policy, addresses: Addresses, family: Family)
    requires ValidPolicy(policy, addresses)
  {
    && policy.chain in table.chains && table.chains[policy.chain] == Render(policy, addresses, family)
    && forall u :: u in policy.uids ==> Owner(u, policy.chain) in table.output
  }

  datatype ApplyError = NotManaged | CannotInspect | SetupFailed | AttachFailed | VerifyFailed

  /** The commands on one family, in their order; for each user a check and perhaps an insertion, then a second check. */
  datatype Command = List | Restore | Check(uid: int) | Jump(uid: int) | ListAgain | CheckAgain(uid: int)

  /** The users that get a jump: they have none, or the check for it fails. */
  function Jumpless(output: seq<OutputRule>, chain: string, fails: set<Command>): int -> bool {
    (uid: int) => Owner(uid, chain) !in output || Check(uid) in fails
  }

  /** The jumps as they stand when each was inserted at the head. */
  function Heads(added: seq<int>, chain: string): seq<OutputRule> {
    if added == [] then [] else [Owner(added[|added| - 1], chain)] + Heads(added[..|added| - 1], chain)
  }

  lemma {:induction false} HeadsMembers(added: seq<int>, chain: string, uid: int)
    ensures Owner(uid, chain) in Heads(added, chain) <==> uid in added
  {
    if added != [] {
      HeadsMembers(added[..|added| - 1], chain, uid);
      assert added == added[..|added| - 1] + [added[|added| - 1]];
    }
  }

  /** Each user is attached: its jump is there and found, or can be inserted. */
  predicate Attachable(output: seq<OutputRule>, policy: Policy, fails: set<Command>) {
    forall uid <- policy.uids :: (Owner(uid, policy.chain) in output && Check(uid) !in fails) || Jump(uid) !in fails
  }

  /** Every command that the family needs succeeds. */
  predicate Works(output: seq<OutputRule>, policy: Policy, fails: set<Command>) {
    && Restore !in fails && Attachable(output, policy, fails)
    && ListAgain !in fails && forall uid <- policy.uids :: CheckAgain(uid) !in fails
  }

  /** The table after a success: the chain as rendered, and OUTPUT behind the jumps of exactly the jumpless users. */
  ghost predicate Worked(before: Table, after: Table, policy: Policy, addresses: Addresses, family: Family, fails: set<Command>)
    requires ValidPolicy(policy, addresses)
  {
    && after.chains == before.chains[policy.chain := Render(policy, addresses, family)]
    && exists added: seq<int> ::
         && Picks(policy.uids, Jumpless(before.output, policy.chain, fails), added)
         && after.output == Heads(added, policy.chain) + before.output
  }

  lemma {:induction false} AttachAppend(output: seq<OutputRule>, uids: seq<int>, uid: int, chain: string)
    ensures Attach(output, uids + [uid], chain) == AttachOne(Attach(output, uids, chain), uid, chain)
    decreases |uids|
  {
    if uids == [] {
      assert ([] + [uid])[1..] == [];
    } else {
      AttachAppend(AttachOne(output, uids[0], chain), uids[1..], uid, chain);
      assert (uids + [uid])[1..] == uids[1..] + [uid];
    }
  }

  lemma DistinctFront(uids: seq<int>)
    requires Distinct(uids) && uids != []
    ensures Distinct(uids[..|uids| - 1])
  {
  }

  lemma {:induction false} AttachPicks(output: seq<OutputRule>, uids: seq<int>, chain: string) returns (added: seq<int>)
    requires Distinct(uids)
    ensures Picks(uids, Jumpless(output, chain, {}), added) && (forall u <- added :: u in uids)
    ensures Attach(output, uids, chain) == Heads(added, chain) + output
    decreases |uids|
  {
    hide Picks, Heads, Attach, Jumpless, Distinct;
    var wanted := Jumpless(output, chain, {});
    if uids == [] {
      added := [];
      PicksNone<int>(wanted);
      NoHeads(chain);
      AttachNothing(output, [], chain);
    } else {
      var n := |uids| - 1;
      var front, uid := uids[..n], uids[n];
      assert uids == front + [uid];
      NotBefore(uids, n);
      DistinctFront(uids);
      IsJumpless(output, chain, {}, uid);
      var some := AttachPicks(output, front, chain);
      AttachAppend(output, front, uid, chain);
      HeadsMembers(some, chain, uid);
      PicksNext<int>(front, wanted, some, uid);
      HeadsNext(some, chain, uid);
      added := if wanted(uid) then some + [uid] else some;
    }
  }

  /** Where every check answers truly, the table is the applied one. */
  lemma WorkedIsApplied(before: Table, after: Table, policy: Policy, addresses: Addresses, family: Family, fails: set<Command>)
    requires ValidPolicy(policy, addresses) && Worked(before, after, policy, addresses, family, fails)
    requires forall uid :: Check(uid) !in fails
    ensures after == Applied(before, policy, addresses, family)
  {
    hide Picks, Heads, Attach, Render;
    var wanted := Jumpless(before.output, policy.chain, fails);
    var added: seq<int> :| Picks(policy.uids, wanted, added) && after.output == Heads(added, policy.chain) + before.output;
    var same := AttachPicks(before.output, policy.uids, policy.chain);
    PicksAlike<int>(policy.uids, wanted, Jumpless(before.output, policy.chain, {}), added, same);
  }

  /** The firewall of one family; a command in `fails` fails, and a check that fails finds nothing. */
  class Filter {
    const family: Family
    var table: Table

    constructor (family: Family, table: Table)
      ensures this.family == family && this.table == table
    {
      this.family, this.table := family, table;
    }

    predicate Managed(policy: Policy)
      reads this
    {
      policy.chain in table.chains ==> exists rule <- table.chains[policy.chain] :: rule.condition == Marked
    }

    /** List the chain and refuse it when it is not ours; nothing is changed. */
    method Inspect(policy: Policy, fails: set<Command>) returns (r: Option<ApplyError>)
      ensures r == if List in fails then Some(CannotInspect) else if Managed(policy) then None else Some(NotManaged)
    {
      if List in fails { return Some(CannotInspect); }
      if policy.chain in table.chains && !HasMarker(table.chains[policy.chain]) { return Some(NotManaged); }
      return None;
    }

    /** Check for the jump of one user and insert it when the check fails. */
    method AttachUser(policy: Policy, uid: int, fails: set<Command>) returns (ok: bool)
      modifies this
      ensures table.chains == old(table.chains)
      ensures ok <==> (Owner(uid, policy.chain) in old(table.output) && Check(uid) !in fails) || Jump(uid) !in fails
      ensures table.output
              == if ok && (Owner(uid, policy.chain) !in old(table.output) || Check(uid) in fails)
                 then [Owner(uid, policy.chain)] + old(table.output) else old(table.output)
    {
      if Owner(uid, policy.chain) in table.output && Check(uid) !in fails { return true; }
      if Jump(uid) in fails { return false; }
      table := table.(output := [Owner(uid, policy.chain)] + table.output);
      return true;
    }

    /** Attach every user in turn, stopping at the first failure. */
    method AttachUsers(policy: Policy, fails: set<Command>) returns (ok: bool)
      requires Distinct(policy.uids)
      modifies this
      ensures table.chains == old(table.chains)
      ensures ok <==> Attachable(old(table.output), policy, fails)
      ensures ok ==> exists added: seq<int> ::
                && Picks(policy.uids, Jumpless(old(table.output), policy.chain, fails), added)
                && table.output == Heads(added, policy.chain) + old(table.output)
      ensures Gained(old(table.output), table.output, policy.uids, policy.chain)
    {
      hide Reached, Gained, Jumpless, Picks, Heads, Distinct;
      ghost var start, uids := table.output, policy.uids;
      ghost var added: seq<int> := [];
      ReachedStart(start, uids, policy.chain, fails);
      for i := 0 to |policy.uids|
        invariant table.chains == old(table.chains)
        invariant Reached(start, table.output, uids, i, policy.chain, fails, added)
        invariant forall u <- uids[..i] :: (Owner(u, policy.chain) in start && Check(u) !in fails) || Jump(u) !in fails
      {
        var uid := policy.uids[i];
        ReachedNext(start, table.output, uids, i, policy.chain, fails, added);
        ok := AttachUser(policy, uid, fails);
        if !ok {
          ReachedGained(start, table.output, uids, i, policy.chain, fails, added);
          return;
        }
        TakeNext(uids, i);
        IsJumpless(start, policy.chain, fails, uid);
        added := if Jumpless(start, policy.chain, fails)(uid) then added + [uid] else added;
      }
      ReachedGained(start, table.output, uids, |uids|, policy.chain, fails, added);
      assert uids[..|uids|] == uids;
      ok := true;
    }

    /** The closing checks: the marker and every jump are there. */
    method Verify(policy: Policy, fails: set<Command>) returns (ok: bool)
      requires policy.chain in table.chains
      ensures ok <==>
                && ListAgain !in fails && HasMarker(table.chains[policy.chain])
                && forall uid <- policy.uids :: CheckAgain(uid) !in fails && Owner(uid, policy.chain) in table.output
    {
      if ListAgain in fails || !HasMarker(table.chains[policy.chain]) { return false; }
      for i := 0 to |policy.uids|
        invariant forall j :: 0 <= j < i ==> CheckAgain(policy.uids[j]) !in fails && Owner(policy.uids[j], policy.chain) in table.output
      {
        if CheckAgain(policy.uids[i]) in fails || Owner(policy.uids[i], policy.chain) !in table.output { return false; }
      }
      return true;
    }

    /** Restore the chain, attach the users and verify. */
    method ApplyFamily(policy: Policy, addresses: Addresses, fails: set<Command>) returns (r: Option<ApplyError>)
      requires ValidPolicy(policy, addresses)
      modifies this
      ensures r.None? <==> Works(old(table.output), policy, fails)
      ensures r.None? ==> Enforced(table, policy, addresses, family) && Worked(old(table), table, policy, addresses, family, fails)
      ensures r == Some(SetupFailed) <==> Restore in fails
      ensures r == Some(AttachFailed) <==> Restore !in fails && !Attachable(old(table.output), policy, fails)
      ensures r.Some? ==> r.value in {SetupFailed, AttachFailed, VerifyFailed}
      ensures Touched(old(table), table, policy, addresses, family)
    {
      hide Picks, Heads, Render;
      var rules := RenderRules(policy, addresses, family);
      if Restore in fails { return Some(SetupFailed); }
      table := table.(chains := table.chains[policy.chain := rules]);
      var ok := AttachUsers(policy, fails);
      if !ok { return Some(AttachFailed); }
      RenderedMarked(policy, addresses, family);
      AllAttached(old(table), table, policy, addresses, family, fails);
      ok := Verify(policy, fails);
      return if ok then None else Some(VerifyFailed);
    }
  }

  lemma RenderedMarked(policy: Policy, addresses: Addresses, family: Family)
    requires ValidPolicy(policy, addresses)
    ensures HasMarker(Render(policy, addresses, family))
  {
    var rules := Render(policy, addresses, family);
    assert rules[|rules| - 1] == Rule(Marked, false);
  }

  /** The first `i` users are attached. */
  ghost predicate Reached(start: seq<OutputRule>, output: seq<OutputRule>, uids: seq<int>, i: nat, chain: string, fails: set<Command>, added: seq<int>)
    requires i <= |uids|
  {
    && Picks(uids[..i], Jumpless(start, chain, fails), added) && (forall u <- added :: u in uids[..i])
    && output == Heads(added, chain) + start && Gained(start, output, uids, chain)
  }

  lemma ReachedStart(start: seq<OutputRule>, uids: seq<int>, chain: string, fails: set<Command>)
    ensures Reached(start, start, uids, 0, chain, fails, [])
  {
    PicksNone<int>(Jumpless(start, chain, fails));
    GainedNothing(start, uids, chain);
  }

  lemma ReachedNext(start: seq<OutputRule>, output: seq<OutputRule>, uids: seq<int>, i: nat, chain: string, fails: set<Command>, added: seq<int>)
    requires i < |uids| && Distinct(uids) && Reached(start, output, uids, i, chain, fails, added)
    ensures Owner(uids[i], chain) in output <==> Owner(uids[i], chain) in start
    ensures if Jumpless(start, chain, fails)(uids[i])
            then Reached(start, [Owner(uids[i], chain)] + output, uids, i + 1, chain, fails, added + [uids[i]])
            else Reached(start, output, uids, i + 1, chain, fails, added)
  {
    hide Picks, Heads, Gained, Jumpless, Distinct;
    var uid := uids[i];
    GainedHead(start, output, uid, uids, chain);
    HeadsMembers(added, chain, uid);
    NotBefore(uids, i);
    TakeNext(uids, i);
    PicksNext<int>(uids[..i], Jumpless(start, chain, fails), added, uid);
    HeadsNext(added, chain, uid);
    Associative([Owner(uid, chain)], Heads(added, chain), start);
  }

  lemma ReachedGained(start: seq<OutputRule>, output: seq<OutputRule>, uids: seq<int>, i: nat, chain: string, fails: set<Command>, added: seq<int>)
    requires i <= |uids| && Reached(start, output, uids, i, chain, fails, added)
    ensures Gained(start, output, uids, chain)
    ensures i == |uids| ==> Picks(uids, Jumpless(start, chain, fails), added) && output == Heads(added, chain) + start
  {
    assert uids[..|uids|] == uids;
  }

  lemma IsJumpless(output: seq<OutputRule>, chain: string, fails: set<Command>, uid: int)
    ensures Jumpless(output, chain, fails)(uid) <==> Owner(uid, chain) !in output || Check(uid) in fails
  {
  }

  lemma NotBefore(uids: seq<int>, i: nat)
    requires Distinct(uids) && i < |uids|
    ensures uids[i] !in uids[..i]
  {
  }

  lemma GainedNothing(output: seq<OutputRule>, uids: seq<int>, chain: string)
    ensures Gained(output, output, uids, chain)
  {
  }

  lemma NoHeads(chain: string)
    ensures Heads([], chain) == []
  {
  }

  lemma HeadsNext(added: seq<int>, chain: string, uid: int)
    ensures Heads(added + [uid], chain) == [Owner(uid, chain)] + Heads(added, chain)
  {
    assert (added + [uid])[..|added|] == added;
  }

  /** After a success every user has a jump. */
  lemma AllAttached(before: Table, after: Table, policy: Policy, addresses: Addresses, family: Family, fails: set<Command>)
    requires ValidPolicy(policy, addresses) && Worked(before, after, policy, addresses, family, fails)
    ensures forall uid <- policy.uids :: Owner(uid, policy.chain) in after.output
  {
    hide Heads;
    var wanted := Jumpless(before.output, policy.chain, fails);
    var added: seq<int> :| Picks(policy.uids, wanted, added) && after.output == Heads(added, policy.chain) + before.output;
    forall uid <- policy.uids ensures Owner(uid, policy.chain) in after.output {
      PicksHas<int>(policy.uids, wanted, added, uid);
      HeadsMembers(added, policy.chain, uid);
    }
  }

  /**
   The program, where the commands in `fails4` and `fails6` fail: both families
   are inspected before anything changes, and it succeeds exactly when both
   chains are ours and every command that is needed succeeds; then both tables
   enforce the policy.  A failure leaves them partly applied.
   */
  method ApplyPolicy(v4: Filter, v6: Filter, policy: Policy, addresses: Addresses, fails4: set<Command>, fails6: set<Command>)
    returns (r: Option<ApplyError>)
    requires v4.family == V4 && v6.family == V6 && ValidPolicy(policy, addresses)
    modifies v4, v6
    ensures r.None? <==>
              && List !in fails4 && List !in fails6 && old(v4.Managed(policy)) && old(v6.Managed(policy))
              && Works(old(v4.table.output), policy, fails4) && Works(old(v6.table.output), policy, fails6)
    ensures r.None? ==>
              && Enforced(v4.table, policy, addresses, V4) && Worked(old(v4.table), v4.table, policy, addresses, V4, fails4)
              && Enforced(v6.table, policy, addresses, V6) && Worked(old(v6.table), v6.table, policy, addresses, V6, fails6)
    ensures Touched(old(v4.table), v4.table, policy, addresses, V4)
    ensures Touched(old(v6.table), v6.table, policy, addresses, V6)
    ensures r == Some(CannotInspect) || r == Some(NotManaged) <==>
              List in fails4 || List in fails6 || !old(v4.Managed(policy)) || !old(v6.Managed(policy))
    ensures r == Some(NotManaged) || r == Some(CannotInspect) ==>
              v4.table == old(v4.table) && v6.table == old(v6.table)
  {
    hide Touched, Enforced, Worked, Works, Render;
    NotTouched(v4.table, policy, addresses, V4);
    NotTouched(v6.table, policy, addresses, V6);
    r := v4.Inspect(policy, fails4);
    if r.Some? { return; }
    r := v6.Inspect(policy, fails6);
    if r.Some? { return; }
    r := v4.ApplyFamily(policy, addresses, fails4);
    if r.Some? { return; }
    r := v6.ApplyFamily(policy, addresses, fails6);
  }

  lemma NotTouched(table: Table, policy: Policy, addresses: Addresses, family: Family)
    requires ValidPolicy(policy, addresses)
    ensures Touched(table, table, policy, addresses, family)
  {
  }
}
