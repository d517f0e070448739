/**
 Opening the egress policy for the vendor's license server
 (src/cmnd_linux/license_network.py), once and repeatedly.
 */
module LicenseNetwork {
  import opened Wrappers
  import opened Egress

  /** The policy file: the policy and the endpoints of the previous enabling. */
  datatype PolicyFile = PolicyFile(policy: Policy, license: Option<License>)

  datatype License = License(hostname: string, endpoints: seq<Endpoint>)

  const HOST := "license.cmnd.pro"
  const CHAIN := "CMND_NATIVE"
  const PORT := 443
  const MAX_ADDRESSES := 32

  datatype EnableError =
    | InvalidPrior | NotNative | Unresolved | UnexpectedHostname | InvalidCandidate | BackupFailed
    | RolledBack | RollbackFailed

  function Previous(file: PolicyFile): set<Endpoint> {
    if file.license.None? then {} else set e | e in file.license.value.endpoints
  }

  function Endpoints(file: PolicyFile): set<Endpoint> { set e | e in file.policy.endpoints }

  /** The endpoints after enabling: the previous license endpoints give way to the resolved ones. */
  function Updated(file: PolicyFile, resolved: seq<Endpoint>): set<Endpoint> {
    (Endpoints(file) - Previous(file)) + (set e | e in resolved)
  }

  /** A sequence without repetition that holds exactly the members of a set. */
  method Listing(members: set<Endpoint>) returns (r: seq<Endpoint>)
    ensures (set e | e in r) == members
  {
    r := [];
    var rest := members;
    while rest != {}
      invariant rest <= members && (set e | e in r) == members - rest
      decreases rest
    {
      var e :| e in rest;
      rest := rest - {e};
      assert (set x | x in r + [e]) == (set x | x in r) + {e};
      r := r + [e];
    }
  }

  /** What the resolver's answer must be: 1 to 32 addresses, all on port 443. */
  predicate Resolves(resolved: Option<seq<Endpoint>>) {
    resolved.Some? && 1 <= |resolved.value| <= MAX_ADDRESSES
    && forall i :: 0 <= i < |resolved.value| ==> resolved.value[i].port == PORT
  }

  /** The policy file on disk. */
  class Store {
    var file: PolicyFile

    constructor (file: PolicyFile)
      ensures this.file == file
    {
      this.file := file;
    }
  }

  /** A valid native policy, an acceptable answer, and no license record of another host. */
  predicate Plannable(file: PolicyFile, addresses: Addresses, resolved: Option<seq<Endpoint>>) {
    && ValidPolicy(file.policy, addresses) && file.policy.chain == CHAIN
    && Resolves(resolved) && (forall e <- resolved.value :: ValidEndpoint(e, addresses))
    && (file.license.Some? ==> file.license.value.hostname == HOST)
  }

  /** The candidate differs from the prior policy in its endpoints alone, so it is valid when they are. */
  lemma CandidateValid(file: PolicyFile, addresses: Addresses, resolved: seq<Endpoint>, candidate: Policy)
    requires ValidPolicy(file.policy, addresses)
    requires candidate.chain == file.policy.chain && candidate.uids == file.policy.uids
    requires (set e | e in candidate.endpoints) == Updated(file, resolved)
    ensures ValidPolicy(candidate, addresses) <==> forall e <- resolved :: ValidEndpoint(e, addresses)
  {
    forall e ensures e in candidate.endpoints <==> e in Updated(file, resolved) {
      assert e in candidate.endpoints <==> e in (set x | x in candidate.endpoints);
    }
    if forall e <- resolved :: ValidEndpoint(e, addresses) {
      forall i | 0 <= i < |candidate.endpoints| ensures ValidEndpoint(candidate.endpoints[i], addresses) {
        assert candidate.endpoints[i] in Updated(file, resolved);
      }
    }
    if ValidPolicy(candidate, addresses) {
      forall e | e in resolved ensures ValidEndpoint(e, addresses) {
        assert e in Updated(file, resolved) && e in candidate.endpoints;
      }
    }
  }

  lemma PlannableSpelled(file: PolicyFile, addresses: Addresses, resolved: Option<seq<Endpoint>>)
    ensures Plannable(file, addresses, resolved) <==>
              && Lawful(file.policy, addresses) && file.policy.chain == "CMND_NATIVE"
              && resolved.Some? && 1 <= |resolved.value| <= 32
              && (forall e <- resolved.value :: e.port == 443 && Lawful(file.policy.(endpoints := [e]), addresses))
              && (file.license.Some? ==> file.license.value.hostname == "license.cmnd.pro")
  {
    hide Lawful;
    ValidIsLawful(file.policy, addresses);
    if ValidPolicy(file.policy, addresses) && resolved.Some? {
      forall e | e in resolved.value ensures Lawful(file.policy.(endpoints := [e]), addresses) <==> ValidEndpoint(e, addresses) {
        ValidIsLawful(file.policy.(endpoints := [e]), addresses);
        assert file.policy.(endpoints := [e]).endpoints[0] == e;
      }
      if forall e <- resolved.value :: e.port == 443 {
        forall i | 0 <= i < |resolved.value| ensures resolved.value[i].port == PORT { assert resolved.value[i] in resolved.value; }
      }
    }
  }

  /** The policy to apply, made exactly when it can be: the prior one with the latest endpoints in place of the earlier ones. */
  method Plan(file: PolicyFile, addresses: Addresses, resolved: Option<seq<Endpoint>>) returns (r: Result<Policy, EnableError>)
    ensures r.Ok? <==> Plannable(file, addresses, resolved)
    ensures r.Ok? <==>
              && Lawful(file.policy, addresses) && file.policy.chain == "CMND_NATIVE"
              && resolved.Some? && 1 <= |resolved.value| <= 32
              && (forall e <- resolved.value :: e.port == 443 && Lawful(file.policy.(endpoints := [e]), addresses))
              && (file.license.Some? ==> file.license.value.hostname == "license.cmnd.pro")
    ensures r.Ok? ==> forall e :: e in r.value.endpoints <==>
              || e in resolved.value
              || (e in file.policy.endpoints && (file.license.Some? ==> e !in file.license.value.endpoints))
    ensures r.Ok? ==>
              && ValidPolicy(r.value, addresses)
              && (set e | e in r.value.endpoints) == Updated(file, resolved.value)
              && r.value.chain == file.policy.chain && r.value.uids == file.policy.uids
    ensures r.Err? ==> r.error !in {RolledBack, RollbackFailed, BackupFailed}
  {
    PlannableSpelled(file, addresses, resolved);
    hide Lawful;
    var prior := file.policy;
    var invalid := Validate(prior, addresses);
    if invalid.Some? { return Err(InvalidPrior); }
    if prior.chain != CHAIN { return Err(NotNative); }
    if !Resolves(resolved) { return Err(Unresolved); }
    var license := file.license;
    if license.Some? && license.value.hostname != HOST { return Err(UnexpectedHostname); }
    var endpoints := Listing(Updated(file, resolved.value));
    var candidate := Policy(prior.chain, prior.uids, SortedSet(endpoints));
    SortedSetCorrect(endpoints);
    assert (set e | e in candidate.endpoints) == (set e | e in endpoints);
    CandidateValid(file, addresses, resolved.value, candidate);
    invalid := Validate(candidate, addresses);
    if invalid.Some? { return Err(InvalidCandidate); }
    UpdatedHolds(file, resolved.value, candidate.endpoints);
    r := Ok(candidate);
  }

  lemma UpdatedHolds(file: PolicyFile, resolved: seq<Endpoint>, endpoints: seq<Endpoint>)
    requires (set e | e in endpoints) == Updated(file, resolved)
    ensures forall e :: e in endpoints <==>
              || e in resolved
              || (e in file.policy.endpoints && (file.license.Some? ==> e !in file.license.value.endpoints))
  {
    forall e ensures e in endpoints <==> e in Updated(file, resolved) {
      assert e in endpoints <==> e in (set x | x in endpoints);
    }
  }

  /** The commands that fail, for each family. */
  datatype Failing = Failing(v4: set<Command>, v6: set<Command>)

  /** Every command works that applying the policy to these tables needs. */
  predicate Applies(v4: Table, v6: Table, policy: Policy, f: Failing) {
    && List !in f.v4 && List !in f.v6 && Manages(v4, policy) && Manages(v6, policy)
    && Works(v4.output, policy, f.v4) && Works(v6.output, policy, f.v6)
  }

  /** The chain, if it exists, has the marker. */
  predicate Manages(table: Table, policy: Policy) {
    policy.chain in table.chains ==> exists rule <- table.chains[policy.chain] :: rule.condition == Marked
  }

  /** Apply a policy to both families; success enforces it. */
  method Enforce(v4: Filter, v6: Filter, policy: Policy, addresses: Addresses, f: Failing) returns (ok: bool)
    requires v4.family == V4 && v6.family == V6 && ValidPolicy(policy, addresses)
    modifies v4, v6
    ensures ok <==> Applies(old(v4.table), old(v6.table), policy, f)
    ensures ok ==> Enforced(v4.table, policy, addresses, V4) && Enforced(v6.table, policy, addresses, V6)
    ensures Manages(old(v4.table), policy) && Manages(old(v6.table), policy) ==> Manages(v4.table, policy) && Manages(v6.table, policy)
  {
    hide Works, Worked, Render, Enforced;
    var failure := ApplyPolicy(v4, v6, policy, addresses, f.v4, f.v6);
    StaysManaged(old(v4.table), v4.table, policy, addresses, V4);
    StaysManaged(old(v6.table), v6.table, policy, addresses, V6);
    ok := failure.None?;
  }

  lemma StaysManaged(before: Table, after: Table, policy: Policy, addresses: Addresses, family: Family)
    requires ValidPolicy(policy, addresses) && Touched(before, after, policy, addresses, family)
    ensures Manages(before, policy) ==> Manages(after, policy)
  {
    RenderedMarked(policy, addresses, family);
    hide Render;
  }

  lemma NothingFails(v4: Table, v6: Table, policy: Policy)
    requires Manages(v4, policy) && Manages(v6, policy)
    ensures Applies(v4, v6, policy, Failing({}, {}))
  {
  }

  /** One run: the policy file before and after it, what the resolver answered, and how it ended. */
  datatype Run = Run(before: PolicyFile, resolved: Option<seq<Endpoint>>, outcome: Option<EnableError>, after: PolicyFile)

  /** Success stores the updated endpoints and the new license record; any failure leaves the file as it was. */
  predicate Ran(r: Run) {
    if r.outcome.Some? then r.after == r.before
    else
      && r.resolved.Some?
      && Endpoints(r.after) == Updated(r.before, r.resolved.value)
      && r.after.policy.chain == r.before.policy.chain && r.after.policy.uids == r.before.policy.uids
      && r.after.license == Some(License(HOST, r.resolved.value))
  }

  /**
   The program.  `resolved` is the checked answer of the resolver; `written`
   says whether the backup and the pending file can be written, `replaced`
   whether the policy file can, and `first` and `second` which commands fail
   when the candidate and when the prior policy is applied.  Success enforces
   and stores the candidate; any failure leaves the file as it was, and a
   failure after the kernel was touched is rolled back to the prior policy or
   reported as not rolled back.
   */
  method Enable(store: Store, v4: Filter, v6: Filter, addresses: Addresses, resolved: Option<seq<Endpoint>>,
                written: bool, replaced: bool, first: Failing, second: Failing)
    returns (r: Option<EnableError>)
    requires v4.family == V4 && v6.family == V6
    modifies store, v4, v6
    ensures Ran(Run(old(store.file), resolved, r, store.file))
    ensures r.None? <==>
              && Plannable(old(store.file), addresses, resolved) && written && replaced
              && Applies(old(v4.table), old(v6.table), old(store.file).policy, first)
    ensures r == Some(BackupFailed) <==> Plannable(old(store.file), addresses, resolved) && !written
    ensures r.None? ==>
              && ValidPolicy(store.file.policy, addresses)
              && Enforced(v4.table, store.file.policy, addresses, V4) && Enforced(v6.table, store.file.policy, addresses, V6)
    ensures r == Some(RolledBack) ==>
              && ValidPolicy(store.file.policy, addresses)
              && Enforced(v4.table, store.file.policy, addresses, V4) && Enforced(v6.table, store.file.policy, addresses, V6)
    ensures second == Failing({}, {}) && Manages(old(v4.table), old(store.file).policy) && Manages(old(v6.table), old(store.file).policy) ==>
              r != Some(RollbackFailed)
    ensures r.Some? && r.value !in {RolledBack, RollbackFailed} ==>
              v4.table == old(v4.table) && v6.table == old(v6.table)
  {
    hide Lawful, Works, Enforced, Plannable;
    var plan := Plan(store.file, addresses, resolved);
    if plan.Err? { return Some(plan.error); }
    PlannablePrior(store.file, addresses, resolved);
    var prior, candidate := store.file.policy, plan.value;
    SameUsers(v4.table, v6.table, prior, candidate, first);
    if !written { return Some(BackupFailed); }
    var applied := Enforce(v4, v6, candidate, addresses, first);
    if applied && replaced {
      store.file := PolicyFile(candidate, Some(License(HOST, resolved.value)));
      return None;
    }
    if Manages(v4.table, prior) && Manages(v6.table, prior) { NothingFails(v4.table, v6.table, prior); }
    var restored := Enforce(v4, v6, prior, addresses, second);
    return Some(if restored then RolledBack else RollbackFailed);
  }

  lemma PlannablePrior(file: PolicyFile, addresses: Addresses, resolved: Option<seq<Endpoint>>)
    requires Plannable(file, addresses, resolved)
    ensures ValidPolicy(file.policy, addresses)
  {
  }

  /** Which commands a policy needs depends on its chain and its users alone. */
  lemma SameUsers(v4: Table, v6: Table, p: Policy, q: Policy, f: Failing)
    requires p.chain == q.chain && p.uids == q.uids
    ensures Applies(v4, v6, p, f) <==> Applies(v4, v6, q, f)
    ensures (Manages(v4, p) <==> Manages(v4, q)) && (Manages(v6, p) <==> Manages(v6, q))
  {
  }

  // ---- Repeated enabling ----

  /** Runs on one policy file, each on what the one before it left. */
  ghost predicate History(runs: seq<Run>) {
    && (forall i :: 0 <= i < |runs| ==> Ran(runs[i]))
    && (forall i, j :: 0 <= i && j == i + 1 && j < |runs| ==> runs[j].before == runs[i].after)
  }

  /** The answers of the successful runs, in order. */
  function Answers(runs: seq<Run>): seq<set<Endpoint>> {
    if runs == [] then []
    else
      var last := runs[|runs| - 1];
      Answers(runs[..|runs| - 1])
      + if last.outcome.None? && last.resolved.Some? then [set e | e in last.resolved.value] else []
  }

  function Union(answers: seq<set<Endpoint>>): set<Endpoint> {
    if answers == [] then {} else Union(answers[..|answers| - 1]) + answers[|answers| - 1]
  }

  /** The endpoints that do not come from the license host. */
  function Base(file: PolicyFile): set<Endpoint> { Endpoints(file) - Previous(file) }

  /** What the file holds after the answers: the base less everything answered before, and the latest answer. */
  predicate Holds(file: PolicyFile, first: PolicyFile, answers: seq<set<Endpoint>>) {
    if answers == [] then Endpoints(file) == Endpoints(first) && Previous(file) == Previous(first)
    else
      var latest := answers[|answers| - 1];
      && Previous(file) == latest
      && Endpoints(file) == (Base(first) - Union(answers[..|answers| - 1])) + latest
  }

  lemma RunHolds(r: Run, first: PolicyFile, answers: seq<set<Endpoint>>)
    requires Ran(r) && r.outcome.None? && Holds(r.before, first, answers)
    ensures Holds(r.after, first, answers + [set e | e in r.resolved.value])
  {
    var answer := set e | e in r.resolved.value;
    var all := answers + [answer];
    assert all[..|all| - 1] == answers;
    assert Previous(r.after) == answer;
    if answers != [] {
      var latest := answers[|answers| - 1];
      assert Union(answers) == Union(answers[..|answers| - 1]) + latest;
      assert Base(r.before) == Base(first) - Union(answers);
    } else {
      assert Base(first) - Union(answers) == Base(first);
    }
  }

  /** Nothing accumulates over any sequence of successful, failed and rolled-back runs. */
  lemma {:induction false} AfterRuns(runs: seq<Run>)
    requires History(runs) && runs != []
    ensures Holds(runs[|runs| - 1].after, runs[0].before, Answers(runs))
  {
    var n := |runs| - 1;
    var init := runs[..n];
    if n == 0 {
      assert init == [] && Answers(init) == [];
    } else {
      AfterRuns(init);
    }
    if runs[n].outcome.None? {
      RunHolds(runs[n], runs[0].before, Answers(init));
    } else {
      assert Answers(runs) == Answers(init);
    }
  }

  /**
   After any sequence of runs with a success among them, the policy is the
   base plus the latest answer exactly when every base endpoint that an
   earlier answer held is in the latest one.
   */
  lemma EnablingKeepsBase(runs: seq<Run>)
    requires History(runs) && runs != [] && Answers(runs) != []
    ensures var answers := Answers(runs);
            var latest, earlier := answers[|answers| - 1], Union(answers[..|answers| - 1]);
            var base := Base(runs[0].before);
            Endpoints(runs[|runs| - 1].after) == base + latest <==> base * earlier <= latest
  {
    AfterRuns(runs);
    var answers := Answers(runs);
    var latest, earlier := answers[|answers| - 1], Union(answers[..|answers| - 1]);
    var base := Base(runs[0].before);
    if base * earlier <= latest {
      assert (base - earlier) + latest == base + latest;
    } else {
      var e :| e in base * earlier && e !in latest;
      assert e in base + latest && e !in (base - earlier) + latest;
    }
  }

  /** The endpoint of the administrator is answered once and then no more: it is gone. */
  lemma BaseLost(uid: int, own: Endpoint, other: Endpoint)
    requires own != other
    ensures var start := PolicyFile(Policy(CHAIN, [uid], [own]), None);
            var mid := PolicyFile(Policy(CHAIN, [uid], [own]), Some(License(HOST, [own])));
            var end := PolicyFile(Policy(CHAIN, [uid], [other]), Some(License(HOST, [other])));
            && History([Run(start, Some([own]), None, mid), Run(mid, Some([other]), None, end)])
            && own in Base(start) && own !in Endpoints(end)
  {
    var start := PolicyFile(Policy(CHAIN, [uid], [own]), None);
    var mid := PolicyFile(Policy(CHAIN, [uid], [own]), Some(License(HOST, [own])));
    assert Endpoints(start) == Endpoints(mid) == {own} && Updated(start, [own]) == {own};
    assert Previous(mid) == {own} && Updated(mid, [other]) == {other};
  }
}
