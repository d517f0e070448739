/**
 The scheduler of a network scan (src/cmnd_linux/discovery.py): a bounded pool
 of probes, paced submission and cancellation, for any order of completion.
 */
module ScanScheduler {
  import opened Sequences
  import opened Wrappers

  /** One submission: the target, when it was sent, and how many probes were then pending. */
  datatype Submission<T> = Submission(target: T, time: real, pending: nat)

  datatype Report<T> = Report(devices: seq<T>, failures: seq<T>, requested: nat, completed: nat, cancelled: bool)

  datatype ScanError = InvalidSettings | Unexpected

  datatype Outcome = Found | Failed | Crashed

  const MAX_CONCURRENCY := 32
  const MAX_RATE := 50.0

  /** The targets of the submissions, in order. */
  function Targets<T>(trace: seq<Submission<T>>): (r: seq<T>)
    ensures |r| == |trace| && forall i :: 0 <= i < |r| ==> r[i] == trace[i].target
  {
    seq(|trace|, i requires 0 <= i < |trace| => trace[i].target)
  }

  /** Successive submissions are at least 1/rate apart, and never over the pool's bound. */
  ghost predicate Paced<T>(trace: seq<Submission<T>>, rate: real, concurrency: nat)
    requires rate > 0.0
  {
    && (forall i :: 0 <= i < |trace| ==> trace[i].pending <= concurrency)
    && (forall i, j :: 0 <= i < j < |trace| ==> trace[j].time >= trace[i].time + 1.0 / rate)
  }

  // ---- Clock, cancellation and pool ----

  /** A later reading of a monotone clock. */
  method Read(now: real) returns (later: real)
    ensures later >= now
  {
    var step: real := *;
    later := if step >= 0.0 then now + step else now - step;
  }

  /** The event is set at `cancelAt`, if ever, and stays set. */
  predicate IsSet(cancelAt: Option<real>, time: real) { cancelAt.Some? && cancelAt.value <= time }

  /** Wait for the event, at least for the whole delay when it does not come. */
  method WaitFor(cancelAt: Option<real>, time: real, delay: real) returns (set_: bool, later: real)
    requires delay >= 0.0
    ensures later >= time && (set_ <==> IsSet(cancelAt, later)) && (!set_ ==> later >= time + delay)
  {
    later := Read(time + delay);
    set_ := IsSet(cancelAt, later);
    if set_ { later := Read(if cancelAt.value < time then time else cancelAt.value); }
  }

  /** At least one pending probe is done; which ones is open. */
  method WaitFirst<T(==)>(pending: seq<T>) returns (done: seq<T>, rest: seq<T>)
    requires pending != []
    ensures done != []
    ensures multiset(done) + multiset(rest) == multiset(pending)
    ensures |done| + |rest| == |pending|
  {
    done, rest := [], pending;
    var more := true;
    while rest != [] && (done == [] || more)
      invariant multiset(done) + multiset(rest) == multiset(pending)
      invariant |done| + |rest| == |pending|
      decreases |rest|
    {
      var k: int := *;
      if !(0 <= k < |rest|) { k := 0; }
      assert rest == rest[..k] + [rest[k]] + rest[k + 1..];
      done, rest := done + [rest[k]], rest[..k] + rest[k + 1..];
      more := *;
    }
  }

  // ---- The loops of the program ----

  /** What has been sent, what is pending, and when the next send is due. */
  datatype State<T> = State(trace: seq<Submission<T>>, pending: seq<T>, nextSend: real, now: real, exhausted: bool, cancelled: bool)

  /** The submissions are a paced prefix of the targets, sent before the event, and the next one is due in time. */
  ghost predicate Sound<T>(s: State<T>, targets: seq<T>, rate: real, concurrency: nat, cancelAt: Option<real>)
    requires rate > 0.0
  {
    && (forall i :: 0 <= i < |s.trace| ==> !IsSet(cancelAt, s.trace[i].time))
    && (s.cancelled ==> IsSet(cancelAt, s.now))
    && |s.trace| <= |targets| && Targets(s.trace) == targets[..|s.trace|]
    && Paced(s.trace, rate, concurrency)
    && |s.pending| <= concurrency
    && (forall i :: 0 <= i < |s.trace| ==> s.nextSend >= s.trace[i].time + 1.0 / rate && s.now >= s.trace[i].time)
    && (s.exhausted ==> s.cancelled || |s.trace| == |targets|)
  }

  lemma SoundStopped<T>(s: State<T>, targets: seq<T>, rate: real, concurrency: nat, cancelAt: Option<real>, now: real)
    requires rate > 0.0 && Sound(s, targets, rate, concurrency, cancelAt) && now >= s.now
    ensures |s.trace| <= |targets| && |s.pending| <= concurrency
    ensures |s.trace| == |targets| ==> Sound(s.(exhausted := true), targets, rate, concurrency, cancelAt)
    ensures Sound(s.(now := now), targets, rate, concurrency, cancelAt)
    ensures IsSet(cancelAt, now) ==> Sound(s.(exhausted := true, cancelled := true, now := now), targets, rate, concurrency, cancelAt)
  {
  }

  /** The pending probes are those from before and the targets sent since. */
  ghost predicate Since<T>(s: State<T>, start: State<T>, targets: seq<T>) {
    && |start.trace| <= |s.trace| <= |targets| && s.trace[..|start.trace|] == start.trace
    && multiset(s.pending) == multiset(start.pending) + multiset(targets[|start.trace|..|s.trace|])
    && |s.pending| == |start.pending| + |s.trace| - |start.trace|
  }

  lemma SinceNext<T>(s: State<T>, start: State<T>, targets: seq<T>, r: State<T>, submission: Submission<T>)
    requires Since(s, start, targets) && |s.trace| < |targets|
    requires r.trace == s.trace + [submission] && r.pending == s.pending + [targets[|s.trace|]]
    ensures Since(r, start, targets)
  {
    assert targets[|start.trace|..|r.trace|] == targets[|start.trace|..|s.trace|] + [targets[|s.trace|]];
  }

  lemma SinceStart<T>(s: State<T>, targets: seq<T>)
    requires |s.trace| <= |targets|
    ensures Since(s, s, targets)
  {
    assert targets[|s.trace|..|s.trace|] == [];
  }

  /** The inner loop: submit while the pool has room, waiting out the pace. */
  method Submit<T(==)>(targets: seq<T>, start: State<T>, rate: real, concurrency: nat, cancelAt: Option<real>) returns (s: State<T>)
    requires rate > 0.0 && concurrency >= 1 && Sound(start, targets, rate, concurrency, cancelAt)
    ensures Sound(s, targets, rate, concurrency, cancelAt)
    ensures |s.trace| >= |start.trace| && s.trace[..|start.trace|] == start.trace
    ensures multiset(s.pending) == multiset(start.pending) + multiset(targets[|start.trace|..|s.trace|])
    ensures |s.pending| == |start.pending| + |s.trace| - |start.trace|
    ensures start.cancelled ==> s.cancelled
    ensures s.exhausted || |s.pending| == concurrency
    ensures s.exhausted && !start.exhausted ==> s.cancelled || |s.trace| == |targets|
    ensures s.now >= start.now
  {
    s := start;
    SoundStopped(s, targets, rate, concurrency, cancelAt, s.now);
    SinceStart(s, targets);
    while !s.exhausted && |s.pending| < concurrency
      invariant Sound(s, targets, rate, concurrency, cancelAt)
      invariant Since(s, start, targets) && s.now >= start.now
      invariant start.cancelled ==> s.cancelled
      invariant s.exhausted && !start.exhausted ==> s.cancelled || |s.trace| == |targets|
      invariant |s.pending| <= concurrency
      decreases |targets| - |s.trace|, !s.exhausted
    {
      hide Sound, Since;
      SoundStopped(s, targets, rate, concurrency, cancelAt, s.now);
      if |s.trace| == |targets| {
        s := s.(exhausted := true);
        break;
      }
      var target := targets[|s.trace|];
      var now := Read(s.now);
      var delay := if s.nextSend - now > 0.0 then s.nextSend - now else 0.0;
      var cancelled, later := WaitFor(cancelAt, now, delay);
      SoundStopped(s, targets, rate, concurrency, cancelAt, later);
      if cancelled {
        s := s.(exhausted := true, cancelled := true, now := later);
        break;
      }
      var r := Sent(targets, s, target, later, rate, concurrency, cancelAt);
      SinceNext(s, start, targets, r, Submission(target, later, |s.pending| + 1));
      s := r;
    }
  }

  /** One submission at `time`, not before the next send was due. */
  method Sent<T(==)>(targets: seq<T>, s: State<T>, target: T, time: real, rate: real, concurrency: nat, cancelAt: Option<real>)
    returns (r: State<T>)
    requires rate > 0.0 && Sound(s, targets, rate, concurrency, cancelAt) && !s.exhausted && !IsSet(cancelAt, time)
    requires |s.trace| < |targets| && target == targets[|s.trace|] && |s.pending| < concurrency
    requires time >= s.nextSend || s.trace == []
    requires time >= s.now
    ensures Sound(r, targets, rate, concurrency, cancelAt) && r.now >= time
    ensures r.trace == s.trace + [Submission(target, time, |s.pending| + 1)] && r.pending == s.pending + [target]
    ensures !r.exhausted && r.cancelled == s.cancelled
  {
    var submission := Submission(target, time, |s.pending| + 1);
    var after := Read(time);
    r := s.(trace := s.trace + [submission], pending := s.pending + [target], nextSend := after + 1.0 / rate, now := after);
    assert Targets(r.trace) == Targets(s.trace) + [target];
    TakeNext(targets, |s.trace|);
    assert 1.0 / rate > 0.0;
  }

  /** Devices are the targets that were found, failures those that failed. */
  ghost predicate Sorted<T(!new)>(devices: seq<T>, failures: seq<T>, outcome: T -> Outcome) {
    (forall t <- devices :: outcome(t) == Found) && (forall t <- failures :: outcome(t) == Failed)
  }

  /** Collect the results of the probes that are done; an unexpected exception ends the scan. */
  method Collect<T(==,!new)>(done: seq<T>, devices: seq<T>, failures: seq<T>, outcome: T -> Outcome)
    returns (ok: bool, found: seq<T>, failed: seq<T>)
    ensures ok <==> forall t <- done :: outcome(t) != Crashed
    ensures ok && Sorted(devices, failures, outcome) ==> Sorted(found, failed, outcome)
    ensures ok ==> multiset(found) + multiset(failed) == multiset(devices) + multiset(failures) + multiset(done)
    ensures ok ==> |found| + |failed| == |devices| + |failures| + |done|
  {
    found, failed := devices, failures;
    for k := 0 to |done|
      invariant multiset(found) + multiset(failed) == multiset(devices) + multiset(failures) + multiset(done[..k])
      invariant |found| + |failed| == |devices| + |failures| + k
      invariant forall t <- done[..k] :: outcome(t) != Crashed
      invariant Sorted(devices, failures, outcome) ==> Sorted(found, failed, outcome)
    {
      TakeNext(done, k);
      ghost var before := multiset(found) + multiset(failed);
      match outcome(done[k]) {
        case Found => found := found + [done[k]];
        case Failed => failed := failed + [done[k]];
        case Crashed => return false, found, failed;
      }
      assert multiset(found) + multiset(failed) == before + multiset([done[k]]);
    }
    assert done[..|done|] == done;
    ok := true;
  }

  /** Every submitted target is a device, a failure or pending, exactly once. */
  ghost predicate Settled<T>(s: State<T>, devices: seq<T>, failures: seq<T>, targets: seq<T>)
  {
    && |s.trace| <= |targets|
    && multiset(devices) + multiset(failures) + multiset(s.pending) == multiset(targets[..|s.trace|])
    && |devices| + |failures| + |s.pending| == |s.trace|
  }

  lemma SettledSubmit<T>(s: State<T>, r: State<T>, devices: seq<T>, failures: seq<T>, targets: seq<T>)
    requires Settled(s, devices, failures, targets) && |s.trace| <= |r.trace| <= |targets|
    requires multiset(r.pending) == multiset(s.pending) + multiset(targets[|s.trace|..|r.trace|])
    requires |r.pending| == |s.pending| + |r.trace| - |s.trace|
    ensures Settled(r, devices, failures, targets)
  {
    assert targets[..|r.trace|] == targets[..|s.trace|] + targets[|s.trace|..|r.trace|];
  }

  /** Wait for the first results and collect them. */
  method Advance<T(==,!new)>(ghost targets: seq<T>, s: State<T>, devices: seq<T>, failures: seq<T>, outcome: T -> Outcome)
    returns (ok: bool, r: State<T>, found: seq<T>, failed: seq<T>)
    requires s.pending != [] && Settled(s, devices, failures, targets)
    ensures r == s.(pending := r.pending, now := r.now) && r.now >= s.now && |r.pending| < |s.pending|
    ensures ok ==> Settled(r, found, failed, targets)
    ensures ok && Sorted(devices, failures, outcome) ==> Sorted(found, failed, outcome)
    ensures !ok ==> exists t <- s.pending :: outcome(t) == Crashed
  {
    var done, rest := WaitFirst(s.pending);
    var now := Read(s.now);
    r := s.(pending := rest, now := now);
    ok, found, failed := Collect(done, devices, failures, outcome);
    forall t <- done ensures t in s.pending { assert t in multiset(done) && t in multiset(s.pending); }
  }

  /**
   The program.  `outcome` is what probing a target comes to, `cancelAt` when
   the scan is cancelled, if ever.  For every order of completion the loop
   ends; the submissions are a paced prefix of the targets, all before the
   cancellation; every submitted target is reported exactly once, as what it
   came to; and without cancellation every target is.
   */
  method Scan<T(==,!new)>(targets: seq<T>, concurrency: nat, rate: real, port: int, outcome: T -> Outcome, cancelAt: Option<real>)
    returns (r: Result<Report<T>, ScanError>, trace: seq<Submission<T>>)
    ensures r == Err(InvalidSettings) <==> !(1 <= concurrency <= 32 && 0.0 < rate <= 50.0 && 1 <= port <= 65535)
    ensures r == Err(InvalidSettings) ==> trace == []
    ensures r != Err(InvalidSettings) ==>
              |trace| <= |targets| && Targets(trace) == targets[..|trace|] && Paced(trace, rate, concurrency)
    ensures forall i :: 0 <= i < |trace| ==> cancelAt.None? || trace[i].time < cancelAt.value
    ensures r == Err(Unexpected) <==> r != Err(InvalidSettings) && exists t <- targets[..|trace|] :: outcome(t) == Crashed
    ensures r.Ok? ==>
              && multiset(r.value.devices) + multiset(r.value.failures) == multiset(targets[..|trace|])
              && (forall t <- r.value.devices :: outcome(t) == Found) && (forall t <- r.value.failures :: outcome(t) == Failed)
              && r.value.completed == |trace| && r.value.requested == |targets|
              && (!r.value.cancelled ==> r.value.completed == r.value.requested)
              && (r.value.cancelled ==> cancelAt.Some?)
  {
    trace := [];
    if !(1 <= concurrency <= MAX_CONCURRENCY && 0.0 < rate <= MAX_RATE) || !(1 <= port <= 65535) {
      return Err(InvalidSettings), [];
    }
    var now := Read(0.0);
    var s: State<T> := State([], [], 0.0, now, false, false);
    var devices, failures: seq<T> := [], [];
    while s.pending != [] || !s.exhausted
      invariant Sound(s, targets, rate, concurrency, cancelAt)
      invariant Settled(s, devices, failures, targets) && Sorted(devices, failures, outcome)
      decreases 2 * (|targets| - |s.trace|) + |s.pending|, !s.exhausted
    {
      hide Sound, Settled, Sorted;
      SoundStopped(s, targets, rate, concurrency, cancelAt, s.now);
      if IsSet(cancelAt, s.now) { s := s.(exhausted := true, cancelled := true); }
      var sent := Submit(targets, s, rate, concurrency, cancelAt);
      SettledSubmit(s, sent, devices, failures, targets);
      s := sent;
      if s.pending == [] { break; }
      var ok, r', found, failed := Advance(targets, s, devices, failures, outcome);
      if !ok {
        CrashSubmitted(s, devices, failures, targets, outcome);
        SoundTrace(s, targets, rate, concurrency, cancelAt);
        return Err(Unexpected), s.trace;
      }
      SoundPending(s, r', targets, rate, concurrency, cancelAt);
      s, devices, failures := r', found, failed;
    }
    SoundTrace(s, targets, rate, concurrency, cancelAt);
    AllReported(s, devices, failures, targets, outcome);
    now := Read(s.now);
    trace := s.trace;
    r := Ok(Report(devices, failures, |targets|, |devices| + |failures|, IsSet(cancelAt, now)));
  }

  lemma SoundPending<T>(s: State<T>, r: State<T>, targets: seq<T>, rate: real, concurrency: nat, cancelAt: Option<real>)
    requires rate > 0.0 && Sound(s, targets, rate, concurrency, cancelAt)
    requires r == s.(pending := r.pending, now := r.now) && r.now >= s.now && |r.pending| <= |s.pending|
    ensures Sound(r, targets, rate, concurrency, cancelAt)
  {
  }

  lemma SoundTrace<T>(s: State<T>, targets: seq<T>, rate: real, concurrency: nat, cancelAt: Option<real>)
    requires rate > 0.0 && Sound(s, targets, rate, concurrency, cancelAt)
    ensures |s.trace| <= |targets| && Targets(s.trace) == targets[..|s.trace|] && Paced(s.trace, rate, concurrency)
    ensures forall i :: 0 <= i < |s.trace| ==> cancelAt.None? || s.trace[i].time < cancelAt.value
    ensures s.exhausted ==> IsSet(cancelAt, s.now) || |s.trace| == |targets|
  {
  }

  /** A pending probe that crashes was submitted. */
  lemma CrashSubmitted<T(!new)>(s: State<T>, devices: seq<T>, failures: seq<T>, targets: seq<T>, outcome: T -> Outcome)
    requires Settled(s, devices, failures, targets) && exists t <- s.pending :: outcome(t) == Crashed
    ensures exists t <- targets[..|s.trace|] :: outcome(t) == Crashed
  {
    var t :| t in s.pending && outcome(t) == Crashed;
    assert t in multiset(s.pending) && t in multiset(targets[..|s.trace|]);
  }

  /** With nothing pending every submitted target is reported, and none crashed. */
  lemma AllReported<T(!new)>(s: State<T>, devices: seq<T>, failures: seq<T>, targets: seq<T>, outcome: T -> Outcome)
    requires Settled(s, devices, failures, targets) && Sorted(devices, failures, outcome) && s.pending == []
    ensures multiset(devices) + multiset(failures) == multiset(targets[..|s.trace|]) && |devices| + |failures| == |s.trace|
    ensures (forall t <- devices :: outcome(t) == Found) && (forall t <- failures :: outcome(t) == Failed)
    ensures forall t <- targets[..|s.trace|] :: outcome(t) != Crashed
  {
    forall t <- targets[..|s.trace|] ensures outcome(t) != Crashed {
      assert t in multiset(targets[..|s.trace|]);
      assert t in multiset(devices) || t in multiset(failures);
    }
  }
}
