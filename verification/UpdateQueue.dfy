/** The queued job and the worker lock, under any interleaving (src/cmnd_linux/updates.py). */
module UpdateQueue {
  import opened Wrappers
  import opened Releases

  /** A file under the queue's name; `id` counts the files ever published, `content` is None when it is no job. */
  datatype File = File(id: nat, content: Option<Job>)

  predicate ValidFile(f: File) { f.content.Some? && ValidateJob(f.content.value).Ok? }

  /** An installer process; `cli` is the job a command-line installer was started with. */
  datatype Process =
    | Started(cli: Option<Job>)
    | Locked(cli: Option<Job>)
    | Opened(file: File)
    | Accepted(file: File)
    | Rejecting(seen: Option<File>)
    | Running(job: Job, source: Option<File>)
    | Ended

  /** `spawned` records what each process was started with: a job of the command line, or none for a queue worker. */
  datatype State = State(queue: Option<File>, published: nat, lock: Option<nat>, processes: map<nat, Process>,
                         spawned: map<nat, Option<Job>>, consumed: seq<File>, dropped: seq<File>)

  /** A step of one process performs one system call, which may fail. */
  datatype Action =
    | Publish(job: Job)
    | Spawn(pid: nat, cli: Option<Job>)
    | Step(pid: nat, fault: bool)

  // ---- Transitions ----

  /** One action in a state, or None when it is not possible there. */
  function Apply(s: State, a: Action): Option<State> {
    match a
    case Publish(job) => Some(Published(s, job))
    case Spawn(pid, cli) =>
      if pid in s.processes then None
      else
        var first := if cli.Some? && ValidateJob(cli.value).Err? then Ended else Started(cli);
        Some(s.(processes := s.processes[pid := first], spawned := s.spawned[pid := cli]))
    case Step(pid, fault) =>
      if pid !in s.processes || s.processes[pid].Ended? then None else Some(Stepped(s, pid, fault))
  }

  /** Linking a complete file under the queue's name; the link fails when the name is taken. */
  function Published(s: State, job: Job): State {
    if ValidateJob(job).Err? || s.queue.Some? then s
    else s.(queue := Some(File(s.published, Some(job))), published := s.published + 1)
  }

  function Become(s: State, pid: nat, p: Process): State { s.(processes := s.processes[pid := p]) }

  /** The process ends and its lock goes with it. */
  function Release(s: State, pid: nat): State { s.(lock := None, processes := s.processes[pid := Ended]) }

  function Stepped(s: State, pid: nat, fault: bool): State
    requires pid in s.processes
  {
    match s.processes[pid]
    case Started(cli) =>
      if fault || s.lock.Some? then Become(s, pid, Ended) else Become(s, pid, Locked(cli)).(lock := Some(pid))
    case Locked(Some(job)) =>
      if fault || s.queue.Some? then Release(s, pid) else Become(s, pid, Running(job, None))
    case Locked(None) =>
      if fault || s.queue.None? then Become(s, pid, Rejecting(None)) else Become(s, pid, Opened(s.queue.value))
    case Opened(file) =>
      if fault || !ValidFile(file) then Become(s, pid, Rejecting(Some(file))) else Become(s, pid, Accepted(file))
    case Accepted(file) =>
      if fault || s.queue.None? || file.content.None? then Become(s, pid, Rejecting(Some(file)))
      else Become(s, pid, Running(file.content.value, Some(file))).(queue := None, consumed := s.consumed + [s.queue.value])
    case Rejecting(_) =>
      if fault || s.queue.None? then Release(s, pid)
      else Release(s, pid).(queue := None, dropped := s.dropped + [s.queue.value])
    case Running(_, _) => Release(s, pid)
    case Ended => s
  }

  /** The state after a sequence of actions; impossible actions are skipped. */
  function After(s: State, actions: seq<Action>): State {
    if actions == [] then s else
      var before := After(s, actions[..|actions| - 1]);
      match Apply(before, actions[|actions| - 1])
      case Some(next) => next
      case None => before
  }

  /** No process yet; a file from before may be in the queue. */
  predicate Initial(s: State) {
    && s.lock.None? && s.processes == map[] && s.spawned == map[] && s.consumed == [] && s.dropped == []
    && (if s.queue.Some? then s.published == 1 && s.queue.value.id == 0 else s.published == 0)
  }

  // ---- What every reachable state keeps ----

  predicate PastLock(p: Process) { !p.Started? && !p.Ended? }

  /** All files that were ever in the queue: taken, dropped or still there. */
  function AllFiles(s: State): seq<File> {
    s.consumed + s.dropped + if s.queue.Some? then [s.queue.value] else []
  }

  /** Numbered files, each number below `n` exactly once. */
  ghost predicate Numbered(files: seq<File>, n: nat) {
    && |files| == n
    && (forall i :: 0 <= i < |files| ==> files[i].id < n)
    && (forall i, j :: 0 <= i < j < |files| ==> files[i].id != files[j].id)
  }

  /** A process is in a phase of the kind it was started as. */
  predicate Origin(p: Process, cli: Option<Job>) {
    match p
    case Started(job) => cli == job
    case Locked(job) => cli == job
    case Opened(_) => cli == None
    case Accepted(_) => cli == None
    case Rejecting(_) => cli == None
    case Running(job, source) => if source.Some? then cli == None else cli == Some(job)
    case Ended => true
  }

  ghost predicate ProcessSound(s: State, pid: nat)
    requires pid in s.processes
  {
    var p := s.processes[pid];
    && pid in s.spawned && Origin(p, s.spawned[pid])
    && (PastLock(p) <==> s.lock == Some(pid))
    && (p.Opened? || p.Accepted? ==> s.queue == Some(p.file))
    && (p.Accepted? ==> ValidFile(p.file))
    && (p.Rejecting? && p.seen.Some? ==> s.queue == p.seen)
    && (p.Running? ==> ValidateJob(p.job).Ok?)
    && (p.Running? && p.source.Some? ==> p.source.value.content == Some(p.job) && p.source.value in s.consumed)
    && ((p.Started? || p.Locked?) && p.cli.Some? ==> ValidateJob(p.cli.value).Ok?)
  }

  ghost predicate Inv(s: State) {
    && Numbered(AllFiles(s), s.published)
    && (s.lock.Some? ==> s.lock.value in s.processes)
    && (forall pid :: pid in s.processes ==> ProcessSound(s, pid))
    && (forall f <- s.consumed :: ValidFile(f))
  }

  lemma NumberedAppend(files: seq<File>, f: File)
    requires Numbered(files, |files|) && f.id == |files|
    ensures Numbered(files + [f], |files| + 1)
  {
  }

  lemma NumberedMove(consumed: seq<File>, dropped: seq<File>, f: File, n: nat)
    requires Numbered(consumed + dropped + [f], n)
    ensures Numbered(consumed + [f] + dropped, n)
    ensures Numbered(consumed + (dropped + [f]), n)
  {
    var a, b := consumed + dropped + [f], consumed + [f] + dropped;
    var k := |consumed|;
    assert forall i :: 0 <= i < k ==> b[i] == a[i];
    assert b[k] == a[n - 1] == f;
    assert forall i :: k < i < n ==> b[i] == a[i - 1];
    assert consumed + (dropped + [f]) == a;
  }

  lemma FilesKept(s: State, a: Action)
    requires Inv(s) && Apply(s, a).Some?
    ensures var t := Apply(s, a).value; Numbered(AllFiles(t), t.published)
  {
    var t := Apply(s, a).value;
    if s.queue.None? && t.queue.Some? {
      assert AllFiles(s) == s.consumed + s.dropped;
      assert AllFiles(t) == AllFiles(s) + [t.queue.value];
      NumberedAppend(AllFiles(s), t.queue.value);
    } else if s.queue.Some? && t.queue.None? {
      NumberedMove(s.consumed, s.dropped, s.queue.value, s.published);
      assert AllFiles(t) == t.consumed + t.dropped;
    } else {
      assert AllFiles(t) == AllFiles(s);
    }
  }

  lemma InvKept(s: State, a: Action)
    requires Inv(s) && Apply(s, a).Some?
    ensures Inv(Apply(s, a).value)
  {
    hide Numbered, AllFiles, ValidateJob;
    FilesKept(s, a);
    var t := Apply(s, a).value;
    if a.Step? { assert ProcessSound(s, a.pid); }
    forall pid | pid in t.processes ensures ProcessSound(t, pid) {
      if pid in s.processes { ProcessKept(s, a, pid); } else { assert a.Spawn? && a.pid == pid; }
    }
  }

  lemma ProcessKept(s: State, a: Action, pid: nat)
    requires Apply(s, a).Some? && pid in s.processes && ProcessSound(s, pid)
    requires a.Step? && a.pid in s.processes ==> ProcessSound(s, a.pid)
    ensures pid in Apply(s, a).value.processes && ProcessSound(Apply(s, a).value, pid)
  {
    hide ValidateJob;
    if a.Step? && a.pid != pid { StepElsewhere(s, a.pid, a.fault, pid); }
  }

  /** A step of another process leaves this one as it is, and the queue too unless that process holds the lock. */
  lemma StepElsewhere(s: State, other: nat, fault: bool, pid: nat)
    requires other in s.processes && pid in s.processes && pid != other && ProcessSound(s, pid) && ProcessSound(s, other)
    ensures var t := Stepped(s, other, fault);
            && pid in t.processes && t.processes[pid] == s.processes[pid] && t.spawned == s.spawned
            && (t.queue == s.queue || s.lock == Some(other)) && s.consumed <= t.consumed
            && (t.lock == s.lock || s.lock == Some(other) || s.lock.None?)
            && (s.lock.None? ==> t.lock.None? || t.lock == Some(other))
            && (t.lock.Some? ==> t.lock == s.lock || t.lock == Some(other))
  {
    hide ValidateJob, ValidFile;
  }

  /** Every reachable state is sound. */
  lemma {:induction false} Reachable(s: State, actions: seq<Action>)
    requires Initial(s)
    ensures Inv(After(s, actions))
  {
    if actions != [] {
      var before := After(s, actions[..|actions| - 1]);
      Reachable(s, actions[..|actions| - 1]);
      if Apply(before, actions[|actions| - 1]).Some? { InvKept(before, actions[|actions| - 1]); }
    }
  }

  // ---- The promises ----

  /** At most one installer is past the lock. */
  lemma OneWorker(s: State, actions: seq<Action>, p: nat, q: nat)
    requires Initial(s)
    requires var t := After(s, actions);
             p in t.processes && q in t.processes && PastLock(t.processes[p]) && PastLock(t.processes[q])
    ensures p == q
  {
    Reachable(s, actions);
    var t := After(s, actions);
    assert ProcessSound(t, p) && ProcessSound(t, q);
  }

  /** No file is taken twice, or taken and dropped; what runs from the queue was taken from it. */
  lemma ConsumedOnce(s: State, actions: seq<Action>)
    requires Initial(s)
    ensures var t := After(s, actions);
            && (forall i, j :: 0 <= i < j < |t.consumed| ==> t.consumed[i].id != t.consumed[j].id)
            && (forall f, g :: f in t.consumed && g in t.dropped ==> f.id != g.id)
            && (forall f :: f in t.consumed + t.dropped ==> t.queue.Some? ==> t.queue.value.id != f.id)
            && (forall pid :: pid in t.processes && t.processes[pid].Running? && t.processes[pid].source.Some? ==>
                                t.processes[pid].source.value in t.consumed && t.processes[pid].source.value.content == Some(t.processes[pid].job))
            && |t.consumed| + |t.dropped| + (if t.queue.Some? then 1 else 0) == t.published
  {
    Reachable(s, actions);
    var t := After(s, actions);
    var all := AllFiles(t);
    assert forall i :: 0 <= i < |t.consumed| ==> all[i] == t.consumed[i];
    assert forall i :: 0 <= i < |t.dropped| ==> all[|t.consumed| + i] == t.dropped[i];
    if t.queue.Some? { assert all[t.published - 1] == t.queue.value; }
    forall pid | pid in t.processes ensures ProcessSound(t, pid) { }
  }

  /**
   A queued file stays until a process that was started as a queue worker
   takes exactly the file it validated or discards it; no publisher replaces
   it and no process started with a job of its own removes it.
   */
  lemma QueuedStays(s: State, actions: seq<Action>, a: Action)
    requires Initial(s) && After(s, actions).queue.Some? && Apply(After(s, actions), a).Some?
    ensures var b := After(s, actions);
            var t := Apply(b, a).value;
            || (t.queue == b.queue && t.consumed == b.consumed && t.dropped == b.dropped)
            || (t.queue.None? && a.Step? && a.pid in b.processes && a.pid in b.spawned && b.spawned[a.pid] == None
                && ((b.processes[a.pid] == Accepted(b.queue.value) && t.consumed == b.consumed + [b.queue.value] && t.dropped == b.dropped
                     && t.processes[a.pid] == Running(b.queue.value.content.value, b.queue))
                    || (b.processes[a.pid].Rejecting? && t.dropped == b.dropped + [b.queue.value] && t.consumed == b.consumed)))
  {
    Reachable(s, actions);
    var b := After(s, actions);
    if a.Step? { assert ProcessSound(b, a.pid); }
  }

  // ---- When a confirmed job can be lost ----

  /** No system call failed and no worker opened an absent queue file. */
  predicate Smooth(s: State, actions: seq<Action>) {
    actions != [] ==>
      var init, last := actions[..|actions| - 1], actions[|actions| - 1];
      && Smooth(s, init)
      && (last.Step? ==> !last.fault && !Misses(After(s, init), last.pid))
  }

  /** The next step of the worker looks for a queue file that is not there. */
  predicate Misses(s: State, pid: nat) {
    pid in s.processes && s.processes[pid] == Locked(None) && s.queue.None?
  }

  /** Only what is no job is being or has been thrown away. */
  ghost predicate Careful(s: State) {
    && (forall pid :: pid in s.processes && s.processes[pid].Rejecting? ==>
                        s.processes[pid].seen.Some? && !ValidFile(s.processes[pid].seen.value))
    && forall f <- s.dropped :: !ValidFile(f)
  }

  lemma CarefulKept(s: State, a: Action)
    requires Inv(s) && Careful(s) && Apply(s, a).Some?
    requires a.Step? ==> !a.fault && !Misses(s, a.pid)
    ensures Careful(Apply(s, a).value)
  {
    if a.Step? { assert ProcessSound(s, a.pid); }
  }

  lemma {:induction false} SmoothRejects(s: State, actions: seq<Action>)
    requires Initial(s) && Smooth(s, actions)
    ensures Careful(After(s, actions))
  {
    if actions != [] {
      var init, last := actions[..|actions| - 1], actions[|actions| - 1];
      SmoothRejects(s, init);
      Reachable(s, init);
      if Apply(After(s, init), last).Some? { CarefulKept(After(s, init), last); }
    }
  }

  /** Without faults and misses every valid file is queued or taken, never dropped. */
  lemma NothingLost(s: State, actions: seq<Action>, f: File)
    requires Initial(s) && Smooth(s, actions) && f in AllFiles(After(s, actions)) && ValidFile(f)
    ensures var t := After(s, actions); f in t.consumed || t.queue == Some(f)
  {
    SmoothRejects(s, actions);
  }

  /** The action at `k` is the cleaning step of a rejecting worker that finds `f` queued. */
  predicate DropsAt(s: State, actions: seq<Action>, k: nat, f: File)
    requires k < |actions|
  {
    var before := After(s, actions[..k]);
    && actions[k].Step? && !actions[k].fault
    && actions[k].pid in before.processes && before.processes[actions[k].pid].Rejecting?
    && before.queue == Some(f)
  }

  lemma DropStep(s: State, a: Action, f: File)
    ensures var t := if Apply(s, a).Some? then Apply(s, a).value else s;
            f in t.dropped <==>
              f in s.dropped
              || (a.Step? && !a.fault && a.pid in s.processes && s.processes[a.pid].Rejecting? && s.queue == Some(f))
  {
  }

  /** A file is dropped exactly by a cleaning step that finds it queued. */
  lemma {:induction false} DroppedExactly(s: State, actions: seq<Action>, f: File)
    requires s.dropped == []
    ensures f in After(s, actions).dropped <==> exists k: nat :: k < |actions| && DropsAt(s, actions, k, f)
  {
    if actions != [] {
      var n := |actions| - 1;
      var init := actions[..n];
      DroppedExactly(s, init, f);
      DropStep(After(s, init), actions[n], f);
      forall k: nat | k < n ensures DropsAt(s, init, k, f) <==> DropsAt(s, actions, k, f) {
        assert init[..k] == actions[..k];
      }
      assert f in After(s, actions).dropped <==> f in After(s, init).dropped || DropsAt(s, actions, n, f);
    }
  }

  /** The action at `j` made the worker reject: its call failed, it found no file, or the file it opened was no job. */
  predicate RejectsAt(s: State, actions: seq<Action>, j: nat, pid: nat)
    requires j < |actions|
  {
    var before := After(s, actions[..j]);
    && actions[j].Step? && actions[j].pid == pid && pid in before.processes
    && !before.processes[pid].Rejecting?
    && (actions[j].fault || Misses(before, pid)
        || (before.processes[pid].Opened? && !ValidFile(before.processes[pid].file)))
  }

  lemma RejectStep(s: State, a: Action, pid: nat)
    requires Inv(s) && Apply(s, a).Some?
    requires pid in Apply(s, a).value.processes && Apply(s, a).value.processes[pid].Rejecting?
    requires !(pid in s.processes && s.processes[pid].Rejecting?)
    ensures a.Step? && a.pid == pid && pid in s.processes
    ensures a.fault || Misses(s, pid) || (s.processes[pid].Opened? && !ValidFile(s.processes[pid].file))
    ensures var seen := Apply(s, a).value.processes[pid].seen;
            (seen.Some? && ValidFile(seen.value) ==> a.fault) && (seen.None? ==> a.fault || Misses(s, pid))
  {
    if a.Step? && a.pid in s.processes { assert ProcessSound(s, a.pid); }
  }

  /** Why a worker is rejecting: an earlier step of its own, and a fault if it had opened a valid file. */
  lemma {:induction false} RejectingArose(s: State, actions: seq<Action>, pid: nat) returns (j: nat)
    requires Initial(s) && pid in After(s, actions).processes && After(s, actions).processes[pid].Rejecting?
    ensures j < |actions| && RejectsAt(s, actions, j, pid)
    ensures var seen := After(s, actions).processes[pid].seen;
            seen.Some? && ValidFile(seen.value) ==> actions[j].fault
    ensures var seen := After(s, actions).processes[pid].seen;
            seen.None? ==> actions[j].fault || Misses(After(s, actions[..j]), pid)
  {
    hide Apply, Inv, Misses, ValidFile, Stepped, Initial, After;
    NotAtFirst(s, actions, pid);
    var n := |actions| - 1;
    var init := actions[..n];
    var before := After(s, init);
    AfterOne(s, init, actions[n]);
    assert init + [actions[n]] == actions;
    Reachable(s, init);
    if pid in before.processes && before.processes[pid].Rejecting? {
      j := RejectingArose(s, init, pid);
      assert init[..j] == actions[..j];
      RejectsEarlier(s, actions, n, j, pid);
      if Apply(before, actions[n]).Some? { StillRejecting(before, actions[n], pid); }
    } else {
      RejectStep(before, actions[n], pid);
      j := n;
    }
  }

  lemma NotAtFirst(s: State, actions: seq<Action>, pid: nat)
    requires Initial(s) && pid in After(s, actions).processes
    ensures actions != []
  {
  }

  lemma RejectsEarlier(s: State, actions: seq<Action>, n: nat, j: nat, pid: nat)
    requires j < n <= |actions| && RejectsAt(s, actions[..n], j, pid)
    ensures RejectsAt(s, actions, j, pid)
  {
    assert actions[..n][..j] == actions[..j];
  }

  lemma StillRejecting(s: State, a: Action, pid: nat)
    requires Apply(s, a).Some? && pid in s.processes && s.processes[pid].Rejecting?
    requires pid in Apply(s, a).value.processes && Apply(s, a).value.processes[pid].Rejecting?
    ensures Apply(s, a).value.processes[pid] == s.processes[pid]
  {
  }

  /** The step at `j` failed or found no file, and the cleaning step at `k` of the same worker finds `f`. */
  predicate LostAt(s: State, actions: seq<Action>, j: nat, k: nat, f: File)
    requires j < k < |actions|
  {
    && DropsAt(s, actions, k, f) && RejectsAt(s, actions, j, actions[k].pid)
    && (actions[j].fault || Misses(After(s, actions[..j]), actions[k].pid))
  }

  lemma DropArose(s: State, actions: seq<Action>, k: nat, f: File) returns (j: nat)
    requires Initial(s) && ValidFile(f) && k < |actions| && DropsAt(s, actions, k, f)
    ensures j < k && LostAt(s, actions, j, k, f)
  {
    var pid := actions[k].pid;
    Reachable(s, actions[..k]);
    assert ProcessSound(After(s, actions[..k]), pid);
    j := RejectingArose(s, actions[..k], pid);
    assert actions[..k][..j] == actions[..j];
  }

  /**
   A valid file is lost exactly when a worker whose call failed, or that found
   no file, comes to its cleaning step while the file is queued.
   */
  lemma LostExactly(s: State, actions: seq<Action>, f: File)
    requires Initial(s) && ValidFile(f)
    ensures f in After(s, actions).dropped <==>
              exists j: nat, k: nat :: j < k < |actions| && LostAt(s, actions, j, k, f)
  {
    DroppedExactly(s, actions, f);
    if f in After(s, actions).dropped {
      var k: nat :| k < |actions| && DropsAt(s, actions, k, f);
      var j := DropArose(s, actions, k, f);
    }
  }

  // ---- Runs that lose a job ----

  /** The machine at rest with an empty queue. */
  const Rest := State(None, 0, None, map[], map[], [], [])

  lemma AfterOne(s: State, actions: seq<Action>, a: Action)
    ensures After(s, actions + [a]) == if Apply(After(s, actions), a).Some? then Apply(After(s, actions), a).value else After(s, actions)
  {
    assert (actions + [a])[..|actions|] == actions;
  }

  /** A worker finds no file; the job published before its cleaning step is removed unrun. */
  lemma MissLoses(job: Job)
    requires ValidateJob(job).Ok?
    ensures var actions := [Spawn(0, None), Step(0, false), Step(0, false), Publish(job), Step(0, false)];
            var t := After(Rest, actions);
            && Initial(Rest) && ValidFile(File(0, Some(job)))
            && t.dropped == [File(0, Some(job))] && t.consumed == [] && t.queue.None?
            && t.processes == map[0 := Ended]
  {
    var a0: seq<Action> := [];
    var a1 := a0 + [Spawn(0, None)];
    AfterOne(Rest, a0, Spawn(0, None));
    var a2 := a1 + [Step(0, false)];
    AfterOne(Rest, a1, Step(0, false));
    var a3 := a2 + [Step(0, false)];
    AfterOne(Rest, a2, Step(0, false));
    var a4 := a3 + [Publish(job)];
    AfterOne(Rest, a3, Publish(job));
    var a5 := a4 + [Step(0, false)];
    AfterOne(Rest, a4, Step(0, false));
    assert a5 == [Spawn(0, None), Step(0, false), Step(0, false), Publish(job), Step(0, false)];
  }

  /** The worker cannot open the queued file, yet can remove it: the job is removed unrun. */
  lemma FaultLoses(job: Job)
    requires ValidateJob(job).Ok?
    ensures var actions := [Publish(job), Spawn(0, None), Step(0, false), Step(0, true), Step(0, false)];
            var t := After(Rest, actions);
            && t.dropped == [File(0, Some(job))] && t.consumed == [] && t.queue.None?
            && t.processes == map[0 := Ended]
  {
    var a0: seq<Action> := [];
    var a1 := a0 + [Publish(job)];
    AfterOne(Rest, a0, Publish(job));
    var a2 := a1 + [Spawn(0, None)];
    AfterOne(Rest, a1, Spawn(0, None));
    var a3 := a2 + [Step(0, false)];
    AfterOne(Rest, a2, Step(0, false));
    var a4 := a3 + [Step(0, true)];
    AfterOne(Rest, a3, Step(0, true));
    var a5 := a4 + [Step(0, false)];
    AfterOne(Rest, a4, Step(0, false));
    assert a5 == [Publish(job), Spawn(0, None), Step(0, false), Step(0, true), Step(0, false)];
  }

  // ---- Runs that get somewhere ----

  /** Four steps after a queue worker was started. */
  function WorkerRun(pid: nat): seq<Action> {
    [Spawn(pid, None), Step(pid, false), Step(pid, false), Step(pid, false), Step(pid, false)]
  }

  lemma AfterFive(s: State, a: Action, b: Action, c: Action, d: Action, e: Action)
    ensures After(s, [a, b, c, d, e]) == After(After(s, [a, b, c]), [d, e])
    ensures After(s, [a, b, c]) == After(After(After(s, [a]), [b]), [c])
    ensures forall t: State, x: Action, y: Action :: After(t, [x, y]) == After(After(t, [x]), [y])
  {
    AfterJoin(s, [a, b, c], [d, e]);
    AfterJoin(s, [a, b], [c]);
    AfterJoin(s, [a], [b]);
    assert [a, b, c] + [d, e] == [a, b, c, d, e] && [a, b] + [c] == [a, b, c] && [a] + [b] == [a, b];
    forall t: State, x: Action, y: Action ensures After(t, [x, y]) == After(After(t, [x]), [y]) {
      AfterJoin(t, [x], [y]);
      assert [x] + [y] == [x, y];
    }
  }

  lemma {:induction false} AfterJoin(s: State, front: seq<Action>, back: seq<Action>)
    ensures After(s, front + back) == After(After(s, front), back)
    decreases |back|
  {
    if back == [] {
      assert front + back == front;
    } else {
      var n := |back| - 1;
      AfterJoin(s, front, back[..n]);
      assert (front + back)[..|front + back| - 1] == front + back[..n];
      assert (front + back)[|front + back| - 1] == back[n];
    }
  }

  lemma AfterThis(s: State, a: Action)
    ensures After(s, [a]) == if Apply(s, a).Some? then Apply(s, a).value else s
  {
    assert [a][..0] == [];
  }

  /**
   A queue worker that is not disturbed gets its work done: it takes a valid
   file and runs exactly its job under the lock, and clears away a file that
   is no job; nothing else changes.
   */
  lemma WorkerGetsThrough(s: State, pid: nat)
    requires pid !in s.processes && s.lock.None? && s.queue.Some?
    ensures var f := s.queue.value; var t := After(s, WorkerRun(pid));
            t == if f.content.Some? && f.content.value.execute && f.content.value.releaseId >= 1 && VersionTuple(f.content.value.version).Ok?
            then s.(processes := s.processes[pid := Running(f.content.value, Some(f))], spawned := s.spawned[pid := None],
                 lock := Some(pid), queue := None, consumed := s.consumed + [f])
            else s.(processes := s.processes[pid := Ended], spawned := s.spawned[pid := None], queue := None, dropped := s.dropped + [f])
  {
    hide After, VersionTuple;
    var step := Step(pid, false);
    AfterFive(s, Spawn(pid, None), step, step, step, step);
    AfterThis(s, Spawn(pid, None));
    var s1 := After(s, [Spawn(pid, None)]);
    AfterThis(s1, step);
    var s2 := After(s1, [step]);
    AfterThis(s2, step);
    var s3 := After(s2, [step]);
    AfterThis(s3, step);
    var s4 := After(s3, [step]);
    AfterThis(s4, step);
  }

  /** Once its job is done, the worker gives the lock back. */
  lemma RunningEnds(s: State, pid: nat, fault: bool)
    requires pid in s.processes && s.processes[pid].Running?
    ensures Apply(s, Step(pid, fault)) == Some(s.(lock := None, processes := s.processes[pid := Ended]))
  {
  }

  /** An undisturbed installer with a job of its own runs exactly that job. */
  lemma InstallerGetsThrough(s: State, pid: nat, job: Job)
    requires pid !in s.processes && s.lock.None? && s.queue.None?
    requires job.execute && job.releaseId >= 1 && VersionTuple(job.version).Ok?
    ensures After(s, [Spawn(pid, Some(job)), Step(pid, false), Step(pid, false)])
            == s.(processes := s.processes[pid := Running(job, None)], spawned := s.spawned[pid := Some(job)], lock := Some(pid))
  {
    hide After, VersionTuple;
    var step := Step(pid, false);
    AfterFive(s, Spawn(pid, Some(job)), step, step, step, step);
    AfterThis(s, Spawn(pid, Some(job)));
    var s1 := After(s, [Spawn(pid, Some(job))]);
    AfterThis(s1, step);
    var s2 := After(s1, [step]);
    AfterThis(s2, step);
  }

  /** A confirmed job is queued exactly when no other one is; anything else leaves the queue as it is. */
  lemma PublishedExactly(s: State, job: Job)
    ensures Apply(s, Publish(job)) == Some(
              if s.queue.None? && job.execute && job.releaseId >= 1 && VersionTuple(job.version).Ok?
              then s.(queue := Some(File(s.published, Some(job))), published := s.published + 1) else s)
  {
  }

  /** Whoever finds the lock taken, or a job queued before its own, ends without a trace. */
  lemma TurnedAway(s: State, pid: nat, fault: bool)
    requires pid in s.processes
    requires (s.processes[pid].Started? && s.lock.Some?) || (s.processes[pid].Locked? && s.processes[pid].cli.Some? && s.queue.Some?)
    ensures var t := Apply(s, Step(pid, fault)).value;
            t == s.(processes := s.processes[pid := Ended], lock := if s.processes[pid].Started? then s.lock else None)
  {
  }
}
