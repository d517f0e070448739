/** What any sequence of update attempts keeps (src/cmnd_linux/updates.py). */
module UpdateHistory {
  import opened Wrappers
  import opened Releases
  import opened UpdateWorker

  datatype Run = Run(before: World, job: Job, current: Version, outcome: Outcome, after: World)

  /**
   Between two attempts services may stop, start and write, the management
   page may restart from the installed code, and a malformed job may be
   rejected; package, baseline and kept files stay.
   */
  ghost predicate Drifted(a: World, b: World) {
    && b == a.(running := b.running, admin := b.admin, ready := b.ready, configuration := b.configuration, database := b.database, status := b.status)
    && (b.status == a.status || b.status == Failed(false, false))
    && (b.admin.Some? ==> b.admin.value == a.installed || b.admin == a.admin)
  }

  /** Each attempt starts from what the one before left, and runs the installed code. */
  ghost predicate History(runs: seq<Run>) {
    && (forall i :: 0 <= i < |runs| ==> Ran(runs[i].before, runs[i].job, runs[i].current, runs[i].outcome, runs[i].after))
    && (forall i :: 0 <= i < |runs| && runs[i].before.installed.Intact? ==> runs[i].current == runs[i].before.installed.version)
    && (forall i, j :: 0 <= i && j == i + 1 && j < |runs| ==> Drifted(runs[i].after, runs[j].before))
  }

  lemma HistoryInit(runs: seq<Run>)
    requires History(runs) && runs != []
    ensures History(runs[..|runs| - 1])
  {
  }

  // ---- Nothing is installed without a way back ----

  /** The entry installs a version everything is kept for, or goes back from the entry just before it. */
  ghost predicate SafeEntry(log: seq<Entry>, k: nat)
    requires k < |log|
  {
    && log[k].attempt.previous.Some?
    && var previous := log[k].attempt.previous.value;
       || Backed(log[k], previous)
       || (k > 0 && log[k].package == previous && log[k - 1].attempt == log[k].attempt && Backed(log[k - 1], previous))
  }

  ghost predicate SafeLog(log: seq<Entry>) {
    forall k: nat :: k < |log| ==> SafeEntry(log, k)
  }

  lemma RunSafe(r: Run)
    requires Ran(r.before, r.job, r.current, r.outcome, r.after) && SafeLog(r.before.log)
    ensures SafeLog(r.after.log)
    ensures r.before.log <= r.after.log && r.before.kept <= r.after.kept
  {
    forall k: nat | k < |r.after.log| ensures SafeEntry(r.after.log, k) {
      if k < |r.before.log| { assert SafeEntry(r.before.log, k); }
    }
  }

  /**
   Whatever fails in whichever attempts: every package installation ever
   started was of a newer version with the previous package, the
   configuration and the complete databases kept, or was the way back from
   such an installation; and kept files stay kept.
   */
  lemma {:induction false} EveryInstallationBacked(runs: seq<Run>)
    requires History(runs) && runs != [] && SafeLog(runs[0].before.log)
    ensures SafeLog(runs[|runs| - 1].after.log)
    ensures runs[0].before.log <= runs[|runs| - 1].after.log && runs[0].before.kept <= runs[|runs| - 1].after.kept
  {
    var n := |runs| - 1;
    if n > 0 {
      HistoryInit(runs);
      EveryInstallationBacked(runs[..n]);
      assert Drifted(runs[n - 1].after, runs[n].before);
    }
    RunSafe(runs[n]);
  }

  // ---- Runs that end well ----

  /** The attempt completed, recovered, or failed before the services were touched. */
  predicate EndedWell(o: Outcome) {
    o.Abandoned? && o.stopped ==> o.recovered
  }

  /** Installed code, management page and baseline agree. */
  ghost predicate Consistent(w: World, version: Version) {
    && w.installed == Intact(version) && w.baseline == Some(version)
    && (w.admin.Some? ==> w.admin.value == Intact(version))
  }

  /** The version after an attempt. */
  function After(r: Run): Version {
    if r.outcome.Completed? && VersionTuple(r.job.version).Ok? then VersionTuple(r.job.version).value else r.current
  }

  lemma RunConsistent(r: Run)
    requires Ran(r.before, r.job, r.current, r.outcome, r.after) && EndedWell(r.outcome)
    requires Consistent(r.before, r.current)
    ensures Consistent(r.after, After(r))
    ensures if r.outcome.Completed? then Less(r.current, After(r)) else After(r) == r.current
    ensures r.outcome.Completed? || (r.outcome.Abandoned? && r.outcome.recovered) ==> r.after.ready && r.after.running == ALL
  {
  }

  /** One attempt of the history: it starts and ends with agreeing versions. */
  ghost predicate Steady(r: Run) {
    Consistent(r.before, r.current) && Consistent(r.after, After(r))
  }

  lemma {:induction false} AllSteady(runs: seq<Run>, i: nat)
    requires History(runs) && i < |runs| && Consistent(runs[0].before, runs[0].current)
    requires forall k :: 0 <= k < |runs| ==> EndedWell(runs[k].outcome)
    ensures Steady(runs[i]) && (i > 0 ==> runs[i].current == After(runs[i - 1]))
  {
    if i > 0 {
      AllSteady(runs, i - 1);
      assert Drifted(runs[i - 1].after, runs[i].before);
    }
    RunConsistent(runs[i]);
  }

  /**
   While every attempt ends well, installed version, management
   page and baseline agree before and after each, and the version never goes back; it
   grows with every completed attempt.
   */
  lemma {:induction false} VersionsAdvance(runs: seq<Run>, i: nat, j: nat)
    requires History(runs) && i <= j < |runs| && Consistent(runs[0].before, runs[0].current)
    requires forall k :: 0 <= k < |runs| ==> EndedWell(runs[k].outcome)
    ensures Steady(runs[i]) && Steady(runs[j])
    ensures !Less(After(runs[j]), runs[i].current)
    ensures runs[i].outcome.Completed? ==> Less(runs[i].current, After(runs[j]))
    decreases j - i
  {
    AllSteady(runs, i);
    AllSteady(runs, j);
    RunConsistent(runs[j]);
    if i < j {
      VersionsAdvance(runs, i, j - 1);
      LessTotal(runs[i].current, runs[j].current, After(runs[j]));
    }
  }

  /** A status the attempt itself wrote tells the truth about the machine. */
  lemma StatusTruthful(r: Run)
    requires Ran(r.before, r.job, r.current, r.outcome, r.after) && r.after.status != r.before.status
    ensures r.after.status.Complete? ==>
              VersionTuple(r.after.status.version).Ok? && Runs(r.after, VersionTuple(r.after.status.version).value) && r.outcome.Completed?
    ensures r.after.status.Failed? && r.after.status.backupRetained ==>
              r.after.attempt.dump.Some? && r.after.attempt.compressed == r.after.attempt.dump
    ensures r.after.status.Failed? && r.after.status.recovered ==>
              r.after.ready && (Consistent(r.before, r.current) ==> Consistent(r.after, r.current))
  {
  }

  /** A status that says `complete` names the version that is installed and kept as the baseline. */
  ghost predicate Truthful(w: World) {
    w.status.Complete? ==>
      VersionTuple(w.status.version).Ok? && Consistent(w, VersionTuple(w.status.version).value)
  }

  /**
   However attempts fail, and even where writing the status fails: a status
   `complete` that can be read at any later time is still true.
   */
  lemma {:induction false} CompleteStaysTrue(runs: seq<Run>)
    requires History(runs) && runs != [] && Truthful(runs[0].before)
    ensures Truthful(runs[|runs| - 1].after)
  {
    hide Ran, Truthful, Drifted;
    var n := |runs| - 1;
    if n > 0 {
      HistoryInit(runs);
      CompleteStaysTrue(runs[..n]);
      assert Drifted(runs[n - 1].after, runs[n].before);
      DriftTruthful(runs[n - 1].after, runs[n].before);
    }
    RunTruthful(runs[n]);
  }

  lemma DriftTruthful(a: World, b: World)
    requires Drifted(a, b) && Truthful(a)
    ensures Truthful(b)
  {
  }

  lemma RunTruthful(r: Run)
    requires Ran(r.before, r.job, r.current, r.outcome, r.after) && Truthful(r.before)
    ensures Truthful(r.after)
  {
  }
}
