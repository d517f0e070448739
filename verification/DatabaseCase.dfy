/**
 The repair worker that makes MySQL's table lookup case-insensitive
 (src/cmnd_linux/database_case.py), with any command allowed to fail.
 */
module DatabaseCase {
  // ---- Identifiers ----

  predicate IsLowerNameChar(c: char) { 'a' <= c <= 'z' || '0' <= c <= '9' || c == '_' || c == '$' }

  predicate IsLowerName(s: string) { s != "" && forall i :: 0 <= i < |s| ==> IsLowerNameChar(s[i]) }

  /** Lower case of an ASCII letter. */
  function LowerChar(c: char): char { if 'A' <= c <= 'Z' then c - 'A' + 'a' else c }

  function Lower(s: string): (r: string)
    ensures |r| == |s| && forall i :: 0 <= i < |s| ==> r[i] == LowerChar(s[i])
  {
    seq(|s|, i requires 0 <= i < |s| => LowerChar(s[i]))
  }

  function LowerAll(names: seq<string>): (r: seq<string>)
    ensures |r| == |names| && forall i :: 0 <= i < |names| ==> r[i] == Lower(names[i])
  {
    seq(|names|, i requires 0 <= i < |names| => Lower(names[i]))
  }

  predicate Distinct<T(==)>(s: seq<T>) { forall i, j :: 0 <= i < j < |s| ==> s[i] != s[j] }

  predicate ValidIdentifiers(schemas: seq<string>, tables: seq<seq<string>>) {
    && (schemas != [] || exists t <- tables :: t != [])
    && (forall s <- schemas :: IsLowerName(s))
    && (forall t <- tables :: forall n <- t :: IsLowerName(n))
    && Distinct(schemas) && Distinct(tables)
  }

  lemma LowerFixed(s: string)
    requires IsLowerName(s)
    ensures Lower(s) == s
  {
    forall i | 0 <= i < |s| ensures Lower(s)[i] == s[i] { assert IsLowerNameChar(s[i]); }
  }

  /** No two accepted schemas, and no two accepted tables, become one name when case is ignored. */
  lemma NothingMerges(schemas: seq<string>, tables: seq<seq<string>>)
    requires ValidIdentifiers(schemas, tables)
    ensures Distinct(LowerAll(schemas))
    ensures forall i, j :: 0 <= i < j < |tables| ==> LowerAll(tables[i]) != LowerAll(tables[j])
    ensures LowerAll(schemas) == schemas && forall t <- tables :: LowerAll(t) == t
  {
    forall s | IsLowerName(s) ensures Lower(s) == s { LowerFixed(s); }
    assert LowerAll(schemas) == schemas;
    forall t | t in tables ensures LowerAll(t) == t {
      forall i | 0 <= i < |t| ensures LowerAll(t)[i] == t[i] { assert t[i] in t; }
    }
  }

  // ---- The machine ----

  /** The setting's file in the container; an interrupted copy may leave part of it. */
  datatype Setting = Absent | Enabled | Disabled | Garbled

  /** The database files: the row counts of the package tables and everything else. */
  datatype Data = Data(counts: int, rest: int)

  datatype Writer = UpdatePath | Admin | Apache | Tomcat | Php

  /** A cold copy: what was archived, whether it was listed, whether the database was stopped, and the counts before. */
  datatype Backup = Backup(archive: Data, listed: bool, cold: bool, before: int)

  datatype Event =
    | Enabling(backup: Backup, data: Data, running: bool)
    | Starting(mode: int, counts: int, writers: set<Writer>)

  /** `enablings` counts the enabling files copied successfully. */
  datatype World = World(setting: Setting, running: bool, mode: int, data: Data, writers: set<Writer>,
                         backups: seq<Backup>, enablings: nat, log: seq<Event>)

  datatype Outcome = Refused | AlreadyCompatible | Planned | Repaired | RolledBack | UndoFailed | StartFailed

  // ---- Steps; each may fail ----

  /** The checks, commands and queries of a run in the program's order, and those of the way back. */
  datatype Step =
    | Audit | ProbeSetting | Prepare
    | StopServices | CountBefore | StopDatabase | Archive | ListArchive | WriteRecords
    | CopyEnabling | StartAgain | ReadMode | ReadCounts | RunStatements
    | StopForUndo | CopyDisabling | StartForUndo
    | StartServices

  const COPYING: set<Step> := {CountBefore, StopDatabase, Archive, ListArchive, WriteRecords}

  const ENABLING: set<Step> := {CopyEnabling, StartAgain, ReadMode, ReadCounts, RunStatements}

  const UNDOING: set<Step> := {StopForUndo, CopyDisabling, StartForUndo}

  /**
   What is not the program's doing: the active services that are reported
   inactive, whether a database told to stop does, and the mode and the counts
   it has when it runs again.
   */
  datatype Machine = Machine(missed: set<Writer>, stops: bool, mode: int, counts: int)

  method StopWriters(w: World, names: set<Writer>, ok: bool) returns (r: World)
    ensures r == w.(writers := r.writers, data := r.data)
    ensures w.writers - names <= r.writers <= w.writers && (ok ==> r.writers == w.writers - names)
  {
    var some: set<Writer> := *;
    var data: Data := *;
    r := w.(writers := if ok then w.writers - names else w.writers - (names * some), data := data);
  }

  method StartWriters(w: World, names: set<Writer>, ok: bool) returns (r: World)
    ensures r == w.(writers := r.writers, data := r.data, log := w.log + [Starting(w.mode, w.data.counts, names)])
    ensures w.writers <= r.writers <= w.writers + names && (ok ==> r.writers == w.writers + names)
  {
    var some: set<Writer> := *;
    var data: Data := *;
    r := w.(writers := w.writers + (if ok then names else names * some), data := data,
    log := w.log + [Starting(w.mode, w.data.counts, names)]);
  }

  /** A stop that fails may have stopped the database all the same. */
  method HaltDatabase(w: World, ok: bool, stops: bool) returns (r: World)
    ensures r == w.(running := r.running, data := r.data)
    ensures ok ==> r.running == !stops
  {
    var running: bool := *;
    var data: Data := *;
    r := w.(running := if ok then !stops else running, data := data);
  }

  /** Start the database and wait until it answers. */
  method StartDatabase(w: World, ok: bool, m: Machine) returns (r: World)
    ensures r == w.(running := r.running, mode := r.mode, data := r.data)
    ensures ok ==> r.running && r.mode == m.mode && r.data.counts == m.counts
  {
    var running: bool := *;
    var mode: int := *;
    var data: Data := *;
    r := w.(running := ok || running, mode := if ok then m.mode else mode, data := if ok then data.(counts := m.counts) else data);
  }

  /** Copy a setting into the container. */
  method CopySetting(w: World, setting: Setting, ok: bool) returns (r: World)
    ensures r == w.(setting := r.setting)
    ensures ok ==> r.setting == setting
    ensures r.setting == w.setting || r.setting == setting || r.setting == Garbled
  {
    var copied, garbled: bool := *, *;
    r := w.(setting := if ok || copied then setting else if garbled then Garbled else w.setting);
  }

  // ---- The repair ----

  /** The services stop, and the database is stopped and copied; the copy is listed. */
  method ColdBackup(w0: World, active: set<Writer>, m: Machine, fails: set<Step>) returns (ok: bool, before: int, w: World)
    ensures ok <==> (active == {} || StopServices !in fails) && fails !! COPYING && m.stops
    ensures w == w0.(running := w.running, data := w.data, writers := w.writers, backups := w.backups)
    ensures w0.writers - active <= w.writers <= w0.writers
    ensures w0.backups <= w.backups
    ensures ok ==> !w.running && w.writers == w0.writers - active
    ensures ok ==> w.backups == w0.backups + [Backup(w.data, true, true, before)]
  {
    ok, before, w := false, 0, w0;
    if active != {} {
      w := StopWriters(w, active, StopServices !in fails);
      if StopServices in fails { return; }
    }
    if CountBefore in fails { return; }
    before := w.data.counts;
    w := HaltDatabase(w, StopDatabase !in fails, m.stops);
    if StopDatabase in fails || w.running || Archive in fails { return; }
    w := w.(backups := w.backups + [Backup(w.data, false, !w.running, before)]);
    if ListArchive in fails { return; }
    w := w.(backups := w0.backups + [Backup(w.data, true, !w.running, before)]);
    ok := WriteRecords !in fails;
  }

  /** Enable the setting and look at what the restarted database says. */
  method Enable(w0: World, before: int, backup: Backup, m: Machine, fails: set<Step>) returns (ok: bool, w: World)
    ensures ok <==> fails !! ENABLING && m.mode == 1 && m.counts == before
    ensures w == w0.(setting := w.setting, running := w.running, mode := w.mode, data := w.data, enablings := w.enablings,
                     log := w0.log + [Enabling(backup, w0.data, w0.running)])
    ensures w.enablings == w0.enablings || (w.enablings == w0.enablings + 1 && w.setting == Enabled)
    ensures ok ==> w.enablings == w0.enablings + 1
    ensures ok ==> w.setting == Enabled && w.running && w.mode == 1 && w.data.counts == before
  {
    ok := false;
    w := w0.(log := w0.log + [Enabling(backup, w0.data, w0.running)]);
    w := CopySetting(w, Enabled, CopyEnabling !in fails);
    if CopyEnabling in fails { return; }
    w := w.(enablings := w.enablings + 1);
    w := StartDatabase(w, StartAgain !in fails, m);
    if StartAgain in fails || ReadMode in fails || w.mode != 1 { return; }
    if ReadCounts in fails || w.data.counts != before { return; }
    ok := RunStatements !in fails;  // the mixed-case statements and the success record
  }

  /** The way back: the disabling file if the setting was touched, and the database alone. */
  method Undo(w0: World, changed: bool, m: Machine, fails: set<Step>) returns (ok: bool, w: World)
    ensures ok <==> fails !! if changed then UNDOING else {StartForUndo}
    ensures w == w0.(setting := w.setting, running := w.running, mode := w.mode, data := w.data)
    ensures ok ==> w.running && w.setting == if changed then Disabled else w0.setting
    ensures w.setting == w0.setting || w.setting == Disabled || w.setting == Garbled
  {
    ok, w := false, w0;
    if changed {
      w := HaltDatabase(w, StopForUndo !in fails, m.stops);
      if StopForUndo in fails { return; }
      w := CopySetting(w, Disabled, CopyDisabling !in fails);
      if CopyDisabling in fails { return; }
    }
    ok := StartForUndo !in fails;
    w := StartDatabase(w, ok, m);
  }

  /** The setting was touched only with the database stopped and a listed copy of exactly its files. */
  ghost predicate BackedUp(e: Event, backups: seq<Backup>)
    requires e.Enabling?
  {
    e.backup in backups && e.backup.listed && e.backup.cold && !e.running && e.backup.archive == e.data
  }

  /** What a run may do, by its outcome. */
  ghost predicate Ran(w0: World, execute: bool, o: Outcome, w: World) {
    if o.Refused? || o.AlreadyCompatible? || o.Planned? then w == w0 && (o.AlreadyCompatible? ==> w0.mode == 1)
    else
      && execute && w0.setting == Absent && w0.mode == 0
      && w0.backups <= w.backups && w0.log <= w.log
      && w.enablings <= w0.enablings + 1 && (w.enablings > w0.enablings ==> w.setting != Absent)
      && (o.RolledBack? ==> w.setting in {Absent, Disabled} && w.running)
      && (o.RolledBack? && |w.log| > |w0.log| ==> w.setting == Disabled)
      && (o.RolledBack? || o.UndoFailed? ==> w.writers <= w0.writers)
      && (o.RolledBack? || o.UndoFailed? ==> w.log == w0.log || (|w.log| == |w0.log| + 1 && w.log[|w0.log|].Enabling?))
      && (o.Repaired? || o.StartFailed? ==> w.setting == Enabled && w.mode == 1 && w.enablings == w0.enablings + 1)
      && (o.Repaired? || o.StartFailed? ==> |w.log| >= |w0.log| + 1 && w.writers <= w0.writers)
      && (o.Repaired? ==> w.writers == w0.writers)
      && (|w.log| > |w0.log| ==> w.log[|w0.log|].Enabling? && BackedUp(w.log[|w0.log|], w.backups))
      && (|w.log| > |w0.log| + 1 ==>
            && |w.log| == |w0.log| + 2 && w.log[|w0.log| + 1].Starting?
            && w.log[|w0.log| + 1].mode == 1 && w.log[|w0.log| + 1].counts == w.log[|w0.log|].backup.before)
  }

  /** Which outcome a run has: exactly what it finds and what fails decides. */
  ghost predicate Decided(w0: World, execute: bool, conflicting: bool, m: Machine, fails: set<Step>, o: Outcome, w: World) {
    if Audit in fails then o == Refused
    else if w0.mode == 1 then o == AlreadyCompatible
    else if w0.mode != 0 || conflicting || ProbeSetting in fails || w0.setting != Absent then o == Refused
    else if !execute then o == Planned
    else if Prepare in fails then o == Refused
    else
      var active := w0.writers - m.missed;
      var copied := (active == {} || StopServices !in fails) && fails !! COPYING && m.stops;
      if copied && fails !! ENABLING && m.mode == 1 && |w.backups| > 0 && m.counts == w.backups[|w.backups| - 1].before
      then o == if active != {} && StartServices in fails then StartFailed else Repaired
      else o == if fails !! (if copied then UNDOING else {StartForUndo}) then RolledBack else UndoFailed
  }

  /** One run, where the steps in `fails` fail; `conflicting` says that the container's command line already sets the option. */
  method Repair(w0: World, execute: bool, conflicting: bool, m: Machine, fails: set<Step>) returns (o: Outcome, w: World)
    ensures Ran(w0, execute, o, w)
    ensures Decided(w0, execute, conflicting, m, fails, o, w)
    ensures o.Planned? ==> !execute
    ensures o.AlreadyCompatible? ==> w0.mode == 1
    ensures conflicting ==> o.Refused? || o.AlreadyCompatible?
  {
    w := w0;
    if Audit in fails { return Refused, w; }  // configuration, root, lock, container, version, identifiers, counts
    if w.mode == 1 { return AlreadyCompatible, w; }
    if w.mode != 0 || conflicting { return Refused, w; }
    if ProbeSetting in fails || w.setting != Absent { return Refused, w; }
    if !execute { return Planned, w; }
    if Prepare in fails { return Refused, w; }  // paths, free space, backup directory
    var active := w.writers - m.missed;
    var changed := false;
    var ok, before;
    ok, before, w := ColdBackup(w, active, m, fails);
    if ok {
      changed := true;
      ok, w := Enable(w, before, w.backups[|w.backups| - 1], m, fails);
    }
    if !ok {
      ok, w := Undo(w, changed, m, fails);
      return if ok then RolledBack else UndoFailed, w;
    }
    if active != {} {
      ok := StartServices !in fails;
      w := StartWriters(w, active, ok);
    }
    o := if ok then Repaired else StartFailed;
  }

  // ---- Any sequence of runs ----

  datatype Run = Run(before: World, execute: bool, outcome: Outcome, after: World)

  /** Between runs the database and its writers go on; the setting's file and the backups stay. */
  ghost predicate Drifted(a: World, b: World) {
    b == a.(running := b.running, mode := b.mode, data := b.data, writers := b.writers)
  }

  ghost predicate History(runs: seq<Run>) {
    && (forall i :: 0 <= i < |runs| ==> Ran(runs[i].before, runs[i].execute, runs[i].outcome, runs[i].after))
    && (forall i, j :: 0 <= i && j == i + 1 && j < |runs| ==> Drifted(runs[i].after, runs[j].before))
  }

  /** The entry touched the setting with a backup, or started writers after a verified repair. */
  ghost predicate SafeEvent(w: World, k: nat)
    requires k < |w.log|
  {
    match w.log[k]
    case Enabling(_, _, _) => BackedUp(w.log[k], w.backups)
    case Starting(mode, counts, _) => mode == 1 && k > 0 && w.log[k - 1].Enabling? && counts == w.log[k - 1].backup.before
  }

  ghost predicate Safe(w: World) {
    && w.enablings <= 1 && (w.enablings == 1 ==> w.setting != Absent)
    && forall k: nat :: k < |w.log| ==> SafeEvent(w, k)
  }

  lemma RunSafe(r: Run)
    requires Ran(r.before, r.execute, r.outcome, r.after) && Safe(r.before)
    ensures Safe(r.after)
  {
    forall k: nat | k < |r.after.log| ensures SafeEvent(r.after, k) {
      if k < |r.before.log| { assert SafeEvent(r.before, k); }
    }
  }

  /**
   Over every sequence of runs the enabling file is copied successfully at
   most once, the setting is touched only with a listed cold copy, and
   writers are started only after mode 1 and unchanged counts were read.
   */
  lemma {:induction false} EveryRunSafe(runs: seq<Run>)
    requires History(runs) && runs != [] && Safe(runs[0].before)
    ensures Safe(runs[|runs| - 1].after)
  {
    var n := |runs| - 1;
    if n > 0 {
      EveryRunSafe(runs[..n]);
      var a, b := runs[n - 1].after, runs[n].before;
      assert Drifted(a, b);
      forall k: nat | k < |b.log| ensures SafeEvent(b, k) { assert SafeEvent(a, k); }
    }
    RunSafe(runs[n]);
  }

  /** After a touched setting no later run touches it again, unless an undo failed. */
  lemma {:induction false} TouchedOnce(runs: seq<Run>, i: nat, j: nat)
    requires History(runs) && i < j < |runs|
    requires |runs[i].after.log| > |runs[i].before.log|
    requires forall k :: i <= k < j ==> !runs[k].outcome.UndoFailed?
    ensures runs[j].before.setting != Absent && runs[j].after == runs[j].before
    decreases j - i
  {
    if i + 1 < j { TouchedOnce(runs, i, j - 1); }
    assert Drifted(runs[j - 1].after, runs[j].before);
  }
}
