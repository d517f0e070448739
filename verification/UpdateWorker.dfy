/** One attempt of the update worker (src/cmnd_linux/updates.py). */
module UpdateWorker {
  import opened Wrappers
  import opened Releases

  // ---- The machine ----

  /** The installed code; a failed package installation may leave part of another version. */
  datatype Code = Intact(version: Version) | Broken

  datatype Service = Tomcat | Apache | Php

  /** The private files of one attempt; an interrupted file counts as not kept. */
  datatype Attempt = Attempt(previous: Option<Version>, configuration: Option<int>, dump: Option<int>, compressed: Option<int>)

  datatype Status =
    | Idle
    | Verifying(version: string)
    | BackingUp(version: string)
    | Installing(version: string)
    | Complete(version: string, backupRetained: bool)
    | Failed(recovered: bool, backupRetained: bool)

  /** A package installation that was started: what was kept and what the databases held at that moment. */
  datatype Entry = Entry(package: Version, attempt: Attempt, configuration: int, database: int, running: set<Service>)

  /**
   Configuration and databases are known by their state alone.  `running` has
   the services that run, `admin` the code of the management page if it runs;
   `reloaded` says that systemd was reloaded after the last installation,
   `ready` that readiness was verified and nothing was stopped, started or
   installed since.
   */
  datatype World = World(
    installed: Code, baseline: Option<Version>, reloaded: bool, running: set<Service>, admin: Option<Code>,
    ready: bool, configuration: int, database: int, status: Status, attempt: Attempt, kept: seq<Attempt>, log: seq<Entry>)

  const ALL: set<Service> := {Tomcat, Apache, Php}

  /** What the network answers and the machine's settings, as this attempt sees them. */
  datatype Feed = Feed(enabled: bool, channel: string, releases: seq<Release>, manifest: Manifest, vendor: string,
                       package: string, architecture: string, version: string)

  // ---- Steps; each may fail ----

  /** The commands, writes and checks of the machine that an attempt goes through, in the program's order. */
  datatype Step =
    | MakeAttempt
    | WriteVerifying | ReadReleases | FetchManifest | FetchPackage | ReadBaseline | CopyPrevious | ArchiveConfiguration
    | WriteBackingUp
    | StopAll | FreeSpace | DumpDatabases | CompressDump | WriteInstalling
    | InstallNew | ReloadNew | StartNew | ReadyNew | RestartPage | CopyNew | ReplaceWithNew | WriteComplete
    | InstallOld | ReloadOld | CopyOld | ReplaceWithOld | RestartOldPage | StartOld | ReadyOld
    | WriteFailed

  const VERIFYING: set<Step> := {WriteVerifying, ReadReleases, FetchManifest, FetchPackage, ReadBaseline, CopyPrevious,
                                 ArchiveConfiguration, WriteBackingUp}

  const DUMPING: set<Step> := {StopAll, FreeSpace, DumpDatabases, CompressDump}

  const INSTALLING: set<Step> := {InstallNew, ReloadNew, StartNew, ReadyNew, RestartPage, CopyNew, ReplaceWithNew, WriteComplete}

  const STARTING: set<Step> := {StartOld, ReadyOld}

  const REVERTING: set<Step> := {InstallOld, ReloadOld, CopyOld, ReplaceWithOld, RestartOldPage, StartOld, ReadyOld}

  method WriteStatus(w: World, status: Status, ok: bool) returns (r: World)
    ensures r == if ok then w.(status := status) else w
  {
    r := if ok then w.(status := status) else w;
  }

  /** A failed stop may have stopped some of the services; those that ran could still write. */
  method StopServices(w: World, ok: bool) returns (r: World)
    ensures r == w.(running := r.running, ready := false, database := r.database)
    ensures r.running <= w.running && (ok ==> r.running == {})
  {
    var stopped: set<Service> := *;
    var database: int := *;
    r := w.(running := if ok then {} else w.running - stopped, ready := false, database := database);
  }

  /** Start the services that do not run; a failed start may have started some.  A running service is left alone. */
  method StartServices(w: World, ok: bool) returns (r: World)
    ensures r == w.(running := r.running, ready := false, database := r.database)
    ensures w.running <= r.running && (ok ==> r.running == ALL)
  {
    var started: set<Service> := *;
    var database: int := *;
    r := w.(running := w.running + (if ok then ALL else started), ready := false, database := database);
    if ok { AllServices(r.running); }
  }

  lemma AllServices(s: set<Service>)
    requires ALL <= s
    ensures s == ALL
  {
    forall x | x in s ensures x in ALL {
      match x case Tomcat => case Apache => case Php =>
    }
  }

  /** Readiness is probed for a bounded time. */
  method WaitReady(w: World, verified: bool) returns (r: World)
    ensures r == w.(ready := verified, database := r.database)
    ensures w.running == {} ==> r.database == w.database
  {
    var database: int := *;
    r := w.(ready := verified, database := if w.running == {} then w.database else database);
  }

  /** Even a failed installation may have unpacked part of the package. */
  method InstallPackage(w: World, package: Version, ok: bool) returns (r: World)
    ensures r == w.(installed := r.installed, reloaded := false, ready := false, log := w.log + [Entry(package, w.attempt, w.configuration, w.database, w.running)])
    ensures ok ==> r.installed == Intact(package)
    ensures r.installed == w.installed || r.installed == Intact(package) || r.installed == Broken
  {
    var code := Intact(package);
    if !ok {
      var unpacked, broken: bool := *, *;
      code := if broken then Broken else if unpacked then code else w.installed;
    }
    r := w.(installed := code, reloaded := false, ready := false, log := w.log + [Entry(package, w.attempt, w.configuration, w.database, w.running)]);
  }

  method ReloadUnits(w: World, ok: bool) returns (r: World)
    ensures r == if ok then w.(reloaded := true) else w
  {
    r := if ok then w.(reloaded := true) else w;
  }

  /** Restart the management page if it runs. */
  method RestartAdmin(w: World, ok: bool) returns (r: World)
    ensures r == w.(admin := r.admin)
    ensures w.admin.None? ==> r.admin.None?
    ensures r.admin.Some? ==> r.admin.value == w.installed || r.admin == w.admin
    ensures ok && w.admin.Some? ==> r.admin == Some(w.installed)
  {
    var gone, restarted: bool := *, *;
    r := if w.admin.None? then w else
           if ok then w.(admin := Some(w.installed)) else
             if gone then w.(admin := None) else if restarted then w.(admin := Some(w.installed)) else w;
  }

  /** Copy a package beside the baseline and rename it over the baseline. */
  method ReplaceBaseline(w: World, package: Version, ok: bool) returns (r: World)
    ensures r == if ok then w.(baseline := Some(package)) else w
  {
    r := if ok then w.(baseline := Some(package)) else w;
  }

  // ---- One attempt ----

  /** Everything before the services are touched: the release, its files, the baseline and the configuration. */
  method Verify(w0: World, job: Job, current: Version, feed: Feed, fails: set<Step>) returns (ok: bool, w: World)
    ensures ok <==> fails !! VERIFYING && Permitted(job, current, feed) && w0.baseline == Some(current)
    ensures w == w0.(status := w.status, attempt := w.attempt)
    ensures w.status == if WriteVerifying in fails then w0.status else if ok then BackingUp(job.version) else Verifying(job.version)
    ensures ok ==> w.attempt == w0.attempt.(previous := Some(current), configuration := Some(w0.configuration))
  {
    hide Selected, Selects, ValidateManifest, VersionTuple, Text;
    w := WriteStatus(w0, Verifying(job.version), WriteVerifying !in fails);
    if WriteVerifying in fails { return false, w; }
    if ReadReleases in fails || !feed.enabled { return false, w; }
    WrittenReads(current);
    var selected := SelectRelease(feed.releases, Text(current), feed.channel);
    SelectedOnce(feed.releases, current, feed.channel, selected);
    if selected.Err? || selected.value.None? { return false, w; }
    var candidate := selected.value.value;
    if candidate.version != job.version || candidate.releaseId != job.releaseId { return false, w; }
    if FetchManifest in fails { return false, w; }
    if ValidateManifest(feed.manifest, Text(current), candidate.version, feed.vendor).Err? { return false, w; }
    if FetchPackage in fails { return false, w; }
    if feed.package != "linux-cmnd" || feed.architecture != "amd64" || feed.version != candidate.version { return false, w; }
    if w.baseline.None? || ReadBaseline in fails || w.baseline.value != current { return false, w; }
    if CopyPrevious in fails { return false, w; }
    w := w.(attempt := w.attempt.(previous := w.baseline));
    if ArchiveConfiguration in fails { return false, w; }
    w := w.(attempt := w.attempt.(configuration := Some(w.configuration)));
    w := WriteStatus(w, BackingUp(job.version), WriteBackingUp !in fails);
    ok := WriteBackingUp !in fails;
  }

  /** A confirmed job that the channel offers, whose manifest and package agree with it. */
  ghost predicate Permitted(job: Job, current: Version, feed: Feed) {
    && feed.enabled && (feed.channel == "stable" || feed.channel == "preview")
    && (exists c :: Selected(feed.releases, current, feed.channel, Ok(Some(c))) && c.version == job.version && c.releaseId == job.releaseId)
    && ValidateManifest(feed.manifest, Text(current), job.version, feed.vendor).Ok?
    && feed.package == "linux-cmnd" && feed.architecture == "amd64" && feed.version == job.version
  }

  /** Stop the services and keep the databases, raw and compressed. */
  method BackUp(w0: World, version: string, fails: set<Step>) returns (ok: bool, complete: bool, w: World)
    ensures complete <==> fails !! DUMPING
    ensures ok <==> complete && WriteInstalling !in fails
    ensures w == w0.(running := w.running, ready := false, database := w.database, attempt := w.attempt, status := w.status)
    ensures w.running <= w0.running
    ensures w.attempt.previous == w0.attempt.previous && w.attempt.configuration == w0.attempt.configuration
    ensures complete ==> w.running == {} && w.attempt.dump == w.attempt.compressed == Some(w.database)
    ensures ok ==> complete && w.status == Installing(version)
    ensures !ok ==> w.status == w0.status
  {
    ok, complete := false, false;
    w := StopServices(w0, StopAll !in fails);
    if StopAll in fails || FreeSpace in fails || DumpDatabases in fails { return; }
    w := w.(attempt := w.attempt.(dump := Some(w.database)));
    if CompressDump in fails { return; }
    w := w.(attempt := w.attempt.(compressed := w.attempt.dump));
    complete, ok := true, WriteInstalling !in fails;
    w := WriteStatus(w, Installing(version), ok);
  }

  /** Installed code, management page and baseline are `version`, and the services run and are ready. */
  ghost predicate Runs(w: World, version: Version) {
    && w.installed == Intact(version) && w.reloaded && w.baseline == Some(version)
    && w.running == ALL
    && (w.admin.Some? ==> w.admin.value == Intact(version))
    && w.ready
  }

  /** Install the candidate, start the services and make it the baseline. */
  method Install(w0: World, version: string, candidate: Version, fails: set<Step>) returns (ok: bool, w: World)
    requires w0.running == {}
    ensures ok <==> fails !! INSTALLING
    ensures w == w0.(installed := w.installed, reloaded := w.reloaded, running := w.running, admin := w.admin, ready := w.ready,
                     baseline := w.baseline, database := w.database, status := w.status, log := w.log)
    ensures w.log == w0.log + [Entry(candidate, w0.attempt, w0.configuration, w0.database, {})]
    ensures ok ==> Runs(w, candidate) && w.status == Complete(version, true)
    ensures !ok ==> w.status == w0.status
  {
    ok := false;
    w := InstallPackage(w0, candidate, InstallNew !in fails);
    if InstallNew in fails { return; }
    w := ReloadUnits(w, ReloadNew !in fails);
    if ReloadNew in fails { return; }
    w := StartServices(w, StartNew !in fails);
    if StartNew in fails { return; }
    w := WaitReady(w, ReadyNew !in fails);
    if ReadyNew in fails { return; }
    w := RestartAdmin(w, RestartPage !in fails);
    if RestartPage in fails || CopyNew in fails { return; }
    w := ReplaceBaseline(w, candidate, ReplaceWithNew !in fails);
    if ReplaceWithNew in fails { return; }
    ok := WriteComplete !in fails;
    w := WriteStatus(w, Complete(version, true), ok);
  }

  /** Undo: the previous package if the candidate was touched, then the services. */
  method Recover(w0: World, upgraded: bool, previous: Version, fails: set<Step>) returns (recovered: bool, w: World)
    ensures recovered <==> fails !! if upgraded then REVERTING else STARTING
    ensures w == w0.(installed := w.installed, reloaded := w.reloaded, running := w.running, admin := w.admin, ready := w.ready,
                     baseline := w.baseline, database := w.database, log := w.log)
    ensures !upgraded ==> w == w0.(running := w.running, ready := w.ready, database := w.database)
    ensures w0.running <= w.running
    ensures recovered ==> w.ready && w.running == ALL
    ensures recovered && upgraded ==>
              && w.installed == Intact(previous) && w.reloaded && w.baseline == Some(previous)
              && (w.admin.Some? ==> w.admin.value == Intact(previous))
    ensures w.log == if upgraded then w0.log + [Entry(previous, w0.attempt, w0.configuration, w0.database, w0.running)] else w0.log
  {
    recovered, w := false, w0;
    if upgraded {
      w := InstallPackage(w, previous, InstallOld !in fails);
      if InstallOld in fails { return; }
      w := ReloadUnits(w, ReloadOld !in fails);
      if ReloadOld in fails || CopyOld in fails { return; }
      w := ReplaceBaseline(w, previous, ReplaceWithOld !in fails);
      if ReplaceWithOld in fails { return; }
      w := RestartAdmin(w, RestartOldPage !in fails);
      if RestartOldPage in fails { return; }
    }
    w := StartServices(w, StartOld !in fails);
    if StartOld in fails { return; }
    recovered := ReadyOld !in fails;
    w := WaitReady(w, recovered);
  }

  /** How an attempt ended. */
  datatype Outcome =
    | Refused
    | Completed
    | Abandoned(stopped: bool, upgraded: bool, recovered: bool, dumped: bool, recorded: bool)

  /** Everything needed to go back from `e.package` was kept, and as it was when the installation started. */
  ghost predicate Backed(e: Entry, current: Version) {
    && Less(current, e.package)
    && e.attempt == Attempt(Some(current), Some(e.configuration), Some(e.database), Some(e.database))
    && e.running == {}
  }

  /** An attempt that ran to its end. */
  ghost predicate Completion(w0: World, job: Job, current: Version, w: World) {
    && w == w0.(installed := w.installed, reloaded := w.reloaded, running := w.running, admin := w.admin, ready := w.ready,
       baseline := w.baseline, database := w.database, status := Complete(job.version, true), log := w.log,
       kept := w0.kept + [w0.attempt], attempt := w.attempt)
    && VersionTuple(job.version).Ok? && w0.baseline == Some(current)
    && Runs(w, VersionTuple(job.version).value)
    && |w.log| == |w0.log| + 1 && w.log[..|w0.log|] == w0.log
    && w.log[|w0.log|].package == VersionTuple(job.version).value
    && w.log[|w0.log|].attempt == w.attempt && Backed(w.log[|w0.log|], current)
  }

  /** An attempt that failed somewhere. */
  ghost predicate Abandonment(w0: World, job: Job, current: Version, o: Outcome, w: World)
    requires o.Abandoned?
  {
    && w.kept == w0.kept + [w0.attempt] && w.configuration == w0.configuration
    && (if o.recorded then w.status == Failed(o.recovered, o.dumped)
        else if o.stopped then w.status in {BackingUp(job.version), Installing(job.version)}
        else w.status in {w0.status, Verifying(job.version), BackingUp(job.version)})
    && (o.dumped ==> o.stopped && w.attempt.dump.Some? && w.attempt.compressed == w.attempt.dump)
    && (o.recovered ==> o.stopped)
    && (!o.stopped ==> w == w0.(status := w.status, attempt := w.attempt, kept := w.kept))
    && (o.stopped ==> w0.baseline == Some(current) && w.attempt.previous == Some(current) && w.attempt.configuration == Some(w0.configuration))
    && if !o.upgraded then
         && w == w0.(running := w.running, ready := w.ready, database := w.database,
            status := w.status, attempt := w.attempt, kept := w.kept)
         && (o.recovered ==> w.ready && w.running == ALL)
       else
         && o.dumped && VersionTuple(job.version).Ok?
         && |w.log| == |w0.log| + 2 && w.log[..|w0.log|] == w0.log
         && var e, undo := w.log[|w0.log|], w.log[|w0.log| + 1];
            && e.package == VersionTuple(job.version).value && e.attempt == w.attempt && Backed(e, current)
            && undo.package == current && undo.attempt == w.attempt
            && (o.recovered ==> Runs(w, current))
  }

  ghost predicate Ran(w0: World, job: Job, current: Version, o: Outcome, w: World) {
    match o
    case Refused => w == w0
    case Completed => Completion(w0, job, current, w)
    case Abandoned(_, _, _, _, _) => Abandonment(w0, job, current, o, w)
  }

  /** A selection has one result. */
  lemma SelectedOnce(releases: seq<Release>, current: Version, channel: string, r: Result<Option<Candidate>, UpdateError>)
    requires channel == "stable" || channel == "preview" ==> Selected(releases, current, channel, r)
    ensures channel == "stable" || channel == "preview" ==>
              forall s :: Selected(releases, current, channel, s) ==> s == r
  {
    if channel == "stable" || channel == "preview" {
      forall s | Selected(releases, current, channel, s) ensures s == r { SameSelection(releases, current, channel, r, s); }
    }
  }

  lemma SameSelection(releases: seq<Release>, current: Version, channel: string,
                      r: Result<Option<Candidate>, UpdateError>, s: Result<Option<Candidate>, UpdateError>)
    requires Selected(releases, current, channel, r) && Selected(releases, current, channel, s)
    ensures r == s
  {
    if i :| Newest(releases, i, current, channel) {
      forall j | Newest(releases, j, current, channel) ensures i == j { NewestUnique(releases, i, j, current, channel); }
    }
  }

  lemma PermittedIsNewer(job: Job, current: Version, feed: Feed)
    requires Permitted(job, current, feed)
    ensures VersionTuple(job.version).Ok? && Less(current, VersionTuple(job.version).value)
    ensures current.major == VersionTuple(job.version).value.major
    ensures VersionTuple(feed.manifest.minimumVersion).Ok? && !Less(current, VersionTuple(feed.manifest.minimumVersion).value)
  {
    var c :| Selected(feed.releases, current, feed.channel, Ok(Some(c))) && c.version == job.version && c.releaseId == job.releaseId;
    SelectedIsNewer(feed.releases, current, feed.channel, Ok(Some(c)));
    WrittenReads(current);
  }

  /** When an attempt ends how: exactly what failed decides. */
  ghost predicate Decided(w0: World, job: Job, current: Version, feed: Feed, fails: set<Step>, o: Outcome) {
    var verified := fails !! VERIFYING && Permitted(job, current, feed) && w0.baseline == Some(current);
    var dumped := verified && fails !! DUMPING;
    var upgraded := dumped && WriteInstalling !in fails;
    if MakeAttempt in fails then o == Refused
    else if upgraded && fails !! INSTALLING then o == Completed
    else o == Abandoned(verified, upgraded, verified && fails !! if upgraded then REVERTING else STARTING, dumped, WriteFailed !in fails)
  }

  /** One attempt: what the worker does once it holds the lock and a job; the steps in `fails` fail. */
  method InstallPending(w0: World, job: Job, current: Version, feed: Feed, fails: set<Step>) returns (o: Outcome, w: World)
    ensures Ran(w0, job, current, o, w)
    ensures Decided(w0, job, current, feed, fails, o)
    ensures o.Abandoned? && !o.recorded ==>
              w.status == if o.upgraded then Installing(job.version) else if o.stopped then BackingUp(job.version)
              else if WriteVerifying in fails then w0.status else Verifying(job.version)
    ensures o.Completed? || (o.Abandoned? && o.stopped) ==> Permitted(job, current, feed)
  {
    hide Permitted, VersionTuple, Less;
    if MakeAttempt in fails { return Refused, w0; }
    w := w0.(kept := w0.kept + [w0.attempt], attempt := Attempt(None, None, None, None));
    var stopped, upgraded, complete := false, false, false;
    var candidate := current;
    var ok;
    ok, w := Verify(w, job, current, feed, fails);
    if ok {
      PermittedIsNewer(job, current, feed);
      candidate := VersionTuple(job.version).value;
      stopped := true;
      ok, complete, w := BackUp(w, job.version, fails);
      if ok {
        upgraded := true;
        ok, w := Install(w, job.version, candidate, fails);
        if ok { return Completed, w; }
      }
    }
    var recovered := false;
    if stopped { recovered, w := Recover(w, upgraded, current, fails); }
    w := WriteStatus(w, Failed(recovered, complete), WriteFailed !in fails);
    o := Abandoned(stopped, upgraded, recovered, complete, WriteFailed !in fails);
  }
}
