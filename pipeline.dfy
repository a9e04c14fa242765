/**
 * What `fire()` does to the outside world, as a trace of events over abstract
 * effects: the dump, the `gzip` call, the S3 and disk uploads, the local delete
 * and the two reports. `FireRun` is the reference definition of one run; the
 * lemmas below state the ordering and failure behaviour it has.
 */
module Pipeline {
  import opened Wrappers
  import opened PhpStrings
  import opened Clock
  import opened Naming

  /** The outcome of `$database->dump(...)`: `true`, or the error output it returned. */
  datatype DumpStatus = DumpSucceeded | DumpFailed(output: string)

  /** One externally visible step of a run. */
  datatype Event =
    | Dump(path: string)                                         // $database->dump($this->filePath)
    | RunShell(command: string)                                  // $this->console->run(...)
    | ReportSaved(shown: string)                                 // success line
    | ReportFailed(status: string)                               // failure line
    | PutS3(bucket: string, key: string, source: string)         // $s3->putObject(...)
    | CheckFolder(disk: string, folder: string)                  // directories()->has($folder)
    | PutDisk(disk: string, folder: string, source: string, name: string)  // putFileAs(...)
    | Delete(path: string)                                       // File::delete(...)

  /**
   * How `fire()` ends: it returns, or something thrown escapes it. What is thrown
   * carries no message: line 147 names an `Exception` class the namespace does
   * not import, so PHP fails to find the class before the message is built.
   */
  datatype Exit = Returned | Threw

  /** The command line: the `filename` argument and the options `fire()` reads. */
  datatype Invocation = Invocation(
    filename: Option<string>,
    uploadS3: Option<string>,     // the bucket
    uploadDisk: Option<string>,   // the disk name
    keepOnlyCloud: bool)

  /**
   * Everything else `fire()` depends on: the working directory, the clock, the
   * dumps root, whether compression is enabled, the `backup::s3.path` setting,
   * the engine's extension and dump result, and the folders on the target disk.
   */
  datatype Environment = Environment(
    cwd: string,
    now: DateTime,
    dumpsPath: string,
    compression: bool,
    s3PathConfig: Option<string>,
    extension: string,
    status: DumpStatus,
    diskFolders: set<string>)
  {
    predicate Valid() { now.Valid() }
  }

  /** The complete effect of one run: its events, the final fields and how it ended. */
  datatype Run = Run(events: seq<Event>, target: Target, exit: Exit)

  /** `uploadDisk()` is always called with its default folder. */
  const BackupsFolder: string := "backups"

  /** The `gzip -9 <path>` command line (the path is not quoted). */
  function GzipCommand(path: string): string {
    "gzip -9 " + path
  }

  /** The success line names the path when a filename was given, the name otherwise. */
  function Shown(inv: Invocation, t: Target): string {
    if Truthy(inv.filename) then t.path else t.name
  }

  /** The naming step of a run. */
  function InitialTarget(inv: Invocation, env: Environment): Target
    requires env.Valid()
  {
    Resolve(inv.filename, env.cwd, env.now, env.extension, env.dumpsPath)
  }

  /** True when the disk upload is requested and its folder is missing. */
  predicate DiskFolderMissing(inv: Invocation, env: Environment) {
    Truthy(inv.uploadDisk) && BackupsFolder !in env.diskFolders
  }

  /** The compression step, when enabled: `gzip` on the dumped path. */
  function CompressEvents(env: Environment, t0: Target): seq<Event> {
    if env.compression then [RunShell(GzipCommand(t0.path))] else []
  }

  /** The S3 upload step, when requested. */
  function S3Events(inv: Invocation, env: Environment, t: Target): seq<Event> {
    if Truthy(inv.uploadS3)
    then [PutS3(inv.uploadS3.value, S3Key(S3DumpsPath(env.s3PathConfig), t.name), t.path)]
    else []
  }

  /** The disk upload step, when requested: a folder check, then the transfer if the folder exists. */
  function DiskEvents(inv: Invocation, env: Environment, t: Target): seq<Event> {
    if !Truthy(inv.uploadDisk) then []
    else if BackupsFolder !in env.diskFolders then [CheckFolder(inv.uploadDisk.value, BackupsFolder)]
    else [CheckFolder(inv.uploadDisk.value, BackupsFolder),
          PutDisk(inv.uploadDisk.value, BackupsFolder, t.path, t.name)]
  }

  /** The local delete, when asked for and not cut off by a missing disk folder. */
  function DeleteEvents(inv: Invocation, env: Environment, t: Target): seq<Event> {
    if inv.keepOnlyCloud && !DiskFolderMissing(inv, env) then [Delete(t.path)] else []
  }

  /**
   * Reference definition of what `fire()` does once the fields hold `t0`: the
   * dump, then either the failure report or the optional steps in order.
   */
  function Steps(inv: Invocation, env: Environment, t0: Target): Run {
    match env.status
    case DumpFailed(output) => Run([Dump(t0.path), ReportFailed(output)], t0, Returned)
    case DumpSucceeded =>
      var t := if env.compression then Suffixed(t0) else t0;
      var events := [Dump(t0.path)] + CompressEvents(env, t0) + [ReportSaved(Shown(inv, t))]
                    + S3Events(inv, env, t) + DiskEvents(inv, env, t) + DeleteEvents(inv, env, t);
      var exit := if DiskFolderMissing(inv, env) then Threw else Returned;
      Run(events, t, exit)
  }

  /** Reference definition of one run of `fire()`: naming, then the steps. */
  function FireRun(inv: Invocation, env: Environment): Run
    requires env.Valid()
  {
    Steps(inv, env, InitialTarget(inv, env))
  }

  // ---------------------------------------------------------------------------
  // Ordering

  /** The position of each kind of event in a run. */
  function Rank(e: Event): nat {
    match e
    case Dump(_) => 0
    case RunShell(_) => 1
    case ReportSaved(_) => 2
    case ReportFailed(_) => 2
    case PutS3(_, _, _) => 3
    case CheckFolder(_, _) => 4
    case PutDisk(_, _, _, _) => 5
    case Delete(_) => 6
  }

  /** Ranks strictly increase along the trace: steps in order, none repeated. */
  ghost predicate InOrder(events: seq<Event>) {
    forall i, j :: 0 <= i < j < |events| ==> Rank(events[i]) < Rank(events[j])
  }

  /** Every rank in `events` lies in `[lo, hi)`. */
  ghost predicate RanksIn(events: seq<Event>, lo: nat, hi: nat) {
    forall i :: 0 <= i < |events| ==> lo <= Rank(events[i]) < hi
  }

  lemma ConcatInOrder(a: seq<Event>, b: seq<Event>, lo: nat, mid: nat, hi: nat)
    requires lo <= mid <= hi
    requires InOrder(a) && InOrder(b) && RanksIn(a, lo, mid) && RanksIn(b, mid, hi)
    ensures InOrder(a + b) && RanksIn(a + b, lo, hi)
  {
    var ab := a + b;
    forall i, j | 0 <= i < j < |ab| ensures Rank(ab[i]) < Rank(ab[j]) {
      if j < |a| {
        assert ab[i] == a[i] && ab[j] == a[j];
      } else if i >= |a| {
        assert ab[i] == b[i - |a|] && ab[j] == b[j - |a|];
      } else {
        assert ab[i] == a[i] && ab[j] == b[j - |a|];
      }
    }
    forall i | 0 <= i < |ab| ensures lo <= Rank(ab[i]) < hi {
      if i < |a| { assert ab[i] == a[i]; } else { assert ab[i] == b[i - |a|]; }
    }
  }

  /** The six steps of a successful run, each within its own band of ranks, are in order together. */
  lemma PiecesInOrder(dump: seq<Event>, compress: seq<Event>, report: seq<Event>,
                      s3: seq<Event>, disk: seq<Event>, del: seq<Event>)
    requires InOrder(dump) && RanksIn(dump, 0, 1)
    requires InOrder(compress) && RanksIn(compress, 1, 2)
    requires InOrder(report) && RanksIn(report, 2, 3)
    requires InOrder(s3) && RanksIn(s3, 3, 4)
    requires InOrder(disk) && RanksIn(disk, 4, 6)
    requires InOrder(del) && RanksIn(del, 6, 7)
    ensures InOrder(dump + compress + report + s3 + disk + del)
  {
    ConcatInOrder(dump, compress, 0, 1, 2);
    ConcatInOrder(dump + compress, report, 0, 2, 3);
    ConcatInOrder(dump + compress + report, s3, 0, 3, 4);
    ConcatInOrder(dump + compress + report + s3, disk, 0, 4, 6);
    ConcatInOrder(dump + compress + report + s3 + disk, del, 0, 6, 7);
  }

  /** Each optional step keeps to its band of ranks. */
  lemma StepBands(inv: Invocation, env: Environment, t0: Target, t: Target)
    ensures InOrder(CompressEvents(env, t0)) && RanksIn(CompressEvents(env, t0), 1, 2)
    ensures InOrder(S3Events(inv, env, t)) && RanksIn(S3Events(inv, env, t), 3, 4)
    ensures InOrder(DiskEvents(inv, env, t)) && RanksIn(DiskEvents(inv, env, t), 4, 6)
    ensures InOrder(DeleteEvents(inv, env, t)) && RanksIn(DeleteEvents(inv, env, t), 6, 7)
  {
    var disk := DiskEvents(inv, env, t);
    if |disk| == 2 { assert Rank(disk[0]) == 4 && Rank(disk[1]) == 5; }
  }

  /** A successful run is its six steps one after the other. */
  lemma SucceededEvents(inv: Invocation, env: Environment, t0: Target)
    requires env.status.DumpSucceeded?
    ensures var r := Steps(inv, env, t0);
      r.target == (if env.compression then Suffixed(t0) else t0)
      && r.events == [Dump(t0.path)] + CompressEvents(env, t0) + [ReportSaved(Shown(inv, r.target))]
                     + S3Events(inv, env, r.target) + DiskEvents(inv, env, r.target)
                     + DeleteEvents(inv, env, r.target)
  {
  }

  /**
   * Every run is in order: dump, compress, report, S3 upload, disk check, disk
   * transfer, delete; each step at most once.
   */
  lemma StepOrder(inv: Invocation, env: Environment, t0: Target)
    ensures InOrder(Steps(inv, env, t0).events)
  {
    var r := Steps(inv, env, t0);
    if env.status.DumpSucceeded? {
      SucceededEvents(inv, env, t0);
      var t := r.target;
      StepBands(inv, env, t0, t);
      PiecesInOrder([Dump(t0.path)], CompressEvents(env, t0), [ReportSaved(Shown(inv, t))],
                    S3Events(inv, env, t), DiskEvents(inv, env, t), DeleteEvents(inv, env, t));
    } else {
      assert Rank(r.events[0]) < Rank(r.events[1]);
    }
  }

  // ---------------------------------------------------------------------------
  // Which steps happen

  /** The dump is always the first event and never repeated. */
  lemma DumpFirst(inv: Invocation, env: Environment, t0: Target)
    ensures var r := Steps(inv, env, t0);
      |r.events| >= 2 && r.events[0] == Dump(t0.path)
      && forall i :: 0 < i < |r.events| ==> !r.events[i].Dump?
  {
    StepOrder(inv, env, t0);
    if env.status.DumpSucceeded? { SucceededEvents(inv, env, t0); }
  }

  /** A dump that did not return `true` is followed only by the failure report. */
  lemma FailedDumpOnlyReports(inv: Invocation, env: Environment, t0: Target)
    requires env.status.DumpFailed?
    ensures var r := Steps(inv, env, t0);
      r.events == [Dump(t0.path), ReportFailed(env.status.output)]
      && r.target == t0 && r.exit == Returned
  {
  }

  /** Exactly one of the two reports is made: the success line after a good dump, the failure line otherwise. */
  lemma ReportPresence(inv: Invocation, env: Environment, t0: Target)
    ensures var ev, ok := Steps(inv, env, t0).events, env.status.DumpSucceeded?;
      ((exists e :: e in ev && e.ReportSaved?) <==> ok)
      && ((exists e :: e in ev && e.ReportFailed?) <==> !ok)
  {
    var ev := Steps(inv, env, t0).events;
    if env.status.DumpSucceeded? {
      SuccessReport(inv, env, t0);
    } else {
      assert ev[1] in ev;
    }
  }

  /** After a good dump the success line is in the trace and the failure line is not. */
  lemma SuccessReport(inv: Invocation, env: Environment, t0: Target)
    requires env.status.DumpSucceeded?
    ensures var ev := Steps(inv, env, t0).events;
      (exists e :: e in ev && e.ReportSaved?) && !(exists e :: e in ev && e.ReportFailed?)
  {
    SucceededEvents(inv, env, t0);
    var ev := Steps(inv, env, t0).events;
    var t := Steps(inv, env, t0).target;
    var pre := [Dump(t0.path)] + CompressEvents(env, t0);
    var rest := S3Events(inv, env, t) + DiskEvents(inv, env, t) + DeleteEvents(inv, env, t);
    assert ev == pre + [ReportSaved(Shown(inv, t))] + rest;
    assert ev[|pre|] in ev;
  }

  /** `gzip` runs exactly when the dump succeeded and compression is enabled. */
  lemma CompressPresence(inv: Invocation, env: Environment, t0: Target)
    ensures var ev := Steps(inv, env, t0).events;
      (exists e :: e in ev && e.RunShell?) <==> env.status.DumpSucceeded? && env.compression
  {
    if env.status.DumpSucceeded? {
      SucceededEvents(inv, env, t0);
      if env.compression { assert Steps(inv, env, t0).events[1] in Steps(inv, env, t0).events; }
    }
  }

  /** The S3 upload happens exactly when the dump succeeded and a bucket is given. */
  lemma S3Presence(inv: Invocation, env: Environment, t0: Target)
    ensures var ev := Steps(inv, env, t0).events;
      (exists e :: e in ev && e.PutS3?) <==> env.status.DumpSucceeded? && Truthy(inv.uploadS3)
  {
    if env.status.DumpSucceeded? {
      SucceededEvents(inv, env, t0);
      var r := Steps(inv, env, t0);
      var t := r.target;
      var pre := [Dump(t0.path)] + CompressEvents(env, t0) + [ReportSaved(Shown(inv, t))];
      var s3 := S3Events(inv, env, t);
      assert r.events == pre + s3 + (DiskEvents(inv, env, t) + DeleteEvents(inv, env, t));
      if Truthy(inv.uploadS3) { assert r.events[|pre|] in r.events; }
    }
  }

  /**
   * The disk folder is checked exactly when the dump succeeded and a disk is given,
   * and the transfer happens exactly when, in addition, the folder exists.
   */
  lemma DiskPresence(inv: Invocation, env: Environment, t0: Target)
    ensures var ev, ok := Steps(inv, env, t0).events, env.status.DumpSucceeded?;
      ((exists e :: e in ev && e.CheckFolder?) <==> ok && Truthy(inv.uploadDisk))
      && ((exists e :: e in ev && e.PutDisk?)
          <==> ok && Truthy(inv.uploadDisk) && BackupsFolder in env.diskFolders)
  {
    if env.status.DumpSucceeded? {
      SucceededEvents(inv, env, t0);
      var r := Steps(inv, env, t0);
      var t := r.target;
      var pre := [Dump(t0.path)] + CompressEvents(env, t0) + [ReportSaved(Shown(inv, t))]
                 + S3Events(inv, env, t);
      var disk := DiskEvents(inv, env, t);
      assert r.events == pre + disk + DeleteEvents(inv, env, t);
      if Truthy(inv.uploadDisk) {
        assert r.events[|pre|] in r.events;
        if BackupsFolder in env.diskFolders { assert r.events[|pre| + 1] in r.events; }
      }
    }
  }

  /**
   * The local dump is deleted exactly when the dump succeeded, `keep-only-cloud`
   * is set and no missing disk folder aborted the run; whether anything was
   * uploaded plays no part.
   */
  lemma DeletePresence(inv: Invocation, env: Environment, t0: Target)
    ensures var ev := Steps(inv, env, t0).events;
      (exists e :: e in ev && e.Delete?)
      <==> env.status.DumpSucceeded? && inv.keepOnlyCloud && !DiskFolderMissing(inv, env)
  {
    if env.status.DumpSucceeded? {
      SucceededEvents(inv, env, t0);
      var r := Steps(inv, env, t0);
      if inv.keepOnlyCloud && !DiskFolderMissing(inv, env) {
        assert r.events[|r.events| - 1] in r.events;
      }
    }
  }

  // ---------------------------------------------------------------------------
  // The compression suffix, the S3 key and the disk check

  /**
   * With compression, `gzip` runs on the dumped path and `.gz` is appended once to
   * both fields (whatever `gzip` returned); every later step uses the suffixed
   * values.
   */
  lemma CompressionSuffix(inv: Invocation, env: Environment, t0: Target)
    requires env.status.DumpSucceeded? && env.compression
    ensures var r := Steps(inv, env, t0);
      r.target == Target(t0.path + ".gz", t0.name + ".gz")
      && r.events[1] == RunShell("gzip -9 " + t0.path)
      && (forall e :: e in r.events && e.PutS3? ==>
            e.source == r.target.path && e.key == S3Key(S3DumpsPath(env.s3PathConfig), r.target.name))
      && (forall e :: e in r.events && e.PutDisk? ==>
            e.source == r.target.path && e.name == r.target.name)
      && (forall e :: e in r.events && e.Delete? ==> e.path == r.target.path)
  {
  }

  /** Without compression the fields after the dump are the ones the naming step chose. */
  lemma NoCompressionKeepsTarget(inv: Invocation, env: Environment, t0: Target)
    requires !env.compression
    ensures Steps(inv, env, t0).target == t0
    ensures forall e :: e in Steps(inv, env, t0).events ==> !e.RunShell?
  {
  }

  /** The S3 upload puts the final file under `<s3 path>/<fileName>` in the requested bucket. */
  lemma S3Upload(inv: Invocation, env: Environment, t0: Target)
    requires env.status.DumpSucceeded? && Truthy(inv.uploadS3)
    ensures var r := Steps(inv, env, t0);
      PutS3(inv.uploadS3.value, S3DumpsPath(env.s3PathConfig) + "/" + r.target.name, r.target.path)
        in r.events
  {
  }

  /**
   * A disk upload to a disk without the `backups` folder checks the folder, never
   * transfers, skips the delete and ends the run with a throw; nothing
   * follows the check.
   */
  lemma DiskFailFast(inv: Invocation, env: Environment, t0: Target)
    requires env.status.DumpSucceeded? && DiskFolderMissing(inv, env)
    ensures var r := Steps(inv, env, t0);
      r.events[|r.events| - 1] == CheckFolder(inv.uploadDisk.value, "backups")
      && (forall e :: e in r.events ==> !e.PutDisk? && !e.Delete?)
      && r.exit == Threw
  {
    SucceededEvents(inv, env, t0);
    var r := Steps(inv, env, t0);
    var t := r.target;
    var pre := [Dump(t0.path)] + CompressEvents(env, t0) + [ReportSaved(Shown(inv, t))]
               + S3Events(inv, env, t);
    assert DeleteEvents(inv, env, t) == [];
    assert r.events == pre + [CheckFolder(inv.uploadDisk.value, BackupsFolder)];
  }

  /** A run that gets past the dump without a missing folder returns normally. */
  lemma ReturnsUnlessFolderMissing(inv: Invocation, env: Environment, t0: Target)
    ensures Steps(inv, env, t0).exit.Threw? <==> env.status.DumpSucceeded? && DiskFolderMissing(inv, env)
  {
  }

  // ---------------------------------------------------------------------------
  // Whole runs

  /**
   * The steps keep `fileName` the basename of `filePath`; only the `.gz` step
   * needs the path not to end in `/`.
   */
  lemma StepsKeepBaseName(inv: Invocation, env: Environment, t0: Target)
    requires t0.name == BaseName(t0.path)
    requires env.status.DumpSucceeded? && env.compression ==> t0.path == [] || t0.path[|t0.path| - 1] != Slash
    ensures var t := Steps(inv, env, t0).target; t.name == BaseName(t.path)
  {
    if env.status.DumpSucceeded? && env.compression {
      SuffixedKeepsBaseName(t0);
    }
  }

  /**
   * The final `fileName` is the basename of the final `filePath`, for an engine
   * extension without `/`; when a compressed dump succeeded, the argument must
   * not end in `/` either.
   */
  lemma FinalNameIsBaseName(inv: Invocation, env: Environment)
    requires env.Valid() && Slash !in env.extension
    requires Truthy(inv.filename) && env.status.DumpSucceeded? && env.compression
             ==> inv.filename.value[|inv.filename.value| - 1] != Slash
    ensures var t := FireRun(inv, env).target; t.name == BaseName(t.path)
  {
    NameIsBaseNameOfPath(inv.filename, env.cwd, env.now, env.extension, env.dumpsPath);
    if env.status.DumpSucceeded? && env.compression {
      ResolvedPathEnd(inv.filename, env.cwd, env.now, env.extension, env.dumpsPath);
    }
    StepsKeepBaseName(inv, env, InitialTarget(inv, env));
  }

  /**
   * The scenario of a default-named, compressed run uploaded to S3 with the local
   * copy dropped: the key is `dumps/<timestamp>.sql.gz` and the last event deletes
   * the compressed local file.
   */
  lemma CompressedS3ScenarioDeletesLocal(bucket: string, env: Environment)
    requires env.Valid() && env.status.DumpSucceeded? && env.compression
    requires env.extension == "sql" && env.s3PathConfig.None?
    requires bucket != "" && bucket != "0"
    ensures var inv := Invocation(None, Some(bucket), None, true);
      var r := FireRun(inv, env);
      var name := FormatYmdHis(env.now) + ".sql.gz";
      r.target.name == name
      && r.events[|r.events| - 2] == PutS3(bucket, "dumps/" + name, r.target.path)
      && r.events[|r.events| - 1] == Delete(r.target.path)
      && r.exit == Returned
  {
    var inv := Invocation(None, Some(bucket), None, true);
    var name := FormatYmdHis(env.now) + ".sql";
    assert InitialTarget(inv, env).name == name;
    assert FireRun(inv, env).target.name == name + ".gz";
    assert name + ".gz" == FormatYmdHis(env.now) + ".sql.gz";
  }
}
