/**
 * The `db:backup` console command as an object: `fire()` assigns the fields
 * `filePath` and `fileName` step by step and appends every external effect to
 * `trace`. Each method is proved to leave exactly the state the reference
 * definitions of the `Naming` and `Pipeline` modules describe.
 */
module Commands {
  import opened Wrappers
  import opened PhpStrings
  import opened Naming
  import opened Pipeline

  /** Appending the six steps of a run one by one is appending the run. */
  lemma AppendAssociates(before: seq<Event>, a: seq<Event>, b: seq<Event>, c: seq<Event>,
                         d: seq<Event>, e: seq<Event>, f: seq<Event>)
    ensures before + a + b + c + d + e + f == before + (a + b + c + d + e + f)
  {
  }

  class BackupCommand {
    var filePath: string
    var fileName: string
    /** The external effects of the command so far, oldest first. */
    var trace: seq<Event>

    /** A fresh command: no file chosen yet (PHP's `null` fields read as empty strings) and no effects. */
    constructor ()
      ensures filePath == "" && fileName == "" && trace == []
    {
      filePath, fileName, trace := "", "", [];
    }

    /** The naming part of `fire()`: sets both fields and has no effect. */
    method NameDump(inv: Invocation, env: Environment)
      requires env.Valid()
      modifies this`filePath, this`fileName
      ensures Target(filePath, fileName) == InitialTarget(inv, env)
    {
      if Truthy(inv.filename) {
        var arg := inv.filename.value;
        if StartsWithSlash(arg) {
          filePath := arg;
          fileName := BaseName(filePath);
        } else {
          filePath := env.cwd + "/" + arg;
          fileName := BaseName(filePath);
        }
      } else {
        fileName := Clock.FormatYmdHis(env.now) + "." + env.extension;
        filePath := RTrim(env.dumpsPath, Slash) + "/" + fileName;
      }
    }

    /** `compress()`: runs `gzip -9` on the current path; its exit status is not used. */
    method Compress()
      modifies this`trace
      ensures trace == old(trace) + [RunShell(GzipCommand(filePath))]
    {
      trace := trace + [RunShell("gzip -9 " + filePath)];
    }

    /** `uploadS3()`: puts the current file into `bucket` under `<s3 path>/<fileName>`. */
    method UploadS3(bucket: string, s3PathConfig: Option<string>)
      modifies this`trace
      ensures trace == old(trace) + [PutS3(bucket, S3Key(S3DumpsPath(s3PathConfig), fileName), filePath)]
    {
      var key := S3DumpsPath(s3PathConfig) + "/" + fileName;
      trace := trace + [PutS3(bucket, key, filePath)];
    }

    /**
     * `uploadDisk($folder)`: looks for the folder on the disk and throws before any
     * transfer when it is missing; otherwise copies the file in under its name.
     * The folder is taken to be on the disk when it is in the disk's listing.
     */
    method UploadDisk(disk: string, folder: string, diskFolders: set<string>) returns (exit: Exit)
      modifies this`trace
      ensures folder !in diskFolders ==>
        exit == Threw && trace == old(trace) + [CheckFolder(disk, folder)]
      ensures folder in diskFolders ==>
        exit == Returned
        && trace == old(trace) + [CheckFolder(disk, folder), PutDisk(disk, folder, filePath, fileName)]
    {
      trace := trace + [CheckFolder(disk, folder)];
      if folder !in diskFolders {
        return Threw;
      }
      trace := trace + [PutDisk(disk, folder, filePath, fileName)];
      exit := Returned;
    }

    /**
     * `fire()`: name the dump, dump, and on success compress, report, upload and
     * delete as the options say; a missing disk folder ends the run with a
     * throw.
     */
    method Fire(inv: Invocation, env: Environment) returns (exit: Exit)
      requires env.Valid()
      modifies this
      ensures trace == old(trace) + FireRun(inv, env).events
      ensures Target(filePath, fileName) == FireRun(inv, env).target
      ensures exit == FireRun(inv, env).exit
    {
      NameDump(inv, env);
      exit := DumpAndProceed(inv, env);
    }

    /** The part of `fire()` after naming: the dump and everything that depends on its status. */
    method DumpAndProceed(inv: Invocation, env: Environment) returns (exit: Exit)
      modifies this
      ensures var r := Steps(inv, env, old(Target(filePath, fileName)));
        trace == old(trace) + r.events && Target(filePath, fileName) == r.target && exit == r.exit
    {
      ghost var t0 := Target(filePath, fileName);
      trace := trace + [Pipeline.Dump(filePath)];
      if env.status.DumpFailed? {
        trace := trace + [ReportFailed(env.status.output)];
        return Returned;
      }
      CompressAndReport(inv, env);
      ghost var t := Target(filePath, fileName);
      exit := Distribute(inv, env);
      SucceededEvents(inv, env, t0);
      AppendAssociates(old(trace), [Pipeline.Dump(t0.path)], CompressEvents(env, t0),
                       [ReportSaved(Shown(inv, t))], S3Events(inv, env, t), DiskEvents(inv, env, t),
                       DeleteEvents(inv, env, t));
    }

    /** The compression of a successful dump, with its `.gz` suffix, and the success line. */
    method CompressAndReport(inv: Invocation, env: Environment)
      modifies this`filePath, this`fileName, this`trace
      ensures Target(filePath, fileName)
           == if env.compression then Suffixed(old(Target(filePath, fileName))) else old(Target(filePath, fileName))
      ensures trace == old(trace) + CompressEvents(env, old(Target(filePath, fileName)))
                       + [ReportSaved(Shown(inv, Target(filePath, fileName)))]
    {
      if env.compression {
        Compress();
        fileName := fileName + GzSuffix;
        filePath := filePath + GzSuffix;
      }
      trace := trace + [ReportSaved(if Truthy(inv.filename) then filePath else fileName)];
    }

    /** The uploads and the delete of a successful run, in the order `fire()` makes them. */
    method Distribute(inv: Invocation, env: Environment) returns (exit: Exit)
      modifies this`trace
      ensures var t := Target(filePath, fileName);
        trace == old(trace) + S3Events(inv, env, t) + DiskEvents(inv, env, t) + DeleteEvents(inv, env, t)
      ensures exit == if DiskFolderMissing(inv, env) then Threw else Returned
    {
      ghost var t := Target(filePath, fileName);
      if Truthy(inv.uploadS3) {
        UploadS3(inv.uploadS3.value, env.s3PathConfig);
      }
      ghost var uploaded := trace;
      assert uploaded == old(trace) + S3Events(inv, env, t);
      if Truthy(inv.uploadDisk) {
        exit := UploadDisk(inv.uploadDisk.value, BackupsFolder, env.diskFolders);
        if exit.Threw? {
          assert trace == uploaded + DiskEvents(inv, env, t) + DeleteEvents(inv, env, t);
          return;
        }
      }
      assert trace == uploaded + DiskEvents(inv, env, t);
      if inv.keepOnlyCloud {
        trace := trace + [Delete(filePath)];
      }
      exit := Returned;
    }
  }
}
