# laravel-backup `db:backup`, modelled in Dafny

This project models the core of the `db:backup` console command of
laravel-backup (`BackupCommand::fire()`). The command dumps a database to a
local file, optionally gzips it, optionally uploads it to an S3 bucket and to a
second storage disk, and optionally deletes the local copy. The model covers
two parts:

- **Naming.** The optional `filename` argument becomes the pair of fields
  `filePath`/`fileName`:
  - an absolute argument is taken as it is;
  - a relative one is put under the working directory;
  - with no argument, the name is a `YmdHis` timestamp plus the engine's
    extension, placed under the dumps root with its trailing `/` trimmed.

  When compression is on, both fields get `.gz` appended. The S3 key is
  `<s3 path, default "dumps">/<fileName>`.
- **Run sequencing.** Every external effect is an event in a trace: the dump,
  the `gzip -9` shell call, the two reports, the S3 `putObject`, the disk
  folder check, the disk `putFileAs` and the local delete. The dumper's
  answer, the folder listing of the target disk, the clock, the working
  directory and the configuration are all inputs.

Files:

- `wrappers.dfy`: `Option`.
- `php_strings.dfy`: PHP truthiness and the PHP built-ins `substr(...,0,1)`,
  `rtrim`, `basename`, checked against their defining properties.
- `clock.dfy`: the clock reading and `date('YmdHis')`, with a proved round
  trip.
- `naming.dfy`: the pure naming functions (`Resolve`, `Suffixed`,
  `S3DumpsPath`, `S3Key`) and their properties.
- `pipeline.dfy`: the events, the reference definition of a run
  (`Steps`/`FireRun`) and its ordering, presence, suffix and fail-fast
  properties.
- `backup_command.dfy`: the class `BackupCommand`. It holds the fields
  `filePath` and `fileName` and a `trace`. Its methods (`Fire`, `Compress`,
  `UploadS3`, `UploadDisk`, …) update them in place, as the PHP methods do.
  Each is proved to leave exactly the state the reference definitions give.

The model follows the code where it differs from what a backup tool might be
expected to do:

- The local dump is deleted whenever `keep-only-cloud` is set and the run
  reaches line 77. A failed dump and a missing disk folder both stop the run
  before that line. Whether any upload was requested or answered plays no part.
- The result of `gzip` is ignored, and `.gz` is appended anyway.
- A missing `backups` folder on the disk throws. What is thrown ends the whole
  run, so nothing after it happens: no transfer, no delete. There is no
  isolation of failures per destination.
- The argument `"0"` is false in PHP, so it is treated like no argument.
- The local path is absolute when the working directory and the dumps root
  are both absolute (`Naming.ResolvedPathIsAbsolute`). It can be absolute in
  other cases too, for example for an absolute argument.
- `fileName` stays the basename of `filePath` through the `.gz` step unless the
  path ends in `/`. `Naming.TrailingSlashBreaksSuffixedName` shows the case:
  the argument `dir/` ends up with the name `dir.gz` but the path `<cwd>/dir/.gz`.

## Model

| member | source | states |
|---|---|---|
| PhpStrings.Truthy | src/Schickling/Backup/Commands/BackupCommand.php:22 | PHP's `if` on an optional string: false for `null`, `""` and `"0"`; `Naming.ZeroArgumentIsDefault` states the consequence for the `filename` argument, and the same test guards lines 53, 65, 71 and 77 |
| PhpStrings.StartsWithSlash | src/Schickling/Backup/Commands/BackupCommand.php:25 | `substr($s, 0, 1) == '/'`; `Naming.AbsoluteArgument` and `Naming.RelativeArgument` state the two branches it selects |
| PhpStrings.AfterLastSlash | src/Schickling/Backup/Commands/BackupCommand.php:28 | the result has no `/`, is a suffix of the input, and is preceded by a `/` whenever it is shorter than the input |
| PhpStrings.RTrim | src/Schickling/Backup/Commands/BackupCommand.php:40 | `rtrim($s, '/')` is a prefix of `s`, does not end in `/`, and only `/` characters were removed |
| PhpStrings.BaseName | src/Schickling/Backup/Commands/BackupCommand.php:28 | `basename` never contains `/`, and it is empty exactly when the path holds nothing but `/` |
| PhpStrings.RTrimAbsorbs | src/Schickling/Backup/Commands/BackupCommand.php:40 | extra trailing slashes do not change `rtrim($s, '/')` |
| PhpStrings.BaseNameOfJoin | src/Schickling/Backup/Commands/BackupCommand.php:39-40 | the basename of `dir . '/' . name` is `name` for a non-empty name without `/` |
| PhpStrings.BaseNameOfSuffixed | src/Schickling/Backup/Commands/BackupCommand.php:50-51 | appending a slash-free suffix to a path not ending in `/` appends it to the basename |
| Clock.FormatYmdHis | src/Schickling/Backup/Commands/BackupCommand.php:39 | `date('YmdHis')` is exactly fourteen decimal digits |
| Clock.FormatRoundTrip | src/Schickling/Backup/Commands/BackupCommand.php:39 | the fourteen digits read back as the clock reading they were made from |
| Clock.FormatInjective | src/Schickling/Backup/Commands/BackupCommand.php:39 | two readings have the same rendering if and only if they are equal |
| Naming.ArgumentTarget | src/Schickling/Backup/Commands/BackupCommand.php:25-34 | the target for a given argument; `Naming.AbsoluteArgument`, `Naming.RelativeArgument` and `Naming.NameIsBaseNameOfPath` state its path and name |
| Naming.DefaultName | src/Schickling/Backup/Commands/BackupCommand.php:39 | the timestamped name; `Naming.DefaultNameShape` and `Naming.DefaultNamesDistinct` state its shape and that different readings give different names |
| Naming.DefaultTarget | src/Schickling/Backup/Commands/BackupCommand.php:39-40 | the target without an argument; `Naming.DefaultPathJoin` and `Naming.DefaultTargetIgnoresTrailingSlashes` state how its path joins the trimmed root and the name |
| Naming.Resolve | src/Schickling/Backup/Commands/BackupCommand.php:22-41 | the naming step of `fire()`; the lemmas from `Naming.AbsoluteArgument` to `Naming.ResolvedPathIsAbsolute` state its branches and the basename relation |
| Naming.Suffixed | src/Schickling/Backup/Commands/BackupCommand.php:50-51 | `.gz` on both fields; `Naming.SuffixedKeepsBaseName` and `Naming.TrailingSlashBreaksSuffixedName` state when the basename relation survives it |
| Naming.S3DumpsPath | src/Schickling/Backup/Commands/BackupCommand.php:152-156 | the configured S3 folder, `"dumps"` by default; `Naming.DefaultS3Key` states the default key |
| Naming.S3Key | src/Schickling/Backup/Commands/BackupCommand.php:137 | `<s3 path>/<fileName>`; `Naming.DefaultS3Key` and `Naming.S3KeyBaseName` state its default and its last component |
| Naming.AbsoluteArgument | src/Schickling/Backup/Commands/BackupCommand.php:25-28 | an argument starting with `/` is `filePath` unchanged, and `fileName` is its basename |
| Naming.RelativeArgument | src/Schickling/Backup/Commands/BackupCommand.php:31-34 | any other non-empty argument gives `filePath == cwd . '/' . filename`, and `fileName` is its basename |
| Naming.ZeroArgumentIsDefault | src/Schickling/Backup/Commands/BackupCommand.php:22 | the argument `"0"` names the dump like no argument at all |
| Naming.DefaultNameShape | src/Schickling/Backup/Commands/BackupCommand.php:39 | the default name is fourteen digits, `.`, the extension, and the digits decode to the clock reading |
| Naming.DefaultNamesDistinct | src/Schickling/Backup/Commands/BackupCommand.php:39 | runs at different clock readings (one second apart, say) get different default names |
| Naming.DefaultPathJoin | src/Schickling/Backup/Commands/BackupCommand.php:40 | the default path is the trimmed root, one `/`, then the name, with no `//` at the join |
| Naming.DefaultTargetIgnoresTrailingSlashes | src/Schickling/Backup/Commands/BackupCommand.php:40 | a dumps root given with any number of trailing slashes gives the same path and name |
| Naming.NameIsBaseNameOfPath | src/Schickling/Backup/Commands/BackupCommand.php:22-41 | after naming, `fileName` is the basename of `filePath` (for an extension without `/`) |
| Naming.ResolvedPathEnd | src/Schickling/Backup/Commands/BackupCommand.php:22-41 | the chosen path is non-empty and does not end in `/`, for an argument not ending in `/` and, without an argument, an extension without `/` |
| Naming.ResolvedPathIsAbsolute | src/Schickling/Backup/Commands/BackupCommand.php:22-41 | with an absolute working directory and an absolute dumps root, the chosen path is absolute |
| Naming.SuffixedKeepsBaseName | src/Schickling/Backup/Commands/BackupCommand.php:50-51 | appending `.gz` to both fields keeps `fileName` the basename of `filePath` when the path does not end in `/` |
| Naming.TrailingSlashBreaksSuffixedName | src/Schickling/Backup/Commands/BackupCommand.php:31-51 | for an argument `dir/`, the suffixed name `dir.gz` is not the basename `.gz` of the suffixed path |
| Naming.DefaultS3Key | src/Schickling/Backup/Commands/BackupCommand.php:152-156 | without configuration the S3 key is `dumps/<fileName>` |
| Naming.S3KeyBaseName | src/Schickling/Backup/Commands/BackupCommand.php:137 | the last component of the S3 key is the local file name |
| Pipeline.GzipCommand | src/Schickling/Backup/Commands/BackupCommand.php:96 | the `gzip -9 <path>` command line; `Pipeline.CompressionSuffix` states that it runs on the unsuffixed path |
| Pipeline.Shown | src/Schickling/Backup/Commands/BackupCommand.php:53-60 | the success line names the path when a filename argument was given, the name otherwise; `Pipeline.ReportPresence` states when the line appears |
| Pipeline.CompressEvents | src/Schickling/Backup/Commands/BackupCommand.php:47-52 | the compression step; `Pipeline.CompressPresence` and `Pipeline.NoCompressionKeepsTarget` state when it happens |
| Pipeline.S3Events | src/Schickling/Backup/Commands/BackupCommand.php:65-69 | the S3 upload step; `Pipeline.S3Presence` and `Pipeline.S3Upload` state when it happens and what it puts |
| Pipeline.DiskEvents | src/Schickling/Backup/Commands/BackupCommand.php:71-75 | the disk upload step; `Pipeline.DiskPresence` and `Pipeline.DiskFailFast` state the fail-fast folder check |
| Pipeline.DeleteEvents | src/Schickling/Backup/Commands/BackupCommand.php:77-81 | the local delete; `Pipeline.DeletePresence` states that only the dump, the flag and a missing folder decide it |
| Pipeline.Steps | src/Schickling/Backup/Commands/BackupCommand.php:43-86 | the reference run from given fields; the lemmas from `Pipeline.StepOrder` to `Pipeline.StepsKeepBaseName` state its order, presence, suffix and fail-fast properties |
| Pipeline.FireRun | src/Schickling/Backup/Commands/BackupCommand.php:17-87 | the reference run of `fire()`; `Pipeline.FinalNameIsBaseName` and `Pipeline.CompressedS3ScenarioDeletesLocal` state its end state |
| Pipeline.StepOrder | src/Schickling/Backup/Commands/BackupCommand.php:43-86 | in every run the events come in the order dump, gzip, report, S3 put, folder check, disk put, delete, and none is repeated |
| Pipeline.DumpFirst | src/Schickling/Backup/Commands/BackupCommand.php:43 | the first event is the dump to the chosen path, and there is no other dump |
| Pipeline.FailedDumpOnlyReports | src/Schickling/Backup/Commands/BackupCommand.php:43-86 | a dump status other than `true` is followed only by the failure report; the fields stay as named |
| Pipeline.ReportPresence | src/Schickling/Backup/Commands/BackupCommand.php:45-86 | the success line appears if and only if the dump succeeded, and the failure line if and only if it did not |
| Pipeline.CompressPresence | src/Schickling/Backup/Commands/BackupCommand.php:47-52 | `gzip` runs if and only if the dump succeeded and compression is enabled |
| Pipeline.S3Presence | src/Schickling/Backup/Commands/BackupCommand.php:65-69 | the S3 put happens if and only if the dump succeeded and a bucket option is given |
| Pipeline.DiskPresence | src/Schickling/Backup/Commands/BackupCommand.php:71-75 | the folder check happens if and only if the dump succeeded and a disk is given; the transfer needs the folder as well |
| Pipeline.DeletePresence | src/Schickling/Backup/Commands/BackupCommand.php:77-81 | the delete happens if and only if the dump succeeded, `keep-only-cloud` is set and no missing folder aborted the run; uploads play no part |
| Pipeline.CompressionSuffix | src/Schickling/Backup/Commands/BackupCommand.php:47-51 | with compression, `gzip -9` runs on the unsuffixed path, `.gz` is appended once to both fields, and every later put and delete uses the suffixed values |
| Pipeline.NoCompressionKeepsTarget | src/Schickling/Backup/Commands/BackupCommand.php:47-52 | without compression the fields stay as named and no shell command runs |
| Pipeline.S3Upload | src/Schickling/Backup/Commands/BackupCommand.php:131-140 | the S3 put sends the final path to the bucket under `getS3DumpsPath() . '/' . fileName` |
| Pipeline.DiskFailFast | src/Schickling/Backup/Commands/BackupCommand.php:142-150 | with a missing folder, the folder check is the last event, there is no transfer and no delete, and the run ends with a throw |
| Pipeline.ReturnsUnlessFolderMissing | src/Schickling/Backup/Commands/BackupCommand.php:145-147 | a run throws if and only if the dump succeeded and the requested disk lacks the folder |
| Pipeline.StepsKeepBaseName | src/Schickling/Backup/Commands/BackupCommand.php:50-51 | the steps after the dump keep `fileName` the basename of `filePath`; only a compressed successful run needs the path not to end in `/` |
| Pipeline.FinalNameIsBaseName | src/Schickling/Backup/Commands/BackupCommand.php:22-51 | at the end of a run `fileName` is the basename of `filePath` (for an extension without `/`, and for an argument not ending in `/` when a compressed dump succeeded) |
| Pipeline.CompressedS3ScenarioDeletesLocal | src/Schickling/Backup/Commands/BackupCommand.php:39-81 | a default-named, compressed run with an S3 bucket and `keep-only-cloud` uploads to `dumps/<timestamp>.sql.gz`, then deletes the local file |
| Commands.BackupCommand.constructor | src/Schickling/Backup/Commands/BackupCommand.php:14-15 | a new command has no file chosen and no effects |
| Commands.BackupCommand.NameDump | src/Schickling/Backup/Commands/BackupCommand.php:22-41 | the step-by-step assignments leave the fields at the target `Naming.Resolve` gives |
| Commands.BackupCommand.Compress | src/Schickling/Backup/Commands/BackupCommand.php:94-98 | appends exactly one `gzip -9 <filePath>` shell call to the trace |
| Commands.BackupCommand.UploadS3 | src/Schickling/Backup/Commands/BackupCommand.php:131-140 | appends exactly one put of `filePath` to the bucket under the S3 key of `fileName` |
| Commands.BackupCommand.UploadDisk | src/Schickling/Backup/Commands/BackupCommand.php:142-150 | a missing folder gives the check alone and a throw; an existing folder gives the check, then the transfer, and a normal return |
| Commands.BackupCommand.CompressAndReport | src/Schickling/Backup/Commands/BackupCommand.php:47-60 | suffixes both fields when compression is on and appends the compression call and the success line |
| Commands.BackupCommand.Distribute | src/Schickling/Backup/Commands/BackupCommand.php:65-81 | appends the S3, disk and delete events of a successful run, and throws exactly when the disk folder is missing |
| Commands.BackupCommand.DumpAndProceed | src/Schickling/Backup/Commands/BackupCommand.php:43-86 | from given fields, the trace, the fields and the exit are those of `Pipeline.Steps` |
| Commands.BackupCommand.Fire | src/Schickling/Backup/Commands/BackupCommand.php:17-87 | one run appends exactly the events of `Pipeline.FireRun` and leaves its fields and exit |

## Left out

- `getDatabase` and `$database->dump` (lines 19, 43) call into engine classes that are not part of this model. The engine is an input: its file extension and the status `dump` returns (`true` or an error text).
- `checkDumpFolder` (lines 20, 121-129) creates the dumps directory on the filesystem. The model has no filesystem, so it has no event for this.
- The `gzip -9` subprocess (lines 94-98) is recorded only as the command line it runs. Its exit status is not used by `fire()`.
- The AWS client, the `Storage` and `File` facades and `Config::get` are foreign library calls. The `backup::s3.path` setting is an optional input with default `"dumps"`. The disk's folder listing is an input set. `directories()->has($folder)` (line 145) is read as "the folder is in the listing"; the code of that library call is not part of this model.
- Failures inside `putObject`, `putFileAs` and `File::delete` are not modelled. Each of these calls is an event that always completes.
- What line 147 throws is not modelled beyond the fact that it ends the run (`Exit.Threw`, with no message). The namespace imports no `Exception` class, so as written PHP fails to find `Schickling\Backup\Commands\Exception` before the "does not exist" message is built; the message is therefore not part of the model.
- Coloured terminal output (`colors->getColoredString`, `line`) is presentation. Only the two reports on the dump's outcome (lines 53-60, 85) are events. The "complete" and "Removed dump" lines are not.
- `getArguments` and `getOptions` (lines 105-119) register the options with the framework. They declare `keep-only-s3` and no `upload-disk`, while `fire()` reads `keep-only-cloud` and `upload-disk`. All options are plain inputs here, and the error the framework raises for an undeclared option is not modelled.
- `date('YmdHis')` reads the wall clock. The reading is an input: a calendar value with year at most 9999, so the year has four digits.
- `basename` is modelled for byte strings with `/` as the only separator. Locale-dependent multibyte handling and PHP's stop at a NUL byte are not modelled. `getcwd()` returning `false` is not modelled either.
