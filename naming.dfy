/**
 * Where a backup is written and what it is called: the `filePath`/`fileName`
 * pair that `fire()` computes from the optional `filename` argument, the `.gz`
 * suffix added after compression, and the key the dump gets in the S3 bucket.
 */
module Naming {
  import opened Wrappers
  import opened PhpStrings
  import opened Clock

  /** The pair of fields `filePath` and `fileName`. */
  datatype Target = Target(path: string, name: string)

  const GzSuffix: string := ".gz"

  /** The S3 folder used when `backup::s3.path` is not configured. */
  const DefaultS3Path: string := "dumps"

  /**
   * A `filename` argument: kept as it is when it starts with `/`, otherwise put
   * under the working directory; the name is the basename of the path.
   */
  function ArgumentTarget(arg: string, cwd: string): Target {
    var path := if StartsWithSlash(arg) then arg else cwd + [Slash] + arg;
    Target(path, BaseName(path))
  }

  /** The timestamped name: `date('YmdHis') . '.' . $extension`. */
  function DefaultName(now: DateTime, extension: string): string
    requires now.Valid()
  {
    FormatYmdHis(now) + "." + extension
  }

  /** No argument: the timestamped name under the dumps root, without its trailing `/`s. */
  function DefaultTarget(now: DateTime, extension: string, dumpsRoot: string): Target
    requires now.Valid()
  {
    var name := DefaultName(now, extension);
    Target(RTrim(dumpsRoot, Slash) + [Slash] + name, name)
  }

  /** The naming step of `fire()`; an argument PHP reads as false counts as absent. */
  function Resolve(arg: Option<string>, cwd: string, now: DateTime, extension: string,
                   dumpsRoot: string): Target
    requires now.Valid()
  {
    if Truthy(arg) then ArgumentTarget(arg.value, cwd) else DefaultTarget(now, extension, dumpsRoot)
  }

  /** `$this->fileName .= ".gz"; $this->filePath .= ".gz";` */
  function Suffixed(t: Target): Target {
    Target(t.path + GzSuffix, t.name + GzSuffix)
  }

  /** `getS3DumpsPath()`: the configured S3 folder, `"dumps"` by default. */
  function S3DumpsPath(configured: Option<string>): string {
    configured.GetOr(DefaultS3Path)
  }

  /** The object key of an upload: `getS3DumpsPath() . '/' . $this->fileName`. */
  function S3Key(s3Path: string, name: string): string {
    s3Path + [Slash] + name
  }

  // ---------------------------------------------------------------------------
  // Properties of the naming step

  /** An argument starting with `/` is the path itself; the name is its basename. */
  lemma AbsoluteArgument(arg: Option<string>, cwd: string, now: DateTime, extension: string,
                         dumpsRoot: string)
    requires now.Valid() && Truthy(arg) && StartsWithSlash(arg.value)
    ensures Resolve(arg, cwd, now, extension, dumpsRoot) == Target(arg.value, BaseName(arg.value))
  {
  }

  /** Any other non-empty argument is joined to the working directory with one `/`. */
  lemma RelativeArgument(arg: Option<string>, cwd: string, now: DateTime, extension: string,
                         dumpsRoot: string)
    requires now.Valid() && Truthy(arg) && !StartsWithSlash(arg.value)
    ensures var t := Resolve(arg, cwd, now, extension, dumpsRoot);
      t.path == cwd + "/" + arg.value && t.name == BaseName(t.path)
  {
  }

  /** The argument `"0"` is false in PHP, so it gives the timestamped default like no argument. */
  lemma ZeroArgumentIsDefault(cwd: string, now: DateTime, extension: string, dumpsRoot: string)
    requires now.Valid()
    ensures Resolve(Some("0"), cwd, now, extension, dumpsRoot)
         == Resolve(None, cwd, now, extension, dumpsRoot)
         == DefaultTarget(now, extension, dumpsRoot)
  {
  }

  /**
   * The default name is fourteen digits, a dot and the extension, and the digits
   * read back as the clock reading they came from.
   */
  lemma DefaultNameShape(now: DateTime, extension: string)
    requires now.Valid()
    ensures var name := DefaultName(now, extension);
      |name| == 15 + |extension|
      && (forall i :: 0 <= i < 14 ==> IsDigit(name[i]))
      && name[14] == '.' && name[15..] == extension
      && ParseYmdHis(name[..14]) == now
  {
    var name := DefaultName(now, extension);
    assert name[..14] == FormatYmdHis(now);
    FormatRoundTrip(now);
  }

  /** Runs at two different clock readings get two different default names. */
  lemma DefaultNamesDistinct(t1: DateTime, t2: DateTime, extension: string)
    requires t1.Valid() && t2.Valid() && t1 != t2
    ensures DefaultName(t1, extension) != DefaultName(t2, extension)
  {
    DefaultNameShape(t1, extension);
    DefaultNameShape(t2, extension);
  }

  /**
   * The default path is the trimmed root, one `/`, and the name: the join never
   * produces `//`.
   */
  lemma DefaultPathJoin(now: DateTime, extension: string, dumpsRoot: string)
    requires now.Valid()
    ensures var t := DefaultTarget(now, extension, dumpsRoot);
      var j := |RTrim(dumpsRoot, Slash)|;
      j + 1 < |t.path| && t.path[..j] == RTrim(dumpsRoot, Slash)
      && t.path[j] == Slash && t.path[j + 1..] == t.name
      && (j == 0 || t.path[j - 1] != Slash) && t.path[j + 1] != Slash
  {
    DefaultNameShape(now, extension);
  }

  /** A dumps root given with any number of trailing slashes names the same file. */
  lemma DefaultTargetIgnoresTrailingSlashes(now: DateTime, extension: string, dumpsRoot: string,
                                            slashes: string)
    requires now.Valid() && AllChar(slashes, Slash)
    ensures DefaultTarget(now, extension, dumpsRoot + slashes) == DefaultTarget(now, extension, dumpsRoot)
  {
    RTrimAbsorbs(dumpsRoot, slashes, Slash);
  }

  /**
   * Right after naming, `fileName` is the basename of `filePath` (for an engine
   * extension without `/`).
   */
  lemma NameIsBaseNameOfPath(arg: Option<string>, cwd: string, now: DateTime, extension: string,
                             dumpsRoot: string)
    requires now.Valid() && Slash !in extension
    ensures var t := Resolve(arg, cwd, now, extension, dumpsRoot); t.name == BaseName(t.path)
  {
    if !Truthy(arg) {
      var name := DefaultName(now, extension);
      assert Slash !in name by {
        DefaultNameShape(now, extension);
        forall i | 0 <= i < |name| ensures name[i] != Slash {
          if i >= 15 { assert name[i] == extension[i - 15]; }
        }
      }
      BaseNameOfJoin(RTrim(dumpsRoot, Slash), name);
    }
  }

  /**
   * The resolved path ends in a character other than `/` unless the argument
   * itself does.
   */
  lemma ResolvedPathEnd(arg: Option<string>, cwd: string, now: DateTime, extension: string,
                        dumpsRoot: string)
    requires now.Valid()
    requires Truthy(arg) ==> arg.value[|arg.value| - 1] != Slash
    requires !Truthy(arg) ==> Slash !in extension
    ensures var p := Resolve(arg, cwd, now, extension, dumpsRoot).path;
      p != [] && p[|p| - 1] != Slash
  {
    if !Truthy(arg) {
      var name := DefaultName(now, extension);
      DefaultNameShape(now, extension);
      var p := RTrim(dumpsRoot, Slash) + [Slash] + name;
      assert p[|p| - 1] == name[|name| - 1];
      if extension != [] {
        assert name[|name| - 1] == extension[|extension| - 1];
        assert extension[|extension| - 1] in extension;
      }
    }
  }

  lemma GzSuffixIsSlashFree()
    ensures GzSuffix != [] && Slash !in GzSuffix
  {
    assert |GzSuffix| == 3 && GzSuffix[0] == '.' && GzSuffix[1] == 'g' && GzSuffix[2] == 'z';
  }

  /** The `.gz` suffix keeps `fileName` the basename of `filePath` when the path does not end in `/`. */
  lemma SuffixedKeepsBaseName(t: Target)
    requires t.name == BaseName(t.path)
    requires t.path == [] || t.path[|t.path| - 1] != Slash
    ensures Suffixed(t).name == BaseName(Suffixed(t).path)
  {
    GzSuffixIsSlashFree();
    BaseNameOfSuffixed(t.path, GzSuffix);
  }

  /**
   * A relative argument ending in `/` breaks that: `dir/` names the file `dir`
   * and the path `<cwd>/dir/`; after compression the name is `dir.gz` while the
   * basename of `<cwd>/dir/.gz` is `.gz`.
   */
  lemma TrailingSlashBreaksSuffixedName(cwd: string, dir: string)
    requires dir != [] && Slash !in dir
    ensures var t := Suffixed(ArgumentTarget(dir + "/", cwd));
      t.name == dir + ".gz" && BaseName(t.path) == ".gz" && t.name != BaseName(t.path)
  {
    var arg := dir + [Slash];
    var q := cwd + [Slash] + dir;
    var p := cwd + [Slash] + arg;
    assert !StartsWithSlash(arg) by {
      assert arg[0] == dir[0] && dir[0] in dir;
    }
    assert p == q + [Slash];
    assert BaseName(p) == dir by {
      RTrimAbsorbs(q, [Slash], Slash);
      BaseNameOfJoin(cwd, dir);
    }
    GzSuffixIsSlashFree();
    BaseNameOfJoin(q, GzSuffix);
    assert p + GzSuffix == q + [Slash] + GzSuffix;
    assert |dir + GzSuffix| > |GzSuffix|;
  }

  /**
   * When both the working directory and the dumps root are absolute, so is the
   * resolved path.
   */
  lemma ResolvedPathIsAbsolute(arg: Option<string>, cwd: string, now: DateTime, extension: string,
                               dumpsRoot: string)
    requires now.Valid() && StartsWithSlash(cwd) && StartsWithSlash(dumpsRoot)
    ensures StartsWithSlash(Resolve(arg, cwd, now, extension, dumpsRoot).path)
  {
    if !Truthy(arg) {
      var trimmed := RTrim(dumpsRoot, Slash);
      assert trimmed != [] ==> trimmed[0] == dumpsRoot[0];
    }
  }

  /** Without configuration the S3 key is `dumps/<fileName>`. */
  lemma DefaultS3Key(name: string)
    ensures S3Key(S3DumpsPath(None), name) == "dumps/" + name
  {
  }

  /** The basename of an S3 key is the file's name, so the object keeps the local name. */
  lemma S3KeyBaseName(configured: Option<string>, name: string)
    requires name != [] && Slash !in name
    ensures BaseName(S3Key(S3DumpsPath(configured), name)) == name
  {
    BaseNameOfJoin(S3DumpsPath(configured), name);
  }
}
