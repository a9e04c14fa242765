/**
 * The PHP built-ins the command relies on, on byte strings with `/` as the only
 * path separator (PHP on a POSIX system): truthiness of an optional string,
 * `substr($s, 0, 1) == '/'`, `rtrim($s, '/')` and `basename($s)`.
 */
module PhpStrings {
  import opened Wrappers

  const Slash: char := '/'

  /**
   * PHP's `if ($v)` on a value that is either `null` or a string: `null`, `""`
   * and `"0"` are false, every other string is true.
   */
  predicate Truthy(v: Option<string>) {
    v.Some? && v.value != "" && v.value != "0"
  }

  /** `substr($s, 0, 1) == '/'`. */
  predicate StartsWithSlash(s: string) {
    |s| > 0 && s[0] == Slash
  }

  /** `true` when every character of `s` is `c`. */
  ghost predicate AllChar(s: string, c: char) {
    forall i :: 0 <= i < |s| ==> s[i] == c
  }

  /** `rtrim($s, $c)` for a single character `c`: drop every trailing `c`. */
  function RTrim(s: string, c: char): (r: string)
    ensures r <= s
    ensures r == [] || r[|r| - 1] != c
    ensures AllChar(s[|r|..], c)
  {
    if |s| > 0 && s[|s| - 1] == c then RTrim(s[..|s| - 1], c) else s
  }

  /** The characters of `s` after its last `/` (all of `s` when it has none). */
  function AfterLastSlash(s: string): (r: string)
    ensures Slash !in r
    ensures |r| <= |s| && s[|s| - |r|..] == r
    ensures |r| < |s| ==> s[|s| - |r| - 1] == Slash
  {
    if |s| == 0 || s[|s| - 1] == Slash then []
    else AfterLastSlash(s[..|s| - 1]) + [s[|s| - 1]]
  }

  /**
   * PHP's `basename($path)`: the last maximal run of non-`/` characters, that is,
   * the last component once the trailing slashes are gone; `""` when the path has
   * no character other than `/`.
   */
  function BaseName(path: string): (r: string)
    ensures Slash !in r
    ensures r == [] <==> AllChar(path, Slash)
  {
    var trimmed := RTrim(path, Slash);
    BaseNameOfTrimmed(trimmed);
    AllCharSplit(path, |trimmed|);
    AfterLastSlash(trimmed)
  }

  lemma BaseNameOfTrimmed(t: string)
    requires t == [] || t[|t| - 1] != Slash
    ensures AfterLastSlash(t) == [] <==> t == []
  {
  }

  lemma AllCharSplit(s: string, k: nat)
    requires k <= |s| && AllChar(s[k..], Slash)
    requires k == 0 || s[k - 1] != Slash
    ensures AllChar(s, Slash) <==> k == 0
  {
    if k > 0 {
      assert s[k - 1] != Slash;
    }
  }

  /** Trailing copies of `c` make no difference to `rtrim`. */
  lemma {:induction false} RTrimAbsorbs(s: string, tail: string, c: char)
    requires AllChar(tail, c)
    ensures RTrim(s + tail, c) == RTrim(s, c)
  {
    if tail != [] {
      var shorter := tail[..|tail| - 1];
      assert (s + tail)[..|s + tail| - 1] == s + shorter;
      RTrimAbsorbs(s, shorter, c);
    } else {
      assert s + tail == s;
    }
  }

  /** A string that does not end with `/` is left alone by `rtrim($s, '/')`. */
  lemma RTrimNoTrailing(s: string)
    requires s == [] || s[|s| - 1] != Slash
    ensures RTrim(s, Slash) == s
  {
  }

  /** Appending a slash-free `tail` extends the last component by `tail`. */
  lemma {:induction false} AfterLastSlashAppend(s: string, tail: string)
    requires Slash !in tail
    ensures AfterLastSlash(s + tail) == AfterLastSlash(s) + tail
  {
    if tail == [] {
      assert s + tail == s;
    } else {
      var shorter := tail[..|tail| - 1];
      var last := tail[|tail| - 1];
      assert shorter + [last] == tail;
      assert (s + tail)[..|s + tail| - 1] == s + shorter;
      assert Slash !in shorter by {
        forall i | 0 <= i < |shorter| ensures shorter[i] != Slash {
          assert shorter[i] == tail[i];
        }
      }
      AfterLastSlashAppend(s, shorter);
      assert last in tail;
    }
  }

  /** `basename($dir . '/' . $name)` is `$name` for a non-empty, slash-free name. */
  lemma BaseNameOfJoin(dir: string, name: string)
    requires name != [] && Slash !in name
    ensures BaseName(dir + [Slash] + name) == name
  {
    var joined := dir + [Slash] + name;
    assert joined[|joined| - 1] == name[|name| - 1];
    assert name[|name| - 1] in name;
    RTrimNoTrailing(joined);
    AfterLastSlashAppend(dir + [Slash], name);
    assert AfterLastSlash(dir + [Slash]) == [];
    assert joined == (dir + [Slash]) + name;
  }

  /**
   * Appending a slash-free suffix to a path that does not end with `/` appends
   * the same suffix to its basename.
   */
  lemma BaseNameOfSuffixed(path: string, suffix: string)
    requires path == [] || path[|path| - 1] != Slash
    requires suffix != [] && Slash !in suffix
    ensures BaseName(path + suffix) == BaseName(path) + suffix
  {
    var p := path + suffix;
    assert p[|p| - 1] == suffix[|suffix| - 1];
    assert suffix[|suffix| - 1] in suffix;
    RTrimNoTrailing(p);
    RTrimNoTrailing(path);
    AfterLastSlashAppend(path, suffix);
  }
}
