/** Where an archive entry lives: `getDir` and `getRelativeDir` of proxy/builder.go. */
module RelativeDir {
  import opened GoStrings

  /** The text after the `mod@version/` prefix of an archive entry name; the empty
      name makes the source slice out of range. */
  function EntryPath(zipPath: string): (r: string)
    requires zipPath != []
  {
    var i := IndexOf(zipPath, '@');
    var tail := zipPath[if i == -1 then 0 else i..];
    var j := IndexOf(tail, '/');
    tail[(if j == -1 then 0 else j) + 1..]
  }

  /** The directory of an archive entry relative to the module root: drop everything
      up to the first `/` after the first `@`, then take the parent directory. */
  function GetDir(zipPath: string): (r: string)
    requires zipPath != []
  {
    Dir(EntryPath(zipPath))
  }

  lemma AtFirst(prefix: string, tail: string)
    requires '@' !in prefix && tail != [] && tail[0] == '@'
    ensures IndexOf(prefix + tail, '@') == |prefix|
  {
    IndexOfAfter(prefix, tail, '@');
  }

  lemma SlashAfterVersion(version: string, rest: string)
    requires '/' !in version
    ensures IndexOf("@" + version + ("/" + rest), '/') == |version| + 1
  {
    var a := "@" + version;
    assert '/' !in a;
    IndexOfAfter(a, "/" + rest, '/');
  }

  lemma EntryPathOfVersionedEntry(prefix: string, version: string, rest: string)
    requires '@' !in prefix && '/' !in version
    ensures EntryPath(prefix + "@" + version + "/" + rest) == rest
  {
    var a := "@" + version;
    var b := "/" + rest;
    var zip := prefix + "@" + version + "/" + rest;
    assert zip == prefix + (a + b);
    AtFirst(prefix, a + b);
    SlashAfterVersion(version, rest);
    assert zip[|prefix|..] == a + b;
    assert (a + b)[|a| + 1..] == rest;
  }

  /** For an entry named `prefix@version/rest`, the directory is that of `rest`. */
  lemma GetDirOfVersionedEntry(prefix: string, version: string, rest: string)
    requires '@' !in prefix && '/' !in version
    ensures GetDir(prefix + "@" + version + "/" + rest) == Dir(rest)
  {
    EntryPathOfVersionedEntry(prefix, version, rest);
  }

  /** The shapes of the source's table test for `getDir`: a file at the module root
      (`zap@v1.9.1/README.md`) is in ".", a nested one in its directory path. */
  lemma GetDirOfRootEntry(prefix: string, version: string, base: string)
    requires '@' !in prefix && '/' !in version && '/' !in base
    ensures GetDir(prefix + "@" + version + "/" + base) == "."
  {
    GetDirOfVersionedEntry(prefix, version, base);
  }

  lemma GetDirOfNestedEntry(prefix: string, version: string, dir: string, base: string)
    requires '@' !in prefix && '/' !in version && '/' !in base
    ensures GetDir(prefix + "@" + version + "/" + dir + "/" + base) == dir
  {
    assert prefix + "@" + version + "/" + dir + "/" + base
        == prefix + "@" + version + "/" + (dir + "/" + base);
    GetDirOfVersionedEntry(prefix, version, dir + "/" + base);
    DirOfChild(dir, base);
  }

  /** A directory inside `sub` other than `sub` itself is `sub`, a `/`, then the rest. */
  lemma InsideSplits(dir: string, sub: string)
    requires sub + "/" <= dir + "/" && dir != sub
    ensures |sub| < |dir| && sub + "/" + dir[|sub| + 1..] == dir
  {
    var x := sub + "/";
    var y := dir + "/";
    assert y[..|sub|] == x[..|sub|] == sub;
    assert dir[|sub|] == y[|sub|] == x[|sub|] == '/';
    assert dir[..|sub|] == y[..|sub|];
    assert dir == dir[..|sub|] + [dir[|sub|]] + dir[|sub| + 1..];
  }

  /** The entry's directory relative to the requested sub-package, and whether the
      entry lies inside that sub-package at all. */
  function GetRelativeDir(file: string, relativeTo: string): (r: (string, bool))
    requires file != []
    ensures relativeTo == "" ==> r == (GetDir(file), true)
    ensures relativeTo != "" ==> (r.1 <==> relativeTo + "/" <= GetDir(file) + "/")
    ensures !r.1 ==> r.0 == GetDir(file)
    ensures relativeTo != "" && r.1 && GetDir(file) == relativeTo ==> r.0 == "."
    ensures relativeTo != "" && r.1 && GetDir(file) != relativeTo ==>
              relativeTo + "/" + r.0 == GetDir(file)
  {
    var dir := GetDir(file);
    if relativeTo == "" then (dir, true)
    else if !(relativeTo + "/" <= dir + "/") then (dir, false)
    else if dir == relativeTo then (".", true)
    else
      InsideSplits(dir, relativeTo);
      (dir[|relativeTo| + 1..], true)
  }

  /** A requested sub-package at least as long as the entry's directory but different
      from it is outside, as in the source's table test: `three` against `threefour`
      (a shared textual prefix only) and against `three/four` (a deeper request). */
  lemma LongerRequestIsOutside(file: string, relativeTo: string)
    requires file != [] && relativeTo != ""
    requires |relativeTo| >= |GetDir(file)| && relativeTo != GetDir(file)
    ensures GetRelativeDir(file, relativeTo) == (GetDir(file), false)
  {
    var dir := GetDir(file);
    if relativeTo + "/" <= dir + "/" {
      assert (relativeTo + "/")[..|relativeTo|] == relativeTo;
      assert (dir + "/")[..|dir|] == dir;
    }
  }
}
