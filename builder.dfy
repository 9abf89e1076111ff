/** The documentation builder of proxy/builder.go: an object that remembers the
    examples of the package and the go.mod files of the archive while it assembles one
    documentation page. */
module Builder {
  import opened GoStrings
  import opened Seqs
  import opened GoSource
  import opened Doc
  import opened RelativeDir
  import opened Examples
  import opened Values
  import opened Assembly
  import Sorting

  /** `getFunc`: the record of a function (`typeName == ""`) or of a method of `typeName`. */
  function FuncFor(examples: seq<DocExample>, f: DocFunc, typeName: string, toHTML: string -> string): Func
  {
    Func(FuncID(f.name, typeName), f.name, f.declText, toHTML(f.doc), f.recv,
         ExamplesFor(examples, ExamplePrefix(f.name, typeName)))
  }

  /** `getFuncs`: one record per function, in order. */
  function FuncsFor(examples: seq<DocExample>, funcs: seq<DocFunc>, typeName: string, toHTML: string -> string): (r: seq<Func>)
    ensures |r| == |funcs|
    ensures forall k :: 0 <= k < |funcs| ==> r[k] == FuncFor(examples, funcs[k], typeName, toHTML)
  {
    seq(|funcs|, k requires 0 <= k < |funcs| => FuncFor(examples, funcs[k], typeName, toHTML))
  }

  /** The anchors of a type's methods (or of the package's functions) do not clash when
      their names, which as Go identifiers hold no `.`, are distinct. */
  lemma FuncIDsDistinct(examples: seq<DocExample>, funcs: seq<DocFunc>, typeName: string, toHTML: string -> string)
    requires '.' !in typeName && forall k :: 0 <= k < |funcs| ==> '.' !in funcs[k].name
    requires forall k, l :: 0 <= k < l < |funcs| ==> funcs[k].name != funcs[l].name
    ensures var r := FuncsFor(examples, funcs, typeName, toHTML);
            forall k, l :: 0 <= k < l < |r| ==> r[k].id != r[l].id
  {
    var r := FuncsFor(examples, funcs, typeName, toHTML);
    forall k, l | 0 <= k < l < |r|
      ensures r[k].id != r[l].id
    {
      if r[k].id == r[l].id {
        FuncIDInjective(funcs[k].name, typeName, funcs[l].name, typeName);
      }
    }
  }

  /** The declarations `getConsts` indexes without checking are in order. */
  predicate TypeWellFormed(t: DocType)
  {
    && (forall k :: 0 <= k < |t.consts| ==> WellFormed(t.consts[k]))
    && (forall k :: 0 <= k < |t.vars| ==> WellFormed(t.vars[k]))
  }

  predicate PackageWellFormed(p: DocPackage)
  {
    && (forall k :: 0 <= k < |p.consts| ==> WellFormed(p.consts[k]))
    && (forall k :: 0 <= k < |p.vars| ==> WellFormed(p.vars[k]))
    && (forall k :: 0 <= k < |p.types| ==> TypeWellFormed(p.types[k]))
  }

  /** `getType`: a struct lists its named fields, any other type shows its spec. */
  function TypeFor(examples: seq<DocExample>, t: DocType, toHTML: string -> string): Type
    requires TypeWellFormed(t)
  {
    Type(t.name, toHTML(t.doc),
         if t.structFields.Some? then "struct" else t.specText,
         t.declText,
         if t.structFields.Some? then FieldsFor(t.structFields.value) else [],
         ExamplesFor(examples, t.name),
         FuncsFor(examples, t.methods, t.name, toHTML),
         FuncsFor(examples, t.funcs, "", toHTML),
         ConstsSpec(t.consts, toHTML),
         ConstsSpec(t.vars, toHTML))
  }

  /** The go.mod text of the page: the closest go.mod with its links, if there is one. */
  function GoModText(m: ModFile, tc: Toolchain): string
  {
    tc.formatHTML(m.file.syntax, ModLinks(m.file))
  }

  /** The sub-directory list of a page: one entry per directory, each with its synopsis
      and link, ordered by name. */
  ghost predicate SubdirsOf(subdirs: seq<Subdir>, dirs: set<string>, importPath: string, ver: string,
                            files: seq<ZipEntry>, tc: Toolchain)
  {
    EntriesOf(subdirs, dirs, importPath, ver, files, tc) && Sorting.SortedBy(subdirs, SubdirLess())
  }

  /** The page `getGoDoc` assembles once the archive has been scanned into `s`,
      the examples are known and `doc.New` has produced `dpkg`. */
  function DocFor(s: Scan, examples: seq<DocExample>, dpkg: DocPackage, ver: string, importPath: string,
                  subdirs: seq<Subdir>, goMod: string, toHTML: string -> string): Documentation
    requires PackageWellFormed(dpkg)
  {
    var pkgExamples := ExamplesFor(examples, "");
    Documentation(
      s.pkgName, ver, [], "", importPath, toHTML(dpkg.doc),
      ConstsSpec(dpkg.consts, toHTML),
      ConstsSpec(dpkg.vars, toHTML),
      FuncsFor(examples, dpkg.funcs, "", toHTML),
      seq(|dpkg.types|, k requires 0 <= k < |dpkg.types| => TypeFor(examples, dpkg.types[k], toHTML)),
      s.files,
      subdirs,
      NavLinks(|pkgExamples| > 0, |s.files| > 0, |goMod| > 0, |subdirs| > 0),
      pkgExamples,
      goMod)
  }

  /** `getFields`. */
  method GetFields(list: seq<AstField>) returns (fields: seq<Field>)
    ensures fields == FieldsFor(list)
  {
    fields := [];
    var i := 0;
    while i < |list|
      invariant 0 <= i <= |list|
      invariant fields == FieldsFor(list[..i])
    {
      assert list[..i + 1][..i] == list[..i];
      var field := FieldFor(list[i]);
      if field.Some? {
        fields := fields + [field.value];
      }
      i := i + 1;
    }
    assert list[..i] == list;
  }

  /** `getMod`: the go.mod text with a link for every required module, replacements
      overriding. */
  method GetMod(m: GoModFile, tc: Toolchain) returns (r: string)
    ensures r == tc.formatHTML(m.syntax, ModLinks(m))
  {
    var mp: map<string, string> := map[];
    var i := 0;
    while i < |m.require|
      invariant 0 <= i <= |m.require|
      invariant mp == AddLinks(map[], m.require[..i])
    {
      assert m.require[..i + 1][..i] == m.require[..i];
      var req := m.require[i];
      mp := mp[req.path := "/" + req.path + "/@v/" + req.version];
      i := i + 1;
    }
    assert m.require[..i] == m.require;
    ghost var reqs := mp;
    var targets := Targets(m.replace);
    var j := 0;
    while j < |m.replace|
      invariant 0 <= j <= |m.replace|
      invariant mp == AddLinks(reqs, targets[..j])
    {
      assert targets[..j + 1][..j] == targets[..j];
      var rep := m.replace[j];
      mp := mp[rep.to.path := "/" + rep.to.path + "/@v/" + rep.to.version];
      j := j + 1;
    }
    assert targets[..j] == targets;
    r := tc.formatHTML(m.syntax, mp);
  }

  /** Exactly one entry per directory of `dirs`, each with its synopsis and link. */
  ghost predicate EntriesOf(list: seq<Subdir>, dirs: set<string>, importPath: string, ver: string,
                            files: seq<ZipEntry>, tc: Toolchain)
  {
    && |list| == |dirs|
    && (forall d :: d in dirs <==> exists k :: 0 <= k < |list| && list[k].name == d)
    && (forall k :: 0 <= k < |list| ==>
          list[k] == SubdirEntry(list[k].name, importPath, ver, tc.synopsis(list[k].name, files)))
  }

  /** Reordering the entries keeps them the entries of the same directories. */
  lemma EntriesOfPermutation(list: seq<Subdir>, perm: seq<Subdir>, dirs: set<string>, importPath: string,
                             ver: string, files: seq<ZipEntry>, tc: Toolchain)
    requires EntriesOf(list, dirs, importPath, ver, files, tc)
    requires multiset(perm) == multiset(list)
    ensures EntriesOf(perm, dirs, importPath, ver, files, tc)
  {
    assert |perm| == |multiset(perm)| == |multiset(list)| == |list|;
    forall x
      ensures x in perm <==> x in list
    {
      assert x in perm <==> x in multiset(perm);
      assert x in list <==> x in multiset(list);
    }
    forall d
      ensures d in dirs <==> exists k :: 0 <= k < |perm| && perm[k].name == d
    {
      if d in dirs {
        var k :| 0 <= k < |list| && list[k].name == d;
        assert list[k] in perm;
      }
      if exists k :: 0 <= k < |perm| && perm[k].name == d {
        var k :| 0 <= k < |perm| && perm[k].name == d;
        assert perm[k] in list;
      }
    }
    forall k | 0 <= k < |perm|
      ensures perm[k] == SubdirEntry(perm[k].name, importPath, ver, tc.synopsis(perm[k].name, files))
    {
      assert perm[k] in list;
    }
  }

  /** The names of the entries of `list` are the directories of `names`. */
  ghost predicate NamesAre(list: seq<Subdir>, names: set<string>)
  {
    forall d :: d in names <==> exists k :: 0 <= k < |list| && list[k].name == d
  }

  lemma NamesAppend(list: seq<Subdir>, e: Subdir, names: set<string>)
    requires NamesAre(list, names)
    ensures NamesAre(list + [e], names + {e.name})
  {
    var l := list + [e];
    forall x
      ensures x in names + {e.name} <==> exists k :: 0 <= k < |l| && l[k].name == x
    {
      if x == e.name {
        assert l[|list|].name == x;
      } else if exists k :: 0 <= k < |l| && l[k].name == x {
        var k :| 0 <= k < |l| && l[k].name == x;
        assert k < |list| && list[k].name == x;
      }
      if x in names {
        var k :| 0 <= k < |list| && list[k].name == x;
        assert l[k].name == x;
      }
    }
  }

  /** The state of the loop over `dirMap`: `list` holds the entries of the directories
      visited so far, `rest` those still to visit. */
  ghost predicate ListedSoFar(list: seq<Subdir>, rest: set<string>, dirs: set<string>, importPath: string,
                              ver: string, files: seq<ZipEntry>, tc: Toolchain)
  {
    rest <= dirs && EntriesOf(list, dirs - rest, importPath, ver, files, tc)
  }

  lemma ListStep(list: seq<Subdir>, rest: set<string>, dirs: set<string>, importPath: string,
                 ver: string, files: seq<ZipEntry>, tc: Toolchain, d: string)
    requires ListedSoFar(list, rest, dirs, importPath, ver, files, tc) && d in rest
    ensures ListedSoFar(list + [SubdirEntry(d, importPath, ver, tc.synopsis(d, files))], rest - {d},
                        dirs, importPath, ver, files, tc)
  {
    var e := SubdirEntry(d, importPath, ver, tc.synopsis(d, files));
    NamesAppend(list, e, dirs - rest);
    assert dirs - (rest - {d}) == (dirs - rest) + {d};
    assert |(dirs - rest) + {d}| == |dirs - rest| + 1;
  }

  /** The loop over `dirMap` in `getGoDoc`: one entry per directory, in the map's order. */
  method ListSubdirs(dirs: set<string>, importPath: string, ver: string, files: seq<ZipEntry>, tc: Toolchain)
    returns (list: seq<Subdir>)
    ensures EntriesOf(list, dirs, importPath, ver, files, tc)
  {
    list := [];
    var rest := dirs;
    assert dirs - rest == {};
    while rest != {}
      invariant ListedSoFar(list, rest, dirs, importPath, ver, files, tc)
      decreases |rest|
    {
      var d :| d in rest;
      ListStep(list, rest, dirs, importPath, ver, files, tc, d);
      list := list + [SubdirEntry(d, importPath, ver, tc.synopsis(d, files))];
      rest := rest - {d};
    }
    assert dirs - rest == dirs;
  }

  /** The sub-directory entries of `getGoDoc`, sorted by name with `sort.Slice`. */
  method CollectSubdirs(dirs: set<string>, importPath: string, ver: string, files: seq<ZipEntry>, tc: Toolchain)
    returns (subdirs: seq<Subdir>)
    ensures SubdirsOf(subdirs, dirs, importPath, ver, files, tc)
  {
    var list := ListSubdirs(dirs, importPath, ver, files, tc);
    var a := new Subdir[|list|](k requires 0 <= k < |list| => list[k]);
    assert a[..] == list;
    SubdirLessIsStrictWeakOrder();
    Sorting.SortSlice(a, SubdirLess());
    subdirs := a[..];
    EntriesOfPermutation(list, subdirs, dirs, importPath, ver, files, tc);
  }

  /** The navigation bar of `getGoDoc`: the index, then each section the page is not
      missing. */
  method GetNavLinks(hasExamples: bool, hasFiles: bool, hasGoMod: bool, hasSubdirs: bool) returns (links: seq<string>)
    ensures links == NavLinks(hasExamples, hasFiles, hasGoMod, hasSubdirs)
  {
    var sections := [IndexSection];
    if hasExamples {
      sections := sections + [ExamplesSection];
    }
    if hasFiles {
      sections := sections + [FilesSection];
    }
    if hasGoMod {
      sections := sections + [GoModSection];
    }
    if hasSubdirs {
      sections := sections + [DirectoriesSection];
    }
    links := seq(|sections|, k requires 0 <= k < |sections| => sections[k].Label());
  }

  /** The body of `getGoDoc`'s loop over the archive for one entry: a go.mod is parsed
      and kept, other files than `.go` ones are skipped. */
  method ScanEntry(s: Scan, f: ZipEntry, subpkg: string, tc: Toolchain) returns (r: Result<Scan, BuildError>)
    ensures r == Step(s, f, Classify(f, subpkg), tc)
  {
    if Base(f.name) == "go.mod" {
      var modf := tc.parseMod(f.content);
      if modf.None? {
        return Err(ModParseError(f.name));
      }
      return Ok(s.(mods := s.mods + [ModFile(Dir(f.name), modf.value)]));
    }
    if Ext(f.name) != ".go" {
      return Ok(s);
    }
    r := ScanGoFile(s, f, subpkg, tc);
  }

  /** A `.go` entry: skipped outside the requested package, only its directory kept in a
      sub-directory of it, parsed otherwise. */
  method ScanGoFile(s: Scan, f: ZipEntry, subpkg: string, tc: Toolchain) returns (r: Result<Scan, BuildError>)
    requires f.name != []
    ensures r == Step(s, f, ClassifyGo(f.name, subpkg), tc)
  {
    var (dir, valid) := GetRelativeDir(f.name, subpkg);
    if !valid {
      return Ok(s);
    }
    if dir != "." {
      return Ok(s.(dirs := s.dirs + {dir}));
    }
    r := ScanPackageFile(s, f, tc);
  }

  /** A `.go` entry of the package itself: parsed, and kept as a test file or as a
      package file; the first package file names the package. */
  method ScanPackageFile(s: Scan, f: ZipEntry, tc: Toolchain) returns (r: Result<Scan, BuildError>)
    ensures r == Step(s, f, SourceKind(f.name), tc)
  {
    var astFile := tc.parseGo(f.name, f.content);
    if astFile.None? {
      return Err(SourceParseError(f.name));
    }
    if HasSuffix(f.name, "_test.go") {
      return Ok(s.(tests := s.tests + [astFile.value]));
    }
    var pkgName := s.pkgName;
    if pkgName == "" {
      pkgName := astFile.value.packageName;
    }
    return Ok(s.(sources := s.sources[f.name := astFile.value], pkgName := pkgName,
                 files := s.files + [File(Base(f.name))]));
  }

  class Builder {
    /** The examples of the package, found in its test files. */
    var examples: seq<DocExample>
    /** The go.mod files of the archive. */
    var mods: seq<ModFile>

    constructor ()
      ensures examples == [] && mods == []
    {
      examples := [];
      mods := [];
    }

    /** `getExamples`: the examples named after `name`, in order. */
    method GetExamples(name: string) returns (docs: seq<Example>)
      ensures docs == ExamplesFor(examples, name)
    {
      docs := [];
      var i := 0;
      while i < |examples|
        invariant 0 <= i <= |examples|
        invariant docs == ExamplesFor(examples[..i], name)
      {
        var e := examples[i];
        assert examples[..i + 1][..i] == examples[..i];
        assert ExamplesFor(examples[..i + 1], name) == docs + (if ExampleFor(e, name).Some? then [ExampleFor(e, name).value] else []);
        i := i + 1;
        if !(name <= e.name) {
          continue;
        }
        var n := e.name[|name|..];
        if n != "" {
          if LastIndexOf(n, '_') != 0 {
            continue;
          }
          n := n[1..];
          if StartsWithUppercase(n) {
            continue;
          }
          n := Title(n);
        }
        if e.printed.None? {
          continue;
        }
        var (code, output) := FmtExampleCode(e.printed.value, e.output);
        docs := docs + [Example("Example" + name + "--" + n, n, e.doc, code, output)];
      }
      assert examples[..i] == examples;
    }

    /** `getFunc`. */
    method GetFunc(f: DocFunc, typeName: string, toHTML: string -> string) returns (r: Func)
      ensures r == FuncFor(examples, f, typeName, toHTML)
    {
      var id := f.name;
      if typeName != "" {
        id := typeName + "." + f.name;
      }
      var examplePrefix := f.name;
      if typeName != "" {
        examplePrefix := examplePrefix + "_" + typeName;
      }
      var ex := GetExamples(examplePrefix);
      r := Func(id, f.name, f.declText, toHTML(f.doc), f.recv, ex);
    }

    /** `getFuncs`. */
    method GetFuncs(funcs: seq<DocFunc>, typeName: string, toHTML: string -> string) returns (res: seq<Func>)
      ensures res == FuncsFor(examples, funcs, typeName, toHTML)
    {
      res := [];
      var i := 0;
      while i < |funcs|
        invariant 0 <= i <= |funcs|
        invariant |res| == i
        invariant forall k :: 0 <= k < i ==> res[k] == FuncFor(examples, funcs[k], typeName, toHTML)
      {
        var ff := GetFunc(funcs[i], typeName, toHTML);
        res := res + [ff];
        i := i + 1;
      }
    }

    /** `getType`. */
    method GetType(t: DocType, toHTML: string -> string) returns (r: Type)
      requires TypeWellFormed(t)
      ensures r == TypeFor(examples, t, toHTML)
    {
      var funcs := GetFuncs(t.funcs, "", toHTML);
      var methods := GetFuncs(t.methods, t.name, toHTML);
      var typ: string;
      var fields: seq<Field> := [];
      if t.structFields.Some? {
        typ := "struct";
        fields := GetFields(t.structFields.value);
      } else {
        typ := t.specText;
      }
      var consts := GetConsts(t.consts, toHTML);
      var vars := GetConsts(t.vars, toHTML);
      var ex := GetExamples(t.name);
      r := Type(t.name, toHTML(t.doc), typ, t.declText, fields, ex, methods, funcs, consts, vars);
    }

    /** `getTypes`. */
    method GetTypes(types: seq<DocType>, toHTML: string -> string) returns (tt: seq<Type>)
      requires forall k :: 0 <= k < |types| ==> TypeWellFormed(types[k])
      ensures |tt| == |types|
      ensures forall k :: 0 <= k < |types| ==> tt[k] == TypeFor(examples, types[k], toHTML)
    {
      tt := [];
      var i := 0;
      while i < |types|
        invariant 0 <= i <= |types|
        invariant |tt| == i
        invariant forall k :: 0 <= k < i ==> tt[k] == TypeFor(examples, types[k], toHTML)
      {
        var t := GetType(types[i], toHTML);
        tt := tt + [t];
        i := i + 1;
      }
    }

    /** `getClosestModFile`. */
    method GetClosestModFile(dir: string) returns (r: Option<ModFile>)
      ensures r == ClosestModFile(mods, dir)
    {
      var ms := mods;
      if |ms| == 1 {
        return Some(ms[0]);
      }
      var longest: Option<ModFile> := None;
      ghost var at: Option<nat> := None;
      var i := 0;
      while i < |ms|
        invariant 0 <= i <= |ms|
        invariant at == ClosestIndex(ms[..i], dir)
        invariant at.Some? ==> at.value < i
        invariant longest == if at.Some? then Some(ms[at.value]) else None
      {
        var m := ms[i];
        ClosestIndexNext(ms, i, dir);
        if longest.Some? && |longest.value.path| > |m.path| {
          i := i + 1;
          continue;
        }
        if m.path <= dir {
          longest := Some(m);
          at := Some(i);
        }
        i := i + 1;
      }
      assert ms[..i] == ms;
      r := longest;
    }

    /** The loop of `getGoDoc` over the archive: go.mods are parsed into `mods`,
        sub-directories collected, test files and package files parsed and kept. It
        returns at the first go.mod, test file or package file that does not parse. */
    method ScanArchive(subpkg: string, files: seq<ZipEntry>, tc: Toolchain) returns (r: Result<Scan, BuildError>)
      modifies this
      ensures r == ScanAll(files, KindIn(subpkg), tc, old(mods))
      ensures r.Ok? ==> mods == r.value.mods
      ensures r.Err? ==> exists n :: 0 <= n <= |files| && ScanAll(files[..n], KindIn(subpkg), tc, old(mods)).Ok? &&
                                     mods == ScanAll(files[..n], KindIn(subpkg), tc, old(mods)).value.mods
      ensures examples == old(examples)
    {
      ghost var mods0 := mods;
      ghost var kind := KindIn(subpkg);
      var scan := Scan(mods, {}, map[], [], [], "");
      var i := 0;
      while i < |files|
        invariant 0 <= i <= |files| && examples == old(examples) && mods == scan.mods
        invariant ScanAll(files[..i], kind, tc, mods0) == Ok(scan)
      {
        var next := ScanEntry(scan, files[i], subpkg, tc);
        ScanAllNext(files, kind, tc, mods0, i);
        i := i + 1;
        if next.Err? {
          ScanAllStopsAtError(files, kind, tc, mods0, i);
          return next;
        }
        scan := next.value;
        mods := scan.mods;
      }
      assert files[..i] == files;
      r := Ok(scan);
    }

    /** The go.mod text of `getGoDoc`: none without go.mods, the closest one with its
        links otherwise, or the failure when no go.mod encloses the module path. */
    method GoModFor(mod: string, tc: Toolchain) returns (r: Option<string>)
      ensures r.None? <==> |mods| > 0 && ClosestModFile(mods, mod).None?
      ensures r.Some? ==> r.value == if |mods| > 0 then GoModText(ClosestModFile(mods, mod).value, tc) else ""
    {
      var goMod := "";
      if |mods| > 0 {
        var modf := GetClosestModFile(mod);
        if modf.None? {
          return None;
        }
        goMod := GetMod(modf.value.file, tc);
      }
      return Some(goMod);
    }

    /** The fields `getGoDoc` fills from `doc.New`'s package, for given sub-directories and
        go.mod text. */
    method PageOf(s: Scan, dpkg: DocPackage, ver: string, importPath: string, subdirs: seq<Subdir>,
                  goMod: string, toHTML: string -> string) returns (d: Documentation)
      requires PackageWellFormed(dpkg)
      ensures d == DocFor(s, examples, dpkg, ver, importPath, subdirs, goMod, toHTML)
    {
      var packageDoc := toHTML(dpkg.doc);
      var constants := GetConsts(dpkg.consts, toHTML);
      var variables := GetConsts(dpkg.vars, toHTML);
      var funcs := GetFuncs(dpkg.funcs, "", toHTML);
      var types := GetTypes(dpkg.types, toHTML);
      var docExamples := GetExamples("");
      var navLinks := GetNavLinks(|docExamples| > 0, |s.files| > 0, |goMod| > 0, |subdirs| > 0);
      d := Documentation(s.pkgName, ver, [], "", importPath, packageDoc, constants, variables, funcs,
                         types, s.files, subdirs, navLinks, docExamples, goMod);
    }

    /** The part of `getGoDoc` after the archive loop: the page assembled from the
        scanned archive `s`, the examples and go.mods already recorded. */
    method Assemble(mod: string, ver: string, s: Scan, files: seq<ZipEntry>, tc: Toolchain)
      returns (r: Result<Documentation, BuildError>)
      requires forall n, m :: PackageWellFormed(tc.docNew(n, m))
      requires mods == s.mods
      ensures r.Err? <==> |mods| > 0 && ClosestModFile(mods, mod).None?
      ensures r.Err? ==> r.error == NoClosestGoMod
      ensures r.Ok? ==>
                var importPath := tc.decodePath(mod).GetOr("");
                var goMod := if |s.mods| > 0 then GoModText(ClosestModFile(s.mods, mod).value, tc) else "";
                && SubdirsOf(r.value.subdirs, s.dirs, importPath, ver, files, tc)
                && r.value == DocFor(s, examples, tc.docNew(mod, s.sources), ver, importPath,
                                     r.value.subdirs, goMod, tc.toHTML)
    {
      var dpkg := tc.docNew(mod, s.sources);
      var importPath := tc.decodePath(mod).GetOr("");
      var subdirs := CollectSubdirs(s.dirs, importPath, ver, files, tc);
      var goMod := GoModFor(mod, tc);
      if goMod.None? {
        return Err(NoClosestGoMod);
      }
      var d := PageOf(s, dpkg, ver, importPath, subdirs, goMod.value, tc.toHTML);
      r := Ok(d);
    }

    /** `getGoDoc`: the page of the package `subpkg` of module `mod` at version `ver`,
        built from the archive entries `files`. */
    method GetGoDoc(mod: string, ver: string, subpkg: string, files: seq<ZipEntry>, tc: Toolchain)
      returns (r: Result<Documentation, BuildError>)
      requires forall n, m :: PackageWellFormed(tc.docNew(n, m))
      modifies this
      ensures var scan := ScanAll(files, KindIn(subpkg), tc, old(mods));
              scan.Err? ==> r == Err(scan.error) && examples == old(examples)
      ensures var scan := ScanAll(files, KindIn(subpkg), tc, old(mods));
              scan.Ok? ==>
                && mods == scan.value.mods
                && examples == tc.examples(scan.value.tests)
                && (r.Err? <==> |mods| > 0 && ClosestModFile(mods, mod).None?)
                && (r.Err? ==> r.error == NoClosestGoMod)
      ensures r.Ok? ==>
                var s := ScanAll(files, KindIn(subpkg), tc, old(mods)).value;
                var importPath := tc.decodePath(mod).GetOr("");
                var goMod := if |s.mods| > 0 then GoModText(ClosestModFile(s.mods, mod).value, tc) else "";
                && SubdirsOf(r.value.subdirs, s.dirs, importPath, ver, files, tc)
                && r.value == DocFor(s, examples, tc.docNew(mod, s.sources), ver, importPath,
                                     r.value.subdirs, goMod, tc.toHTML)
    {
      var scan := ScanArchive(subpkg, files, tc);
      if scan.Err? {
        return Err(scan.error);
      }
      examples := tc.examples(scan.value.tests);
      r := Assemble(mod, ver, scan.value, files, tc);
    }
  }
}
