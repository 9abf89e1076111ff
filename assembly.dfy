/** The rules by which proxy/builder.go assembles a documentation page: identifiers of
    functions and their example prefixes, struct fields, the go.mod link map, the choice
    of the closest go.mod, the partition of the archive's entries and the navigation
    links. The loops that apply them are in module Builder. */
module Assembly {
  import opened GoStrings
  import opened Seqs
  import opened GoSource
  import opened Doc
  import opened RelativeDir
  import Sorting

  // ---------------------------------------------------------------- functions

  /** The anchor of a function: its name, or `TypeName.FuncName` for a method. */
  function FuncID(name: string, typeName: string): string
  {
    if typeName != "" then typeName + "." + name else name
  }

  /** The name examples of a function or method start with: `FuncName_TypeName` for a
      method. */
  function ExamplePrefix(name: string, typeName: string): string
  {
    if typeName != "" then name + "_" + typeName else name
  }

  /** Names without `.` (as Go identifiers are) give distinct anchors: the anchor
      determines the function name and its type. */
  lemma FuncIDInjective(n1: string, t1: string, n2: string, t2: string)
    requires '.' !in n1 && '.' !in t1 && '.' !in n2 && '.' !in t2
    requires FuncID(n1, t1) == FuncID(n2, t2)
    ensures n1 == n2 && t1 == t2
  {
    var id := FuncID(n1, t1);
    if t1 != "" && t2 != "" {
      assert id == t1 + ("." + n1) == t2 + ("." + n2);
      IndexOfAfter(t1, "." + n1, '.');
      IndexOfAfter(t2, "." + n2, '.');
      assert IndexOf("." + n1, '.') == 0 && IndexOf("." + n2, '.') == 0;
      assert id[..|t1|] == t1 && id[..|t2|] == t2;
      assert id[|t1| + 1..] == n1 && id[|t2| + 1..] == n2;
    }
  }

  // ------------------------------------------------------------------- fields

  /** `getField`: a struct field with at least one name, under its first name; an
      embedded field (no name) gives nothing. */
  function FieldFor(f: AstField): (r: Option<Field>)
    ensures r.None? <==> f.names == []
    ensures r.Some? ==> r.value.name == f.names[0] && r.value.typ == f.typeText &&
                        r.value.doc == f.doc &&
                        r.value.structTag == (if f.tag.Some? then f.tag.value else "")
  {
    if f.names == [] then None
    else Some(Field(f.names[0], f.typeText, f.doc, f.tag.GetOr("")))
  }

  /** `getFields`: the named fields in declaration order, each under its first name. */
  function FieldsFor(list: seq<AstField>): seq<Field>
  {
    FilterMap(list, FieldFor)
  }

  /** Every field of the result comes from a named field of the struct, and every named
      field is there, under its first name. */
  lemma FieldsForMembers(list: seq<AstField>)
    ensures forall y :: y in FieldsFor(list) <==>
              exists f :: f in list && f.names != [] && y == Field(f.names[0], f.typeText, f.doc, f.tag.GetOr(""))
  {
    FilterMapMembers(list, FieldFor);
  }

  // ---------------------------------------------------------------- go.mod links

  /** The page of a module version: `/path/@v/version`. */
  function Link(mv: ModVersion): string
  {
    "/" + mv.path + "/@v/" + mv.version
  }

  /** `mp[m.Path] = link` for each `m` of `mvs` in turn. */
  function AddLinks(base: map<string, string>, mvs: seq<ModVersion>): map<string, string>
  {
    if mvs == [] then base
    else
      var last := mvs[|mvs| - 1];
      AddLinks(base, mvs[..|mvs| - 1])[last.path := Link(last)]
  }

  /** The paths present are those of `base` and of `mvs`. */
  lemma {:induction false} AddLinksKeys(base: map<string, string>, mvs: seq<ModVersion>)
    ensures forall p :: p in AddLinks(base, mvs) <==>
              p in base || exists i :: 0 <= i < |mvs| && mvs[i].path == p
  {
    if mvs != [] {
      var init := mvs[..|mvs| - 1];
      AddLinksKeys(base, init);
      assert forall i :: 0 <= i < |init| ==> init[i] == mvs[i];
    }
  }

  /** A path of `mvs` leads to the link of its last occurrence. */
  lemma {:induction false} AddLinksLast(base: map<string, string>, mvs: seq<ModVersion>)
    ensures forall i :: 0 <= i < |mvs| && (forall j :: i < j < |mvs| ==> mvs[j].path != mvs[i].path) ==>
              mvs[i].path in AddLinks(base, mvs) && AddLinks(base, mvs)[mvs[i].path] == Link(mvs[i])
  {
    if mvs != [] {
      var init := mvs[..|mvs| - 1];
      AddLinksLast(base, init);
      assert forall i :: 0 <= i < |init| ==> init[i] == mvs[i];
    }
  }

  /** A path not in `mvs` keeps the link it had. */
  lemma {:induction false} AddLinksKeep(base: map<string, string>, mvs: seq<ModVersion>)
    ensures forall p :: p in base && (forall i :: 0 <= i < |mvs| ==> mvs[i].path != p) ==>
              p in AddLinks(base, mvs) && AddLinks(base, mvs)[p] == base[p]
  {
    if mvs != [] {
      var init := mvs[..|mvs| - 1];
      AddLinksKeep(base, init);
      assert forall i :: 0 <= i < |init| ==> init[i] == mvs[i];
    }
  }

  /** The replacement modules of a go.mod, in order. */
  function Targets(reps: seq<Replacement>): (r: seq<ModVersion>)
    ensures |r| == |reps| && forall i :: 0 <= i < |reps| ==> r[i] == reps[i].to
  {
    seq(|reps|, i requires 0 <= i < |reps| => reps[i].to)
  }

  /** The link map of `getMod`: requirements first, then replacements, which win. */
  function ModLinks(m: GoModFile): map<string, string>
  {
    AddLinks(AddLinks(map[], m.require), Targets(m.replace))
  }

  /** Every required and every replacement module has a link and nothing else does; a
      replacement module links to its last replacement's version, a module only
      required to its last requirement's version. */
  lemma ModLinksShape(m: GoModFile)
    ensures forall p :: p in ModLinks(m) <==>
              (exists i :: 0 <= i < |m.require| && m.require[i].path == p) ||
              (exists i :: 0 <= i < |m.replace| && m.replace[i].to.path == p)
    ensures forall i ::
              (0 <= i < |m.replace| &&
               forall j :: i < j < |m.replace| ==> m.replace[j].to.path != m.replace[i].to.path)
              ==> ModLinks(m)[m.replace[i].to.path] == Link(m.replace[i].to)
    ensures forall i ::
              (0 <= i < |m.require| &&
               (forall j :: i < j < |m.require| ==> m.require[j].path != m.require[i].path) &&
               forall j :: 0 <= j < |m.replace| ==> m.replace[j].to.path != m.require[i].path)
              ==> ModLinks(m)[m.require[i].path] == Link(m.require[i])
  {
    ModLinksKeys(m);
    ModLinksReplaced(m);
    ModLinksRequired(m);
  }

  lemma ModLinksKeys(m: GoModFile)
    ensures forall p :: p in ModLinks(m) <==>
              (exists i :: 0 <= i < |m.require| && m.require[i].path == p) ||
              (exists i :: 0 <= i < |m.replace| && m.replace[i].to.path == p)
  {
    var t := Targets(m.replace);
    var req := AddLinks(map[], m.require);
    AddLinksKeys(map[], m.require);
    AddLinksKeys(req, t);
  }

  lemma ModLinksReplaced(m: GoModFile)
    ensures forall i ::
              (0 <= i < |m.replace| &&
               forall j :: i < j < |m.replace| ==> m.replace[j].to.path != m.replace[i].to.path)
              ==> m.replace[i].to.path in ModLinks(m) && ModLinks(m)[m.replace[i].to.path] == Link(m.replace[i].to)
  {
    var t := Targets(m.replace);
    var req := AddLinks(map[], m.require);
    AddLinksLast(req, t);
  }

  lemma ModLinksRequired(m: GoModFile)
    ensures forall i ::
              (0 <= i < |m.require| &&
               (forall j :: i < j < |m.require| ==> m.require[j].path != m.require[i].path) &&
               forall j :: 0 <= j < |m.replace| ==> m.replace[j].to.path != m.require[i].path)
              ==> m.require[i].path in ModLinks(m) && ModLinks(m)[m.require[i].path] == Link(m.require[i])
  {
    var t := Targets(m.replace);
    var req := AddLinks(map[], m.require);
    AddLinksLast(map[], m.require);
    AddLinksKeep(req, t);
  }

  // ----------------------------------------------------------- closest go.mod

  /** A go.mod found in the archive, under the directory of its entry (which still
      carries the `@version` of the archive's root). */
  datatype ModFile = ModFile(path: string, file: GoModFile)

  /** The loop of `getClosestModFile`: the position of the last go.mod among those of
      greatest length whose path is a prefix of `dir`, or nothing. */
  function ClosestIndex(mods: seq<ModFile>, dir: string): (r: Option<nat>)
    ensures r.None? <==> forall j :: 0 <= j < |mods| ==> !(mods[j].path <= dir)
    ensures r.Some? ==>
              && r.value < |mods| && mods[r.value].path <= dir
              && (forall j :: 0 <= j < |mods| && mods[j].path <= dir ==>
                    |mods[j].path| <= |mods[r.value].path|)
              && (forall j :: r.value < j < |mods| && mods[j].path <= dir ==>
                    |mods[j].path| < |mods[r.value].path|)
  {
    if mods == [] then None
    else
      var prev := ClosestIndex(mods[..|mods| - 1], dir);
      var m := mods[|mods| - 1];
      if prev.Some? && |mods[prev.value].path| > |m.path| then prev
      else if m.path <= dir then Some(|mods| - 1)
      else prev
  }

  /** One more go.mod in the search for the closest one. */
  lemma ClosestIndexNext(mods: seq<ModFile>, i: nat, dir: string)
    requires i < |mods|
    ensures ClosestIndex(mods[..i + 1], dir) ==
            var prev := ClosestIndex(mods[..i], dir);
            if prev.Some? && |mods[prev.value].path| > |mods[i].path| then prev
            else if mods[i].path <= dir then Some(i)
            else prev
  {
    assert mods[..i + 1][..i] == mods[..i];
  }

  /** `getClosestModFile`: the only go.mod when there is one, else the closest. */
  function ClosestModFile(mods: seq<ModFile>, dir: string): (r: Option<ModFile>)
    ensures |mods| == 1 ==> r == Some(mods[0])
    ensures |mods| != 1 ==> (r.None? <==> forall j :: 0 <= j < |mods| ==> !(mods[j].path <= dir))
    ensures |mods| != 1 && r.Some? ==>
              && r.value in mods && r.value.path <= dir
              && forall j :: 0 <= j < |mods| && mods[j].path <= dir ==> |mods[j].path| <= |r.value.path|
  {
    if |mods| == 1 then Some(mods[0])
    else
      match ClosestIndex(mods, dir)
      case None => None
      case Some(i) => Some(mods[i])
  }

  /** The go.mod paths carry the archive's `@version`, so with several of them a module
      path without `@` is matched by none, and the builder has no go.mod to show. */
  lemma VersionedModsNeverMatch(mods: seq<ModFile>, dir: string)
    requires |mods| != 1 && '@' !in dir
    requires forall j :: 0 <= j < |mods| ==> '@' in mods[j].path
    ensures ClosestModFile(mods, dir).None?
  {
    forall j | 0 <= j < |mods|
      ensures !(mods[j].path <= dir)
    {
    }
  }

  // ----------------------------------------------------- partition of the archive

  /** What the builder does with one archive entry. */
  datatype EntryKind =
    | GoModEntry          // a go.mod anywhere: parsed and kept
    | Ignored             // not a .go file, or outside the requested package
    | InSubdir(dir: string) // a .go file of a sub-directory: only the directory is kept
    | TestSource          // a _test.go file of the package: source of examples
    | PackageSource       // a .go file of the package

  function Classify(f: ZipEntry, subpkg: string): EntryKind
  {
    if Base(f.name) == "go.mod" then GoModEntry
    else if Ext(f.name) != ".go" then Ignored
    else ClassifyGo(f.name, subpkg)
  }

  /** A `.go` file: outside the requested package, in a sub-directory of it, or in it. */
  function ClassifyGo(name: string, subpkg: string): EntryKind
    requires name != []
  {
    var rd := GetRelativeDir(name, subpkg);
    if !rd.1 then Ignored
    else if rd.0 != "." then InSubdir(rd.0)
    else SourceKind(name)
  }

  function SourceKind(name: string): EntryKind
  {
    if HasSuffix(name, "_test.go") then TestSource else PackageSource
  }

  /** The errors of `getGoDoc`. `NoClosestGoMod` stands for the nil go.mod that Go
      would dereference. */
  datatype BuildError = ModParseError(entry: string) | SourceParseError(entry: string) | NoClosestGoMod

  /** The state of the loop over the archive: `b.mods`, `dirMap`, `mp`, `testFiles`,
      `pkgFiles` and `pkgName`. */
  datatype Scan = Scan(
    mods: seq<ModFile>,
    dirs: set<string>,
    sources: map<string, AstFile>,
    tests: seq<AstFile>,
    files: seq<File>,
    pkgName: string)

  /** An entry the loop cannot get past: a go.mod, or a `.go` file of the requested
      directory (test or not), that does not parse. */
  predicate Fails(f: ZipEntry, k: EntryKind, tc: Toolchain)
  {
    match k
    case GoModEntry => tc.parseMod(f.content).None?
    case TestSource => tc.parseGo(f.name, f.content).None?
    case PackageSource => tc.parseGo(f.name, f.content).None?
    case _ => false
  }

  function ErrorOf(f: ZipEntry, k: EntryKind): BuildError
  {
    if k.GoModEntry? then ModParseError(f.name) else SourceParseError(f.name)
  }

  /** One turn of the loop. */
  function Step(s: Scan, f: ZipEntry, k: EntryKind, tc: Toolchain): Result<Scan, BuildError>
  {
    match k
    case GoModEntry =>
      (match tc.parseMod(f.content)
       case None => Err(ModParseError(f.name))
       case Some(m) => Ok(s.(mods := s.mods + [ModFile(Dir(f.name), m)])))
    case Ignored => Ok(s)
    case InSubdir(d) => Ok(s.(dirs := s.dirs + {d}))
    case TestSource =>
      (match tc.parseGo(f.name, f.content)
       case None => Err(SourceParseError(f.name))
       case Some(a) => Ok(s.(tests := s.tests + [a])))
    case PackageSource =>
      (match tc.parseGo(f.name, f.content)
       case None => Err(SourceParseError(f.name))
       case Some(a) =>
         Ok(s.(sources := s.sources[f.name := a],
               pkgName := if s.pkgName == "" then a.packageName else s.pkgName,
               files := s.files + [File(Base(f.name))])))
  }

  /** One turn fails exactly on an entry that fails, with that entry's error. */
  lemma StepError(s: Scan, f: ZipEntry, k: EntryKind, tc: Toolchain)
    ensures Step(s, f, k, tc).Err? <==> Fails(f, k, tc)
    ensures Step(s, f, k, tc).Err? ==> Step(s, f, k, tc).error == ErrorOf(f, k)
  {
  }

  /** How `getGoDoc` classifies the entries for the requested sub-package. */
  function KindIn(subpkg: string): ZipEntry -> EntryKind
  {
    (f: ZipEntry) => Classify(f, subpkg)
  }

  /** The loop over all entries, from the go.mods already known, for a classification
      `kind` of the entries (`KindIn(subpkg)` in the builder). */
  function ScanAll(entries: seq<ZipEntry>, kind: ZipEntry -> EntryKind, tc: Toolchain, mods0: seq<ModFile>): Result<Scan, BuildError>
  {
    if entries == [] then Ok(Scan(mods0, {}, map[], [], [], ""))
    else
      match ScanAll(entries[..|entries| - 1], kind, tc, mods0)
      case Err(e) => Err(e)
      case Ok(s) => Step(s, entries[|entries| - 1], kind(entries[|entries| - 1]), tc)
  }

  function ModOf(kind: ZipEntry -> EntryKind, tc: Toolchain): ZipEntry -> Option<ModFile>
  {
    (f: ZipEntry) =>
      if !kind(f).GoModEntry? then None
      else match tc.parseMod(f.content)
           case None => None
           case Some(m) => Some(ModFile(Dir(f.name), m))
  }

  function SubdirOf(kind: ZipEntry -> EntryKind): ZipEntry -> Option<string>
  {
    (f: ZipEntry) => if kind(f).InSubdir? then Some(kind(f).dir) else None
  }

  function TestOf(kind: ZipEntry -> EntryKind, tc: Toolchain): ZipEntry -> Option<AstFile>
  {
    (f: ZipEntry) => if kind(f).TestSource? then tc.parseGo(f.name, f.content) else None
  }

  function FileOf(kind: ZipEntry -> EntryKind): ZipEntry -> Option<File>
  {
    (f: ZipEntry) => if kind(f).PackageSource? then Some(File(Base(f.name))) else None
  }

  /** One more entry takes one more turn of the loop. */
  lemma ScanAllNext(entries: seq<ZipEntry>, kind: ZipEntry -> EntryKind, tc: Toolchain, mods0: seq<ModFile>, i: nat)
    requires i < |entries| && ScanAll(entries[..i], kind, tc, mods0).Ok?
    ensures ScanAll(entries[..i + 1], kind, tc, mods0) ==
            Step(ScanAll(entries[..i], kind, tc, mods0).value, entries[i], kind(entries[i]), tc)
  {
    assert entries[..i + 1][..i] == entries[..i];
  }

  /** Once the loop has failed on a prefix, the later entries change nothing: `getGoDoc`
      returns at the first failure. */
  lemma {:induction false} ScanAllStopsAtError(entries: seq<ZipEntry>, kind: ZipEntry -> EntryKind, tc: Toolchain,
                                               mods0: seq<ModFile>, n: nat)
    requires n <= |entries| && ScanAll(entries[..n], kind, tc, mods0).Err?
    ensures ScanAll(entries, kind, tc, mods0) == ScanAll(entries[..n], kind, tc, mods0)
    decreases |entries|
  {
    if n < |entries| {
      var init := entries[..|entries| - 1];
      assert init[..n] == entries[..n];
      ScanAllStopsAtError(init, kind, tc, mods0, n);
    } else {
      assert entries[..n] == entries;
    }
  }

  /** The loop fails exactly when some entry fails, with the error of the first. */
  lemma {:induction false} ScanAllError(entries: seq<ZipEntry>, kind: ZipEntry -> EntryKind, tc: Toolchain, mods0: seq<ModFile>)
    ensures ScanAll(entries, kind, tc, mods0).Ok? <==>
              forall i :: 0 <= i < |entries| ==> !Fails(entries[i], kind(entries[i]), tc)
    ensures ScanAll(entries, kind, tc, mods0).Err? ==>
              exists i :: 0 <= i < |entries| && Fails(entries[i], kind(entries[i]), tc) &&
                (forall j :: 0 <= j < i ==> !Fails(entries[j], kind(entries[j]), tc)) &&
                ScanAll(entries, kind, tc, mods0).error == ErrorOf(entries[i], kind(entries[i]))
  {
    if entries != [] {
      var init := entries[..|entries| - 1];
      var last := entries[|entries| - 1];
      ScanAllError(init, kind, tc, mods0);
      assert forall i :: 0 <= i < |init| ==> init[i] == entries[i];
      if ScanAll(init, kind, tc, mods0).Ok? {
        StepError(ScanAll(init, kind, tc, mods0).value, last, kind(last), tc);
      }
    }
  }

  /** On success the go.mods are those known before, then those of the archive in order. */
  lemma {:induction false} ScanAllMods(entries: seq<ZipEntry>, kind: ZipEntry -> EntryKind, tc: Toolchain, mods0: seq<ModFile>)
    requires ScanAll(entries, kind, tc, mods0).Ok?
    ensures ScanAll(entries, kind, tc, mods0).value.mods == mods0 + FilterMap(entries, ModOf(kind, tc))
  {
    if entries != [] {
      ScanAllMods(entries[..|entries| - 1], kind, tc, mods0);
    }
  }

  /** On success the sub-directories are those of the sub-directory entries. */
  lemma {:induction false} ScanAllDirs(entries: seq<ZipEntry>, kind: ZipEntry -> EntryKind, tc: Toolchain, mods0: seq<ModFile>)
    requires ScanAll(entries, kind, tc, mods0).Ok?
    ensures ScanAll(entries, kind, tc, mods0).value.dirs == (set d | d in FilterMap(entries, SubdirOf(kind)))
  {
    if entries != [] {
      var init := entries[..|entries| - 1];
      ScanAllDirs(init, kind, tc, mods0);
    }
  }

  /** On success the test files are those of the test entries, in archive order. */
  lemma {:induction false} ScanAllTests(entries: seq<ZipEntry>, kind: ZipEntry -> EntryKind, tc: Toolchain, mods0: seq<ModFile>)
    requires ScanAll(entries, kind, tc, mods0).Ok?
    ensures ScanAll(entries, kind, tc, mods0).value.tests == FilterMap(entries, TestOf(kind, tc))
  {
    if entries != [] {
      ScanAllTests(entries[..|entries| - 1], kind, tc, mods0);
    }
  }

  /** On success the listed files are the package entries, in archive order. */
  lemma {:induction false} ScanAllFiles(entries: seq<ZipEntry>, kind: ZipEntry -> EntryKind, tc: Toolchain, mods0: seq<ModFile>)
    requires ScanAll(entries, kind, tc, mods0).Ok?
    ensures ScanAll(entries, kind, tc, mods0).value.files == FilterMap(entries, FileOf(kind))
  {
    if entries != [] {
      ScanAllFiles(entries[..|entries| - 1], kind, tc, mods0);
    }
  }

  /** On success the parsed sources are keyed by exactly the names of the package entries. */
  lemma {:induction false} ScanAllSources(entries: seq<ZipEntry>, kind: ZipEntry -> EntryKind, tc: Toolchain, mods0: seq<ModFile>)
    requires ScanAll(entries, kind, tc, mods0).Ok?
    ensures forall n :: n in ScanAll(entries, kind, tc, mods0).value.sources <==>
              exists i :: 0 <= i < |entries| && kind(entries[i]).PackageSource? && entries[i].name == n
  {
    if entries != [] {
      var init := entries[..|entries| - 1];
      ScanAllSources(init, kind, tc, mods0);
      assert forall i :: 0 <= i < |init| ==> init[i] == entries[i];
    }
  }

  /** What one successful turn does to the parsed sources and the package name. */
  lemma StepPackage(s: Scan, f: ZipEntry, k: EntryKind, tc: Toolchain)
    requires Step(s, f, k, tc).Ok?
    ensures k.PackageSource? ==> tc.parseGo(f.name, f.content).Some?
    ensures Step(s, f, k, tc).value.sources ==
            if k.PackageSource? then s.sources[f.name := tc.parseGo(f.name, f.content).value] else s.sources
    ensures Step(s, f, k, tc).value.pkgName ==
            if k.PackageSource? && s.pkgName == "" then tc.parseGo(f.name, f.content).value.packageName
            else s.pkgName
  {
  }

  /** A successful loop is a successful loop over all entries but the last, and one
      more turn. */
  lemma ScanAllLast(entries: seq<ZipEntry>, kind: ZipEntry -> EntryKind, tc: Toolchain, mods0: seq<ModFile>)
    requires entries != [] && ScanAll(entries, kind, tc, mods0).Ok?
    ensures ScanAll(entries[..|entries| - 1], kind, tc, mods0).Ok?
    ensures ScanAll(entries, kind, tc, mods0) ==
            Step(ScanAll(entries[..|entries| - 1], kind, tc, mods0).value, entries[|entries| - 1],
                 kind(entries[|entries| - 1]), tc)
  {
  }

  /** On success the parsed source of a package entry that no later package entry
      overwrites is that entry's parse: together with `ScanAllSources`, each key holds
      the parse of the last package entry of that name. */
  lemma {:induction false} ScanAllSourceValues(entries: seq<ZipEntry>, kind: ZipEntry -> EntryKind, tc: Toolchain,
                                               mods0: seq<ModFile>)
    requires ScanAll(entries, kind, tc, mods0).Ok?
    ensures forall i :: 0 <= i < |entries| && kind(entries[i]).PackageSource? &&
                        (forall j :: i < j < |entries| && kind(entries[j]).PackageSource? ==>
                                       entries[j].name != entries[i].name) ==>
              entries[i].name in ScanAll(entries, kind, tc, mods0).value.sources &&
              Some(ScanAll(entries, kind, tc, mods0).value.sources[entries[i].name]) ==
                tc.parseGo(entries[i].name, entries[i].content)
  {
    if entries != [] {
      var init := entries[..|entries| - 1];
      var last := entries[|entries| - 1];
      ScanAllLast(entries, kind, tc, mods0);
      ScanAllSourceValues(init, kind, tc, mods0);
      assert forall i :: 0 <= i < |init| ==> init[i] == entries[i];
      StepPackage(ScanAll(init, kind, tc, mods0).value, last, kind(last), tc);
    }
  }

  /** The first non-empty text of `names`, or "" when they are all empty. */
  function FirstNonEmpty(names: seq<string>): (r: string)
    ensures r == "" <==> forall k :: 0 <= k < |names| ==> names[k] == ""
    ensures r != "" ==> exists i :: 0 <= i < |names| && names[i] == r && forall k :: 0 <= k < i ==> names[k] == ""
  {
    if names == [] then ""
    else
      var p := FirstNonEmpty(names[..|names| - 1]);
      assert forall k :: 0 <= k < |names| - 1 ==> names[..|names| - 1][k] == names[k];
      if p == "" then names[|names| - 1] else p
  }

  /** The package name a package entry contributes. */
  function PkgNameOf(kind: ZipEntry -> EntryKind, tc: Toolchain): ZipEntry -> Option<string>
  {
    (f: ZipEntry) =>
      if kind(f).PackageSource? && tc.parseGo(f.name, f.content).Some?
      then Some(tc.parseGo(f.name, f.content).value.packageName) else None
  }

  /** On success the package name is that of the first package file that names one:
      the loop sets it once, while it is still empty. */
  lemma {:induction false} ScanAllPkgName(entries: seq<ZipEntry>, kind: ZipEntry -> EntryKind, tc: Toolchain,
                                          mods0: seq<ModFile>)
    requires ScanAll(entries, kind, tc, mods0).Ok?
    ensures ScanAll(entries, kind, tc, mods0).value.pkgName == FirstNonEmpty(FilterMap(entries, PkgNameOf(kind, tc)))
  {
    if entries != [] {
      var init := entries[..|entries| - 1];
      var last := entries[|entries| - 1];
      ScanAllLast(entries, kind, tc, mods0);
      ScanAllPkgName(init, kind, tc, mods0);
      StepPackage(ScanAll(init, kind, tc, mods0).value, last, kind(last), tc);
      var names := FilterMap(entries, PkgNameOf(kind, tc));
      var names0 := FilterMap(init, PkgNameOf(kind, tc));
      var x := PkgNameOf(kind, tc)(last);
      assert names == names0 + (if x.Some? then [x.value] else []);
      if x.Some? {
        assert names[..|names| - 1] == names0 && names[|names| - 1] == x.value;
        assert FirstNonEmpty(names) == if FirstNonEmpty(names0) == "" then x.value else FirstNonEmpty(names0);
      } else {
        assert names == names0;
      }
    }
  }

  // --------------------------------------------------------------- subdirectories

  /** The entry of a sub-directory: its synopsis and its page under the import path. */
  function SubdirEntry(name: string, importPath: string, ver: string, synopsis: string): Subdir
  {
    Subdir(name, synopsis, "/" + importPath + "/" + name + "/@v/" + ver)
  }

  /** The order `sort.Slice` is given: by name. */
  function SubdirLess(): (Subdir, Subdir) -> bool
  {
    (x: Subdir, y: Subdir) => Less(x.name, y.name)
  }

  lemma SubdirLessIsStrictWeakOrder()
    ensures Sorting.StrictWeakOrder(SubdirLess())
  {
    var less := SubdirLess();
    forall x: Subdir, y: Subdir | less(x, y)
      ensures !less(y, x)
    {
      if Less(y.name, x.name) {
        LessTransitive(x.name, y.name, x.name);
        LessIrreflexive(x.name);
      }
    }
    forall x: Subdir, y: Subdir, z: Subdir | less(x, z)
      ensures less(x, y) || less(y, z)
    {
      LessTotal(x.name, y.name);
      if Less(y.name, x.name) {
        LessTransitive(y.name, x.name, z.name);
      }
    }
  }

  // ------------------------------------------------------------------ nav links

  /** The sections of a page, in the order of the navigation bar. */
  datatype Section = IndexSection | ExamplesSection | FilesSection | GoModSection | DirectoriesSection
  {
    function Rank(): nat
    {
      match this
      case IndexSection => 0
      case ExamplesSection => 1
      case FilesSection => 2
      case GoModSection => 3
      case DirectoriesSection => 4
    }

    function Label(): string
    {
      match this
      case IndexSection => "Index"
      case ExamplesSection => "Examples"
      case FilesSection => "Files"
      case GoModSection => "Go.mod"
      case DirectoriesSection => "Directories"
    }
  }

  /** Which sections a page has: the index always, the others when not empty. */
  predicate Shown(s: Section, hasExamples: bool, hasFiles: bool, hasGoMod: bool, hasSubdirs: bool)
  {
    match s
    case IndexSection => true
    case ExamplesSection => hasExamples
    case FilesSection => hasFiles
    case GoModSection => hasGoMod
    case DirectoriesSection => hasSubdirs
  }

  /** The navigation bar: the index first, then exactly the sections shown, each once
      and in the fixed order. */
  function NavSections(hasExamples: bool, hasFiles: bool, hasGoMod: bool, hasSubdirs: bool): (r: seq<Section>)
    ensures |r| >= 1 && r[0] == IndexSection
    ensures forall p, q :: 0 <= p < q < |r| ==> r[p].Rank() < r[q].Rank()
  {
    [IndexSection] +
    (if hasExamples then [ExamplesSection] else []) +
    (if hasFiles then [FilesSection] else []) +
    (if hasGoMod then [GoModSection] else []) +
    (if hasSubdirs then [DirectoriesSection] else [])
  }

  /** A section is on the bar exactly when the page shows it. */
  lemma NavSectionsShown(hasExamples: bool, hasFiles: bool, hasGoMod: bool, hasSubdirs: bool)
    ensures forall s :: s in NavSections(hasExamples, hasFiles, hasGoMod, hasSubdirs) <==>
              Shown(s, hasExamples, hasFiles, hasGoMod, hasSubdirs)
  {
    var r := NavSections(hasExamples, hasFiles, hasGoMod, hasSubdirs);
    forall s
      ensures s in r <==> Shown(s, hasExamples, hasFiles, hasGoMod, hasSubdirs)
    {
      match s
      case IndexSection =>
      case ExamplesSection =>
      case FilesSection =>
      case GoModSection =>
      case DirectoriesSection =>
    }
  }

  /** The labels of the navigation bar. */
  function NavLinks(hasExamples: bool, hasFiles: bool, hasGoMod: bool, hasSubdirs: bool): (r: seq<string>)
  {
    var ss := NavSections(hasExamples, hasFiles, hasGoMod, hasSubdirs);
    seq(|ss|, i requires 0 <= i < |ss| => ss[i].Label())
  }
}
