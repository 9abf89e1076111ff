# moddoc in Dafny

A model of the core of moddoc, a web server that renders Go package documentation
from the module archives a Go module proxy (`GOPROXY`) serves. The model covers three
parts:

- **The proxy client** (`proxy/proxy.go`). It probes the proxy for the zip archive of a
  module path. On a non-200 answer it walks up the path's parents until one is served;
  `makeZip` does this. It also derives the module root and fetches the version list.
- **The documentation builder** (`proxy/builder.go`). It partitions the archive's
  entries into go.mod files, sub-directories, test files and package files. Then it
  assembles the page:
  - package doc, constants and variables, functions, types, fields and examples;
  - the sorted sub-directory list;
  - the closest go.mod, shown with a link for each required module;
  - the navigation bar.
- **The server helpers** of `main.go`: parsing `GOPROXY`, showing a method receiver,
  choosing and sorting versions, and grouping the proxy's catalog into one entry per
  module.

Modules:

- `GoStrings` stands in for the parts of Go's `strings` and `path/filepath` that the core
  uses.
- `Seqs` holds `Option`, `Result` and the filter-map behind every "append what passes"
  loop.
- `Sorting` is an in-place insertion sort standing in for `sort.Slice`. It promises
  "sorted and a permutation", as `sort.Slice` does.
- `Doc` holds the records of `doc/doc.go`.
- `GoSource` holds the outputs of the Go libraries the builder calls:
  - the parsers of `go/parser` and `golang.org/x/mod/modfile`;
  - `go/doc`'s `New`, `Examples` and `ToHTML`;
  - `module.DecodePath`, the printers and `modfile.FormatHTML`.

  They appear as data, and a `Toolchain` of function values stands in for the calls.
- `RelativeDir`, `Examples`, `Values` and `Assembly` are the pure rules of the builder.
- `Builder` is the `builder` object. It is a class with the fields `examples` and
  `mods`, and its methods are the Go loops, each proved against the functions of the
  rule modules.
- `Proxy` is the service: `makeZip` is a loop proved against the recursive
  specification `Probe`. The HTTP client is an oracle `get` from URLs to responses.
- `Server` holds the `main.go` helpers. `semver.Compare` is a parameter `cmp`, assumed
  to be a total preorder.

Where this model and the source's documentation of itself differ, the model follows
the code:

- `getGoDoc` calls `getClosestModFile` with the module path `mod`, not a directory, so
  that is what the model does.
- `doc/doc.go` as it stands has no `ID` or `Doc` on `Example`, and no `Examples` or
  `GoMod` on `Documentation`. `proxy/builder.go` sets all four, so the `Doc` records
  carry them.

## Model

| member | source | states |
|---|---|---|
| GoStrings.IndexOf | proxy/builder.go:325 | `strings.Index` for one character: -1 exactly when absent, otherwise a position holding it with no earlier one |
| GoStrings.LastIndexOf | proxy/builder.go:362 | `strings.LastIndex`: -1 exactly when absent, otherwise a position holding it with no later one |
| GoStrings.TrimSuffix | proxy/proxy.go:25 | with the suffix present, the result followed by the suffix is the input; without it, the input is unchanged |
| GoStrings.Dir | proxy/proxy.go:133 | "." for a path without `/`; otherwise a prefix that is followed by a `/` and after which no `/` remains |
| GoStrings.DirOfChild | proxy/builder.go:334 | the parent of `a/b`, for a last element `b` without `/`, is `a` |
| GoStrings.Base | proxy/builder.go:41 | "." for the empty path; the result has no `/` unless it is "/" |
| GoStrings.BaseIsLastElement | proxy/builder.go:41 | the base is "/" for a path of slashes; otherwise it is the last element: a non-empty suffix of the path without trailing slashes, all of it or preceded by `/` |
| GoStrings.Ext | proxy/builder.go:49 | empty, or a suffix of the path that starts with `.` and has no `/` |
| GoStrings.ExtIsLastDot | proxy/builder.go:49 | the extension holds no `.` after its first character, and it is empty exactly when the final element has no `.` |
| GoStrings.TrimSpace | proxy/builder.go:434 | the slice of the input between its leading and its trailing white space: everything before and after it is white space, and it neither starts nor ends with white space |
| GoStrings.Split | proxy/proxy.go:109 | `strings.Split` gives at least one piece, and no piece holds the separator |
| GoStrings.JoinSplit | proxy/proxy.go:109 | joining the pieces of a split with the separator gives back the text |
| GoStrings.SplitJoin | proxy/proxy.go:109 | splitting the join of separator-free pieces gives back the pieces |
| GoStrings.LessIrreflexive | proxy/builder.go:97-99 | Go's `<` on strings is irreflexive |
| GoStrings.LessTransitive | proxy/builder.go:97-99 | Go's `<` on strings is transitive |
| GoStrings.LessTotal | proxy/builder.go:97-99 | any two strings are equal or one is `<` the other |
| Seqs.FilterMap | proxy/builder.go:192-197 | the kept elements are never more than the input |
| Seqs.FilterMapConcat | proxy/builder.go:192-197 | filtering distributes over concatenation, so input order is kept |
| Seqs.FilterMapMembers | proxy/builder.go:192-197 | an element is in the result exactly when some input maps to it |
| Sorting.SortSlice | proxy/builder.go:97-99 | `sort.Slice` with a strict weak order leaves the array sorted and a permutation of what it was |
| RelativeDir.EntryPath | proxy/builder.go:325-333 | definition: the entry's name after the first `/` that follows its first `@`; its value is given by GetDirOfVersionedEntry |
| RelativeDir.GetDir | proxy/builder.go:324-335 | definition: the parent directory of `EntryPath`; its properties are in GetDirOfVersionedEntry, GetDirOfRootEntry and GetDirOfNestedEntry |
| RelativeDir.GetDirOfVersionedEntry | proxy/builder.go:324-335 | `getDir` of `prefix@version/rest`, with no `@` in the prefix and no `/` in the version, is the directory of `rest` |
| RelativeDir.GetDirOfRootEntry | proxy/builder_test.go:66 | a file at the module root (`zap@v1.9.1/README.md`) is in "." |
| RelativeDir.GetDirOfNestedEntry | proxy/builder_test.go:67-69 | a file in `dir` below the module root is in `dir` |
| RelativeDir.GetRelativeDir | proxy/builder.go:337-352 | with no sub-package: the entry's directory, valid. Otherwise valid exactly when `relativeTo/` is a prefix of `dir/`: "." for the sub-package itself, the rest below `relativeTo/` for a deeper directory, and the unchanged directory when invalid |
| RelativeDir.LongerRequestIsOutside | proxy/builder_test.go:31-42 | a requested sub-package at least as long as the entry's directory but different from it (`threefour`, `three/four` against `three`) is invalid and keeps the directory |
| Examples.StartsWithUppercase | proxy/builder.go:443-446 | definition: the text is non-empty and its first character is an upper-case letter; its use is stated by ExampleSuffix and MethodExampleNotClaimedByFunc |
| Examples.TitleFrom | proxy/builder.go:369 | the loop of `strings.Title`: each character is upper-cased when the one before it, or the given start character for the first, separates words, and kept otherwise |
| Examples.Title | proxy/builder.go:369 | `strings.Title` keeps the length, upper-cases the first character and every character after a separator, and keeps every other |
| Examples.TitleIdempotent | proxy/builder.go:369 | title-casing twice gives the same as once |
| Examples.ExampleSuffix | proxy/builder.go:357-370 | an example belongs to `name` exactly when it starts with `name` and the rest is empty, or is `_` then a suffix without `_` whose first letter is not upper case; it is shown as "" or as the title-cased suffix |
| Examples.MethodExampleNotClaimedByFunc | proxy/builder.go:362-368 | an example `F_T...` of a method on an upper-case type `T` never belongs to a function `F` |
| Examples.SuffixOfSymbol | proxy/builder.go:360-369 | `name_suffix`, with no `_` in the suffix and no upper-case start, is shown under the title-cased suffix |
| Examples.SuffixOutput | proxy/builder.go:366-368 | `F_Output` is not an example of `F` |
| Examples.SuffixSecond | proxy/builder.go:369 | `F_second` is an example of `F`, shown as "Second" |
| Examples.FindMarker | proxy/builder.go:421 | the leftmost match of the output-comment pattern at or after a position, or none at all |
| Examples.CutHasNoMarker | proxy/builder.go:433-434 | the trimmed code before the first output comment holds no output comment |
| Examples.Unindent | proxy/builder.go:431 | removing one indentation level never lengthens the text, and a text without line breaks is unchanged |
| Examples.UnindentLines | proxy/builder.go:431 | line by line, the first line is kept and every later line loses one leading four-space indentation where it has one |
| Examples.FmtExampleCode | proxy/builder.go:423-441 | a body outside braces is kept and its output dropped. A braced body keeps its output, and its code holds no output comment: it is the unindented body itself when that has none, and otherwise the unindented body before its first output comment, trimmed |
| Examples.ExampleFor | proxy/builder.go:356-394 | an example yields a record exactly when it belongs to the symbol and its code was printed. The record has the display name, the identifier `Example<name>--<display name>`, the example's doc, and the formatted code and output |
| Examples.ExamplesOfF | proxy/builder.go:354-397 | of the examples `F`, `F_second` and `F_Output`, symbol `F` gets two: "" and "Second", with identifiers `ExampleF--` and `ExampleF--Second` |
| Values.Populate | proxy/builder.go:298-321 | the value is the spec's initializer when it has exactly one, otherwise the old value; the type is the spec's or ""; nothing else changes |
| Values.MakeValue | proxy/builder.go:260-293 | a record exactly when every spec read is a value spec. A group has one unnamed child per name, each with that spec's doc, value and type. A single value has its own name, value and type. Both have the HTML doc and the declaration text |
| Values.ConstsSpec | proxy/builder.go:257-296 | definition: the records of the declarations in order, up to the first that yields none; its properties are in ConstsSpecShape and AllValueSpecsKeepAll |
| Values.ConstsSpecShape | proxy/builder.go:257-296 | the records are those of a prefix of the declarations, one each, and the prefix ends only at one that yields no record |
| Values.AllValueSpecsKeepAll | proxy/builder.go:257-296 | with only value specs, every declaration yields a record |
| Values.BuildValue | proxy/builder.go:260-293 | the loop body of `getConsts` computes `MakeValue` |
| Values.GetConsts | proxy/builder.go:257-296 | the loop of `getConsts` computes `ConstsSpec`: the records in order, up to the first one that cannot be built |
| Assembly.FuncID | proxy/builder.go:232-235 | definition: the name, or `type.name` for a method; its property is in FuncIDInjective |
| Assembly.FuncIDInjective | proxy/builder.go:232-235 | for names without `.`, the anchor of a function or method determines its name and its type |
| Assembly.FieldFor | proxy/builder.go:204-219 | nothing exactly for an embedded field. Otherwise the first name, the type, the doc, and the tag or "" |
| Assembly.FieldsForMembers | proxy/builder.go:190-199 | the fields listed are exactly the named fields, each under its first name |
| Assembly.AddLinksKeys | proxy/builder.go:124-130 | the link map has exactly the paths it had plus those added |
| Assembly.AddLinksLast | proxy/builder.go:124-130 | an added path links to `/path/@v/version` of its last occurrence |
| Assembly.AddLinksKeep | proxy/builder.go:128-130 | a path not added keeps its link |
| Assembly.ModLinks | proxy/builder.go:123-132 | definition: the links of the requirements, then of the replacements; its properties are in ModLinksShape |
| Assembly.ModLinksShape | proxy/builder.go:123-132 | exactly the required and the replacement modules have links. A replacement wins over a requirement, and the last occurrence wins among each |
| Assembly.ModLinksKeys | proxy/builder.go:123-132 | exactly the required and the replacement modules have links |
| Assembly.ModLinksReplaced | proxy/builder.go:128-130 | a replacement module links to the version of its last replacement |
| Assembly.ModLinksRequired | proxy/builder.go:124-126 | a module only required links to the version of its last requirement |
| Assembly.ClosestIndex | proxy/builder.go:409-417 | none exactly when no go.mod path is a prefix of `dir`. Otherwise one whose path is a prefix of `dir`, with no longer such path anywhere and no equally long one after it |
| Assembly.ClosestModFile | proxy/builder.go:404-419 | the only go.mod when there is one. Otherwise none exactly when no path is a prefix of `dir`, else a go.mod of the list whose path is a longest such prefix |
| Assembly.VersionedModsNeverMatch | proxy/builder.go:46 | go.mod paths of the archive carry `@version`. With several of them, a module path without `@` matches none, so `getClosestModFile(mod)` is nil |
| Assembly.Step | proxy/builder.go:40-73 | definition: one turn of the archive loop for an entry of a given kind; its properties are in StepError, StepPackage and the ScanAll lemmas |
| Assembly.StepError | proxy/builder.go:40-73 | one turn fails exactly on a go.mod, or a `.go` file of the requested directory (test or not), that does not parse, with that entry's error |
| Assembly.StepPackage | proxy/builder.go:59-71 | a successful turn on a package file stores its parse under its name and names the package if it has no name yet; other turns change neither |
| Assembly.ScanAll | proxy/builder.go:40-73 | definition: the archive loop, one `Step` per entry, stopping at the first error; its properties are in the ScanAll lemmas |
| Assembly.ScanAllLast | proxy/builder.go:40-73 | a successful loop is a successful loop over all entries but the last followed by one turn |
| Assembly.ScanAllStopsAtError | proxy/builder.go:43-45 | after the first failure, later entries change nothing: the loop returns there |
| Assembly.ScanAllError | proxy/builder.go:40-73 | the loop succeeds exactly when no entry fails; otherwise it fails with the error of the first failing entry |
| Assembly.ScanAllMods | proxy/builder.go:41-47 | on success, the go.mods are those known before followed by every go.mod entry of the archive, in order, under its directory |
| Assembly.ScanAllDirs | proxy/builder.go:56-58 | on success, the sub-directories are exactly those of the `.go` entries below the package |
| Assembly.ScanAllTests | proxy/builder.go:64-67 | on success, the test files are the package's `_test.go` entries, in order |
| Assembly.ScanAllFiles | proxy/builder.go:72 | on success, the listed files are the package's other `.go` entries, in order, by base name |
| Assembly.ScanAllSources | proxy/builder.go:68 | on success, the parsed sources are keyed by exactly the names of the package's non-test `.go` entries |
| Assembly.ScanAllSourceValues | proxy/builder.go:68 | on success, the source stored under a package entry's name is that entry's parse when no later package entry has the same name |
| Assembly.FirstNonEmpty | proxy/builder.go:69-71 | "" exactly when every text is empty; otherwise a text of the list before which all are empty |
| Assembly.ScanAllPkgName | proxy/builder.go:69-71 | on success, the package name is the first non-empty package name of the package files, in archive order |
| Assembly.SubdirLessIsStrictWeakOrder | proxy/builder.go:97-99 | ordering sub-directories by name is a strict weak order, as `sort.Slice` needs |
| Assembly.NavLinks | proxy/builder.go:106-118 | definition: the labels of `NavSections`; its properties are in NavSections and NavSectionsShown |
| Assembly.NavSections | proxy/builder.go:106-118 | the bar starts with the index, and the sections follow in the fixed order, each at most once |
| Assembly.NavSectionsShown | proxy/builder.go:106-118 | a section is on the bar exactly when the page has it: the index always, the others when not empty |
| Builder.FuncFor | proxy/builder.go:230-255 | definition: the record of one function; its fields are stated by Builder.Builder.GetFunc |
| Builder.FuncIDsDistinct | proxy/builder.go:221-235 | the records of functions with distinct names, for a type name and function names without `.`, have distinct anchors |
| Builder.TypeFor | proxy/builder.go:162-188 | definition: the record of one type; its fields are stated by Builder.Builder.GetType |
| Builder.DocFor | proxy/builder.go:77-118 | definition: the page assembled from a scan; its properties are in Builder.Builder.Assemble and Builder.Builder.GetGoDoc |
| Builder.GetFields | proxy/builder.go:190-199 | the loop of `getFields` computes `FieldsFor` |
| Builder.GetMod | proxy/builder.go:123-132 | the two loops of `getMod` build `ModLinks`, and the text is formatted with it |
| Builder.EntriesOfPermutation | proxy/builder.go:97-99 | reordering the sub-directory entries keeps one per directory, each with its synopsis and link |
| Builder.ListSubdirs | proxy/builder.go:90-96 | the loop over `dirMap` yields one entry per directory, with its synopsis and its link |
| Builder.CollectSubdirs | proxy/builder.go:90-99 | the sub-directory list has one entry per directory, each with its synopsis and link, sorted by name |
| Builder.GetNavLinks | proxy/builder.go:106-118 | the appends build the labels of `NavSections` |
| Builder.ScanEntry | proxy/builder.go:41-51 | one turn of the archive loop, as `Step` of the entry's classification |
| Builder.ScanGoFile | proxy/builder.go:52-59 | the `.go` part of a turn, as `Step` of its classification |
| Builder.ScanPackageFile | proxy/builder.go:60-72 | a file of the package itself is parsed and kept as a test file or as a package file. The first package file names the package |
| Builder.Builder.constructor | proxy/proxy.go:79 | a new builder has no examples and no go.mods |
| Builder.Builder.GetExamples | proxy/builder.go:354-397 | the loop of `getExamples` computes `ExamplesFor` over the builder's examples |
| Builder.Builder.GetFunc | proxy/builder.go:230-255 | the record of `FuncFor`: anchor, name, declaration, HTML doc, receiver and the examples of the example prefix |
| Builder.Builder.GetFuncs | proxy/builder.go:221-228 | the loop of `getFuncs` computes `FuncsFor` |
| Builder.Builder.GetType | proxy/builder.go:162-188 | the record of `TypeFor`. A struct lists its named fields, any other type shows its spec. It has the type's functions, its methods under the type's name, its constants, variables and examples |
| Builder.Builder.GetTypes | proxy/builder.go:154-160 | one `TypeFor` record per type, in order |
| Builder.Builder.GetClosestModFile | proxy/builder.go:404-419 | the loop of `getClosestModFile` computes `ClosestModFile` |
| Builder.Builder.ScanArchive | proxy/builder.go:40-73 | the archive loop computes `ScanAll` and leaves the collected go.mods in `mods`. On failure, `mods` holds those of the entries before the failing one |
| Builder.Builder.GoModFor | proxy/builder.go:101-104 | no go.mod text exactly when there are go.mods but none is closest to the module; otherwise "" without go.mods, else the closest one formatted with its links |
| Builder.Builder.PageOf | proxy/builder.go:77-118 | the page is `DocFor` of the scan, the package and the builder's examples |
| Builder.Builder.Assemble | proxy/builder.go:74-118 | fails with `NoClosestGoMod` exactly when there are go.mods but none matches. Otherwise the page of `DocFor`, with the sorted sub-directory list |
| Builder.Builder.GetGoDoc | proxy/builder.go:32-121 | the first parse failure is the result, with the examples unchanged. Otherwise `mods` and `examples` are those of the archive, the result fails exactly when no go.mod is closest, and a page is `DocFor` of the scan with sorted sub-directories |
| Proxy.NewService | proxy/proxy.go:24-26 | the base URL loses one trailing `/` when it has one, and is kept otherwise |
| Proxy.NewServiceDropsOneSlash | proxy/proxy.go:25 | the URL loses at most one character, and a second trailing `/` stays |
| Proxy.FetchURLInjective | proxy/proxy.go:146-147 | for module paths without `@`, the request URL determines the module and the version |
| Proxy.Probe | proxy/proxy.go:119-135 | the recursive specification of the probing loop; its properties are in FirstAnswered, ProbeInvalidWhenAllDecline, ProbeFoundAtFirst and ProbeTransportAtFirst |
| Proxy.FirstAnswered | proxy/proxy.go:122-135 | the position of the first candidate the proxy does not decline: every earlier one is declined, and that one is not |
| Proxy.ProbeInvalidWhenAllDecline | proxy/proxy.go:122-124 | the probe ends in "invalid path" exactly when the proxy declines every parent of the module path |
| Proxy.ProbeFoundAtFirst | proxy/proxy.go:126-132 | a found archive is the first candidate not declined, answered with 200 |
| Proxy.ProbeTransportAtFirst | proxy/proxy.go:126-129 | a transport error is the answer to the first candidate not declined |
| Proxy.FoundSplitsPath | proxy/proxy.go:133-134 | the path found is the module path with no sub-directory, or a parent that is followed by `/` and the sub-directory |
| Proxy.MakeZip | proxy/proxy.go:119-135 | the loop of `makeZip` computes `Probe` from the module path |
| Proxy.ModRoot | proxy/proxy.go:38-42 | definition: the module path, or without its sub-directory and the `/` before it; its property is in ModRootIsFoundPath |
| Proxy.ModRootIsFoundPath | proxy/proxy.go:38-42 | for a module path without a trailing `/`, the module root is the path that served the archive, and the root, `/` and the sub-directory make up the module path |
| Proxy.GetVersions | proxy/proxy.go:91-112 | a version list exactly when the request gets an answer with status 200; its lines hold no newline |
| Proxy.GetVersionsKeepsBody | proxy/proxy.go:109 | joining the version lines gives back the whole body |
| Proxy.GetDoc | proxy/proxy.go:33-84 | no archive gives that outcome as the error, and a build failure gives the builder's error. A page is `DocFor` of the scan for the found sub-directory, with the decoded module root and the version list of the root, or none |
| Server.FirstOf | main.go:80 | the first element of a comma-separated list: a prefix without `,`, followed by `,` unless it is the whole text |
| Server.ParseProxyURL | main.go:79-89 | the first element of the list, refused exactly when it is "", "direct" or "off", each with its own error |
| Server.ParseProxyURLOfList | main.go:80 | the proxy of a list is its first element, whatever follows |
| Server.MethodReceiver | main.go:183-189 | "" exactly for no receiver; otherwise the receiver in parentheses |
| Server.MethodReceiverInjective | main.go:183-189 | different receivers are shown differently |
| Server.NewerIsStrictWeakOrder | main.go:180 | "newer by semver" is a strict weak order, as `sort.Slice` needs |
| Server.SortVersions | main.go:179-181 | the versions are sorted newest first and are a permutation of what they were |
| Server.SortedHeadIsLatest | main.go:171-177 | the first of versions sorted newest first is a newest one |
| Server.LatestVer | main.go:171-177 | "latest" for no versions. Otherwise the first after sorting newest first, which is one of the versions given, with none newer |
| Server.GroupedIsVersionsOf | main.go:143-146 | the grouping has a key exactly for each module of the catalog, holding its versions in catalog order |
| Server.NoVersions | main.go:143-146 | a module absent from the catalog has no versions |
| Server.VersionOfPresent | main.go:144-145 | a module of the catalog has at least one version |
| Server.IndexEntry | main.go:148-153 | the entry's versions are the module's versions sorted newest first, and its latest is the newest |
| Server.CollectIndex | main.go:147-154 | one entry per key of the map, each for its versions, no module twice |
| Server.CatalogOfIndex | main.go:143-155 | entries for the keys of the grouping are one per catalog module, each with a permutation of its versions sorted newest first and the newest as latest |
| Server.GroupCatalog | main.go:143-155 | `getCatalogModules`' grouping: exactly one entry per catalog module, with all its versions sorted newest first and the newest as its latest |

## Left out

- Reading the zip archive, temporary directories, file creation and the copy of the
  response body (`proxy/proxy.go:44-77`, `115-118`, `136-143`) are I/O. The archive's
  entries are a parameter of `GetDoc`.
- The goroutine and channel of `getVersions` are left out: the version list is a value
  read when the page is finished. Failing to read the body is left out.
- The HTTP client `http.DefaultClient.Do` and request construction are an oracle `get`
  from URLs to responses. The request context is not modelled.
- The Go libraries are values of a `Toolchain`:
  - the parsers, which may fail;
  - `doc.New`, `doc.Examples` and `doc.ToHTML`;
  - the printers of `go/format` and `go/printer`;
  - `module.DecodePath`, whose error gives "";
  - `modfile.FormatHTML`.

  Their own behaviour is not modelled. `getSynopsis` is a value of the toolchain, and
  `b.fset` is not modelled.
- The text of a declaration, type or value as the printer writes it is an input field,
  not computed.
- Proxy.GetDoc: when `getGoDoc` fails, the Go code writes to a nil page (a panic). The
  model returns the builder's error instead.
- Builder.Builder.GetGoDoc: with go.mods but none closest to the module, the Go code
  dereferences nil. The model returns `NoClosestGoMod`. Assembly.VersionedModsNeverMatch
  shows this happens whenever the archive has several go.mods.
- Values.GetConsts: requires every declaration to have a name, and a group to have a
  spec per name. The Go code indexes both without checking and would panic.
- Builder.Builder.GetGoDoc: requires `doc.New` to produce only such declarations.
- Proxy.MakeZip: requires a module path of at least two characters. For a
  one-character path that the proxy declines, `mod[len(path)+1:]` is out of range in Go.
- Proxy.ModRootIsFoundPath: requires a module path without a trailing `/`. With one,
  the computed module root differs from the path that served the archive.
- Server.LatestVer: `semver.Compare` is a parameter assumed to be a total preorder. Its
  parsing of versions is not modelled.
- `filepath.Dir` does not clean its result, so paths with `//` or `.` elements are not
  treated as Go treats them. The sub-directory link is built by concatenation, without
  `filepath.Join`'s cleaning.
- Only ASCII is modelled: `unicode.IsUpper`, `strings.Title`, `bytes.TrimSpace` and
  case-folding in the output comment pattern.
- Printing the HTML page, `subOne`, `getVerLink`, `getJSON`, routing and the rest of
  `main.go` are outside the core. So are `catalog.go` and `index.go`, which repeat the
  grouping, and the decoding of the catalog's JSON into entries.
- Builder.Builder.GetExamples: the printer's choice between `e.Play` and the commented
  code is part of the toolchain. The printed code is an input that may be missing, and
  a missing one skips the example, as the error branch does.
