/** What the builder receives from the Go toolchain (`go/parser`, `go/doc`,
    `go/format`, `go/printer`) and from the go.mod and module-path libraries. Their
    outputs are data here, and the libraries themselves are the function values of a
    `Toolchain`, about which the model assumes nothing. Formatted source text
    (`format.Node` output) appears as plain strings. */
module GoSource {
  import opened Seqs

  newtype byte = x: int | 0 <= x < 256

  /** One entry of the module archive: its full name (`mod@ver/dir/file`) and bytes. */
  datatype ZipEntry = ZipEntry(name: string, content: seq<byte>)

  /** A parsed source file; only its package name is read by the builder. */
  datatype AstFile = AstFile(fileName: string, packageName: string)

  /** One spec of a `const`/`var` declaration: its doc text, its formatted
      initializers and its formatted type, if written. Other specs are `OtherSpec`. */
  datatype Spec = ValueSpec(doc: string, values: seq<string>, typ: Option<string>) | OtherSpec

  /** A declaration: its specs and the formatted text of the whole declaration. */
  datatype GenDecl = GenDecl(specs: seq<Spec>, text: string)

  /** `doc.Value`: the names a declaration introduces, its doc comment and the declaration. */
  datatype DocValue = DocValue(doc: string, names: seq<string>, decl: GenDecl)

  /** `doc.Func`: name, doc comment, receiver text and formatted declaration. */
  datatype DocFunc = DocFunc(name: string, doc: string, recv: string, declText: string)

  /** `ast.Field` of a struct: its names (none for an embedded field), formatted type,
      doc text and raw tag. */
  datatype AstField = AstField(names: seq<string>, typeText: string, doc: string, tag: Option<string>)

  /** `doc.Type`; `structFields` is present exactly when the type's spec is a struct.
      `specText` is the formatted type spec, `declText` the formatted declaration. */
  datatype DocType = DocType(
    name: string,
    doc: string,
    declText: string,
    specText: string,
    structFields: Option<seq<AstField>>,
    funcs: seq<DocFunc>,
    methods: seq<DocFunc>,
    consts: seq<DocValue>,
    vars: seq<DocValue>)

  /** `doc.Package` as `doc.New` computes it. */
  datatype DocPackage = DocPackage(
    doc: string,
    consts: seq<DocValue>,
    vars: seq<DocValue>,
    funcs: seq<DocFunc>,
    types: seq<DocType>)

  /** `doc.Example`: its name (without the `Example` prefix), doc, the text the printer
      produced for its code (absent when printing failed) and its expected output. */
  datatype DocExample = DocExample(name: string, doc: string, printed: Option<string>, output: string)

  datatype ModVersion = ModVersion(path: string, version: string)

  datatype Replacement = Replacement(from: ModVersion, to: ModVersion)

  /** A parsed go.mod; `syntax` stands for its syntax tree, used only by `FormatHTML`. */
  datatype GoModFile = GoModFile(require: seq<ModVersion>, replace: seq<Replacement>, syntax: string)

  /** The libraries the builder calls. An absent result is the library's error. */
  datatype Toolchain = Toolchain(
    parseMod: seq<byte> -> Option<GoModFile>,                  // modfile.Parse
    parseGo: (string, seq<byte>) -> Option<AstFile>,           // parser.ParseFile
    docNew: (string, map<string, AstFile>) -> DocPackage,      // doc.New
    examples: seq<AstFile> -> seq<DocExample>,                 // doc.Examples
    toHTML: string -> string,                                  // doc.ToHTML
    decodePath: string -> Option<string>,                      // module.DecodePath
    synopsis: (string, seq<ZipEntry>) -> string,               // getSynopsis
    formatHTML: (string, map<string, string>) -> string)       // modfile.FormatHTML
}
