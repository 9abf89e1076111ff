/** The documentation records of package `doc`, as the builder fills them. */
module Doc {

  /** One module page. `Examples` and `GoMod` are set by the builder as well. */
  datatype Documentation = Documentation(
    packageName: string,
    moduleVersion: string,
    versions: seq<string>,
    moduleRoot: string,
    importPath: string,
    packageDoc: string,
    constants: seq<Value>,
    variables: seq<Value>,
    funcs: seq<Func>,
    types: seq<Type>,
    files: seq<File>,
    subdirs: seq<Subdir>,
    navLinks: seq<string>,
    examples: seq<Example>,
    goMod: string)

  /** One constant or variable, or a group of them (`isGroup`, children in `values`). */
  datatype Value = Value(
    signature: string,
    name: string,
    value: string,
    typ: string,
    doc: string,
    isGroup: bool,
    values: seq<Value>)

  /** A function or a method; `id` is `TypeName.FuncName` for methods. */
  datatype Func = Func(
    id: string,
    name: string,
    signature: string,
    doc: string,
    receiver: string,
    examples: seq<Example>)

  datatype Example = Example(id: string, name: string, doc: string, code: string, output: string)

  datatype Type = Type(
    name: string,
    doc: string,
    typ: string,
    signature: string,
    fields: seq<Field>,
    examples: seq<Example>,
    methods: seq<Func>,
    funcs: seq<Func>,
    constants: seq<Value>,
    variables: seq<Value>)

  datatype Field = Field(name: string, typ: string, doc: string, structTag: string)

  datatype File = File(name: string)

  datatype Subdir = Subdir(name: string, synopsis: string, link: string)
}
