/** The example rules of proxy/builder.go: which `doc.Example`s belong to a symbol,
    their identifiers and display names (`getExamples`), and the clean-up of their
    printed code (`fmtExampleCode`). */
module Examples {
  import opened GoStrings
  import opened Seqs
  import opened GoSource
  import opened Doc

  /** `startsWithUppercase`: the first letter is upper case (ASCII model of
      `unicode.IsUpper`; the empty text decodes to the error rune, which is not). */
  predicate StartsWithUppercase(s: string)
  {
    s != [] && IsUpper(s[0])
  }

  /** The word separators of `strings.Title`: every ASCII character other than letters,
      digits and `_`. Characters beyond ASCII do not separate in this model. */
  predicate IsSeparator(c: char)
  {
    c <= 127 as char && !(IsUpper(c) || IsLower(c) || ('0' <= c <= '9') || c == '_')
  }

  /** The loop of `strings.Title`: each character is upper-cased when the character
      before it, `prev`, separates words. */
  function TitleFrom(s: string, prev: char): (r: string)
    ensures |r| == |s|
    ensures |s| > 0 ==> r[0] == (if IsSeparator(prev) then ToUpper(s[0]) else s[0])
    ensures forall i :: 0 < i < |s| ==> r[i] == (if IsSeparator(s[i - 1]) then ToUpper(s[i]) else s[i])
  {
    if s == [] then []
    else [if IsSeparator(prev) then ToUpper(s[0]) else s[0]] + TitleFrom(s[1..], s[0])
  }

  /** `strings.Title`: the first letter of every word in upper case, the first character
      of the text starting a word. */
  function Title(s: string): (r: string)
    ensures |r| == |s|
    ensures forall i :: 0 <= i < |s| && (i == 0 || IsSeparator(s[i - 1])) ==> r[i] == ToUpper(s[i])
    ensures forall i :: 0 < i < |s| && !IsSeparator(s[i - 1]) ==> r[i] == s[i]
  {
    TitleFrom(s, ' ')
  }

  /** Title-casing twice changes nothing more: capitalising keeps the word boundaries. */
  lemma TitleIdempotent(s: string)
    ensures Title(Title(s)) == Title(s)
  {
    var t := Title(s);
    forall k | 0 <= k < |s|
      ensures IsSeparator(t[k]) == IsSeparator(s[k])
    {
      if k == 0 || IsSeparator(s[k - 1]) {
        assert t[k] == ToUpper(s[k]);
      } else {
        assert t[k] == s[k];
      }
    }
    forall i | 0 <= i < |s|
      ensures Title(t)[i] == t[i]
    {
      if i == 0 || IsSeparator(s[i - 1]) {
        assert t[i] == ToUpper(s[i]);
      }
    }
  }

  /** An example suffix the name-matching rule accepts after the symbol's own name: none
      at all, or `_` then a lower-case-initial suffix free of further `_`. */
  predicate SuffixAccepted(rest: string)
  {
    rest == "" || (rest[0] == '_' && '_' !in rest[1..] && !StartsWithUppercase(rest[1..]))
  }

  /** The display name of an example for symbol `name`, or nothing when the example does
      not belong to the symbol. */
  function ExampleSuffix(exampleName: string, name: string): (r: Option<string>)
    ensures r.Some? <==> name <= exampleName && SuffixAccepted(exampleName[|name|..])
    ensures r.Some? && |exampleName| == |name| ==> r.value == ""
    ensures r.Some? && |exampleName| > |name| ==> r.value == Title(exampleName[|name| + 1..])
  {
    if !(name <= exampleName) then None
    else
      var n := exampleName[|name|..];
      if n == "" then Some("")
      else if LastIndexOf(n, '_') != 0 then None
      else if StartsWithUppercase(n[1..]) then None
      else Some(Title(n[1..]))
  }

  /** The example `ExampleF_Output`-style rule: an example of method `F` on a type `T`
      (named `F_T...`) is never also claimed by a function `F`, since `T` is upper case. */
  lemma MethodExampleNotClaimedByFunc(funcName: string, typeName: string, suffix: string)
    requires StartsWithUppercase(typeName)
    ensures ExampleSuffix(funcName + "_" + typeName + suffix, funcName).None?
  {
    var e := funcName + "_" + typeName + suffix;
    assert funcName <= e;
    assert e[|funcName|..] == "_" + (typeName + suffix);
  }

  /** The marker comment `(?i)//[[:space:]]*output:` starts at position `p` of `s`. */
  predicate MarkerAt(s: string, p: int)
  {
    0 <= p && p + 2 <= |s| && s[p] == '/' && s[p + 1] == '/' &&
    OutputWord(s[p + 2..][LeadingSpace(s[p + 2..])..])
  }

  /** `s` starts with `output:` in any case. */
  predicate OutputWord(s: string)
  {
    |s| >= 7 && forall k :: 0 <= k < 7 ==> ToLower(s[k]) == "output:"[k]
  }

  ghost predicate NoMarker(s: string)
  {
    forall p :: 0 <= p < |s| ==> !MarkerAt(s, p)
  }

  /** `exampleOutputRx.FindIndex` from position `from` on: the leftmost marker. */
  function FindMarker(s: string, from: nat): (r: Option<nat>)
    requires from <= |s|
    ensures r.Some? ==> from <= r.value < |s| && MarkerAt(s, r.value)
    ensures forall p :: from <= p < |s| && (r.None? || p < r.value) ==> !MarkerAt(s, p)
    decreases |s| - from
  {
    if from == |s| then None
    else if MarkerAt(s, from) then Some(from)
    else FindMarker(s, from + 1)
  }

  lemma {:induction false} LeadingSpaceOfPrefix(y: string, x: string)
    requires y <= x && LeadingSpace(y) < |y|
    ensures LeadingSpace(x) == LeadingSpace(y)
  {
    if IsSpace(y[0]) {
      assert y[1..] <= x[1..];
      LeadingSpaceOfPrefix(y[1..], x[1..]);
    }
  }

  /** A marker inside a slice of `u` is a marker of `u`. */
  lemma MarkerInSlice(u: string, a: nat, b: nat, q: nat)
    requires a <= b <= |u| && MarkerAt(u[a..b], q)
    ensures MarkerAt(u, a + q)
  {
    var y := u[a..b][q + 2..];
    var x := u[a + q + 2..];
    assert y <= x;
    LeadingSpaceOfPrefix(y, x);
    var n := LeadingSpace(y);
    assert forall k :: 0 <= k < 7 ==> x[n..][k] == y[n..][k];
  }

  /** A slice of `u` that starts no marker of `u` holds no marker. */
  lemma NoMarkerInSlice(u: string, a: nat, b: nat)
    requires a <= b <= |u| && forall p :: a <= p < b ==> !MarkerAt(u, p)
    ensures NoMarker(u[a..b])
  {
    forall q | 0 <= q < b - a
      ensures !MarkerAt(u[a..b], q)
    {
      if MarkerAt(u[a..b], q) {
        MarkerInSlice(u, a, b, q);
      }
    }
  }

  /** The code kept before the first marker, trimmed, holds no marker. */
  lemma CutHasNoMarker(u: string, j: nat)
    requires j <= |u| && forall p :: 0 <= p < j ==> !MarkerAt(u, p)
    ensures NoMarker(TrimSpace(u[..j]))
  {
    var a, n := TrimSpaceOfPrefix(u, j);
    NoMarkerInSlice(u, a, a + n);
  }

  /** `bytes.Replace(buf, "\n    ", "\n", -1)`: one level of indentation off every line
      but the first. The scan goes left to right and goes on after each replaced match,
      so every line break loses the four spaces that follow it, if there are four. */
  function Unindent(s: string): (r: string)
    ensures |r| <= |s|
    ensures '\n' !in s ==> r == s
    decreases |s|
  {
    if s == [] then []
    else if s[0] == '\n' then "\n" + Unindent(DropIndent(s[1..]))
    else [s[0]] + Unindent(s[1..])
  }

  /** A line without its first four spaces, when it starts with four. */
  function DropIndent(line: string): (r: string)
    ensures r == line || "    " + r == line
  {
    if |line| >= 4 && line[..4] == "    " then line[4..] else line
  }

  function DropIndents(lines: seq<string>): (r: seq<string>)
    ensures |r| == |lines|
    ensures forall k :: 0 <= k < |lines| ==> r[k] == DropIndent(lines[k])
  {
    if lines == [] then [] else [DropIndent(lines[0])] + DropIndents(lines[1..])
  }

  lemma UnindentCons(c: char, y: string)
    requires c != '\n'
    ensures Unindent([c] + y) == [c] + Unindent(y)
  {
    assert ([c] + y)[1..] == y;
  }

  /** Text before the first line break passes through `Unindent` unchanged. */
  lemma {:induction false} UnindentPrefix(a: string, x: string)
    requires '\n' !in a
    ensures Unindent(a + x) == a + Unindent(x)
  {
    if a != [] {
      var c, a' := a[0], a[1..];
      assert a == [c] + a';
      assert '\n' !in a';
      var y := a' + x;
      assert a + x == [c] + y;
      UnindentCons(c, y);
      UnindentPrefix(a', x);
      var z := Unindent(x);
      assert [c] + (a' + z) == a + z;
    } else {
      assert a + x == x;
    }
  }

  /** After a line break, `Unindent` drops the next line's indentation and carries on. */
  lemma UnindentBreak(t: string)
    ensures Unindent("\n" + t) == "\n" + Unindent(DropIndent(t))
  {
    assert ("\n" + t)[1..] == t;
  }

  /** Dropping the indentation of a text drops it from its first line only. */
  lemma SplitDropIndent(t: string)
    ensures Split(DropIndent(t), '\n')[0] == DropIndent(Split(t, '\n')[0])
    ensures Split(DropIndent(t), '\n')[1..] == Split(t, '\n')[1..]
  {
    var u := DropIndent(t);
    if u != t {
      SplitPrefix("    ", u, '\n');
      var p := Split(t, '\n')[0];
      assert p == "    " + Split(u, '\n')[0];
      assert p[..4] == "    " && p[4..] == Split(u, '\n')[0];
    }
  }

  lemma UnindentFirstLineText(a: string, b: string, x: string)
    requires Unindent(a + b) == a + Unindent(b) && Unindent(b) == "\n" + x
    ensures Unindent(a + b) == a + ['\n'] + x
  {
  }

  /** The first line of a text comes out of `Unindent` whole. */
  lemma UnindentFirstLine(a: string, t: string)
    requires '\n' !in a
    ensures Split(Unindent(a + "\n" + t), '\n') == [a] + Split(Unindent(DropIndent(t)), '\n')
  {
    var b := "\n" + t;
    var x := Unindent(DropIndent(t));
    assert a + "\n" + t == a + b;
    UnindentPrefix(a, b);
    UnindentBreak(t);
    UnindentFirstLineText(a, b, x);
    SplitCons(a, x, '\n');
  }

  /** `Unindent` line by line: the first line is kept and every later line loses one
      leading `"    "` where it has one; the matches cannot overlap, since each starts
      at its own line break. */
  lemma {:induction false} UnindentLines(s: string)
    ensures Split(Unindent(s), '\n') == [Split(s, '\n')[0]] + DropIndents(Split(s, '\n')[1..])
    decreases |s|
  {
    var i := IndexOf(s, '\n');
    if i != -1 {
      var a := s[..i];
      var t := s[i + 1..];
      assert s == a + "\n" + t;
      var u := DropIndent(t);
      var ts := Split(t, '\n');
      var us := Split(u, '\n');
      UnindentFirstLine(a, t);
      UnindentLines(u);
      SplitCons(a, t, '\n');
      SplitDropIndent(t);
      assert DropIndents(ts) == [DropIndent(ts[0])] + DropIndents(ts[1..]);
      assert Split(s, '\n')[1..] == ts;
    }
  }

  predicate Braced(s: string)
  {
    |s| >= 2 && s[0] == '{' && s[|s| - 1] == '}'
  }

  /** `fmtExampleCode`: a function body loses its braces and one indentation level and
      is cut before its output comment; anything else is kept as printed and its
      expected output dropped. */
  function FmtExampleCode(s: string, output: string): (r: (string, string))
    ensures !Braced(s) ==> r == (s, "")
    ensures Braced(s) ==> r.1 == output && NoMarker(r.0)
    ensures Braced(s) && NoMarker(Unindent(s[1..|s| - 1])) ==> r.0 == Unindent(s[1..|s| - 1])
    ensures Braced(s) && FindMarker(Unindent(s[1..|s| - 1]), 0).Some? ==>
              var u := Unindent(s[1..|s| - 1]);
              r.0 == TrimSpace(u[..FindMarker(u, 0).value])
  {
    if Braced(s) then
      var u := Unindent(s[1..|s| - 1]);
      match FindMarker(u, 0)
      case None => (u, output)
      case Some(j) =>
        CutHasNoMarker(u, j);
        (TrimSpace(u[..j]), output)
    else (s, "")
  }

  /** The documentation record of example `e` for symbol `name`, or nothing when it does
      not belong to the symbol or its code could not be printed. */
  function ExampleFor(e: DocExample, name: string): (r: Option<Example>)
    ensures r.Some? <==> ExampleSuffix(e.name, name).Some? && e.printed.Some?
    ensures r.Some? ==>
              && r.value.name == ExampleSuffix(e.name, name).value
              && r.value.id == "Example" + name + "--" + r.value.name
              && r.value.doc == e.doc
              && (r.value.code, r.value.output) == FmtExampleCode(e.printed.value, e.output)
  {
    match ExampleSuffix(e.name, name)
    case None => None
    case Some(n) =>
      match e.printed
      case None => None
      case Some(printed) =>
        var (code, output) := FmtExampleCode(printed, e.output);
        Some(Example("Example" + name + "--" + n, n, e.doc, code, output))
  }

  /** `ExampleFor` for a fixed symbol, as a function value. */
  function ExampleOf(name: string): DocExample -> Option<Example>
  {
    e => ExampleFor(e, name)
  }

  /** The examples of a symbol, in the order of the examples of the package. */
  function ExamplesFor(examples: seq<DocExample>, name: string): seq<Example>
  {
    FilterMap(examples, ExampleOf(name))
  }

  /** An example named `name_suffix`, for a suffix without `_` that does not start with
      an upper-case letter, is shown under the title-cased suffix. */
  lemma SuffixOfSymbol(name: string, suffix: string)
    requires '_' !in suffix && !StartsWithUppercase(suffix)
    ensures ExampleSuffix(name + "_" + suffix, name) == Some(Title(suffix))
  {
    var e := name + "_" + suffix;
    assert name <= e;
    var n := e[|name|..];
    assert n == [] + ['_'] + suffix;
    LastIndexOfBefore([], suffix, '_');
    assert n[1..] == suffix;
  }

  /** The example `F_Output` is not one of `F`'s: its suffix is upper case. */
  lemma SuffixOutput()
    ensures ExampleSuffix("F_Output", "F").None?
  {
    assert "F_Output"[1..] == "_Output" && "F_Output"[2..] == "Output";
  }

  lemma TitleSecond()
    ensures Title("second") == "Second"
  {
    var t := Title("second");
    assert t[0] == ToUpper('s') == 'S';
    forall i | 1 <= i < 6
      ensures t[i] == "Second"[i]
    {
      assert !IsSeparator("second"[i - 1]);
    }
  }

  lemma SuffixSecond()
    ensures ExampleSuffix("F_second", "F") == Some("Second")
  {
    SuffixOfSymbol("F", "second");
    assert "F" + "_" + "second" == "F_second";
    TitleSecond();
  }

  lemma FilterMapSnoc<A, B>(s: seq<A>, x: A, f: A -> Option<B>)
    ensures FilterMap(s + [x], f) == FilterMap(s, f) + (if f(x).Some? then [f(x).value] else [])
  {
    assert (s + [x])[..|s|] == s;
  }

  /** Filtering three elements of which only the first two are kept. */
  lemma FilterMapTwoOfThree<A, B>(x: A, y: A, z: A, f: A -> Option<B>)
    requires f(x).Some? && f(y).Some? && f(z).None?
    ensures FilterMap([x, y, z], f) == [f(x).value, f(y).value]
  {
    FilterMapSnoc([], x, f);
    assert [] + [x] == [x];
    FilterMapSnoc([x], y, f);
    assert [x] + [y] == [x, y];
    FilterMapSnoc([x, y], z, f);
    assert [x, y] + [z] == [x, y, z];
  }

  /** The default example of `F`. */
  lemma ExampleOfF(doc: string, code: string)
    ensures var x := ExampleFor(DocExample("F", doc, Some(code), ""), "F");
            x.Some? && x.value.name == "" && x.value.id == "ExampleF--"
  {
    assert ExampleSuffix("F", "F") == Some("");
  }

  /** The example `F_second` of `F`, shown as "Second". */
  lemma ExampleOfFSecond(doc: string, code: string)
    ensures var x := ExampleFor(DocExample("F_second", doc, Some(code), ""), "F");
            x.Some? && x.value.name == "Second" && x.value.id == "ExampleF--Second"
  {
    SuffixSecond();
  }

  /** Three examples of a symbol `F`: its default one, a named one, and one whose suffix is upper case. */
  function ExamplesOfFInput(codes: seq<string>, docs: seq<string>): seq<DocExample>
    requires |codes| == 3 && |docs| == 3
  {
    [DocExample("F", docs[0], Some(codes[0]), ""),
     DocExample("F_second", docs[1], Some(codes[1]), ""),
     DocExample("F_Output", docs[2], Some(codes[2]), "")]
  }

  /** How examples attach to a symbol: for a symbol `F`, examples `F`, `F_second`
      and `F_Output` give the default example and "Second"; `F_Output` is rejected. */
  lemma ExamplesOfF(codes: seq<string>, docs: seq<string>)
    requires |codes| == 3 && |docs| == 3
    ensures var r := ExamplesFor(ExamplesOfFInput(codes, docs), "F");
            |r| == 2 && r[0].name == "" && r[1].name == "Second" &&
            r[0].id == "ExampleF--" && r[1].id == "ExampleF--Second"
  {
    var es := ExamplesOfFInput(codes, docs);
    ExampleOfF(docs[0], codes[0]);
    ExampleOfFSecond(docs[1], codes[1]);
    SuffixOutput();
    FilterMapTwoOfThree(es[0], es[1], es[2], ExampleOf("F"));
  }
}
