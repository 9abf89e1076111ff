/** The constant and variable records of proxy/builder.go (`getConsts`,
    `populateConstantsValueAndType`): one documentation value per `doc.Value`, a group
    for a declaration that introduces several names. */
module Values {
  import opened Seqs
  import opened GoSource
  import opened Doc

  /** What `getConsts` indexes without checking: every value has a name, and a group
      has a spec for each of its names (the Go code panics otherwise). */
  predicate WellFormed(c: DocValue)
  {
    |c.names| >= 1 && |c.decl.specs| >= (if |c.names| > 1 then |c.names| else 1)
  }

  /** The formatted initializer, kept only when the spec has exactly one. */
  function InitValue(spec: Spec): string
    requires spec.ValueSpec?
  {
    if |spec.values| == 1 then spec.values[0] else ""
  }

  /** `populateConstantsValueAndType`: the value and the type of `v` from `spec`. */
  function Populate(v: Value, spec: Spec): (r: Value)
    requires spec.ValueSpec?
    ensures r.value == (if |spec.values| == 1 then spec.values[0] else v.value)
    ensures r.typ == (if spec.typ.Some? then spec.typ.value else "")
    ensures r == v.(value := r.value, typ := r.typ)
  {
    v.(value := if |spec.values| == 1 then spec.values[0] else v.value,
       typ := spec.typ.GetOr(""))
  }

  /** Child `k` of a group: its name, the raw doc of its own spec, no HTML. */
  function Child(name: string, spec: Spec): Value
    requires spec.ValueSpec?
  {
    Populate(Value("", name, "", "", spec.doc, false, []), spec)
  }

  /** The specs the builder reads for `c` are all value specs. */
  predicate ValueSpecs(c: DocValue)
    requires WellFormed(c)
  {
    forall k :: 0 <= k < (if |c.names| > 1 then |c.names| else 1) ==> c.decl.specs[k].ValueSpec?
  }

  /** The record `getConsts` builds for one `doc.Value`, or nothing when one of the specs
      it reads is not a value spec (which ends the whole list). */
  function MakeValue(c: DocValue, toHTML: string -> string): (r: Option<Value>)
    requires WellFormed(c)
    ensures r.Some? <==> ValueSpecs(c)
    ensures r.Some? ==>
              && r.value.isGroup == (|c.names| > 1)
              && r.value.doc == toHTML(c.doc)
              && r.value.signature == c.decl.text
    ensures r.Some? && |c.names| > 1 ==>
              && r.value.name == "" && r.value.value == "" && r.value.typ == ""
              && |r.value.values| == |c.names|
              && forall k :: 0 <= k < |c.names| ==>
                   var spec := c.decl.specs[k];
                   && r.value.values[k].name == c.names[k]
                   && !r.value.values[k].isGroup
                   && r.value.values[k].doc == spec.doc
                   && r.value.values[k].value == InitValue(spec)
                   && r.value.values[k].typ == spec.typ.GetOr("")
                   && r.value.values[k].values == []
    ensures r.Some? && |c.names| == 1 ==>
              && r.value.name == c.names[0]
              && r.value.value == InitValue(c.decl.specs[0])
              && r.value.typ == c.decl.specs[0].typ.GetOr("")
              && r.value.values == []
  {
    var parent := Value("", "", "", "", toHTML(c.doc), |c.names| > 1, []);
    if !ValueSpecs(c) then None
    else if |c.names| > 1 then
      Some(parent.(values := seq(|c.names|, k requires 0 <= k < |c.names| =>
                                   Child(c.names[k], c.decl.specs[k])),
                   signature := c.decl.text))
    else
      Some(Populate(parent.(name := c.names[0]), c.decl.specs[0]).(signature := c.decl.text))
  }

  /** `getConsts`: the records of `cc` in order, up to the first one that cannot be built. */
  function ConstsSpec(cc: seq<DocValue>, toHTML: string -> string): seq<Value>
    requires forall k :: 0 <= k < |cc| ==> WellFormed(cc[k])
  {
    if cc == [] then []
    else
      match MakeValue(cc[0], toHTML)
      case None => []
      case Some(v) => [v] + ConstsSpec(cc[1..], toHTML)
  }

  /** The records are exactly those of a prefix of the input, one per `doc.Value`; the
      prefix ends only at a declaration with a spec of another kind. */
  lemma {:induction false} ConstsSpecShape(cc: seq<DocValue>, toHTML: string -> string)
    requires forall k :: 0 <= k < |cc| ==> WellFormed(cc[k])
    ensures var r := ConstsSpec(cc, toHTML);
            && |r| <= |cc|
            && (forall k :: 0 <= k < |r| ==> MakeValue(cc[k], toHTML) == Some(r[k]))
            && (|r| < |cc| ==> MakeValue(cc[|r|], toHTML).None?)
  {
    if cc != [] && MakeValue(cc[0], toHTML).Some? {
      ConstsSpecShape(cc[1..], toHTML);
    }
  }

  /** With only value specs, every `doc.Value` yields a record. */
  lemma AllValueSpecsKeepAll(cc: seq<DocValue>, toHTML: string -> string)
    requires forall k :: 0 <= k < |cc| ==> WellFormed(cc[k]) && ValueSpecs(cc[k])
    ensures |ConstsSpec(cc, toHTML)| == |cc|
  {
    ConstsSpecShape(cc, toHTML);
  }

  lemma GroupValue(c: DocValue, toHTML: string -> string, children: seq<Value>)
    requires WellFormed(c) && |c.names| > 1
    requires forall k :: 0 <= k < |c.names| ==> c.decl.specs[k].ValueSpec?
    requires |children| == |c.names|
    requires forall k :: 0 <= k < |c.names| ==> children[k] == Child(c.names[k], c.decl.specs[k])
    ensures MakeValue(c, toHTML) == Some(Value(c.decl.text, "", "", "", toHTML(c.doc), true, children))
  {
    assert ValueSpecs(c);
    assert MakeValue(c, toHTML).value.values == children;
  }

  lemma SingleValue(c: DocValue, toHTML: string -> string)
    requires WellFormed(c) && |c.names| == 1 && c.decl.specs[0].ValueSpec?
    ensures MakeValue(c, toHTML) ==
            Some(Populate(Value("", c.names[0], "", "", toHTML(c.doc), false, []), c.decl.specs[0])
                   .(signature := c.decl.text))
  {
    assert ValueSpecs(c);
  }

  /** The body of the loop of `getConsts` for one `doc.Value`: nothing when it meets a
      spec of another kind, where the Go code returns the records built so far. */
  method BuildValue(c: DocValue, toHTML: string -> string) returns (r: Option<Value>)
    requires WellFormed(c)
    ensures r == MakeValue(c, toHTML)
  {
    var val := Value("", "", "", "", toHTML(c.doc), |c.names| > 1, []);
    if val.isGroup {
      var idx := 0;
      while idx < |c.names|
        invariant 0 <= idx <= |c.names|
        invariant forall k :: 0 <= k < idx ==> c.decl.specs[k].ValueSpec?
        invariant val == Value("", "", "", "", toHTML(c.doc), true, val.values)
        invariant |val.values| == idx
        invariant forall k :: 0 <= k < idx ==> val.values[k] == Child(c.names[k], c.decl.specs[k])
      {
        var spec := c.decl.specs[idx];
        if !spec.ValueSpec? {
          return None;
        }
        var newV := Value("", c.names[idx], "", "", spec.doc, false, []);
        newV := Populate(newV, spec);
        val := val.(values := val.values + [newV]);
        idx := idx + 1;
      }
      GroupValue(c, toHTML, val.values);
    } else {
      val := val.(name := c.names[0]);
      var spec := c.decl.specs[0];
      if !spec.ValueSpec? {
        return None;
      }
      val := Populate(val, spec);
      SingleValue(c, toHTML);
    }
    val := val.(signature := c.decl.text);
    return Some(val);
  }

  /** `ConstsSpec` from the `i`-th record on. */
  lemma ConstsSpecAt(cc: seq<DocValue>, i: nat, toHTML: string -> string)
    requires i < |cc| && forall k :: 0 <= k < |cc| ==> WellFormed(cc[k])
    ensures ConstsSpec(cc[i..], toHTML) ==
            if MakeValue(cc[i], toHTML).None? then [] else [MakeValue(cc[i], toHTML).value] + ConstsSpec(cc[i + 1..], toHTML)
  {
    assert cc[i..][1..] == cc[i + 1..];
  }

  /** `getConsts`: the records in order, stopping at the first that cannot be built. */
  method GetConsts(cc: seq<DocValue>, toHTML: string -> string) returns (vals: seq<Value>)
    requires forall k :: 0 <= k < |cc| ==> WellFormed(cc[k])
    ensures vals == ConstsSpec(cc, toHTML)
  {
    vals := [];
    var i := 0;
    while i < |cc|
      invariant 0 <= i <= |cc|
      invariant vals + ConstsSpec(cc[i..], toHTML) == ConstsSpec(cc, toHTML)
    {
      ConstsSpecAt(cc, i, toHTML);
      var v := BuildValue(cc[i], toHTML);
      if v.None? {
        assert vals + [] == vals;
        return;
      }
      assert (vals + [v.value]) + ConstsSpec(cc[i + 1..], toHTML) == vals + ([v.value] + ConstsSpec(cc[i + 1..], toHTML));
      vals := vals + [v.value];
      i := i + 1;
    }
  }
}
