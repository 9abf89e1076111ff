/** Stand-ins for the parts of Go's `strings` and `path/filepath` packages that the
    documentation builder, the fetcher and the server helpers rely on. Strings are
    sequences of characters; only ASCII case and white space are modelled. */
module GoStrings {

  /** `strings.Index(s, string(c))`: the first position of `c`, or -1. */
  function IndexOf(s: string, c: char): (r: int)
    ensures r == -1 <==> c !in s
    ensures r != -1 ==> 0 <= r < |s| && s[r] == c && c !in s[..r]
  {
    if s == [] then -1
    else if s[0] == c then 0
    else
      var k := IndexOf(s[1..], c);
      if k == -1 then -1 else assert s[1..][..k] == s[1..k + 1]; k + 1
  }

  /** `strings.LastIndex(s, string(c))`: the last position of `c`, or -1. */
  function LastIndexOf(s: string, c: char): (r: int)
    ensures r == -1 <==> c !in s
    ensures r != -1 ==> 0 <= r < |s| && s[r] == c && c !in s[r + 1..]
  {
    if s == [] then -1
    else if s[|s| - 1] == c then |s| - 1
    else
      var k := LastIndexOf(s[..|s| - 1], c);
      assert s == s[..|s| - 1] + [s[|s| - 1]];
      k
  }

  lemma {:induction false} IndexOfAfter(a: string, b: string, c: char)
    requires c !in a && c in b
    ensures IndexOf(a + b, c) == |a| + IndexOf(b, c)
  {
    if a != [] {
      assert (a + b)[1..] == a[1..] + b;
      IndexOfAfter(a[1..], b, c);
    } else {
      assert a + b == b;
    }
  }

  lemma {:induction false} LastIndexOfBefore(a: string, b: string, c: char)
    requires c !in b
    ensures LastIndexOf(a + [c] + b, c) == |a|
  {
    var s := a + [c] + b;
    if b != [] {
      assert s[..|s| - 1] == a + [c] + b[..|b| - 1];
      assert s[|s| - 1] == b[|b| - 1];
      LastIndexOfBefore(a, b[..|b| - 1], c);
    }
  }

  /** The parent of `a/b`, for a last element `b`, is `a`. */
  lemma DirOfChild(a: string, b: string)
    requires '/' !in b
    ensures Dir(a + "/" + b) == a
  {
    LastIndexOfBefore(a, b, '/');
    assert (a + "/" + b)[..|a|] == a;
  }

  predicate HasSuffix(s: string, x: string)
  {
    |x| <= |s| && s[|s| - |x|..] == x
  }

  /** `strings.TrimSuffix`: drops one copy of `x` from the end of `s`, if it is there. */
  function TrimSuffix(s: string, x: string): (r: string)
    ensures HasSuffix(s, x) ==> r + x == s
    ensures !HasSuffix(s, x) ==> r == s
  {
    if HasSuffix(s, x) then
      assert s == s[..|s| - |x|] + s[|s| - |x|..];
      s[..|s| - |x|]
    else s
  }

  /** `filepath.Dir` on a clean slash-separated path: everything before the last `/`,
      or "." when there is no `/`. */
  function Dir(p: string): (r: string)
    ensures '/' !in p ==> r == "."
    ensures '/' in p ==> r + "/" <= p && '/' !in p[|r| + 1..]
  {
    var i := LastIndexOf(p, '/');
    if i == -1 then "." else p[..i]
  }

  /** Drops every trailing `/`. */
  function TrimTrailingSlashes(p: string): (r: string)
    ensures r <= p
    ensures r == [] || r[|r| - 1] != '/'
    ensures forall k :: |r| <= k < |p| ==> p[k] == '/'
  {
    if p != [] && p[|p| - 1] == '/' then TrimTrailingSlashes(p[..|p| - 1]) else p
  }

  /** `filepath.Base`: the last element of the path after trailing slashes are removed;
      "." for the empty path and "/" for a path made only of slashes. */
  function Base(p: string): (r: string)
    ensures p == [] ==> r == "."
    ensures '/' !in r || r == "/"
  {
    if p == [] then "."
    else
      var q := TrimTrailingSlashes(p);
      if q == [] then "/" else LastElement(q)
  }

  /** What follows the last `/` of a path that does not end in one. */
  function LastElement(q: string): (r: string)
    requires q != [] && q[|q| - 1] != '/'
    ensures '/' !in r
    ensures r != [] && HasSuffix(q, r) && (|r| == |q| || q[|q| - |r| - 1] == '/')
  {
    var i := LastIndexOf(q, '/');
    assert i < |q| - 1;
    q[i + 1..]
  }

  /** `filepath.Ext`: the suffix of the final element starting at its last `.`, or "". */
  function Ext(p: string): (r: string)
    ensures r == [] || (r[0] == '.' && HasSuffix(p, r) && '/' !in r)
  {
    var b := p[LastIndexOf(p, '/') + 1..];
    var d := LastIndexOf(b, '.');
    if d == -1 then "" else b[d..]
  }

  /** The base of a path is its last element: a suffix of the path without its
      trailing slashes, preceded by a `/` unless it is all of it. */
  lemma BaseIsLastElement(p: string)
    requires p != []
    ensures var q := TrimTrailingSlashes(p);
            (q == [] ==> Base(p) == "/") &&
            (q != [] ==> Base(p) != [] && HasSuffix(q, Base(p)) &&
                         (|Base(p)| == |q| || q[|q| - |Base(p)| - 1] == '/'))
  {
  }

  /** The extension starts at the last `.` of the final element, and there is none
      exactly when that element has no `.`. */
  lemma ExtIsLastDot(p: string)
    ensures Ext(p) != [] ==> '.' !in Ext(p)[1..]
    ensures Ext(p) == [] <==> '.' !in p[LastIndexOf(p, '/') + 1..]
  {
  }

  /** The ASCII white space of Go's `unicode.IsSpace` (and of regexp's `[[:space:]]`,
      which in addition has no U+0085 / U+00A0, irrelevant in the ASCII model). */
  predicate IsSpace(c: char)
  {
    c == ' ' || c == '\t' || c == '\n' || c == '\r' || c == 11 as char || c == 12 as char
  }

  predicate IsUpper(c: char) { 'A' <= c <= 'Z' }

  predicate IsLower(c: char) { 'a' <= c <= 'z' }

  function ToUpper(c: char): (r: char)
    ensures IsLower(c) ==> IsUpper(r)
    ensures !IsLower(c) ==> r == c
  {
    if IsLower(c) then (c as int - 32) as char else c
  }

  function ToLower(c: char): (r: char)
    ensures IsUpper(c) ==> IsLower(r)
    ensures !IsUpper(c) ==> r == c
  {
    if IsUpper(c) then (c as int + 32) as char else c
  }

  /** The number of white-space characters at the front of `s`. */
  function LeadingSpace(s: string): (n: nat)
    ensures n <= |s|
    ensures forall k :: 0 <= k < n ==> IsSpace(s[k])
    ensures n < |s| ==> !IsSpace(s[n])
  {
    if s != [] && IsSpace(s[0]) then 1 + LeadingSpace(s[1..]) else 0
  }

  /** The number of white-space characters at the back of `s`. */
  function TrailingSpace(s: string): (n: nat)
    ensures n <= |s|
    ensures forall k :: |s| - n <= k < |s| ==> IsSpace(s[k])
    ensures n < |s| ==> !IsSpace(s[|s| - n - 1])
  {
    if s != [] && IsSpace(s[|s| - 1]) then 1 + TrailingSpace(s[..|s| - 1]) else 0
  }

  /** `bytes.TrimSpace`: `s` without leading and trailing white space, as a slice of `s`. */
  function TrimSpace(s: string): (r: string)
    ensures LeadingSpace(s) + |r| <= |s| && r == s[LeadingSpace(s)..LeadingSpace(s) + |r|]
    ensures r == [] || (!IsSpace(r[0]) && !IsSpace(r[|r| - 1]))
    ensures forall k :: LeadingSpace(s) + |r| <= k < |s| ==> IsSpace(s[k])
  {
    var a := LeadingSpace(s);
    var t := s[a..];
    t[..|t| - TrailingSpace(t)]
  }

  /** Trimming a prefix of `u` gives a slice of `u` inside that prefix. */
  lemma TrimSpaceOfPrefix(u: string, j: nat) returns (a: nat, n: nat)
    requires j <= |u|
    ensures a + n <= j && TrimSpace(u[..j]) == u[a..a + n]
  {
    var w := u[..j];
    a := LeadingSpace(w);
    n := |TrimSpace(w)|;
    assert w[a..a + n] == u[a..a + n];
  }

  /** `strings.Split(s, string(sep))`: the pieces between the separators; never empty. */
  function Split(s: string, sep: char): (r: seq<string>)
    ensures |r| >= 1
    ensures forall k :: 0 <= k < |r| ==> sep !in r[k]
  {
    var i := IndexOf(s, sep);
    if i == -1 then [s] else [s[..i]] + Split(s[i + 1..], sep)
  }

  /** `strings.Join(parts, string(sep))`. */
  function Join(parts: seq<string>, sep: char): string
  {
    if parts == [] then ""
    else if |parts| == 1 then parts[0]
    else parts[0] + [sep] + Join(parts[1..], sep)
  }

  lemma JoinCons(p: string, rest: seq<string>, sep: char)
    requires rest != []
    ensures Join([p] + rest, sep) == p + [sep] + Join(rest, sep)
  {
    assert ([p] + rest)[1..] == rest;
  }

  /** Splitting and joining again gives back the original text. */
  lemma {:induction false} JoinSplit(s: string, sep: char)
    ensures Join(Split(s, sep), sep) == s
  {
    var i := IndexOf(s, sep);
    if i != -1 {
      JoinSplit(s[i + 1..], sep);
      JoinCons(s[..i], Split(s[i + 1..], sep), sep);
      assert s == s[..i] + [sep] + s[i + 1..];
    }
  }

  /** Splitting at the first separator: a first piece without one comes off whole. */
  lemma SplitCons(p: string, t: string, sep: char)
    requires sep !in p
    ensures Split(p + [sep] + t, sep) == [p] + Split(t, sep)
  {
    var s := p + [sep] + t;
    assert s == p + ([sep] + t);
    IndexOfAfter(p, [sep] + t, sep);
    assert s[..|p|] == p && s[|p| + 1..] == t;
  }

  /** A separator-free prefix joins the first piece of the split. */
  lemma SplitPrefix(p: string, u: string, sep: char)
    requires sep !in p
    ensures Split(p + u, sep) == [p + Split(u, sep)[0]] + Split(u, sep)[1..]
  {
    var j := IndexOf(u, sep);
    if j == -1 {
      assert sep !in p + u;
    } else {
      var a := u[..j];
      var b := u[j + 1..];
      assert u == a + [sep] + b;
      assert p + u == (p + a) + [sep] + b;
      SplitCons(a, b, sep);
      SplitCons(p + a, b, sep);
    }
  }

  /** Joining pieces that contain no separator and splitting again gives back the pieces. */
  lemma {:induction false} SplitJoin(parts: seq<string>, sep: char)
    requires |parts| >= 1
    requires forall k :: 0 <= k < |parts| ==> sep !in parts[k]
    ensures Split(Join(parts, sep), sep) == parts
  {
    if |parts| > 1 {
      var rest := parts[1..];
      assert forall k :: 0 <= k < |rest| ==> rest[k] == parts[k + 1];
      SplitJoin(rest, sep);
      SplitCons(parts[0], Join(rest, sep), sep);
      assert parts == [parts[0]] + rest;
    }
  }

  /** Go's `<` on strings: byte-wise lexicographic order, which on the characters of
      this model is the lexicographic order of their code points. */
  predicate Less(a: string, b: string)
  {
    if a == [] then b != []
    else if b == [] then false
    else if a[0] != b[0] then a[0] < b[0]
    else Less(a[1..], b[1..])
  }

  lemma {:induction false} LessIrreflexive(a: string)
    ensures !Less(a, a)
  {
    if a != [] {
      LessIrreflexive(a[1..]);
    }
  }

  lemma {:induction false} LessTransitive(a: string, b: string, c: string)
    requires Less(a, b) && Less(b, c)
    ensures Less(a, c)
  {
    if a != [] && a[0] == b[0] && b[0] == c[0] {
      LessTransitive(a[1..], b[1..], c[1..]);
    }
  }

  /** Any two strings are equal or one is less than the other. */
  lemma {:induction false} LessTotal(a: string, b: string)
    ensures a == b || Less(a, b) || Less(b, a)
  {
    if a != [] && b != [] && a[0] == b[0] {
      LessTotal(a[1..], b[1..]);
      if a[1..] == b[1..] {
        assert a == [a[0]] + a[1..] && b == [b[0]] + b[1..];
      }
    }
  }
}
