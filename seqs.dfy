/** Sequence helpers shared by the builder and the server: the "append what passes"
    loops of the Go code all compute a filter-map. */
module Seqs {

  datatype Option<+T> = None | Some(value: T) {
    function GetOr(default: T): T
    {
      match this
      case Some(v) => v
      case None => default
    }
  }

  datatype Result<+T, +E> = Ok(value: T) | Err(error: E)

  /** Appends `f(x).value` for every `x` of `s`, in order, for which `f(x)` is `Some`. */
  function FilterMap<A, B>(s: seq<A>, f: A -> Option<B>): (r: seq<B>)
    ensures |r| <= |s|
  {
    if s == [] then []
    else
      var last := f(s[|s| - 1]);
      FilterMap(s[..|s| - 1], f) + (if last.Some? then [last.value] else [])
  }

  /** A filter-map distributes over concatenation, so it keeps the input order. */
  lemma {:induction false} FilterMapConcat<A, B>(a: seq<A>, b: seq<A>, f: A -> Option<B>)
    ensures FilterMap(a + b, f) == FilterMap(a, f) + FilterMap(b, f)
  {
    if b == [] {
      assert a + b == a;
    } else {
      var ab := a + b;
      assert ab[..|ab| - 1] == a + b[..|b| - 1];
      assert ab[|ab| - 1] == b[|b| - 1];
      FilterMapConcat(a, b[..|b| - 1], f);
    }
  }

  /** A filter-map keeps exactly the elements `f` accepts, each mapped as `f` says. */
  lemma {:induction false} FilterMapMembers<A, B>(s: seq<A>, f: A -> Option<B>)
    ensures forall y :: y in FilterMap(s, f) <==> exists x :: x in s && f(x) == Some(y)
  {
    if s != [] {
      var init := s[..|s| - 1];
      FilterMapMembers(init, f);
      assert s == init + [s[|s| - 1]];
      forall y
        ensures y in FilterMap(s, f) <==> exists x :: x in s && f(x) == Some(y)
      {
        if y in FilterMap(s, f) && y !in FilterMap(init, f) {
          assert f(s[|s| - 1]) == Some(y);
        }
        if exists x :: x in s && f(x) == Some(y) {
          var x :| x in s && f(x) == Some(y);
          if x !in init {
            assert x == s[|s| - 1];
          }
        }
      }
    }
  }
}
