/** Small value-level helpers shared by the crawler model. */
module Util {

  /** Python's `None` / a present value. */
  datatype Option<+T> = None | Some(value: T) {
    /** The value, or `default` when absent (Python's `dict.get(key, default)`). */
    function GetOr(default: T): T {
      match this
      case Some(v) => v
      case None => default
    }
  }

  function Max(a: int, b: int): int { if a >= b then a else b }

  function Min(a: int, b: int): int { if a <= b then a else b }

  /** The set of elements of a sequence (Python's `set(list)`). */
  function Elems<T>(s: seq<T>): set<T> {
    set x | x in s
  }

  /** No element occurs twice. */
  predicate Distinct<T(==)>(s: seq<T>) {
    forall i, j :: 0 <= i < j < |s| ==> s[i] != s[j]
  }

  /** Appending an element not yet present keeps a sequence duplicate-free and adds it to its elements. */
  lemma ElemsSnoc<T>(s: seq<T>, x: T)
    requires Distinct(s) && x !in Elems(s)
    ensures Elems(s + [x]) == Elems(s) + {x} && Distinct(s + [x])
  {
    assert forall y :: y in s + [x] <==> y in s || y == x;
    forall i, j | 0 <= i < j < |s + [x]| ensures (s + [x])[i] != (s + [x])[j] {
      if j == |s| {
        assert s[i] in Elems(s);
      }
    }
  }

  /** `list(s)`: the elements of a set, each once, in some order. */
  method ListElems<T(==)>(s: set<T>) returns (r: seq<T>)
    ensures Elems(r) == s && Distinct(r)
  {
    r := [];
    var rest := s;
    while rest != {}
      invariant Elems(r) + rest == s && Elems(r) !! rest
      invariant Distinct(r)
      decreases |rest|
    {
      var x :| x in rest;
      ElemsSnoc(r, x);
      r, rest := r + [x], rest - {x};
    }
  }

  lemma ConcatAssoc<T>(a: seq<T>, b: seq<T>, c: seq<T>)
    ensures (a + b) + c == a + (b + c)
  {
  }

  /** Sum of a sequence of naturals, peeled from the right so that prefixes extend by one element. */
  function Sum(s: seq<nat>): nat {
    if s == [] then 0 else Sum(s[..|s| - 1]) + s[|s| - 1]
  }

  lemma SumPrefix(s: seq<nat>, i: nat)
    requires i < |s|
    ensures Sum(s[..i + 1]) == Sum(s[..i]) + s[i]
  {
    assert s[..i + 1][..i] == s[..i];
  }
}
