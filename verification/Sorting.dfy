/** Sorting of a collected vector, and why its result does not depend on the collection order. */
module Sorting {

  /** A strict total order. */
  ghost predicate StrictOrder<T(!new)>(less: (T, T) -> bool) {
    && (forall a :: !less(a, a))
    && (forall a, b, c :: less(a, b) && less(b, c) ==> less(a, c))
    && (forall a, b :: less(a, b) || a == b || less(b, a))
  }

  /** Ascending without repeats. */
  ghost predicate Ascending<T>(s: seq<T>, less: (T, T) -> bool) {
    forall i, j :: 0 <= i < j < |s| ==> less(s[i], s[j])
  }

  ghost function Elements<T>(s: seq<T>): set<T> {
    set x | x in s
  }

  ghost predicate Distinct<T>(s: seq<T>) {
    forall i, j :: 0 <= i < j < |s| ==> s[i] != s[j]
  }

  /** `x` put before the first element that exceeds it. */
  function Insert<T(!new,==)>(s: seq<T>, x: T, less: (T, T) -> bool): (r: seq<T>)
    requires StrictOrder(less) && Ascending(s, less) && x !in Elements(s)
    ensures Ascending(r, less) && Elements(r) == Elements(s) + {x}
  {
    if s == [] || less(x, s[0]) then
      Prepend(x, s, less);
      [x] + s
    else
      TailElements(s, less);
      var tail := Insert(s[1..], x, less);
      Prepend(s[0], tail, less);
      [s[0]] + tail
  }

  lemma Prepend<T(!new)>(x: T, s: seq<T>, less: (T, T) -> bool)
    requires Ascending(s, less) && forall y :: y in Elements(s) ==> less(x, y)
    ensures Ascending([x] + s, less) && Elements([x] + s) == Elements(s) + {x}
  {
    assert forall i :: 0 <= i < |s| ==> s[i] in Elements(s);
  }

  /** Sort distinct elements. */
  method Sort<T(!new,==)>(s: seq<T>, less: (T, T) -> bool) returns (r: seq<T>)
    requires StrictOrder(less) && Distinct(s)
    ensures Ascending(r, less) && Elements(r) == Elements(s)
  {
    r := [];
    for i := 0 to |s|
      invariant Ascending(r, less) && Elements(r) == Elements(s[..i])
    {
      assert s[i] !in Elements(s[..i]) && s[i] !in Elements(r);
      r := Insert(r, s[i], less);
      assert s[..i + 1] == s[..i] + [s[i]];
    }
    assert s[..|s|] == s;
  }

  /** Any finite set can be so arranged. */
  lemma {:induction false} AscendingExists<T(!new)>(elements: set<T>, less: (T, T) -> bool) returns (s: seq<T>)
    requires StrictOrder(less)
    ensures Ascending(s, less) && Elements(s) == elements
  {
    if elements == {} {
      s := [];
    } else {
      var x :| x in elements;
      s := AscendingExists(elements - {x}, less);
      s := Insert(s, x, less);
    }
  }

  /** An ascending arrangement is determined by its elements. */
  lemma {:induction false} AscendingIsUnique<T(!new)>(a: seq<T>, b: seq<T>, less: (T, T) -> bool)
    requires StrictOrder(less) && Ascending(a, less) && Ascending(b, less)
    requires Elements(a) == Elements(b)
    ensures a == b
  {
    EmptyElements(a);
    EmptyElements(b);
    if a != [] {
      assert a[0] in Elements(b);
      FirstIsLeast(a, less);
      FirstIsLeast(b, less);
      assert a[0] == b[0];
      TailElements(a, less);
      TailElements(b, less);
      AscendingIsUnique(a[1..], b[1..], less);
      assert a == [a[0]] + a[1..] && b == [b[0]] + b[1..];
    }
  }

  lemma EmptyElements<T>(s: seq<T>)
    ensures Elements(s) == {} <==> s == []
  {
    if s != [] {
      assert s[0] in Elements(s);
    }
  }

  lemma ElementsOfPush<T>(s: seq<T>, x: T)
    ensures Elements(s + [x]) == Elements(s) + {x}
  {
    assert (s + [x])[|s|] == x;
    assert forall i :: 0 <= i < |s| ==> (s + [x])[i] == s[i];
  }

  lemma FirstIsLeast<T(!new)>(s: seq<T>, less: (T, T) -> bool)
    requires StrictOrder(less) && Ascending(s, less) && s != []
    ensures s[0] in Elements(s)
    ensures forall x :: x in Elements(s) ==> x == s[0] || less(s[0], x)
  {
  }

  lemma TailElements<T(!new)>(s: seq<T>, less: (T, T) -> bool)
    requires StrictOrder(less) && Ascending(s, less) && s != []
    ensures Elements(s[1..]) == Elements(s) - {s[0]}
  {
    assert s == [s[0]] + s[1..];
    assert forall i :: 0 < i < |s| ==> s[i] != s[0];
  }
}
