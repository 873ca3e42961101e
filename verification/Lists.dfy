/** Mapping and filtering lists, and what they do to the multiset of elements. */
module Lists {

  function Map<A, B>(f: A -> B, s: seq<A>): seq<B> {
    seq(|s|, i requires 0 <= i < |s| => f(s[i]))
  }

  function Filter<A>(keep: A -> bool, s: seq<A>): seq<A> {
    if s == [] then []
    else
      var rest := Filter(keep, s[1..]);
      if keep(s[0]) then [s[0]] + rest else rest
  }

  lemma {:induction false} Without<A>(s: seq<A>, j: nat)
    requires j < |s|
    ensures multiset(s) == multiset(s[..j] + s[j + 1..]) + multiset{s[j]}
  {
    assert s == s[..j] + [s[j]] + s[j + 1..];
  }

  lemma {:induction false} MapOfConcat<A, B>(f: A -> B, a: seq<A>, b: seq<A>)
    ensures Map(f, a + b) == Map(f, a) + Map(f, b)
  {
  }

  lemma {:induction false} MapWithout<A, B>(f: A -> B, s: seq<A>, j: nat)
    requires j < |s|
    ensures multiset(Map(f, s)) == multiset(Map(f, s[..j] + s[j + 1..])) + multiset{f(s[j])}
  {
    Without(Map(f, s), j);
    assert Map(f, s)[..j] + Map(f, s)[j + 1..] == Map(f, s[..j] + s[j + 1..]);
  }

  /** Where the first element of one list is in another with the same elements. */
  lemma {:induction false} Counterpart<A>(a: seq<A>, b: seq<A>) returns (j: nat)
    requires multiset(a) == multiset(b) && a != []
    ensures j < |b| && b[j] == a[0]
    ensures multiset(a[..0] + a[1..]) == multiset(b[..j] + b[j + 1..])
  {
    assert a[0] in multiset(b);
    j :| 0 <= j < |b| && b[j] == a[0];
    Without(a, 0);
    Without(b, j);
    assert multiset(a[..0] + a[1..]) == multiset(a) - multiset{a[0]};
    assert multiset(b[..j] + b[j + 1..]) == multiset(b) - multiset{a[0]};
  }

  /** Lists with the same elements map to lists with the same elements. */
  lemma {:induction false} MapKeepsMultisets<A, B>(f: A -> B, a: seq<A>, b: seq<A>)
    requires multiset(a) == multiset(b)
    ensures multiset(Map(f, a)) == multiset(Map(f, b))
    decreases |a|
  {
    if a == [] {
      assert |b| == |multiset(b)|;
    } else {
      var j := Counterpart(a, b);
      MapKeepsMultisets(f, a[..0] + a[1..], b[..j] + b[j + 1..]);
      MapWithout(f, a, 0);
      MapWithout(f, b, j);
    }
  }

  lemma {:induction false} FilterOfConcat<A>(keep: A -> bool, a: seq<A>, b: seq<A>)
    ensures Filter(keep, a + b) == Filter(keep, a) + Filter(keep, b)
  {
    if a == [] {
      assert a + b == b;
    } else {
      FilterOfConcat(keep, a[1..], b);
      assert (a + b)[1..] == a[1..] + b;
    }
  }

  lemma {:induction false} FilterWithout<A>(keep: A -> bool, s: seq<A>, j: nat)
    requires j < |s|
    ensures multiset(Filter(keep, s)) ==
            multiset(Filter(keep, s[..j] + s[j + 1..])) + if keep(s[j]) then multiset{s[j]} else multiset{}
  {
    FilterOfConcat(keep, s[..j], s[j..]);
    FilterOfConcat(keep, s[..j], s[j + 1..]);
    assert s == s[..j] + s[j..];
    assert s[j..][1..] == s[j + 1..];
  }

  /** Lists with the same elements filter to lists with the same elements. */
  lemma {:induction false} FilterKeepsMultisets<A>(keep: A -> bool, a: seq<A>, b: seq<A>)
    requires multiset(a) == multiset(b)
    ensures multiset(Filter(keep, a)) == multiset(Filter(keep, b))
    decreases |a|
  {
    if a == [] {
      assert |b| == |multiset(b)|;
    } else {
      var j := Counterpart(a, b);
      FilterKeepsMultisets(keep, a[..0] + a[1..], b[..j] + b[j + 1..]);
      FilterWithout(keep, a, 0);
      FilterWithout(keep, b, j);
    }
  }

  function Inserted<A>(s: seq<A>, at: nat, x: A): seq<A>
    requires at <= |s|
  {
    s[..at] + [x] + s[at..]
  }

  lemma {:induction false} AllAlikeBetween<A, B>(f: A -> B, s: seq<A>, p: nat, x: A, q: nat, y: A, k: nat)
    requires p <= k < q <= |s| && Map(f, Inserted(s, p, x)) == Map(f, Inserted(s, q, y))
    ensures f(s[k]) == f(x)
    decreases k
  {
    var a, b := Inserted(s, p, x), Inserted(s, q, y);
    assert f(s[k]) == Map(f, b)[k] == Map(f, a)[k];
    if k > p {
      AllAlikeBetween(f, s, p, x, q, y, k - 1);
      assert a[k] == s[k - 1];
    }
  }

  /** Two insertions into one list map alike exactly when both elements and all between their places do. */
  lemma {:induction false} InsertedElsewhere<A, B>(f: A -> B, s: seq<A>, p: nat, x: A, q: nat, y: A)
    requires p <= q <= |s|
    ensures Map(f, Inserted(s, p, x)) == Map(f, Inserted(s, q, y)) <==>
            f(x) == f(y) && forall k :: p <= k < q ==> f(s[k]) == f(x)
  {
    var a, b := Inserted(s, p, x), Inserted(s, q, y);
    if Map(f, a) == Map(f, b) {
      forall k | p <= k < q ensures f(s[k]) == f(x) {
        AllAlikeBetween(f, s, p, x, q, y, k);
      }
      assert Map(f, b)[q] == f(y) && Map(f, a)[q] == f(if p == q then x else s[q - 1]);
    }
    if f(x) == f(y) && forall k :: p <= k < q ==> f(s[k]) == f(x) {
      forall i | 0 <= i < |a| ensures Map(f, a)[i] == Map(f, b)[i] {
        assert a[i] == if i < p then s[i] else if i == p then x else s[i - 1];
        assert b[i] == if i < q then s[i] else if i == q then y else s[i - 1];
      }
    }
  }
}
