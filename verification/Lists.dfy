/** Filtering, flattening and pairwise relations over sequences. */
module Lists {

  function Filter<T(!new)>(s: seq<T>, p: T -> bool): (r: seq<T>)
    ensures |r| <= |s|
    ensures forall x :: x in r <==> x in s && p(x)
  {
    if s == [] then []
    else
      var rest := Filter(s[..|s| - 1], p);
      assert s == s[..|s| - 1] + [s[|s| - 1]];
      if p(s[|s| - 1]) then rest + [s[|s| - 1]] else rest
  }

  lemma {:induction false} FilterConcat<T(!new)>(s: seq<T>, t: seq<T>, p: T -> bool)
    ensures Filter(s + t, p) == Filter(s, p) + Filter(t, p)
  {
    if t == [] {
      assert s + t == s;
    } else {
      var t' := t[..|t| - 1];
      assert (s + t)[..|s + t| - 1] == s + t';
      FilterConcat(s, t', p);
    }
  }

  lemma {:induction false} FilterNone<T(!new)>(s: seq<T>, p: T -> bool)
    requires forall x :: x in s ==> !p(x)
    ensures Filter(s, p) == []
  {
    if s != [] { FilterNone(s[..|s| - 1], p); }
  }

  lemma {:induction false} FilterAll<T(!new)>(s: seq<T>, p: T -> bool)
    requires forall x :: x in s ==> p(x)
    ensures Filter(s, p) == s
  {
    if s != [] {
      FilterAll(s[..|s| - 1], p);
      assert s == s[..|s| - 1] + [s[|s| - 1]];
    }
  }

  ghost predicate Pairwise<T(!new)>(s: seq<T>, r: (T, T) -> bool) {
    forall i, j :: 0 <= i < j < |s| ==> r(s[i], s[j])
  }

  lemma PairwiseTail<T(!new)>(s: seq<T>, r: (T, T) -> bool)
    requires s != [] && Pairwise(s, r)
    ensures Pairwise(s[1..], r)
  {
    forall i, j | 0 <= i < j < |s| - 1 ensures r(s[1..][i], s[1..][j]) {
      assert r(s[i + 1], s[j + 1]);
    }
  }

  lemma SameFirst<T(!new)>(s: seq<T>, t: seq<T>, r: (T, T) -> bool)
    requires s != [] && t != [] && multiset(s) == multiset(t) && Pairwise(s, r) && Pairwise(t, r)
    requires forall x, y :: r(x, y) ==> !r(y, x)
    ensures s[0] == t[0]
  {
    assert s[0] in multiset(t) && t[0] in multiset(s);
    var i :| 0 <= i < |t| && t[i] == s[0];
    var j :| 0 <= j < |s| && s[j] == t[0];
    assert i > 0 ==> r(t[0], s[0]);
    assert j > 0 ==> r(s[0], t[0]);
  }

  lemma TailMultiset<T>(s: seq<T>)
    requires s != []
    ensures multiset(s[1..]) == multiset(s) - multiset{s[0]}
  {
    assert s == [s[0]] + s[1..];
  }

  /** There is one arrangement in which each element stands before the later ones. */
  lemma {:induction false} ArrangedOnce<T(!new)>(s: seq<T>, t: seq<T>, r: (T, T) -> bool)
    requires multiset(s) == multiset(t) && Pairwise(s, r) && Pairwise(t, r)
    requires forall x, y :: r(x, y) ==> !r(y, x)
    ensures s == t
  {
    assert |s| == |multiset(s)| == |multiset(t)| == |t|;
    if s != [] {
      SameFirst(s, t, r);
      TailMultiset(s);
      TailMultiset(t);
      assert s == [s[0]] + s[1..] && t == [t[0]] + t[1..];
      PairwiseTail(s, r);
      PairwiseTail(t, r);
      ArrangedOnce(s[1..], t[1..], r);
    }
  }

  lemma {:induction false} FilterPairwise<T(!new)>(s: seq<T>, p: T -> bool, r: (T, T) -> bool)
    requires Pairwise(s, r)
    ensures Pairwise(Filter(s, p), r)
  {
    if s != [] {
      var n := |s| - 1;
      FilterPairwise(s[..n], p, r);
      var f := Filter(s[..n], p);
      forall x | x in f ensures r(x, s[n]) {
        var k :| 0 <= k < n && s[..n][k] == x;
        assert r(s[k], s[n]);
      }
    }
  }

  function Flat<T(!new)>(b: seq<seq<T>>): seq<T> {
    if b == [] then [] else Flat(b[..|b| - 1]) + b[|b| - 1]
  }

  lemma FlatPush<T(!new)>(b: seq<seq<T>>, s: seq<T>)
    ensures Flat(b + [s]) == Flat(b) + s
  {
    assert (b + [s])[..|b|] == b;
  }

  lemma {:induction false} FlatConcat<T(!new)>(a: seq<seq<T>>, b: seq<seq<T>>)
    ensures Flat(a + b) == Flat(a) + Flat(b)
  {
    if b == [] {
      assert a + b == a;
    } else {
      var b' := b[..|b| - 1];
      assert (a + b)[..|a + b| - 1] == a + b';
      FlatConcat(a, b');
    }
  }

  lemma {:induction false} FlatSplit<T(!new)>(b: seq<seq<T>>, i: nat)
    requires i < |b|
    ensures Flat(b) == Flat(b[..i]) + b[i] + Flat(b[i + 1..])
  {
    var one := [b[i]];
    assert Flat(one) == b[i] by { assert one[..0] == [] && Flat(one[..0]) == []; }
    FlatConcat(b[..i], one);
    FlatConcat(b[..i] + one, b[i + 1..]);
    assert b == b[..i] + one + b[i + 1..];
  }

  /** Changing one list changes the whole by as much. */
  lemma {:induction false} FlatUpdate<T(!new)>(b: seq<seq<T>>, i: nat, s: seq<T>)
    requires i < |b|
    ensures |Flat(b[i := s])| == |Flat(b)| - |b[i]| + |s|
    ensures multiset(Flat(b[i := s])) + multiset(b[i]) == multiset(Flat(b)) + multiset(s)
  {
    FlatSplit(b, i);
    FlatSplit(b[i := s], i);
    assert b[i := s][..i] == b[..i] && b[i := s][i + 1..] == b[i + 1..];
  }

  lemma {:induction false} InFlat<T(!new)>(b: seq<seq<T>>, x: T)
    ensures x in Flat(b) <==> exists i :: 0 <= i < |b| && x in b[i]
  {
    if b != [] {
      var n := |b| - 1;
      InFlat(b[..n], x);
      assert forall i :: 0 <= i < n ==> b[..n][i] == b[i];
      if x in Flat(b[..n]) {
        var i :| 0 <= i < n && x in b[..n][i];
        assert x in b[i];
      }
    }
  }

  function FilterEach<T(!new)>(b: seq<seq<T>>, p: T -> bool): (r: seq<seq<T>>)
    ensures |r| == |b|
    ensures forall i :: 0 <= i < |b| ==> r[i] == Filter(b[i], p)
  {
    seq(|b|, i requires 0 <= i < |b| => Filter(b[i], p))
  }

  lemma {:induction false} FilterFlat<T(!new)>(b: seq<seq<T>>, p: T -> bool)
    ensures Flat(FilterEach(b, p)) == Filter(Flat(b), p)
  {
    if b != [] {
      var n := |b| - 1;
      FilterFlat(b[..n], p);
      assert FilterEach(b, p)[..n] == FilterEach(b[..n], p);
      FilterConcat(Flat(b[..n]), b[n], p);
    }
  }

  lemma {:induction false} FilterOfFilter<T(!new)>(s: seq<T>, p: T -> bool, q: T -> bool)
    requires forall x :: x in s && q(x) ==> p(x)
    ensures Filter(Filter(s, p), q) == Filter(s, q)
  {
    if s != [] {
      FilterOfFilter(s[..|s| - 1], p, q);
      var rest := Filter(s[..|s| - 1], p);
      if p(s[|s| - 1]) { assert (rest + [s[|s| - 1]])[..|rest|] == rest; }
    }
  }

  // ---- One list of a flattened whole changes

  lemma {:induction false} FlatSet<T(!new)>(b: seq<seq<T>>, i: nat, k: nat, x: T)
    requires i < |b| && k < |b[i]|
    ensures |Flat(b[..i])| + k < |Flat(b)|
    ensures Flat(b)[|Flat(b[..i])| + k] == b[i][k]
    ensures Flat(b[i := b[i][k := x]]) == Flat(b)[|Flat(b[..i])| + k := x]
  {
    var b' := b[i := b[i][k := x]];
    FlatSplit(b, i);
    FlatSplit(b', i);
    assert b'[..i] == b[..i] && b'[i + 1..] == b[i + 1..];
  }

  function Insert<T>(s: seq<T>, p: nat, x: T): seq<T>
    requires p <= |s|
  {
    s[..p] + [x] + s[p..]
  }

  lemma {:induction false} FlatAppend<T(!new)>(b: seq<seq<T>>, i: nat, x: T)
    requires i < |b|
    ensures |Flat(b[..i])| + |b[i]| <= |Flat(b)|
    ensures Flat(b[i := b[i] + [x]]) == Insert(Flat(b), |Flat(b[..i])| + |b[i]|, x)
  {
    var b' := b[i := b[i] + [x]];
    FlatSplit(b, i);
    FlatSplit(b', i);
    assert b'[..i] == b[..i] && b'[i + 1..] == b[i + 1..];
    var f, p := Flat(b), |Flat(b[..i])| + |b[i]|;
    assert f[..p] == Flat(b[..i]) + b[i];
    assert f[p..] == Flat(b[i + 1..]);
  }

  lemma MultisetUpdate<T>(s: seq<T>, n: nat, x: T)
    requires n < |s|
    ensures multiset(s[n := x]) == multiset(s) - multiset{s[n]} + multiset{x}
  {
  }

  lemma MultisetInsert<T>(s: seq<T>, n: nat, x: T)
    requires n <= |s|
    ensures multiset(Insert(s, n, x)) == multiset(s) + multiset{x}
  {
    assert s == s[..n] + s[n..];
  }

  lemma PairwiseUpdate<T(!new)>(s: seq<T>, p: nat, x: T, r: (T, T) -> bool)
    requires p < |s| && Pairwise(s, r)
    requires forall i :: 0 <= i < |s| && i != p ==> r(s[i], x) && r(x, s[i])
    ensures Pairwise(s[p := x], r)
  {
  }

  lemma PairwiseInsert<T(!new)>(s: seq<T>, p: nat, x: T, r: (T, T) -> bool)
    requires p <= |s| && Pairwise(s, r)
    requires forall y :: y in s ==> r(y, x) && r(x, y)
    ensures Pairwise(Insert(s, p, x), r)
  {
    var t := Insert(s, p, x);
    forall i, j | 0 <= i < j < |t| ensures r(t[i], t[j]) {
      var i', j' := if i < p then i else i - 1, if j < p then j else j - 1;
      if i != p { assert t[i] == s[i']; }
      if j != p { assert t[j] == s[j']; }
      if i != p && j != p { assert r(s[i'], s[j']); }
    }
  }

  lemma PairwisePart<T(!new)>(b: seq<seq<T>>, i: nat, r: (T, T) -> bool)
    requires i < |b| && Pairwise(Flat(b), r)
    ensures Pairwise(b[i], r)
  {
    FlatSplit(b, i);
    var f, n := Flat(b), |Flat(b[..i])|;
    assert b[i] == f[n..n + |b[i]|];
    forall j, k | 0 <= j < k < |b[i]| ensures r(b[i][j], b[i][k]) {
      assert r(f[n + j], f[n + k]);
    }
  }

  function Reversed<T>(s: seq<T>): seq<T> {
    if s == [] then [] else Reversed(s[1..]) + [s[0]]
  }

  lemma {:induction false} ReversedMultiset<T>(s: seq<T>)
    ensures |Reversed(s)| == |s| && multiset(Reversed(s)) == multiset(s)
  {
    if s != [] {
      ReversedMultiset(s[1..]);
      assert s == [s[0]] + s[1..];
    }
  }

  lemma {:induction false} ReversedAt<T>(s: seq<T>)
    ensures |Reversed(s)| == |s| && forall i :: 0 <= i < |s| ==> Reversed(s)[i] == s[|s| - 1 - i]
  {
    if s != [] { ReversedAt(s[1..]); }
  }
}
