/** The order in which matching cookies are sent. */
module CookieOrder {
  import opened Lists
  import opened Cookies
  import opened Wrappers

  function Length(s: Option<string>): nat {
    if s.Some? then |s.value| else 0
  }

  /** The comparison function: longest path, then longest domain, then longest name, then newest, first. */
  function Compare(c1: Cookie, c2: Cookie): int {
    if Length(c1.path) != Length(c2.path) then (if Length(c2.path) > Length(c1.path) then 1 else -1)
    else if Length(c1.domain) != Length(c2.domain) then (if Length(c2.domain) > Length(c1.domain) then 1 else -1)
    else if |c1.name| != |c2.name| then (if |c2.name| > |c1.name| then 1 else -1)
    else if c2.creationtime > c1.creationtime then 1 else -1
  }

  function Before(): (Cookie, Cookie) -> bool {
    (c1: Cookie, c2: Cookie) => Compare(c1, c2) < 0
  }

  ghost predicate Sorted(cs: seq<Cookie>) { Pairwise(cs, Before()) }

  /** On cookies of distinct creation times the comparison is a strict total order. */
  lemma CompareIsStrictTotalOrder(a: Cookie, b: Cookie, c: Cookie)
    requires a.creationtime != b.creationtime
    ensures Compare(a, b) == -Compare(b, a) != 0
    ensures Compare(a, b) < 0 && Compare(b, c) < 0 && a.creationtime != c.creationtime ==> Compare(a, c) < 0
  {
  }

  /** A missing path is the shortest: the cookie goes behind every one that has a path with something in it. */
  lemma PathlessGoesLast(c: Cookie, d: Cookie)
    requires c.path.None? && d.path.Some? && d.path.value != ""
    ensures Compare(d, c) < 0 < Compare(c, d)
  {
  }

  lemma LongestPathFirst(cs: seq<Cookie>)
    requires Sorted(cs)
    ensures forall i, j :: 0 <= i < j < |cs| ==> Length(cs[i].path) >= Length(cs[j].path)
  {
    forall i, j | 0 <= i < j < |cs| ensures Length(cs[i].path) >= Length(cs[j].path) {
      assert Before()(cs[i], cs[j]);
    }
  }

  /** The libc sort: some arrangement of the same cookies in which each stands before the later ones. */
  method Qsort(cs: seq<Cookie>) returns (sorted: seq<Cookie>)
    requires Pairwise(cs, DifferentTimes())
    ensures multiset(sorted) == multiset(cs)
    ensures Sorted(sorted) && Pairwise(sorted, DifferentTimes())
  {
    sorted := [];
    for n := 0 to |cs|
      invariant multiset(sorted) == multiset(cs[..n])
      invariant Sorted(sorted) && Pairwise(sorted, DifferentTimes())
    {
      var c := cs[n];
      TimeIsNew(cs, n, sorted);
      var k := 0;
      while k < |sorted| && Compare(sorted[k], c) < 0
        invariant 0 <= k <= |sorted|
        invariant forall i :: 0 <= i < k ==> Compare(sorted[i], c) < 0
      {
        k := k + 1;
      }
      InsertSorted(sorted, k, c);
      MultisetInsert(sorted, k, c);
      PairwiseInsert(sorted, k, c, DifferentTimes());
      assert cs[..n + 1] == cs[..n] + [c];
      sorted := Insert(sorted, k, c);
    }
    assert cs[..|cs|] == cs;
  }

  lemma TimeIsNew(cs: seq<Cookie>, n: nat, sorted: seq<Cookie>)
    requires n < |cs| && Pairwise(cs, DifferentTimes()) && multiset(sorted) == multiset(cs[..n])
    ensures forall d :: d in sorted ==> d.creationtime != cs[n].creationtime
  {
    forall d | d in sorted ensures d.creationtime != cs[n].creationtime {
      assert d in multiset(cs[..n]);
      var k :| 0 <= k < n && cs[..n][k] == d;
      assert DifferentTimes()(cs[k], cs[n]);
    }
  }

  lemma PrependDifferent(matches: seq<Cookie>, bucket: seq<Cookie>, k: nat)
    requires k < |bucket| && Pairwise(bucket, DifferentTimes()) && Pairwise(matches, DifferentTimes())
    requires forall c :: c in matches ==> c in bucket[..k]
    ensures Pairwise([bucket[k]] + matches, DifferentTimes())
  {
    forall c | c in matches ensures DifferentTimes()(bucket[k], c) {
      var i :| 0 <= i < k && bucket[..k][i] == c;
      assert DifferentTimes()(bucket[i], bucket[k]);
    }
  }

  lemma InsertSorted(cs: seq<Cookie>, k: nat, c: Cookie)
    requires k <= |cs| && Sorted(cs)
    requires forall d :: d in cs ==> d.creationtime != c.creationtime
    requires forall i :: 0 <= i < k ==> Compare(cs[i], c) < 0
    requires k < |cs| ==> Compare(cs[k], c) >= 0
    ensures Sorted(Insert(cs, k, c))
  {
    forall j | k <= j < |cs| ensures Compare(c, cs[j]) < 0 {
      CompareIsStrictTotalOrder(cs[k], c, cs[j]);
      assert k < j ==> Before()(cs[k], cs[j]);
    }
    var s := cs[..k] + [c] + cs[k..];
    forall i, j | 0 <= i < j < |s| ensures Before()(s[i], s[j]) {
      var i' := if i < k then i else i - 1;
      var j' := if j < k then j else j - 1;
      if i != k && j != k { assert Before()(cs[i'], cs[j']); }
    }
  }

  lemma SortedFirst(s: seq<Cookie>, t: seq<Cookie>)
    requires s != [] && t != [] && multiset(s) == multiset(t)
    requires Sorted(s) && Sorted(t) && Pairwise(s, DifferentTimes())
    ensures s[0] == t[0]
  {
    assert s[0] in multiset(t) && t[0] in multiset(s);
    var i :| 0 <= i < |t| && t[i] == s[0];
    var j :| 0 <= j < |s| && s[j] == t[0];
    if i > 0 && j > 0 {
      assert Before()(t[0], t[i]) && Before()(s[0], s[j]) && DifferentTimes()(s[0], s[j]);
      CompareIsStrictTotalOrder(s[0], t[0], s[0]);
      assert false;
    }
  }

  /** There is one sorted arrangement, so the list sent does not depend on the sort. */
  lemma {:induction false} SortedIsUnique(s: seq<Cookie>, t: seq<Cookie>)
    requires multiset(s) == multiset(t)
    requires Sorted(s) && Sorted(t) && Pairwise(s, DifferentTimes())
    ensures s == t
  {
    assert |s| == |multiset(s)| == |multiset(t)| == |t|;
    if s != [] {
      SortedFirst(s, t);
      assert s == [s[0]] + s[1..] && t == [t[0]] + t[1..];
      assert multiset(s[1..]) == multiset(s) - multiset{s[0]};
      assert multiset(t[1..]) == multiset(t) - multiset{t[0]};
      PairwiseTail(s, Before());
      PairwiseTail(t, Before());
      PairwiseTail(s, DifferentTimes());
      SortedIsUnique(s[1..], t[1..]);
    }
  }

  // ---- Against the standard's order

  /** Section 5.4 of RFC 6265: longer paths first, and the older cookie first among equals. */
  function RfcBefore(): (Cookie, Cookie) -> bool {
    (c: Cookie, d: Cookie) =>
      Length(c.path) > Length(d.path) || (Length(c.path) == Length(d.path) && c.creationtime < d.creationtime)
  }

  /** What an older cookie needs to be sent before a newer one of equal path length. */
  predicate Outranks(older: Cookie, newer: Cookie) {
    Length(older.domain) > Length(newer.domain)
    || (Length(older.domain) == Length(newer.domain) && |older.name| > |newer.name|)
  }

  /** Of two cookies with equal path lengths the older is sent first exactly when it has the longer domain, or the
      longer name with an equally long domain. */
  lemma OlderFirstExactly(older: Cookie, newer: Cookie)
    requires Length(older.path) == Length(newer.path) && older.creationtime < newer.creationtime
    ensures Compare(older, newer) < 0 <==> Outranks(older, newer)
    ensures Compare(newer, older) < 0 <==> !Outranks(older, newer)
  {
  }

  /** A sorted list is in the standard's order exactly when age never has to decide against it: every cookie
      outranks those newer than it whose paths are as long. */
  lemma SortedIsRfcOrderExactly(cs: seq<Cookie>)
    requires Sorted(cs) && Pairwise(cs, DifferentTimes())
    ensures Pairwise(cs, RfcBefore()) <==>
            forall c, d :: c in cs && d in cs && Length(c.path) == Length(d.path) && c.creationtime < d.creationtime
                           ==> Outranks(c, d)
  {
    hide Outranks;
    if Pairwise(cs, RfcBefore()) {
      forall c, d | c in cs && d in cs && Length(c.path) == Length(d.path) && c.creationtime < d.creationtime
        ensures Outranks(c, d)
      {
        var i :| 0 <= i < |cs| && cs[i] == c;
        var j :| 0 <= j < |cs| && cs[j] == d;
        assert !RfcBefore()(cs[j], cs[i]);
        assert Before()(cs[i], cs[j]);
        OlderFirstExactly(c, d);
      }
    } else {
      var i, j :| 0 <= i < j < |cs| && !RfcBefore()(cs[i], cs[j]);
      assert Before()(cs[i], cs[j]) && DifferentTimes()(cs[i], cs[j]);
      OlderFirstExactly(cs[j], cs[i]);
    }
  }

  function Sent(name: string, time: int): Cookie {
    Cookie(name, Some("v"), Some("/"), Some("/"), Some("a.b"), 0, false, false, true, false, time)
  }

  /** Two cookies that differ in name and age only are sent newest first, whatever the sort. */
  lemma NewestIsSentFirst(sorted: seq<Cookie>)
    requires Sorted(sorted) && multiset(sorted) == multiset{Sent("x", 1), Sent("y", 2)}
    ensures sorted == [Sent("y", 2), Sent("x", 1)] && !Pairwise(sorted, RfcBefore())
  {
    var older, newer := Sent("x", 1), Sent("y", 2);
    var expected := [newer, older];
    assert Before()(expected[0], expected[1]);
    SortedIsUnique(expected, sorted);
    assert !RfcBefore()(sorted[0], sorted[1]);
  }
}
