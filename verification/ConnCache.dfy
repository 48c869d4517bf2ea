/** The cache of live connections, in one bundle for each host. */
module ConnCache {
  import opened Lists
  import opened Wrappers

  type Conn = nat

  datatype Bundle = Bundle(key: string, num: int, conns: seq<Conn>)

  /** back holds the bundle pointer of every connection that has one, as the bundle's key. */
  datatype Cache = Cache(bundles: seq<Bundle>, numConn: int, back: map<Conn, string>)

  function Empty(): Cache { Cache([], 0, map[]) }

  function ListsOf(bundles: seq<Bundle>): (r: seq<seq<Conn>>)
    ensures |r| == |bundles| && forall i :: 0 <= i < |r| ==> r[i] == bundles[i].conns
  {
    seq(|bundles|, i requires 0 <= i < |bundles| => bundles[i].conns)
  }

  /** All connections in the order in which the cache is walked. */
  function Conns(bundles: seq<Bundle>): seq<Conn> { Flat(ListsOf(bundles)) }

  function Find(bundles: seq<Bundle>, key: string): (i: nat)
    ensures i <= |bundles| && (i < |bundles| ==> bundles[i].key == key)
    ensures forall j :: 0 <= j < i ==> bundles[j].key != key
  {
    if bundles == [] || bundles[0].key == key then 0 else 1 + Find(bundles[1..], key)
  }

  function Without(conns: seq<Conn>, x: Conn): (r: seq<Conn>)
    ensures x !in conns ==> r == conns
    ensures x in conns ==> |r| == |conns| - 1
  {
    if conns == [] then [] else if conns[0] == x then conns[1..] else [conns[0]] + Without(conns[1..], x)
  }

  // ---- Operations

  /** A bundle for the key; a new one comes to be anywhere in the order of the hash. */
  function WithBundle(bundles: seq<Bundle>, key: string, at: nat): seq<Bundle> {
    var i := Find(bundles, key);
    if i < |bundles| then bundles else Insert(bundles, if at <= i then at else i, Bundle(key, 0, []))
  }

  function AddConn(c: Cache, key: string, conn: Conn, at: nat): Cache {
    var bundles := WithBundle(c.bundles, key, at);
    var k := Find(bundles, key);
    Cache(if k < |bundles| then bundles[k := Bundle(key, bundles[k].num + 1, bundles[k].conns + [conn])] else bundles,
          c.numConn + 1, c.back[conn := key])
  }

  /** bundle_remove_conn: also clears the connection's bundle pointer. */
  function Unlink(c: Cache, i: nat, conn: Conn): Cache
    requires i < |c.bundles|
  {
    var b := c.bundles[i];
    if conn in b.conns then
      c.(bundles := c.bundles[i := Bundle(b.key, b.num - 1, Without(b.conns, conn))], back := c.back - {conn})
    else c
  }

  function RemoveConn(c: Cache, conn: Conn): Cache {
    if conn !in c.back then c
    else
      var i := Find(c.bundles, c.back[conn]);
      if i == |c.bundles| then c
      else
        var c' := Unlink(c, i, conn);
        c'.(bundles := if c'.bundles[i].num == 0 then c'.bundles[..i] + c'.bundles[i + 1..] else c'.bundles,
            numConn := c'.numConn - 1)
  }

  /** The state of a connection as the search for an idle one sees it. */
  datatype Info = Info(inUse: bool, attached: bool, closing: bool, connectOnly: bool, lastused: int)

  type View = Conn -> Info

  predicate Idle(v: Info) { !v.inUse && !v.attached }

  predicate IdleInCache(v: Info) { Idle(v) && !v.closing && !v.connectOnly }

  datatype Best = Best(score: int, conn: Option<Conn>)

  /** The first of the connections with the highest age, of those that qualify. */
  function Scan(conns: seq<Conn>, view: View, p: Info -> bool, now: int): Best {
    if conns == [] then Best(-1, None)
    else
      var best, x := Scan(conns[..|conns| - 1], view, p, now), conns[|conns| - 1];
      if p(view(x)) && now - view(x).lastused > best.score then Best(now - view(x).lastused, Some(x)) else best
  }

  /** Unlinks a connection but leaves its bundle, even when that is empty now. */
  function Extract(c: Cache, conn: Conn): Cache {
    if conn !in c.back then c
    else
      var i := Find(c.bundles, c.back[conn]);
      if i == |c.bundles| then c else var c' := Unlink(c, i, conn); c'.(numConn := c'.numConn - 1)
  }

  function ExtractBundle(c: Cache, key: string, view: View, now: int): (Cache, Option<Conn>) {
    var i := Find(c.bundles, key);
    if i == |c.bundles| then (c, None)
    else
      var best := Scan(c.bundles[i].conns, view, Idle, now);
      if best.conn.None? then (c, None) else (Extract(c, best.conn.value), best.conn)
  }

  function ExtractOldest(c: Cache, view: View, now: int): (Cache, Option<Conn>) {
    var best := Scan(Conns(c.bundles), view, IdleInCache, now);
    if best.conn.None? then (c, None) else (Extract(c, best.conn.value), best.conn)
  }

  /** What is returned to a cache over its limit pushes the oldest idle connection out; false tells it was this one. */
  function ReturnConn(c: Cache, conn: Conn, maxconnects: int, easies: nat, view: View, now: int): (Cache, bool) {
    var limit := if maxconnects < 0 then easies * 4 else maxconnects;
    var used := (x: Conn) => if x == conn then view(x).(lastused := now) else view(x);
    if limit > 0 && c.numConn > limit then
      var (c', out) := ExtractOldest(c, used, now);
      (c', out != Some(conn))
    else (c, true)
  }

  // ---- What every operation keeps

  function Differ(): (Conn, Conn) -> bool { (x, y) => x != y }

  /** A connection points to a bundle exactly when it is in that bundle's list. */
  ghost predicate Listed(bundles: seq<Bundle>, back: map<Conn, string>) {
    forall x: Conn, i :: 0 <= i < |bundles| ==> (x in bundles[i].conns <==> x in back && back[x] == bundles[i].key)
  }

  ghost predicate Reached(bundles: seq<Bundle>, back: map<Conn, string>) {
    forall x: Conn :: x in back ==> Find(bundles, back[x]) < |bundles|
  }

  ghost predicate BackPointers(bundles: seq<Bundle>, back: map<Conn, string>) {
    Listed(bundles, back) && Reached(bundles, back)
  }

  ghost predicate Counted(bundles: seq<Bundle>) {
    && (forall i, j :: 0 <= i < j < |bundles| ==> bundles[i].key != bundles[j].key)
    && (forall i :: 0 <= i < |bundles| ==> bundles[i].num == |bundles[i].conns| && Pairwise(bundles[i].conns, Differ()))
  }

  /** Every count is the length of its list, and the lists and the bundle pointers agree. */
  ghost predicate Sound(c: Cache) {
    Counted(c.bundles) && BackPointers(c.bundles, c.back) && c.numConn == |Conns(c.bundles)|
  }

  lemma FindIs(bundles: seq<Bundle>, i: nat)
    requires Counted(bundles) && i < |bundles|
    ensures Find(bundles, bundles[i].key) == i
  {
  }

  lemma {:induction false} WithoutMeans(conns: seq<Conn>, x: Conn)
    requires Pairwise(conns, Differ())
    ensures forall y :: y in Without(conns, x) <==> y in conns && y != x
    ensures Pairwise(Without(conns, x), Differ())
    decreases |conns|
  {
    if conns != [] {
      var rest := conns[1..];
      assert conns == [conns[0]] + rest;
      PairwiseTail(conns, Differ());
      forall y | y in rest ensures y != conns[0] {
        var k :| 0 <= k < |rest| && rest[k] == y;
        assert Differ()(conns[0], conns[k + 1]);
      }
      if conns[0] != x {
        WithoutMeans(rest, x);
        var r := Without(rest, x);
        forall i, j | 0 <= i < j < |r| + 1 ensures Differ()(([conns[0]] + r)[i], ([conns[0]] + r)[j]) {
          if i == 0 { assert r[j - 1] in r; } else { assert Differ()(r[i - 1], r[j - 1]); }
        }
      }
    }
  }

  lemma ConnsUpdate(bundles: seq<Bundle>, i: nat, b: Bundle)
    requires i < |bundles|
    ensures |Conns(bundles[i := b])| == |Conns(bundles)| - |bundles[i].conns| + |b.conns|
  {
    hide Flat;
    assert ListsOf(bundles[i := b]) == ListsOf(bundles)[i := b.conns];
    FlatUpdate(ListsOf(bundles), i, b.conns);
  }

  /** A bundle with an empty list adds nothing. */
  lemma ConnsInsert(bundles: seq<Bundle>, at: nat, b: Bundle)
    requires at <= |bundles| && b.conns == []
    ensures Conns(Insert(bundles, at, b)) == Conns(bundles)
  {
    hide Flat, ListsOf;
    var all := Insert(bundles, at, b);
    FlatSplit(ListsOf(all), at);
    FlatConcat(ListsOf(bundles[..at]), ListsOf(bundles[at..]));
    assert ListsOf(all)[..at] == ListsOf(bundles[..at]);
    assert ListsOf(all)[at + 1..] == ListsOf(bundles[at..]);
    assert ListsOf(bundles) == ListsOf(bundles[..at]) + ListsOf(bundles[at..]);
  }

  lemma InConns(bundles: seq<Bundle>, x: Conn)
    ensures x in Conns(bundles) <==> exists i :: 0 <= i < |bundles| && x in bundles[i].conns
  {
    InFlat(ListsOf(bundles), x);
    if i :| 0 <= i < |bundles| && x in bundles[i].conns { assert x in ListsOf(bundles)[i]; }
  }

  /** A connection is somewhere in the cache exactly when it has a bundle pointer. */
  lemma InCache(c: Cache, x: Conn)
    requires Sound(c)
    ensures x in Conns(c.bundles) <==> x in c.back
  {
    InConns(c.bundles, x);
    if x in c.back { assert x in c.bundles[Find(c.bundles, c.back[x])].conns; }
  }

  lemma {:induction false} SameKeys(a: seq<Bundle>, b: seq<Bundle>)
    requires |a| == |b| && forall i :: 0 <= i < |a| ==> a[i].key == b[i].key
    ensures forall key :: Find(a, key) == Find(b, key)
    decreases |a|
  {
    if a != [] {
      SameKeys(a[1..], b[1..]);
    }
  }

  lemma CountedUpdate(bundles: seq<Bundle>, i: nat, b: Bundle)
    requires Counted(bundles) && i < |bundles| && b.key == bundles[i].key
    requires b.num == |b.conns| && Pairwise(b.conns, Differ())
    ensures Counted(bundles[i := b])
  {
  }

  lemma PointersWithout(bundles: seq<Bundle>, back: map<Conn, string>, i: nat, x: Conn, b: Bundle)
    requires Counted(bundles) && BackPointers(bundles, back) && i < |bundles| && b.key == bundles[i].key
    requires x in back && back[x] == b.key && forall y :: y in b.conns <==> y in bundles[i].conns && y != x
    ensures BackPointers(bundles[i := b], back - {x})
  {
    hide Find;
    var bundles', back' := bundles[i := b], back - {x};
    SameKeys(bundles, bundles');
    forall y: Conn, j | 0 <= j < |bundles'|
      ensures y in bundles'[j].conns <==> y in back' && back'[y] == bundles'[j].key
    {
      assert y in bundles[j].conns <==> y in back && back[y] == bundles[j].key;
      FindIs(bundles, j);
      FindIs(bundles, i);
    }
  }

  lemma PointersWith(bundles: seq<Bundle>, back: map<Conn, string>, i: nat, x: Conn, b: Bundle)
    requires Counted(bundles) && BackPointers(bundles, back) && i < |bundles| && b.key == bundles[i].key
    requires x !in back && forall y :: y in b.conns <==> y in bundles[i].conns || y == x
    ensures BackPointers(bundles[i := b], back[x := b.key])
  {
    var bundles', back' := bundles[i := b], back[x := b.key];
    SameKeys(bundles, bundles');
    FindIs(bundles, i);
    forall y: Conn, j | 0 <= j < |bundles'|
      ensures y in bundles'[j].conns <==> y in back' && back'[y] == bundles'[j].key
    {
      assert y in bundles[j].conns <==> y in back && back[y] == bundles[j].key;
      FindIs(bundles, j);
    }
  }

  lemma Located(c: Cache, x: Conn)
    requires Sound(c) && x in c.back
    ensures var i := Find(c.bundles, c.back[x]);
            && i < |c.bundles| && c.bundles[i].key == c.back[x] && x in c.bundles[i].conns
            && c.bundles[i].num == |c.bundles[i].conns| && Pairwise(c.bundles[i].conns, Differ())
  {
  }

  /** An extracted connection leaves its list, the counts and its pointer, and nothing else. */
  lemma ExtractKeeps(c: Cache, x: Conn)
    requires Sound(c) && x in c.back
    ensures var c', i := Extract(c, x), Find(c.bundles, c.back[x]);
            && Sound(c') && c'.numConn == c.numConn - 1 && c'.back == c.back - {x}
            && i < |c.bundles|
            && c'.bundles == c.bundles[i := Bundle(c.back[x], c.bundles[i].num - 1, Without(c.bundles[i].conns, x))]
  {
    hide Conns, BackPointers, Counted, Find, Without;
    Located(c, x);
    var i := Find(c.bundles, c.back[x]);
    var b := Bundle(c.back[x], c.bundles[i].num - 1, Without(c.bundles[i].conns, x));
    WithoutMeans(c.bundles[i].conns, x);
    ConnsUpdate(c.bundles, i, b);
    CountedUpdate(c.bundles, i, b);
    PointersWithout(c.bundles, c.back, i, x, b);
  }

  /** An emptied bundle can go. */
  lemma DropKeeps(c: Cache, i: nat)
    requires Sound(c) && i < |c.bundles| && c.bundles[i].conns == []
    ensures Sound(c.(bundles := c.bundles[..i] + c.bundles[i + 1..]))
  {
    hide Conns, Find, Insert, BackPointers;
    var rest := c.bundles[..i] + c.bundles[i + 1..];
    assert Insert(rest, i, c.bundles[i]) == c.bundles by { InsertBack(c.bundles, i); }
    ConnsInsert(rest, i, c.bundles[i]);
    PointersDrop(c.bundles, c.back, i);
  }

  lemma InsertBack(bundles: seq<Bundle>, i: nat)
    requires i < |bundles|
    ensures Insert(bundles[..i] + bundles[i + 1..], i, bundles[i]) == bundles
  {
  }

  lemma PointersDrop(bundles: seq<Bundle>, back: map<Conn, string>, i: nat)
    requires BackPointers(bundles, back) && i < |bundles| && bundles[i].conns == []
    ensures BackPointers(bundles[..i] + bundles[i + 1..], back)
  {
    hide Listed, Reached;
    ListedDrop(bundles, back, i);
    ReachedDrop(bundles, back, i);
  }

  lemma ListedDrop(bundles: seq<Bundle>, back: map<Conn, string>, i: nat)
    requires Listed(bundles, back) && i < |bundles|
    ensures Listed(bundles[..i] + bundles[i + 1..], back)
  {
    var rest := bundles[..i] + bundles[i + 1..];
    forall x: Conn, k | 0 <= k < |rest| ensures x in rest[k].conns <==> x in back && back[x] == rest[k].key {
      assert rest[k] == bundles[if k < i then k else k + 1];
    }
  }

  lemma ReachedDrop(bundles: seq<Bundle>, back: map<Conn, string>, i: nat)
    requires BackPointers(bundles, back) && i < |bundles| && bundles[i].conns == []
    ensures Reached(bundles[..i] + bundles[i + 1..], back)
  {
    hide Find;
    var rest := bundles[..i] + bundles[i + 1..];
    forall x | x in back ensures Find(rest, back[x]) < |rest| {
      var k := Find(bundles, back[x]);
      assert x in bundles[k].conns;
      assert rest[if k < i then k else k - 1] == bundles[k];
    }
  }

  /** Removing a connection that has no bundle pointer does nothing, so none is ever subtracted twice. */
  lemma RemoveKeeps(c: Cache, x: Conn)
    requires Sound(c)
    ensures var c' := RemoveConn(c, x);
            && Sound(c') && c'.back == c.back - {x}
            && c'.numConn == (if x in c.back then c.numConn - 1 else c.numConn)
            && (x !in c.back ==> c' == c)
  {
    hide Conns;
    if x in c.back {
      ExtractKeeps(c, x);
      var i := Find(c.bundles, c.back[x]);
      var c' := Extract(c, x);
      if c'.bundles[i].num == 0 { DropKeeps(c', i); }
    } else {
      assert c.back - {x} == c.back;
    }
  }

  lemma AddKeeps(c: Cache, key: string, x: Conn, at: nat)
    requires Sound(c) && x !in c.back
    ensures var c' := AddConn(c, key, x, at);
            Sound(c') && c'.back == c.back[x := key] && c'.numConn == c.numConn + 1
  {
    hide Conns, BackPointers, Counted, Find, WithBundle;
    OpenKeeps(c, key, at);
    var ready := WithBundle(c.bundles, key, at);
    var k := Find(ready, key);
    var b := Bundle(key, ready[k].num + 1, ready[k].conns + [x]);
    PushKeeps(ready, c.back, k, x);
    ConnsUpdate(ready, k, b);
    CountedUpdate(ready, k, b);
    PointersWith(ready, c.back, k, x, b);
  }

  lemma PushKeeps(bundles: seq<Bundle>, back: map<Conn, string>, i: nat, x: Conn)
    requires Counted(bundles) && BackPointers(bundles, back) && i < |bundles| && x !in back
    ensures bundles[i].num == |bundles[i].conns| && Pairwise(bundles[i].conns + [x], Differ())
  {
    var conns := bundles[i].conns;
    assert x !in conns;
    forall m, n | 0 <= m < n < |conns| + 1 ensures Differ()((conns + [x])[m], (conns + [x])[n]) {
      if n < |conns| { assert Differ()(conns[m], conns[n]); } else { assert conns[m] in conns; }
    }
  }

  lemma OpenKeeps(c: Cache, key: string, at: nat)
    requires Sound(c)
    ensures var ready := WithBundle(c.bundles, key, at); Sound(c.(bundles := ready)) && Find(ready, key) < |ready|
  {
    hide Conns, BackPointers, Counted;
    var i := Find(c.bundles, key);
    if i == |c.bundles| {
      var p := if at <= i then at else i;
      ConnsInsert(c.bundles, p, Bundle(key, 0, []));
      CountedInsert(c.bundles, p, key);
      PointersInsert(c.bundles, c.back, p, key);
      var ready := WithBundle(c.bundles, key, at);
      assert ready[p].key == key;
    }
  }

  lemma CountedInsert(bundles: seq<Bundle>, p: nat, key: string)
    requires Counted(bundles) && p <= |bundles| && Find(bundles, key) == |bundles|
    ensures Counted(Insert(bundles, p, Bundle(key, 0, [])))
  {
    hide Find;
    var all := Insert(bundles, p, Bundle(key, 0, []));
    forall i | 0 <= i < |all| && i != p ensures all[i] == bundles[if i < p then i else i - 1] {}
  }

  lemma PointersInsert(bundles: seq<Bundle>, back: map<Conn, string>, p: nat, key: string)
    requires BackPointers(bundles, back) && p <= |bundles| && Find(bundles, key) == |bundles|
    ensures BackPointers(Insert(bundles, p, Bundle(key, 0, [])), back)
  {
    hide Find, Reached, Insert;
    var all := Insert(bundles, p, Bundle(key, 0, []));
    Inserted(bundles, p, Bundle(key, 0, []));
    forall x: Conn, j | 0 <= j < |all| ensures x in all[j].conns <==> x in back && back[x] == all[j].key {
      if j == p {
        assert x in back ==> back[x] != key by { NotReached(bundles, back, key, x); }
      } else {
        var k := if j < p then j else j - 1;
        assert x in bundles[k].conns <==> x in back && back[x] == bundles[k].key;
      }
    }
    InsertReaches(bundles, back, p, Bundle(key, 0, []));
  }

  lemma NotReached(bundles: seq<Bundle>, back: map<Conn, string>, key: string, x: Conn)
    requires Reached(bundles, back) && Find(bundles, key) == |bundles|
    ensures x in back ==> back[x] != key
  {
  }

  lemma Inserted(bundles: seq<Bundle>, p: nat, b: Bundle)
    requires p <= |bundles|
    ensures var all := Insert(bundles, p, b);
            && |all| == |bundles| + 1 && all[p] == b
            && (forall j :: 0 <= j < p ==> all[j] == bundles[j])
            && (forall j :: p < j < |all| ==> all[j] == bundles[j - 1])
            && (forall k :: p <= k < |bundles| ==> all[k + 1] == bundles[k])
  {
  }

  lemma InsertReaches(bundles: seq<Bundle>, back: map<Conn, string>, p: nat, b: Bundle)
    requires Reached(bundles, back) && p <= |bundles|
    ensures Reached(Insert(bundles, p, b), back)
  {
    hide Find, Insert;
    var all := Insert(bundles, p, b);
    Inserted(bundles, p, b);
    forall x: Conn | x in back ensures Find(all, back[x]) < |all| {
      var k := Find(bundles, back[x]);
      assert all[if k < p then k else k + 1] == bundles[k];
    }
  }

  // ---- Finding the longest idle

  ghost predicate FirstOldest(conns: seq<Conn>, view: View, p: Info -> bool, now: int, k: nat) {
    && k < |conns| && p(view(conns[k])) && view(conns[k]).lastused <= now
    && (forall j :: 0 <= j < |conns| && p(view(conns[j])) ==> view(conns[k]).lastused <= view(conns[j]).lastused)
    && (forall j :: 0 <= j < k && p(view(conns[j])) ==> view(conns[k]).lastused < view(conns[j]).lastused)
  }

  /** The scan finds the first of the longest idle; it finds none exactly when every one that qualifies was last
      used at a time still to come. */
  lemma {:induction false} ScanFinds(conns: seq<Conn>, view: View, p: Info -> bool, now: int)
    ensures var best := Scan(conns, view, p, now);
            && (best.conn.None? <==> forall x :: x in conns && p(view(x)) ==> view(x).lastused > now)
            && (best.conn.None? ==> best.score == -1)
            && (best.conn.Some? ==> best.score == now - view(best.conn.value).lastused
                                    && exists k :: 0 <= k < |conns| && conns[k] == best.conn.value
                                        && FirstOldest(conns, view, p, now, k))
  {
    if conns != [] {
      var n := |conns| - 1;
      var init, x := conns[..n], conns[n];
      ScanFinds(init, view, p, now);
      assert conns == init + [x];
      var before := Scan(init, view, p, now);
      if before.conn.Some? {
        var k :| 0 <= k < n && init[k] == before.conn.value && FirstOldest(init, view, p, now, k);
        OldestOfOneMore(init, x, view, p, now, k);
        assert conns[k] == init[k] && conns[k] in conns;
      } else if p(view(x)) && view(x).lastused <= now {
        FirstThatQualifies(init, x, view, p, now);
      }
    }
  }

  lemma OldestOfOneMore(init: seq<Conn>, x: Conn, view: View, p: Info -> bool, now: int, k: nat)
    requires FirstOldest(init, view, p, now, k)
    ensures var older := p(view(x)) && view(x).lastused < view(init[k]).lastused;
            FirstOldest(init + [x], view, p, now, if older then |init| else k)
  {
    var conns := init + [x];
    assert forall j :: 0 <= j < |init| ==> conns[j] == init[j];
  }

  lemma FirstThatQualifies(init: seq<Conn>, x: Conn, view: View, p: Info -> bool, now: int)
    requires forall y :: y in init && p(view(y)) ==> view(y).lastused > now
    requires p(view(x)) && view(x).lastused <= now
    ensures FirstOldest(init + [x], view, p, now, |init|)
  {
    var conns := init + [x];
    assert forall j :: 0 <= j < |init| ==> conns[j] == init[j] && init[j] in init;
  }

  /** Nobody uses the connection, and no transfer has it. */
  predicate Unused(v: Info) { v == Info(false, false, v.closing, v.connectOnly, v.lastused) }

  /** Moreover it is not about to be closed, and was made for more than connecting. */
  predicate Spare(v: Info) { v == Info(false, false, false, false, v.lastused) }

  /** Extracting takes the longest idle connection that qualifies out of the whole cache, or finds there is none. */
  lemma OldestIsExtracted(c: Cache, view: View, now: int)
    requires Sound(c)
    ensures var (c', out) := ExtractOldest(c, view, now);
            && Sound(c')
            && (out.None? <==> forall x :: x in c.back && Spare(view(x)) ==> view(x).lastused > now)
            && (out.None? ==> c' == c)
            && (out.Some? ==> var x := out.value;
                  && x in c.back && Spare(view(x)) && c'.back == c.back - {x} && c'.numConn == c.numConn - 1
                  && forall y :: y in c.back && Spare(view(y)) ==> view(x).lastused <= view(y).lastused)
  {
    hide Conns, Scan, Counted, BackPointers, Extract;
    var conns := Conns(c.bundles);
    ScanFinds(conns, view, IdleInCache, now);
    forall x ensures x in conns <==> x in c.back { InCache(c, x); }
    var best := Scan(conns, view, IdleInCache, now);
    if best.conn.Some? {
      var k :| 0 <= k < |conns| && conns[k] == best.conn.value && FirstOldest(conns, view, IdleInCache, now, k);
      ExtractKeeps(c, best.conn.value);
    }
  }

  /** A connection that was put into an empty cache and last used a moment after `now` is idle, and not found. */
  lemma FutureIsNotFound(key: string, x: Conn, now: int)
    ensures var c := AddConn(Empty(), key, x, 0);
            var view: View := _ => Info(false, false, false, false, now + 1);
            x in c.back && Spare(view(x)) && ExtractOldest(c, view, now) == (c, None)
  {
    hide ExtractOldest, AddConn;
    var view: View := _ => Info(false, false, false, false, now + 1);
    EmptyIsSound();
    AddKeeps(Empty(), key, x, 0);
    OldestIsExtracted(AddConn(Empty(), key, x, 0), view, now);
  }

  /** The same within one bundle, where a connection marked for closing may be taken too. */
  lemma BundleIsExtracted(c: Cache, key: string, view: View, now: int)
    requires Sound(c)
    ensures var (c', out) := ExtractBundle(c, key, view, now);
            && Sound(c')
            && (out.None? <==> forall x :: x in c.back && c.back[x] == key && Unused(view(x)) ==>
                view(x).lastused > now)
            && (out.None? ==> c' == c)
            && (out.Some? ==> var x := out.value;
                  && x in c.back && c.back[x] == key && Unused(view(x)) && c'.back == c.back - {x}
                      && c'.numConn == c.numConn - 1
                  && forall y :: y in c.back && c.back[y] == key && Unused(view(y)) ==>
                      view(x).lastused <= view(y).lastused)
  {
    hide Conns, Scan, Counted, Extract, Find;
    var i := Find(c.bundles, key);
    if i < |c.bundles| {
      var conns := c.bundles[i].conns;
      ScanFinds(conns, view, Idle, now);
      var best := Scan(conns, view, Idle, now);
      if best.conn.Some? {
        var k :| 0 <= k < |conns| && conns[k] == best.conn.value && FirstOldest(conns, view, Idle, now, k);
        ExtractKeeps(c, best.conn.value);
      }
    }
  }

  /** Returning a connection closes at most one, only over the limit; the answer tells whether it is still cached. */
  lemma ReturnKeepsLimit(c: Cache, conn: Conn, maxconnects: int, easies: nat, view: View, now: int)
    requires Sound(c) && conn in c.back
    ensures var limit := if maxconnects < 0 then easies * 4 else maxconnects;
            var (c', kept) := ReturnConn(c, conn, maxconnects, easies, view, now);
            && Sound(c') && (kept <==> conn in c'.back)
            && (limit == 0 || c.numConn <= limit ==> c' == c)
            && (limit > 0 && c.numConn > limit && Spare(view(conn)) ==> c'.numConn == c.numConn - 1)
  {
    hide ExtractOldest, Sound;
    var used := (x: Conn) => if x == conn then view(x).(lastused := now) else view(x);
    OldestIsExtracted(c, used, now);
    assert used(conn) == view(conn).(lastused := now);
  }

  // ---- Closing

  function FirstConn(bundles: seq<Bundle>): Option<Conn> {
    if bundles == [] then None
    else if bundles[0].conns != [] then Some(bundles[0].conns[0])
    else FirstConn(bundles[1..])
  }

  lemma {:induction false} FirstConnMeans(bundles: seq<Bundle>)
    ensures FirstConn(bundles).None? <==> forall i :: 0 <= i < |bundles| ==> bundles[i].conns == []
    ensures FirstConn(bundles).Some? ==> exists i :: 0 <= i < |bundles| && FirstConn(bundles).value in bundles[i].conns
    decreases |bundles|
  {
    if bundles != [] {
      FirstConnMeans(bundles[1..]);
      if bundles[0].conns == [] && FirstConn(bundles).Some? {
        var i :| 0 <= i < |bundles[1..]| && FirstConn(bundles).value in bundles[1..][i].conns;
        assert bundles[i + 1] == bundles[1..][i];
      }
      if bundles[0].conns != [] { assert FirstConn(bundles).value in bundles[0].conns; }
    }
  }

  function HasNone(): Bundle -> bool { (b: Bundle) => b.conns == [] }

  /** Removes the first connection until there is none. */
  ghost function CloseAll(c: Cache): (r: Cache)
    requires Sound(c)
    ensures Sound(r)
    decreases |c.back|
  {
    var first := FirstConn(c.bundles);
    if first.None? then c
    else
      FirstConnMeans(c.bundles);
      RemoveKeeps(c, first.value);
      CloseAll(RemoveConn(c, first.value))
  }

  lemma HasMember(s: seq<Conn>)
    ensures s != [] ==> exists x :: x in s
  {
    if s != [] { assert s[0] in s; }
  }

  lemma FilterAround(a: seq<Bundle>, b: Bundle, z: seq<Bundle>, p: Bundle -> bool)
    requires !p(b)
    ensures Filter(a + [b] + z, p) == Filter(a + z, p)
  {
    FilterConcat(a + [b], z, p);
    FilterConcat(a, [b], p);
    FilterConcat(a, z, p);
    FilterNone([b], p);
  }

  lemma RemoveLeavesEmpties(c: Cache, x: Conn, p: Bundle -> bool)
    requires Sound(c) && x in c.back && p == HasNone()
    ensures Filter(RemoveConn(c, x).bundles, p) == Filter(c.bundles, p)
  {
    hide Filter, Find, Without, Conns, BackPointers, Counted;
    Located(c, x);
    ExtractKeeps(c, x);
    var i := Find(c.bundles, c.back[x]);
    var pre, post := c.bundles[..i], c.bundles[i + 1..];
    var b := Bundle(c.back[x], c.bundles[i].num - 1, Without(c.bundles[i].conns, x));
    FilterAround(pre, c.bundles[i], post, p);
    assert c.bundles == pre + [c.bundles[i]] + post;
    assert c.bundles[i := b] == pre + [b] + post;
    if b.num != 0 { FilterAround(pre, b, post, p); }
  }

  /** Closing ends with no connection, no count left and no pointer; bundles that were empty before stay. */
  lemma {:induction false} AllAreClosed(c: Cache)
    requires Sound(c)
    ensures var r := CloseAll(c);
            && r.numConn == 0 && r.back == map[] && Conns(r.bundles) == []
            && r.bundles == Filter(c.bundles, HasNone())
    decreases |c.back|
  {
    var first := FirstConn(c.bundles);
    FirstConnMeans(c.bundles);
    var isEmpty := HasNone();
    if first.None? {
      forall x ensures x !in Conns(c.bundles) { InConns(c.bundles, x); }
      forall x ensures x !in c.back { InCache(c, x); }
      HasMember(Conns(c.bundles));
      FilterAll(c.bundles, isEmpty);
    } else {
      RemoveKeeps(c, first.value);
      AllAreClosed(RemoveConn(c, first.value));
      RemoveLeavesEmpties(c, first.value, isEmpty);
    }
  }

  // ---- Every run

  datatype Op =
    | AddOp(key: string, conn: Conn, at: nat)
    | RemoveOp(conn: Conn)
    | OldestOp(view: View, now: int)
    | BundleOp(key: string, view: View, now: int)
    | ReturnOp(conn: Conn, maxconnects: int, easies: nat, view: View, now: int)
    | CloseOp

  /** Only a connection that is not cached is added, and only a cached one is returned. */
  predicate Allowed(c: Cache, op: Op) {
    match op
    case AddOp(_, conn, _) => conn !in c.back
    case ReturnOp(conn, _, _, _, _) => conn in c.back
    case _ => true
  }

  ghost function Apply(c: Cache, op: Op): (r: Cache)
    requires Sound(c)
    ensures Sound(r)
  {
    hide Sound;
    if !Allowed(c, op) then c
    else match op
      case AddOp(key, conn, at) => AddKeeps(c, key, conn, at); AddConn(c, key, conn, at)
      case RemoveOp(conn) => RemoveKeeps(c, conn); RemoveConn(c, conn)
      case OldestOp(view, now) => OldestIsExtracted(c, view, now); ExtractOldest(c, view, now).0
      case BundleOp(key, view, now) => BundleIsExtracted(c, key, view, now); ExtractBundle(c, key, view, now).0
      case ReturnOp(conn, max, easies, view, now) =>
        ReturnKeepsLimit(c, conn, max, easies, view, now);
        ReturnConn(c, conn, max, easies, view, now).0
      case CloseOp => CloseAll(c)
  }

  ghost function Run(c: Cache, ops: seq<Op>): (r: Cache)
    requires Sound(c)
    ensures Sound(r)
    decreases |ops|
  {
    if ops == [] then c else Run(Apply(c, ops[0]), ops[1..])
  }

  lemma EmptyIsSound()
    ensures Sound(Empty())
  {
  }

  lemma {:induction false} CountIsPointers(c: Cache)
    requires Sound(c)
    ensures c.numConn == |c.back|
    decreases |c.back|
  {
    hide Sound, Conns;
    if x :| x in c.back {
      ExtractKeeps(c, x);
      CountIsPointers(Extract(c, x));
      assert c.back.Keys == (c.back - {x}).Keys + {x};
    } else {
      forall x ensures x !in Conns(c.bundles) { InCache(c, x); }
      HasMember(Conns(c.bundles));
      TotalIs(c);
    }
  }

  lemma TotalIs(c: Cache)
    requires Sound(c)
    ensures c.numConn == |Conns(c.bundles)|
    ensures forall i :: 0 <= i < |c.bundles| ==> c.bundles[i].num == |c.bundles[i].conns|
    ensures forall x: Conn, i :: 0 <= i < |c.bundles| ==>
        (x in c.bundles[i].conns <==> x in c.back && c.back[x] == c.bundles[i].key)
  {
    hide Conns;
  }

  /** After every run the total is the number of listed connections, each bundle's count is the length of its
      list, and a connection's pointer names a bundle exactly when it is in that bundle's list. */
  lemma RunConserves(ops: seq<Op>)
    ensures Sound(Empty())
    ensures var c := Run(Empty(), ops);
            && c.numConn == |Conns(c.bundles)| == |c.back|
            && (forall i :: 0 <= i < |c.bundles| ==> c.bundles[i].num == |c.bundles[i].conns|)
            && (forall x: Conn, i :: 0 <= i < |c.bundles| ==>
                (x in c.bundles[i].conns <==> x in c.back && c.back[x] == c.bundles[i].key))
  {
    hide Sound, Run, Conns;
    EmptyIsSound();
    CountIsPointers(Run(Empty(), ops));
    TotalIs(Run(Empty(), ops));
  }
}
