/** The cache object, its lists and counters edited in place. */
module ConnCacheEngine {
  import opened ConnCache
  import opened Lists
  import opened Wrappers

  class ConnCacheData {
    var bundles: seq<Bundle>
    var numConn: int
    var back: map<Conn, string>

    ghost function Contents(): Cache
      reads this
    {
      Cache(bundles, numConn, back)
    }

    ghost predicate Valid()
      reads this
    {
      Sound(Contents())
    }

    constructor ()
      ensures Valid() && Contents() == Empty()
    {
      bundles, numConn, back := [], 0, map[];
      new;
      EmptyIsSound();
    }

    method FindBundle(key: string) returns (i: nat)
      ensures i == Find(bundles, key)
    {
      i := 0;
      while i < |bundles| && bundles[i].key != key
        invariant i <= |bundles| && Find(bundles, key) == i + Find(bundles[i..], key)
      {
        i := i + 1;
      }
    }

    method AddConn(key: string, conn: Conn, at: nat)
      requires Valid() && conn !in back
      modifies this
      ensures Valid() && Contents() == ConnCache.AddConn(old(Contents()), key, conn, at)
    {
      hide Sound, Find;
      AddKeeps(Contents(), key, conn, at);
      OpenKeeps(Contents(), key, at);
      var i := FindBundle(key);
      if i == |bundles| {
        bundles := Insert(bundles, if at <= i then at else i, Bundle(key, 0, []));
        i := FindBundle(key);
      }
      bundles := bundles[i := Bundle(key, bundles[i].num + 1, bundles[i].conns + [conn])];
      back := back[conn := key];
      numConn := numConn + 1;
    }

    /** Takes the connection out of the list of bundle i, clears its pointer, and counts the bundle down. */
    method UnlinkFrom(i: nat, conn: Conn) returns (removed: bool)
      requires i < |bundles|
      modifies `bundles, `back
      ensures Contents() == Unlink(old(Contents()), i, conn)
      ensures removed <==> conn in old(bundles[i].conns)
    {
      hide Without;
      var b := bundles[i];
      var k := 0;
      while k < |b.conns| && b.conns[k] != conn
        invariant k <= |b.conns| && conn !in b.conns[..k]
      {
        k := k + 1;
      }
      removed := k < |b.conns|;
      if removed {
        WithoutAt(b.conns, k, conn);
        bundles := bundles[i := Bundle(b.key, b.num - 1, b.conns[..k] + b.conns[k + 1..])];
        back := back - {conn};
      }
    }

    method RemoveConn(conn: Conn)
      requires Valid()
      modifies this
      ensures Valid() && Contents() == ConnCache.RemoveConn(old(Contents()), conn)
    {
      hide Find, Sound, Without;
      RemoveKeeps(Contents(), conn);
      if conn in back {
        Located(Contents(), conn);
        var i := FindBundle(back[conn]);
        var _ := UnlinkFrom(i, conn);
        if bundles[i].num == 0 { bundles := bundles[..i] + bundles[i + 1..]; }
        numConn := numConn - 1;
      }
    }

    method ExtractBundle(key: string, view: View, now: int) returns (candidate: Option<Conn>)
      requires Valid()
      modifies this
      ensures Valid() && (Contents(), candidate) == ConnCache.ExtractBundle(old(Contents()), key, view, now)
    {
      hide Find, Sound, Without;
      BundleIsExtracted(Contents(), key, view, now);
      candidate := None;
      var i := FindBundle(key);
      if i < |bundles| {
        var conns := bundles[i].conns;
        var highscore := -1;
        for k := 0 to |conns|
          invariant Best(highscore, candidate) == Scan(conns[..k], view, Idle, now)
        {
          assert conns[..k + 1][..k] == conns[..k];
          var conn := conns[k];
          if Idle(view(conn)) && now - view(conn).lastused > highscore {
            highscore, candidate := now - view(conn).lastused, Some(conn);
          }
        }
        assert conns[..|conns|] == conns;
        if candidate.Some? { TakeOut(candidate.value, i); }
      }
    }

    method TakeOut(conn: Conn, i: nat)
      requires Valid() && conn in back && i == Find(bundles, back[conn])
      modifies this
      ensures Contents() == Extract(old(Contents()), conn)
    {
      Located(Contents(), conn);
      var _ := UnlinkFrom(i, conn);
      numConn := numConn - 1;
    }

    /** Walks all bundles, and each one's list. */
    method ExtractOldest(view: View, now: int) returns (candidate: Option<Conn>)
      requires Valid()
      modifies this
      ensures Valid() && (Contents(), candidate) == ConnCache.ExtractOldest(old(Contents()), view, now)
    {
      hide Find, Sound, Without, Flat, ListsOf, Scan, IdleInCache, Extract;
      OldestIsExtracted(Contents(), view, now);
      candidate := None;
      var highscore, at := -1, 0;
      ghost var lists := ListsOf(bundles);
      NothingFlat(lists[..0]);
      NothingScanned(view, now);
      for b := 0 to |bundles|
        invariant Contents() == old(Contents())
        invariant Best(highscore, candidate) == Scan(Flat(lists[..b]), view, IdleInCache, now)
        invariant candidate.Some? ==> at < |bundles| && candidate.value in bundles[at].conns
      {
        var conns := bundles[b].conns;
        assert Flat(lists[..b]) + conns[..0] == Flat(lists[..b]);
        for k := 0 to |conns|
          invariant Contents() == old(Contents())
          invariant Best(highscore, candidate) == Scan(Flat(lists[..b]) + conns[..k], view, IdleInCache, now)
          invariant candidate.Some? ==> at < |bundles| && candidate.value in bundles[at].conns
        {
          var conn := conns[k];
          ScanPush(Flat(lists[..b]), conns, k, view, now);
          if IdleInCache(view(conn)) && now - view(conn).lastused > highscore {
            highscore, candidate, at := now - view(conn).lastused, Some(conn), b;
          }
        }
        assert conns[..|conns|] == conns;
        assert lists[..b + 1] == lists[..b] + [lists[b]];
        NextFlat(lists[..b], conns);
      }
      assert lists[..|bundles|] == lists;
      if candidate.Some? {
        ListedThere(Contents(), candidate.value, at);
        TakeOut(candidate.value, at);
      }
    }

    method ReturnConn(conn: Conn, maxconnects: int, easies: nat, view: View, now: int) returns (kept: bool)
      requires Valid() && conn in back
      modifies this
      ensures Valid() && (Contents(), kept)
          == ConnCache.ReturnConn(old(Contents()), conn, maxconnects, easies, view, now)
    {
      hide Sound, ConnCache.ExtractOldest;
      var limit := if maxconnects < 0 then easies * 4 else maxconnects;
      var used := (x: Conn) => if x == conn then view(x).(lastused := now) else view(x);
      var candidate: Option<Conn> := None;
      if limit > 0 && numConn > limit { candidate := ExtractOldest(used, now); }
      kept := candidate != Some(conn);
    }

    method FindFirst() returns (first: Option<Conn>)
      ensures first == FirstConn(bundles)
    {
      var i := 0;
      assert bundles[0..] == bundles;
      while i < |bundles|
        invariant i <= |bundles| && FirstConn(bundles) == FirstConn(bundles[i..])
      {
        if bundles[i].conns != [] { return Some(bundles[i].conns[0]); }
        i := i + 1;
      }
      first := None;
    }

    method CloseAllConnections()
      requires Valid()
      modifies this
      ensures Valid() && Contents() == CloseAll(old(Contents()))
      ensures numConn == 0 && back == map[]
    {
      hide Sound, Find, Without, Filter;
      AllAreClosed(Contents());
      var first := FindFirst();
      while first.Some?
        invariant Valid() && first == FirstConn(bundles) && CloseAll(Contents()) == old(CloseAll(Contents()))
        decreases |back|
      {
        ghost var c := Contents();
        FirstIsCached(c);
        RemoveKeeps(c, first.value);
        assert (c.back - {first.value}).Keys == c.back.Keys - {first.value};
        RemoveConn(first.value);
        first := FindFirst();
      }
    }
  }

  lemma {:induction false} WithoutAt(conns: seq<Conn>, k: nat, x: Conn)
    requires k < |conns| && conns[k] == x && x !in conns[..k]
    ensures Without(conns, x) == conns[..k] + conns[k + 1..]
  {
    if k > 0 {
      assert conns[0] == conns[..k][0];
      assert conns[1..][..k - 1] == conns[..k][1..];
      WithoutAt(conns[1..], k - 1, x);
    }
  }

  lemma NothingScanned(view: View, now: int)
    ensures Scan([], view, IdleInCache, now) == Best(-1, None)
  {
  }

  lemma ScanPush(seen: seq<Conn>, conns: seq<Conn>, k: nat, view: View, now: int)
    requires k < |conns|
    ensures var best, x := Scan(seen + conns[..k], view, IdleInCache, now), conns[k];
            Scan(seen + conns[..k + 1], view, IdleInCache, now) ==
              if IdleInCache(view(x)) && now - view(x).lastused > best.score then Best(now - view(x).lastused, Some(x))
              else best
  {
    var all := seen + conns[..k + 1];
    assert all[..|all| - 1] == seen + conns[..k];
  }

  lemma NothingFlat(b: seq<seq<Conn>>)
    requires b == []
    ensures Flat(b) == []
  {
  }

  lemma NextFlat(b: seq<seq<Conn>>, s: seq<Conn>)
    ensures Flat(b + [s]) == Flat(b) + s
  {
    assert (b + [s])[..|b|] == b;
  }

  lemma ListedThere(c: Cache, x: Conn, i: nat)
    requires Sound(c) && i < |c.bundles| && x in c.bundles[i].conns
    ensures x in c.back && Find(c.bundles, c.back[x]) == i
  {
    FindIs(c.bundles, i);
  }

  lemma FirstIsCached(c: Cache)
    requires Sound(c) && FirstConn(c.bundles).Some?
    ensures FirstConn(c.bundles).value in c.back
  {
    FirstConnMeans(c.bundles);
  }
}
