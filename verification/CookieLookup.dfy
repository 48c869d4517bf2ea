/** Reading one bucket of the jar against reading all of it. */
module CookieLookup {
  import opened Ascii
  import opened CookieDomain
  import opened CookieJar
  import opened CookiePath
  import opened Cookies
  import opened Lists
  import opened Text
  import opened Wrappers

  /** What a jar without an index would answer: every live cookie that applies to the request. */
  function FlatScan(j: Jar, host: string, path: string, secure: bool, now: int): seq<Cookie> {
    Filter(Filter(Flat(j.buckets), NotExpired(now)), Applies(host, path, secure))
  }

  function BucketScan(j: Jar, host: string, path: string, secure: bool, now: int): seq<Cookie>
    requires |j.buckets| == COOKIE_HASH_SIZE
  {
    Filter(Filter(j.buckets[CookieHash(Some(host))], NotExpired(now)), Applies(host, path, secure))
  }

  /** The cookie's domain is the host, or a tail of it behind a dot when it may match by its tail and the host is no
      address. */
  ghost predicate DomainFits(c: Cookie, host: string) {
    c.domain.Some? ==>
      || EqualNoCase(host, c.domain.value)
      || (c.tailmatch && !IsIp(host)
          && exists front: string, tail: string :: host == front + "." + tail && EqualNoCase(tail, c.domain.value))
  }

  /** The cookie's path has one character, or it is the request's path or a beginning of it before a slash. */
  ghost predicate PathFits(c: Cookie, path: string) {
    c.spath.Some? ==>
      || |c.spath.value| == 1
      || exists more: string :: UriPath(path) == c.spath.value + more && (more == "" || more[0] == '/')
  }

  /** The cookies to send: those not past their expiry, for this host and path, and the secure ones over a secure
      channel only. */
  ghost predicate Sendable(c: Cookie, host: string, path: string, secure: bool, now: int) {
    && (c.expires == 0 || c.expires >= now) && (c.secure ==> secure)
    && DomainFits(c, host) && PathFits(c, path)
  }

  lemma DomainTest(c: Cookie, host: string)
    requires c.domain.Some?
    ensures DomainFits(c, host)
       <==> || (c.tailmatch && !IsIp(host) && TailMatch(c.domain.value, host))
            || ((!c.tailmatch || IsIp(host)) && EqualNoCase(host, c.domain.value))
  {
    hide IsIp, EqualNoCase;
    var domain := c.domain.value;
    EqualNoCaseSymmetric(host, domain);
    if TailMatch(domain, host) {
      var k := |host| - |domain|;
      EqualNoCaseSymmetric(domain, host[k..]);
      if k > 0 { assert host == host[..k - 1] + "." + host[k..]; } else { assert host[k..] == host; }
    }
    forall front: string, tail: string | host == front + "." + tail && EqualNoCase(tail, domain)
      ensures TailMatch(domain, host)
    {
      EqualNoCaseSymmetric(tail, domain);
      assert host[|host| - |domain|..] == tail;
    }
    if EqualNoCase(host, domain) { assert host[|host| - |domain|..] == host; }
  }

  lemma PathTest(c: Cookie, path: string)
    requires c.spath.Some?
    ensures PathFits(c, path) <==> PathMatch(c.spath.value, path)
  {
    hide UriPath;
    var spath, uri := c.spath.value, UriPath(path);
    if PathMatch(spath, path) && |spath| != 1 { assert uri == spath + uri[|spath|..]; }
  }

  /** The tests of the two loops decide just that. */
  lemma SendableExactly(c: Cookie, host: string, path: string, secure: bool, now: int)
    ensures Sendable(c, host, path, secure, now) <==> NotExpired(now)(c) && Applies(host, path, secure)(c)
  {
    hide DomainFits, PathFits, IsIp, TailMatch, PathMatch, EqualNoCase;
    if c.domain.Some? { DomainTest(c, host); } else { assert DomainFits(c, host) by { NoDomainFits(c, host); } }
    if c.spath.Some? { PathTest(c, path); } else { assert PathFits(c, path) by { NoPathFits(c, path); } }
  }

  lemma NoDomainFits(c: Cookie, host: string)
    requires c.domain.None?
    ensures DomainFits(c, host)
  {
  }

  lemma NoPathFits(c: Cookie, path: string)
    requires c.spath.None?
    ensures PathFits(c, path)
  {
  }

  /** What both scans find. */
  lemma ScansMean(j: Jar, host: string, path: string, secure: bool, now: int)
    requires |j.buckets| == COOKIE_HASH_SIZE
    ensures forall c :: c in FlatScan(j, host, path, secure, now)
                   <==> c in Flat(j.buckets) && Sendable(c, host, path, secure, now)
    ensures forall c :: c in BucketScan(j, host, path, secure, now)
                   <==> c in j.buckets[CookieHash(Some(host))] && Sendable(c, host, path, secure, now)
  {
    hide CookieHash, Flat, Applies, NotExpired, Sendable;
    forall c: Cookie
      ensures Sendable(c, host, path, secure, now) <==> NotExpired(now)(c) && Applies(host, path, secure)(c)
    {
      SendableExactly(c, host, path, secure, now);
    }
  }

  lemma FlatScanSplit(j: Jar, host: string, path: string, secure: bool, now: int, h: nat)
    requires |j.buckets| == COOKIE_HASH_SIZE && h == CookieHash(Some(host))
    ensures var live := FilterEach(j.buckets, NotExpired(now));
            var applies := Applies(host, path, secure);
            && BucketScan(j, host, path, secure, now) == Filter(live[h], applies)
            && FlatScan(j, host, path, secure, now)
               == Filter(Flat(live[..h]), applies) + Filter(live[h], applies) + Filter(Flat(live[h + 1..]), applies)
  {
    hide CookieHash, Flat;
    var live := FilterEach(j.buckets, NotExpired(now));
    FilterFlat(j.buckets, NotExpired(now));
    FlatSplit(live, h);
    FilterConcat(Flat(live[..h]) + live[h], Flat(live[h + 1..]), Applies(host, path, secure));
    FilterConcat(Flat(live[..h]), live[h], Applies(host, path, secure));
  }

  /** A live cookie that applies to the request but is kept in another bucket than the host's. */
  ghost predicate Stray(j: Jar, host: string, path: string, secure: bool, now: int, c: Cookie) {
    && c in Flat(j.buckets)
    && NotExpired(now)(c)
    && Applies(host, path, secure)(c)
    && CookieHash(c.domain) != CookieHash(Some(host))
  }

  lemma OthersEmpty(j: Jar, host: string, path: string, secure: bool, now: int, from: nat, to: nat)
    requires Consistent(j) && from <= to <= COOKIE_HASH_SIZE && !(from <= CookieHash(Some(host)) < to)
    requires forall c :: !Stray(j, host, path, secure, now, c)
    ensures Filter(Flat(FilterEach(j.buckets, NotExpired(now))[from..to]), Applies(host, path, secure)) == []
  {
    hide CookieHash, Flat, Applies, NotExpired;
    var part := FilterEach(j.buckets, NotExpired(now))[from..to];
    forall c | c in Flat(part) ensures !Applies(host, path, secure)(c) {
      InFlat(part, c);
      var i :| 0 <= i < |part| && c in part[i];
      assert c in j.buckets[from + i] && NotExpired(now)(c);
      InFlat(j.buckets, c);
      assert !Stray(j, host, path, secure, now, c);
    }
    FilterNone(Flat(part), Applies(host, path, secure));
  }

  /** The indexed lookup finds what the flat scan finds exactly when nothing that applies is kept elsewhere. */
  lemma BucketScanIsFlatScan(j: Jar, host: string, path: string, secure: bool, now: int)
    requires Consistent(j)
    ensures BucketScan(j, host, path, secure, now) == FlatScan(j, host, path, secure, now)
            <==> forall c :: !Stray(j, host, path, secure, now, c)
  {
    hide CookieHash, Flat, Applies, NotExpired;
    var h := CookieHash(Some(host));
    FlatScanSplit(j, host, path, secure, now, h);
    if forall c :: !Stray(j, host, path, secure, now, c) {
      OthersEmpty(j, host, path, secure, now, 0, h);
      OthersEmpty(j, host, path, secure, now, h + 1, COOKIE_HASH_SIZE);
      var live := FilterEach(j.buckets, NotExpired(now));
      assert live[..h] == live[0..h] && live[h + 1..] == live[h + 1..COOKIE_HASH_SIZE];
    } else {
      var c :| Stray(j, host, path, secure, now, c);
      assert c in FlatScan(j, host, path, secure, now);
      assert c !in j.buckets[h];
      assert c !in BucketScan(j, host, path, secure, now);
    }
  }

  /** Every cookie has a domain, and those that match the host by their tail have a dot in a domain that is no
      address. */
  ghost predicate DomainsIndexable(j: Jar, host: string) {
    forall c :: c in Flat(j.buckets) ==>
      && c.domain.Some?
      && (c.tailmatch && !IsIp(host) && TailMatch(c.domain.value, host) ==>
          '.' in c.domain.value && !IsIp(c.domain.value))
  }

  lemma IndexableHasNoStray(j: Jar, host: string, path: string, secure: bool, now: int)
    requires DomainsIndexable(j, host)
    ensures forall c :: !Stray(j, host, path, secure, now, c)
  {
    hide CookieHash, Flat, IsIp, TailMatch, PathMatch;
    forall c | c in Flat(j.buckets) && Applies(host, path, secure)(c)
      ensures CookieHash(c.domain) == CookieHash(Some(host))
    {
      if c.tailmatch && !IsIp(host) {
        TailMatchSameBucket(c.domain.value, host);
      } else {
        SameNameSameBucket(c.domain.value, host);
      }
    }
  }

  lemma HashAppend(s: string, c: char)
    ensures HashFrom(5381, s + [c]) == HashStep(HashFrom(5381, s), c)
  {
    assert (s + [c])[..|s|] == s;
  }

  lemma DotlessSteps()
    ensures HashStep(5381, 'X') == 177661 && HashStep(5381, 'W') == 177650
    ensures HashStep(177650, '.') == 5862428 && HashStep(5862428, 'X') == 193460164
  {
    assert SizeOf('X') == 88 && SizeOf('W') == 87 && SizeOf('.') == 46;
  }

  lemma DotlessHashes()
    ensures HashFrom(5381, Upper("x")) == 177661 && HashFrom(5381, Upper("w.x")) == 193460164
  {
    hide HashStep, HashFrom;
    DotlessSteps();
    assert HashFrom(5381, "") == 5381 by { HashEmpty(); }
    HashAppend("", 'X');
    HashAppend("", 'W');
    HashAppend("W", '.');
    HashAppend("W.", 'X');
    assert Upper("x") == "" + ['X'];
    assert Upper("w.x") == "W." + ['X'];
    assert "W." == "W" + ['.'] && "W" == "" + ['W'];
  }

  lemma HashEmpty()
    ensures HashFrom(5381, "") == 5381
  {
  }

  lemma DotlessTop()
    ensures TopDomain("x") == "x" && TopDomain("w.x") == "w.x"
  {
    LastDotIs("x", -1);
    LastDotIs("w.x", 1);
    LastDotIs("w", -1);
    assert "w.x"[..1] == "w";
  }

  lemma DotlessMatch()
    ensures TailMatch("x", "w.x") && !IsIp("w.x") && !IsIp("x")
  {
    assert "w.x"[2..] == "x";
  }

  function DotlessCookie(time: int): Cookie {
    Cookie("a", Some("v"), Some("/"), Some(""), Some("x"), 0, true, false, false, false, time)
  }

  /** A cookie file with this one cookie is read. */
  function DotlessLoad(): seq<Op> {
    [StartLoad(false)] + [Add(DotlessCookie(0), {}, true, true, true, 0)] + [FinishLoad(true, 0)]
  }

  lemma DotlessLoadGives(c: Cookie)
    requires c == DotlessCookie(1)
    ensures Run(EmptyJar(), DotlessLoad()).buckets == EmptyJar().buckets[CookieHash(c.domain) := [c]]
  {
    hide CookieHash, Flat, Judge;
    var h := CookieHash(c.domain);
    var start, add := StartLoad(false), Add(DotlessCookie(0), {}, true, true, true, 0);
    RunLast(EmptyJar(), [], start);
    RunLast(EmptyJar(), [start], add);
    RunLast(EmptyJar(), [start] + [add], FinishLoad(true, 0));
    assert [] + [start] == [start];
    var j := Run(EmptyJar(), [start] + [add]);
    assert j.buckets == EmptyJar().buckets[h := [c]] by { assert [] + [c] == [c]; }
    forall i | 0 <= i < COOKIE_HASH_SIZE ensures Filter(j.buckets[i], NotExpired(0)) == j.buckets[i] {
      FilterAll(j.buckets[i], NotExpired(0));
    }
    assert FilterEach(j.buckets, NotExpired(0)) == j.buckets;
  }

  /** A domain without a dot tail-matches the hosts under it, but is hashed under another name. */
  lemma DotlessDomainIsMissed()
    ensures var j := Run(EmptyJar(), DotlessLoad());
            && Stray(j, "w.x", "/", false, 0, DotlessCookie(1))
            && BucketScan(j, "w.x", "/", false, 0) != FlatScan(j, "w.x", "/", false, 0)
  {
    hide CookieHash, Flat, Applies, NotExpired, Run, Filter;
    var j, c := Run(EmptyJar(), DotlessLoad()), DotlessCookie(1);
    DotlessLoadGives(c);
    DotlessBuckets();
    DotlessApplies();
    assert c in j.buckets[253];
    InFlat(j.buckets, c);
    EmptyJarConsistent();
    RunConsistent(EmptyJar(), DotlessLoad());
    BucketScanIsFlatScan(j, "w.x", "/", false, 0);
  }

  lemma DotlessApplies()
    ensures Applies("w.x", "/", false)(DotlessCookie(1)) && NotExpired(0)(DotlessCookie(1))
  {
    hide IsIp, TailMatch;
    DotlessMatch();
    UntilIsAll("/", '?');
  }

  lemma DotlessBuckets()
    ensures CookieHash(Some("x")) == 253 && CookieHash(Some("w.x")) == 196
  {
    hide HashFrom, TopDomain, IsIp;
    DotlessMatch();
    DotlessHashes();
    DotlessTop();
  }
}
