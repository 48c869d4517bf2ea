/** The jar object, its buckets relinked in place. */
module CookieEngine {
  import opened CookieDomain
  import opened CookieJar
  import opened CookieLookup
  import opened CookieOrder
  import opened CookieStore
  import opened Cookies
  import opened Lists
  import opened Text
  import opened Wrappers

  /** The cookies of a bucket that apply; each match is linked in front, so they come out in reverse. */
  method Collect(bucket: seq<Cookie>, applies: Cookie -> bool) returns (matches: seq<Cookie>)
    requires Pairwise(bucket, DifferentTimes())
    ensures multiset(matches) == multiset(Filter(bucket, applies))
    ensures Pairwise(matches, DifferentTimes())
  {
    hide Filter, DifferentTimes;
    matches := [];
    assert bucket[..0] == [];
    FilterNone([], applies);
    for k := 0 to |bucket|
      invariant multiset(matches) == multiset(Filter(bucket[..k], applies))
      invariant Pairwise(matches, DifferentTimes())
      invariant forall c :: c in matches ==> c in bucket[..k]
    {
      FilterNext(bucket, k, applies);
      if applies(bucket[k]) {
        PrependDifferent(matches, bucket, k);
        matches := [bucket[k]] + matches;
      }
    }
    assert bucket[..|bucket|] == bucket;
  }

  lemma FilterNext(bucket: seq<Cookie>, k: nat, applies: Cookie -> bool)
    requires k < |bucket|
    ensures bucket[..k + 1] == bucket[..k] + [bucket[k]]
    ensures Filter(bucket[..k + 1], applies)
         == Filter(bucket[..k], applies) + if applies(bucket[k]) then [bucket[k]] else []
  {
    assert bucket[..k + 1][..k] == bucket[..k];
  }

  lemma NothingKept(buckets: seq<seq<Cookie>>)
    ensures Filter(Flat(buckets[..0]), HasDomain()) == []
  {
  }

  /** What is still to be done when this much of a file is unread. */
  ghost function OpsFor(text: string, headers: Headers, finish: Op): seq<Op> {
    AddsOf(ReadFile(text, headers)) + [finish]
  }

  lemma LastOrNext(text: string, headers: Headers, finish: Op)
    ensures OpsFor(text, headers, finish) != []
    ensures var line, ops := Until(text, '\n'), OpsFor(text, headers, finish);
            if |line| == |text| then ops == [finish] && ops[1..] == []
            else
              var parsed, more := FileLine(line, headers), OpsFor(text[|line| + 1..], headers, finish);
              if parsed == [] then ops == more
              else
                && ops[0] == Add(parsed[0].parsed, parsed[0].prefixes, true, true, true, 0)
                && ops[1..] == more
  {
    hide FileLine, Until, ReadFile, AddsOf;
    Unread(text, headers);
    NoAdds();
    var line := Until(text, '\n');
    if |line| < |text| {
      var parsed, rest := FileLine(line, headers), ReadFile(text[|line| + 1..], headers);
      if parsed == [] {
        assert parsed + rest == rest;
      } else {
        assert parsed == [parsed[0]];
        OneAdd(parsed[0], rest);
      }
    }
  }

  lemma Unread(text: string, headers: Headers)
    ensures var line := Until(text, '\n');
            ReadFile(text, headers)
            == if |line| == |text| then [] else FileLine(line, headers) + ReadFile(text[|line| + 1..], headers)
  {
    hide FileLine, Until;
  }

  lemma NoAdds()
    ensures AddsOf([]) == []
  {
  }

  lemma OneAdd(line: Line, rest: seq<Line>)
    ensures AddsOf([line] + rest) == [Add(line.parsed, line.prefixes, true, true, true, 0)] + AddsOf(rest)
  {
  }

  class CookieInfo {
    var cookies: array<seq<Cookie>>
    var running: bool
    var newsession: bool
    var numcookies: int
    var lastct: int

    ghost function Contents(): Jar
      reads this, cookies
    {
      Jar(cookies[..], running, newsession, numcookies, lastct)
    }

    ghost predicate Valid()
      reads this, cookies
    {
      Consistent(Contents())
    }

    constructor ()
      ensures Valid() && fresh(cookies)
      ensures Contents() == EmptyJar()
    {
      cookies := new seq<Cookie>[COOKIE_HASH_SIZE](_ => []);
      running, newsession, numcookies, lastct := false, false, 0, 0;
      new;
      assert cookies[..] == EmptyJar().buckets;
      EmptyJarConsistent();
    }

    /** Unlinks from bucket i the cookies that fail the test. */
    method KeepInBucket(i: nat, keep: Cookie -> bool)
      requires i < cookies.Length
      modifies this`numcookies, cookies
      ensures cookies[..] == old(cookies[..])[i := Filter(old(cookies[i]), keep)]
      ensures numcookies == old(numcookies) - (|Flat(old(cookies[..]))| - |Flat(cookies[..])|)
    {
      hide Flat, CookieHash;
      var list := cookies[i];
      var kept := [];
      for k := 0 to |list|
        invariant kept == Filter(list[..k], keep)
        invariant numcookies == old(numcookies) - (k - |kept|)
        invariant cookies[..] == old(cookies[..])
      {
        assert list[..k + 1][..k] == list[..k];
        if keep(list[k]) {
          kept := kept + [list[k]];
        } else {
          numcookies := numcookies - 1;
        }
      }
      assert list[..|list|] == list;
      cookies[i] := kept;
      FlatUpdate(old(cookies[..]), i, kept);
      assert cookies[..] == old(cookies[..])[i := kept];
    }

    /** The walk over all buckets that expiry and session clearing share. */
    method KeepAll(keep: Cookie -> bool)
      requires Valid()
      modifies this`numcookies, cookies
      ensures Valid() && Contents() == Keep(old(Contents()), keep)
    {
      hide Flat, CookieHash, Filter;
      ghost var before := cookies[..];
      for i := 0 to COOKIE_HASH_SIZE
        invariant forall b :: 0 <= b < i ==> cookies[b] == Filter(before[b], keep)
        invariant forall b :: i <= b < COOKIE_HASH_SIZE ==> cookies[b] == before[b]
        invariant numcookies == old(numcookies) - (|Flat(before)| - |Flat(cookies[..])|)
      {
        KeepInBucket(i, keep);
      }
      assert cookies[..] == FilterEach(before, keep);
      KeepInvariants(old(Contents()), keep);
    }

    method RemoveExpired(now: int)
      requires Valid()
      modifies this`numcookies, cookies
      ensures Valid() && Contents() == Apply(old(Contents()), Expire(now))
    {
      KeepAll(NotExpired(now));
    }

    method ClearSess()
      requires Valid()
      modifies this`numcookies, cookies
      ensures Valid() && Contents() == Apply(old(Contents()), ClearSession)
    {
      KeepAll(NotSession());
    }

    method ClearAll()
      requires Valid()
      modifies this`numcookies, cookies
      ensures Valid() && Contents() == Apply(old(Contents()), Op.ClearAll)
    {
      hide CookieHash, Flat;
      for i := 0 to COOKIE_HASH_SIZE
        invariant forall b :: 0 <= b < i ==> cookies[b] == []
      {
        cookies[i] := [];
      }
      numcookies := 0;
      assert cookies[..] == seq(COOKIE_HASH_SIZE, _ => []);
      ApplyConsistent(old(Contents()), Op.ClearAll);
    }

    /** The walk over one bucket that replaces a cookie, appends the newcomer or gives it up. */
    method Settle(co: Cookie, secure: bool) returns (stored: Option<Cookie>)
      requires cookies.Length == COOKIE_HASH_SIZE
      modifies this`numcookies, cookies
      ensures var at := Place(old(cookies[..])[CookieHash(co.domain)], co, secure, 0);
              && Contents() == Store(old(Contents()), co, at)
              && (stored.None? <==> at.Refused?)
      ensures stored.Some? ==> stored.value in cookies[CookieHash(co.domain)]
      ensures stored.Some? ==> stored.value == co.(creationtime := stored.value.creationtime)
    {
      hide CookieHash, Flat, Judge;
      var myhash := CookieHash(co.domain);
      var clist := cookies[myhash];
      ghost var before := cookies[..];
      var k := 0;
      while k < |clist|
        invariant 0 <= k <= |clist|
        invariant Place(clist, co, secure, 0) == Place(clist, co, secure, k)
      {
        match Judge(clist[k], co, secure) {
          case Refuse => return None;
          case Replace =>
            var stamped := co.(creationtime := clist[k].creationtime);
            cookies[myhash] := clist[k := stamped];
            assert cookies[..] == before[myhash := clist[k := stamped]];
            assert cookies[myhash][k] == stamped;
            return Some(stamped);
          case Skip =>
        }
        k := k + 1;
      }
      cookies[myhash] := clist + [co];
      assert cookies[..] == before[myhash := clist + [co]];
      assert cookies[myhash][|clist|] == co == co.(creationtime := co.creationtime);
      numcookies := numcookies + 1;
      stored := Some(co);
    }

    /** Moves the creation counter and drops the expired cookies unless told otherwise. */
    method Advance(noexpire: bool, now: int)
      requires Valid()
      modifies this`lastct, this`numcookies, cookies
      ensures cookies.Length == COOKIE_HASH_SIZE && lastct == old(lastct) + 1
      ensures var j := old(Contents()).(lastct := old(lastct) + 1);
              Contents() == if noexpire then j else ExpireAll(j, now)
    {
      hide CookieHash, Flat, Filter, Consistent, Keep;
      LaterConsistent(Contents());
      lastct := lastct + 1;
      if !noexpire { RemoveExpired(now); }
    }

    /** Adds a parsed cookie; returns it as stored, nothing when it is dropped. */
    method Add(parsed: Cookie, prefixes: set<Prefix>, noexpire: bool, secure: bool, acceptable: bool, now: int)
      returns (stored: Option<Cookie>)
      requires Valid()
      modifies this`lastct, this`numcookies, cookies
      ensures Valid()
      ensures Contents() == Apply(old(Contents()), Op.Add(parsed, prefixes, noexpire, secure, acceptable, now))
      ensures stored.None? <==> PlacementOf(old(Contents()),
          Op.Add(parsed, prefixes, noexpire, secure, acceptable, now)).Refused?
      ensures stored.Some? ==> stored.value in cookies[CookieHash(parsed.domain)]
      ensures stored.Some? ==> stored.value == parsed.(livecookie := running, creationtime := stored.value.creationtime)
    {
      hide CookieHash, Flat, Judge, Filter, Place, Consistent, ExpireAll, Store, FirstMet;
      ghost var op := Op.Add(parsed, prefixes, noexpire, secure, acceptable, now);
      ApplyConsistent(Contents(), op);
      if SecurePrefix in prefixes && !parsed.secure { return None; }
      if HostPrefix in prefixes && !(parsed.secure && parsed.path == Some("/") && !parsed.tailmatch) { return None; }
      if !running && newsession && parsed.expires == 0 { return None; }
      Advance(noexpire, now);
      var co := parsed.(livecookie := running, creationtime := lastct);
      assert Contents() == Prepared(old(Contents()), op);
      RefusedStoresNothing(Contents(), co);
      if !acceptable { return None; }
      stored := Settle(co, secure);
    }

    /** Adds the cookies of a file, one line at a time. */
    method LoadLines(file: string, headers: Headers, ghost finish: Op)
      requires Valid()
      modifies this, cookies
      ensures Valid() && cookies == old(cookies)
      ensures Run(Contents(), [finish]) == Run(old(Contents()), OpsFor(file, headers, finish))
    {
      hide CookieHash, Flat, Keep, Store, Place, Judge, Prepared, FileLine, ReadFile, Until, OpsFor;
      var text := file;
      while true
        invariant Valid() && cookies == old(cookies)
        invariant Run(Contents(), OpsFor(text, headers, finish)) == Run(old(Contents()), OpsFor(file, headers, finish))
        decreases |text|
      {
        var line := Until(text, '\n');
        LastOrNext(text, headers, finish);
        if |line| == |text| { break; }
        var parsed := FileLine(line, headers);
        if parsed != [] {
          var _ := Add(parsed[0].parsed, parsed[0].prefixes, true, true, true, 0);
        }
        text := text[|line| + 1..];
      }
    }

    /** Reads a cookie file, if it could be opened: the jar is not running while its lines are added, and they
        are expired once at the end. */
    method Load(file: Option<string>, headers: Headers, discardSession: bool, now: int)
      requires Valid()
      modifies this, cookies
      ensures Valid() && cookies == old(cookies)
      ensures Contents() == Run(old(Contents()), LoadOf(ReadFileIf(file, headers), discardSession, now))
    {
      hide CookieHash, Flat, Keep, Consistent, ReadFile;
      LaterConsistent(Contents());
      ApplyConsistent(Contents(), StartLoad(discardSession));
      running, newsession := false, discardSession;
      ghost var finish := FinishLoad(file.Some?, now);
      ghost var ops := LoadOf(ReadFileIf(file, headers), discardSession, now);
      NothingToRead(headers);
      assert Contents() == Apply(old(Contents()), ops[0]);
      assert ops[1..] == OpsFor(if file.Some? then file.value else "", headers, finish);
      if file.Some? {
        LoadLines(file.value, headers, finish);
      } else {
        NoAdds();
      }
      assert Run(Contents(), [finish]) == Run(Apply(Contents(), finish), []);
      assert Run(Contents(), [finish]) == Run(old(Contents()), ops);
      ApplyConsistent(Contents(), finish);
      if file.Some? { RemoveExpired(now); }
      running := true;
    }

    /** The cookies of one list that have a domain. */
    method WithDomain(i: nat) returns (kept: seq<Cookie>)
      requires i < cookies.Length
      ensures kept == Filter(cookies[i], HasDomain())
    {
      var list := cookies[i];
      kept := [];
      for k := 0 to |list|
        invariant kept == Filter(list[..k], HasDomain())
      {
        FilterNext(list, k, HasDomain());
        if list[k].domain.Some? { kept := kept + [list[k]]; }
      }
      assert list[..|list|] == list;
    }

    /** Writes the cookie file: expired cookies go, those with a domain are written newest first. */
    method Output(now: int) returns (text: string, ghost saved: seq<Cookie>)
      requires Valid()
      modifies this`numcookies, cookies
      ensures Valid() && Contents() == Apply(old(Contents()), Expire(now))
      ensures SavedFrom(old(Contents()), now, saved) && text == FileText(saved)
    {
      hide CookieHash, Flat, Filter, FileText, Keep, Pairwise;
      RemoveExpired(now);
      var kept: seq<Cookie> := [];
      NothingKept(cookies[..]);
      for i := 0 to COOKIE_HASH_SIZE
        invariant Valid() && Contents() == Apply(old(Contents()), Expire(now))
        invariant kept == Filter(Flat(cookies[..i]), HasDomain())
      {
        var more := WithDomain(i);
        assert cookies[..i + 1] == cookies[..i] + [cookies[i]];
        FlatPush(cookies[..i], cookies[i]);
        FilterConcat(Flat(cookies[..i]), cookies[i], HasDomain());
        kept := kept + more;
      }
      assert cookies[..COOKIE_HASH_SIZE] == cookies[..];
      FilterPairwise(Flat(cookies[..]), HasDomain(), DifferentTimes());
      var sorted := SortNewest(kept);
      text := WriteFile(sorted);
      saved := sorted;
    }

    /** The cookies to send with a request, in the order they are sent. */
    method GetList(host: string, path: string, secure: bool, now: int) returns (list: seq<Cookie>)
      requires Valid()
      modifies this`numcookies, cookies
      ensures Valid()
      ensures Contents() == if old(cookies[..])[CookieHash(Some(host))] == [] then old(Contents())
                            else Apply(old(Contents()), Expire(now))
      ensures Sorted(list) && Pairwise(list, DifferentTimes())
      ensures multiset(list) == multiset(BucketScan(old(Contents()), host, path, secure, now))
      ensures forall c :: c in list <==>
                c in old(cookies[..])[CookieHash(Some(host))] && Sendable(c, host, path, secure, now)
      ensures DomainsIndexable(old(Contents()), host) ==>
                && multiset(list) == multiset(FlatScan(old(Contents()), host, path, secure, now))
                && forall c :: c in list <==> c in Flat(old(cookies[..])) && Sendable(c, host, path, secure, now)
    {
      hide CookieHash, Flat, Applies, NotExpired, Sendable;
      var myhash := CookieHash(Some(host));
      ghost var before := Contents();
      ScansMean(before, host, path, secure, now);
      ghost var wanted := BucketScan(before, host, path, secure, now);
      if DomainsIndexable(before, host) {
        IndexableHasNoStray(before, host, path, secure, now);
        BucketScanIsFlatScan(before, host, path, secure, now);
      }
      if cookies[myhash] == [] { return []; }
      RemoveExpired(now);
      var bucket := cookies[myhash];
      assert bucket == Filter(before.buckets[myhash], NotExpired(now));
      PairwisePart(cookies[..], myhash, DifferentTimes());
      var matches := Collect(bucket, Applies(host, path, secure));
      list := Qsort(matches);
      assert forall c :: c in list <==> c in multiset(list);
    }
  }
}
