/** What a cookie from an insecure response does to the secure ones in the jar. */
module CookieGuard {
  import opened Ascii
  import opened CookieDomain
  import opened CookieJar
  import opened CookiePath
  import opened Cookies
  import opened Lists
  import opened Wrappers

  // ---- Meeting one cookie

  /** The same name and domain, in any case of letters. */
  predicate SameNameAndDomain(c: Cookie, d: Cookie) {
    && EqualNoCase(c.name, d.name)
    && if c.domain.Some? && d.domain.Some? then EqualNoCase(c.domain.value, d.domain.value)
        && c.tailmatch == d.tailmatch
       else c.domain.None? && d.domain.None?
  }

  /** An insecure newcomer, over an insecure channel, meets a secure cookie of its name and domain: it is refused when
      its path begins with the first segment of the other's, and otherwise replaces it, unless that is live and the
      newcomer is not. */
  lemma FirstSegmentDecides(was: Cookie, co: Cookie, seg: string, tail: string)
    requires SameNameAndDomain(was, co) && was.secure && !co.secure && co.spath.Some?
    requires '/' !in seg && (tail == "" || tail[0] == '/') && was.spath == Some("/" + seg + tail)
    ensures var path, n := co.spath.value, 1 + |seg|;
            Judge(was, co, false)
            == if |path| >= n && EqualNoCase(path[..n], "/" + seg) then Refuse
               else if was.livecookie && !co.livecookie then Refuse else Replace
  {
    SegmentEnds("/" + seg, tail, 1);
    assert ("/" + seg + tail)[..1 + |seg|] == "/" + seg;
  }

  /** The path "/" is stored as "", and refuses every path. */
  lemma RootRefusesAll(was: Cookie, co: Cookie)
    requires SameNameAndDomain(was, co) && was.secure && !co.secure && co.spath.Some? && was.spath == Some("")
    ensures Judge(was, co, false) == Refuse
  {
  }

  /** In every other meeting the whole paths decide. */
  lemma WholePathDecides(was: Cookie, co: Cookie, secure: bool)
    requires SameNameAndDomain(was, co) && (!was.secure || co.secure || secure) && was.spath.Some? && co.spath.Some?
    ensures Judge(was, co, secure)
         == if !EqualNoCase(was.spath.value, co.spath.value) then Skip
            else if was.livecookie && !co.livecookie then Refuse else Replace
  {
  }

  lemma OthersAreSkipped(was: Cookie, co: Cookie, secure: bool)
    ensures !SameNameAndDomain(was, co) ==> Judge(was, co, secure) == Skip
  {
  }

  // ---- Adding to the jar

  /** A secure cookie, and an insecure newcomer with a path below it. */
  ghost predicate Guarded(was: Cookie, co: Cookie) {
    && SameNameAndDomain(was, co) && was.secure && !co.secure
    && was.spath.Some? && co.spath.Some? && Below(was.spath.value, co.spath.value)
  }

  lemma GuardedIsRefused(was: Cookie, co: Cookie)
    requires Guarded(was, co)
    ensures Judge(was, co, false) == Refuse
  {
    hide Below, Overlays;
    OverlaysMeans(was.spath.value, co.spath.value);
  }

  /** It does not outlive its time in this operation. */
  predicate Lasts(c: Cookie, op: Op) {
    match op
    case Add(_, _, noexpire, _, _, now) => noexpire || c.expires == 0 || c.expires >= now
    case Expire(now) => c.expires == 0 || c.expires >= now
    case FinishLoad(fileRead, now) => !fileRead || c.expires == 0 || c.expires >= now
    case _ => true
  }

  /** Nothing in the operation is aimed at the cookie, unless it comes insecurely and stays below its first path
      segment. */
  ghost predicate Harmless(c: Cookie, op: Op) {
    && Lasts(c, op)
    && match op
       case Add(parsed, _, _, secure, _, _) => !SameNameAndDomain(c, parsed) || (!secure && Guarded(c, parsed))
       case ClearSession => c.expires != 0
       case ClearAll => false
       case _ => true
  }

  lemma StampIsAimedAlike(c: Cookie, j: Jar, parsed: Cookie)
    ensures SameNameAndDomain(c, Stamp(j, parsed)) <==> SameNameAndDomain(c, parsed)
    ensures Guarded(c, Stamp(j, parsed)) <==> Guarded(c, parsed)
  {
  }

  lemma KeepsMember(j: Jar, p: Cookie -> bool, c: Cookie)
    requires |j.buckets| == COOKIE_HASH_SIZE && c in Flat(j.buckets) && p(c)
    ensures c in Flat(Keep(j, p).buckets)
  {
    hide Flat, Filter;
    KeepInvariants(j, p);
    assert c in Filter(Flat(j.buckets), p);
  }

  lemma PreparedKeeps(j: Jar, op: Op, c: Cookie)
    requires op.Add? && Consistent(j) && c in Flat(j.buckets) && Lasts(c, op)
    ensures c in Flat(Prepared(j, op).buckets)
  {
    hide Flat;
    if !op.noexpire { KeepsMember(j.(lastct := j.lastct + 1), NotExpired(op.now), c); }
  }

  lemma StoreKeeps(j: Jar, co: Cookie, secure: bool, c: Cookie)
    requires Consistent(j) && c in Flat(j.buckets) && Judge(c, co, secure) != Replace
    ensures c in Flat(Store(j, co, Place(j.buckets[CookieHash(co.domain)], co, secure, 0)).buckets)
  {
    hide CookieHash, Flat, Judge;
    var at := Place(j.buckets[CookieHash(co.domain)], co, secure, 0);
    if !at.Refused? {
      StoreConserves(j, co, at);
      if at.Replaced? { assert c != j.buckets[CookieHash(co.domain)][at.at]; }
      assert c in multiset(Flat(Store(j, co, at).buckets));
    }
  }

  lemma HarmlessKeeps(j: Jar, op: Op, c: Cookie)
    requires Consistent(j) && c in Flat(j.buckets) && Harmless(c, op)
    ensures c in Flat(Apply(j, op).buckets)
  {
    hide CookieHash, Flat, Judge, Keep, Guarded, SameNameAndDomain, Place, Store, Consistent;
    LaterConsistent(j);
    match op
    case Add(parsed, prefixes, _, secure, _, _) =>
      PreparedKeeps(j, op, c);
      PreparedConsistent(j, op);
      var co := Stamp(j, parsed);
      StampIsAimedAlike(c, j, parsed);
      if SameNameAndDomain(c, co) { GuardedIsRefused(c, co); } else { OthersAreSkipped(c, co, secure); }
      RefusedStoresNothing(Prepared(j, op), co);
      StoreKeeps(Prepared(j, op), co, secure, c);
    case Expire(now) => KeepsMember(j, NotExpired(now), c);
    case ClearSession => KeepsMember(j, NotSession(), c);
    case ClearAll =>
    case StartLoad(_) =>
    case FinishLoad(fileRead, now) => if fileRead { KeepsMember(j, NotExpired(now), c); }
  }

  /** A secure cookie stays as it is, whatever comes over an insecure channel below its first path segment, until it
      expires, is cleared, or a secure response sets it. */
  lemma {:induction false} SecureCookieStays(j: Jar, ops: seq<Op>, c: Cookie)
    requires Consistent(j) && c in Flat(j.buckets) && forall op :: op in ops ==> Harmless(c, op)
    ensures c in Flat(Run(j, ops).buckets)
    decreases |ops|
  {
    hide Apply, Harmless, Flat, Consistent;
    if ops != [] {
      assert ops[0] in ops;
      LaterConsistent(j);
      HarmlessKeeps(j, ops[0], c);
      ApplyConsistent(j, ops[0]);
      SecureCookieStays(Apply(j, ops[0]), ops[1..], c);
    }
  }

  // ---- What is stored at all

  /** The cookie breaks the rule of a prefix in its name, or is one of a past session that a file should not bring back,
      or its domain is not acceptable. */
  predicate Barred(j: Jar, op: Op)
    requires op.Add?
  {
    || !op.acceptable
    || (SecurePrefix in op.prefixes && !op.parsed.secure)
    || (HostPrefix in op.prefixes && (!op.parsed.secure || op.parsed.path != Some("/") || op.parsed.tailmatch))
    || (!j.running && j.newsession && op.parsed.expires == 0)
  }

  /** Nothing comes into the jar then. */
  lemma BarredIsNotStored(j: Jar, op: Op)
    requires op.Add? && |j.buckets| == COOKIE_HASH_SIZE && Barred(j, op)
    ensures forall c :: c in Flat(Apply(j, op).buckets) ==> c in Flat(j.buckets)
  {
    hide Flat, Filter, CookieHash, Judge, Place;
    RefusedStoresNothing(Prepared(j, op), Stamp(j, op.parsed));
    KeepInvariants(j.(lastct := j.lastct + 1), NotExpired(op.now));
  }

  /** Otherwise, when no cookie has its name and domain, it is stored: live when the jar is running, and newer than all
      others. */
  lemma NewcomerIsStored(j: Jar, op: Op)
    requires op.Add? && Consistent(j) && !Barred(j, op)
    requires forall c :: c in Flat(j.buckets) ==> !SameNameAndDomain(c, op.parsed)
    ensures op.parsed.(livecookie := j.running, creationtime := j.lastct + 1) in Flat(Apply(j, op).buckets)
    ensures forall c :: c in Flat(j.buckets) ==> c.creationtime < j.lastct + 1
  {
    hide Flat, Filter, CookieHash, Judge, SameNameAndDomain, Place, Store, Consistent;
    LaterConsistent(j);
    var j', co := Prepared(j, op), Stamp(j, op.parsed);
    PreparedConsistent(j, op);
    LaterConsistent(j');
    KeepInvariants(j.(lastct := j.lastct + 1), NotExpired(op.now));
    forall c | c in j'.buckets[CookieHash(co.domain)] ensures Judge(c, co, op.secure) == Skip {
      InFlat(j'.buckets, c);
      StampIsAimedAlike(c, j, op.parsed);
      OthersAreSkipped(c, co, op.secure);
    }
    PlacedAtEnd(j'.buckets[CookieHash(co.domain)], co, op.secure);
    StoreConserves(j', co, Appended);
    assert co in multiset(Flat(Store(j', co, Appended).buckets));
    TimesAreBelow(j);
  }

  lemma PlacedAtEnd(bucket: seq<Cookie>, co: Cookie, secure: bool)
    requires forall c :: c in bucket ==> Judge(c, co, secure) == Skip
    ensures Place(bucket, co, secure, 0) == Appended
  {
    hide Judge;
    var p := Place(bucket, co, secure, 0);
    forall k | 0 <= k < |bucket| ensures Judge(bucket[k], co, secure) == Skip { assert bucket[k] in bucket; }
  }

  lemma TimesAreBelow(j: Jar)
    requires Consistent(j)
    ensures forall c :: c in Flat(j.buckets) ==> c.creationtime <= j.lastct
  {
    forall c | c in Flat(j.buckets) ensures c.creationtime <= j.lastct { FlatMember(j, c); }
  }

  // ---- Reading a file

  /** The same live cookies are in both jars. */
  ghost predicate SameLive(j: Jar, j': Jar) {
    forall c: Cookie :: c.livecookie ==> (c in Flat(j.buckets) <==> c in Flat(j'.buckets))
  }

  lemma LoadedLineKeepsLive(j: Jar, line: Line)
    requires Consistent(j) && !j.running
    ensures |j.buckets| == COOKIE_HASH_SIZE
    ensures var j' := Apply(j, Add(line.parsed, line.prefixes, true, true, true, 0));
            Consistent(j') && !j'.running && SameLive(j, j')
  {
    hide CookieHash, Flat, Judge, Place, Store, Consistent;
    LaterConsistent(j);
    var op := Add(line.parsed, line.prefixes, true, true, true, 0);
    ApplyConsistent(j, op);
    if Admissible(j.running, j.newsession, line.parsed, line.prefixes) {
      var j1, co := j.(lastct := j.lastct + 1), Stamp(j, line.parsed);
      var at := Place(j1.buckets[CookieHash(co.domain)], co, true, 0);
      assert Apply(j, op) == Store(j1, co, at);
      StoreKeepsLive(j1, co, at);
    }
  }

  lemma StoreKeepsLive(j: Jar, co: Cookie, at: Placement)
    requires Consistent(j) && !co.livecookie && at == Place(j.buckets[CookieHash(co.domain)], co, true, 0)
    ensures SameLive(j, Store(j, co, at)) && Store(j, co, at).running == j.running
  {
    hide CookieHash, Flat, Judge;
    var bucket, j' := j.buckets[CookieHash(co.domain)], Store(j, co, at);
    if !at.Refused? {
      StoreConserves(j, co, at);
      if at.Replaced? { NewcomerSparesLive(bucket[at.at], co); }
      forall c: Cookie | c.livecookie ensures c in Flat(j.buckets) <==> c in Flat(j'.buckets) {
        assert c in Flat(j.buckets) <==> c in multiset(Flat(j.buckets));
        assert c in Flat(j'.buckets) <==> c in multiset(Flat(j'.buckets));
      }
    }
  }

  lemma NewcomerSparesLive(was: Cookie, co: Cookie)
    requires Judge(was, co, true) == Replace && !co.livecookie
    ensures !was.livecookie
  {
  }

  lemma {:induction false} LoadedLinesKeepLive(j: Jar, lines: seq<Line>)
    requires Consistent(j) && !j.running
    ensures |j.buckets| == COOKIE_HASH_SIZE
    ensures var j' := Run(j, AddsOf(lines)); Consistent(j') && !j'.running && SameLive(j, j')
    decreases |lines|
  {
    hide Apply, Flat, Consistent;
    LaterConsistent(j);
    if lines != [] {
      LoadedLineKeepsLive(j, lines[0]);
      assert AddsOf(lines)[1..] == AddsOf(lines[1..]);
      LoadedLinesKeepLive(Apply(j, AddsOf(lines)[0]), lines[1..]);
    }
  }

  /** A cookie set by a response is live, and nothing in a file replaces it; no cookie becomes live by being read. Only
      those past their expiry go. */
  lemma LoadingKeepsLive(j: Jar, file: Option<seq<Line>>, discardSession: bool, now: int)
    requires Consistent(j)
    ensures |j.buckets| == COOKIE_HASH_SIZE
    ensures var j' := Run(j, LoadOf(file, discardSession, now));
            forall c: Cookie :: c.livecookie ==>
              (c in Flat(j'.buckets)
               <==> c in Flat(j.buckets) && (file.None? || c.expires == 0 || c.expires >= now))
  {
    hide Flat, Keep, Consistent, AddsOf;
    LaterConsistent(j);
    var start, adds, finish := StartLoad(discardSession), AddsOf(LinesOf(file)), FinishLoad(file.Some?, now);
    var j1 := Apply(j, start);
    ApplyConsistent(j, start);
    LoadedLinesKeepLive(j1, LinesOf(file));
    var j2 := Run(j1, adds);
    assert ([start] + adds)[1..] == adds;
    RunLast(j, [start] + adds, finish);
    LaterConsistent(j2);
    RemovalsMean(j2, now);
  }

  // ---- A run that is refused

  function LoginOnly(): seq<Op> {
    [FinishLoad(false, 0)] + [Add(LoginCookie("/login", true), {}, true, true, true, 0)]
  }

  lemma LoginOnlyGives(c: Cookie)
    requires c == LoginCookie("/login", true).(livecookie := true, creationtime := 1)
    ensures Run(EmptyJar(), LoginOnly()) == OneBucket(CookieHash(Some("x")), [c])
  {
    hide CookieHash, Judge;
    var h := CookieHash(Some("x"));
    var load, login := FinishLoad(false, 0), Add(LoginCookie("/login", true), {}, true, true, true, 0);
    RunLast(EmptyJar(), [], load);
    RunLast(EmptyJar(), [load], login);
    assert [] + [load] == [load] && EmptyJar().buckets[h := []] == EmptyJar().buckets;
    AddToBucket(h, [], login.parsed, true);
    assert [] + [c] == [c];
  }

  /** With a secure cookie of path "/login" in the jar, an insecure one is refused for "/login/en", and for
      "/loginhelper" too, as for every path that begins with these letters: the jar holds the first as it was, and
      nothing else. */
  lemma LoginIsRefused(path: string)
    requires |path| >= 6 && EqualNoCase(path[..6], "/login")
    ensures var again := Add(LoginCookie(path, false), {}, true, false, true, 0);
            var was, now := Run(EmptyJar(), LoginOnly()), Run(EmptyJar(), LoginOnly() + [again]);
            && Flat(was.buckets) == [LoginCookie("/login", true).(livecookie := true, creationtime := 1)]
            && now.buckets == was.buckets
  {
    hide CookieHash, Flat, Judge, Run;
    var c := LoginCookie("/login", true).(livecookie := true, creationtime := 1);
    var again := Add(LoginCookie(path, false), {}, true, false, true, 0);
    var h, j := CookieHash(Some("x")), OneBucket(CookieHash(Some("x")), [c]);
    LoginOnlyGives(c);
    RunLast(EmptyJar(), LoginOnly(), again);
    var co := Stamp(j, again.parsed);
    assert "/login" == "/" + "login" + "" && '/' !in "login";
    FirstSegmentDecides(c, co, "login", "");
    assert j.buckets[h] == [c];
    assert Place([c], co, false, 0) == Refused;
    RefusedStoresNothing(Prepared(j, again), co);
    FlatOne(h, c);
  }

  lemma FlatOne(h: nat, c: Cookie)
    requires h < COOKIE_HASH_SIZE
    ensures Flat(OneBucket(h, [c]).buckets) == [c]
  {
    hide Flat;
    FlatEmpty(COOKIE_HASH_SIZE);
    FlatAppend(EmptyJar().buckets, h, c);
    FlatSplit(EmptyJar().buckets, h);
    assert EmptyJar().buckets[h] + [c] == [c];
  }

  /** "/loginhelper" is refused like "/login/en", though it is no path below "/login". */
  lemma LoginHelperIsRefused()
    ensures forall path :: path in {"/login/en", "/loginhelper"} ==>
              Run(EmptyJar(), LoginOnly() + [Add(LoginCookie(path, false), {}, true, false, true, 0)]).buckets
              == Run(EmptyJar(), LoginOnly()).buckets
    ensures RfcPathMatch("/login", "/login/en") && !RfcPathMatch("/login", "/loginhelper")
  {
    hide Run, CookieHash, Flat, LoginOnly, Upper;
    assert "/login/en"[..6] == "/login" && "/loginhelper"[..6] == "/login";
    LoginIsRefused("/login/en");
    LoginIsRefused("/loginhelper");
    assert "/login/en"[|"/login"|] == '/' && "/loginhelper"[|"/login"|] == 'h';
  }
}
