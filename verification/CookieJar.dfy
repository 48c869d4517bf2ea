/** The jar: a hash of 256 cookie lists that behaves as one flat list. */
module CookieJar {
  import opened Ascii
  import opened CookieDomain
  import opened Cookies
  import opened Lists
  import opened Wrappers

  // ---- The jar as a value

  datatype Jar = Jar(buckets: seq<seq<Cookie>>, running: bool, newsession: bool, numcookies: int, lastct: int)

  function EmptyJar(): Jar {
    Jar(seq(COOKIE_HASH_SIZE, _ => []), false, false, 0, 0)
  }

  /** Reserved name prefixes found while the line was parsed. */
  datatype Prefix = SecurePrefix | HostPrefix

  /** A cookie line, parsed. */
  datatype Line = Line(parsed: Cookie, prefixes: set<Prefix>)

  datatype Op =
    | Add(parsed: Cookie, prefixes: set<Prefix>, noexpire: bool, secure: bool, acceptable: bool, now: int)
    | Expire(now: int)
    | ClearSession
    | ClearAll
    | StartLoad(discardSession: bool)
    | FinishLoad(fileRead: bool, now: int)

  /** What is done on meeting `was` in the bucket while looking for a place for `co`. */
  datatype Verdict = Skip | Refuse | Replace

  /** The index of the first '/' at or after i, the length when there is none. */
  function SlashFrom(s: string, i: nat): (r: nat)
    ensures r <= |s|
    decreases |s| - i
  {
    if i >= |s| then |s| else if s[i] == '/' then i else SlashFrom(s, i + 1)
  }

  /** The first path segment of a secure cookie's path is out of bounds for an insecure newcomer. */
  predicate Overlays(spath: string, newPath: string) {
    HasPrefixNoCase(spath[..SlashFrom(spath, 1)], newPath)
  }

  /** The path begins with the first segment of the other, in any case of letters; all paths begin with that of "". */
  ghost predicate Below(spath: string, path: string) {
    spath == ""
    || exists seg: string, tail: string ::
         && spath == seg + tail && seg != "" && '/' !in seg[1..] && (tail == "" || tail[0] == '/')
         && |path| >= |seg| && EqualNoCase(path[..|seg|], seg)
  }

  lemma {:induction false} SegmentEnds(seg: string, tail: string, i: nat)
    requires seg != "" && '/' !in seg[1..] && (tail == "" || tail[0] == '/') && 1 <= i <= |seg|
    ensures SlashFrom(seg + tail, i) == |seg|
    decreases |seg| - i
  {
    var s := seg + tail;
    if i < |seg| {
      assert s[i] == seg[1..][i - 1];
      SegmentEnds(seg, tail, i + 1);
    } else if tail != "" {
      assert s[i] == tail[0];
    }
  }

  lemma {:induction false} NoSlashBefore(s: string, i: nat)
    requires i <= |s|
    ensures i <= SlashFrom(s, i) && '/' !in s[i..SlashFrom(s, i)]
    ensures SlashFrom(s, i) < |s| ==> s[SlashFrom(s, i)] == '/'
    decreases |s| - i
  {
    if i < |s| && s[i] != '/' {
      NoSlashBefore(s, i + 1);
      assert s[i..SlashFrom(s, i)] == [s[i]] + s[i + 1..SlashFrom(s, i)];
    }
  }

  lemma OverlaysMeans(spath: string, path: string)
    ensures Overlays(spath, path) <==> Below(spath, path)
  {
    if spath != "" {
      NoSlashBefore(spath, 1);
      var n := SlashFrom(spath, 1);
      assert spath == spath[..n] + spath[n..] && spath[..n][1..] == spath[1..n];
      forall seg: string, tail: string | spath == seg + tail && seg != "" && '/' !in seg[1..]
          && (tail == "" || tail[0] == '/') ensures seg == spath[..n] {
        SegmentEnds(seg, tail, 1);
      }
    }
  }

  function Judge(was: Cookie, co: Cookie, secure: bool): Verdict {
    var live := if !co.livecookie && was.livecookie then Refuse else Replace;
    if !EqualNoCase(was.name, co.name) || !SameDomain(was, co) then Skip
    else if was.spath.Some? && co.spath.Some? then
      if was.secure && !co.secure && !secure then
        if Overlays(was.spath.value, co.spath.value) then Refuse else live
      else if EqualNoCase(was.spath.value, co.spath.value) then live else Skip
    else if was.spath.None? && co.spath.None? then live
    else Skip
  }

  datatype Placement = Refused | Replaced(at: nat) | Appended

  /** The first cookie, from position i on, that is not skipped. */
  ghost predicate FirstMet(bucket: seq<Cookie>, co: Cookie, secure: bool, i: int, k: int) {
    && 0 <= i <= k < |bucket| && Judge(bucket[k], co, secure) != Skip
    && forall m :: i <= m < k ==> Judge(bucket[m], co, secure) == Skip
  }

  /** The outcome of the walk over the bucket, from position i on. */
  function Place(bucket: seq<Cookie>, co: Cookie, secure: bool, i: nat): (p: Placement)
    requires i <= |bucket|
    ensures p.Appended? ==> forall k :: i <= k < |bucket| ==> Judge(bucket[k], co, secure) == Skip
    ensures p.Replaced? ==> FirstMet(bucket, co, secure, i, p.at) && Judge(bucket[p.at], co, secure) == Replace
    ensures p.Refused? ==> exists k :: FirstMet(bucket, co, secure, i, k) && Judge(bucket[k], co, secure) == Refuse
    decreases |bucket| - i
  {
    if i == |bucket| then Appended
    else match Judge(bucket[i], co, secure)
      case Skip => Place(bucket, co, secure, i + 1)
      case Refuse => assert FirstMet(bucket, co, secure, i, i); Refused
      case Replace => Replaced(i)
  }

  /** The prefix rules hold, and it is no session cookie read from a file that should lose them. */
  predicate Admissible(running: bool, newsession: bool, co: Cookie, prefixes: set<Prefix>) {
    && (SecurePrefix in prefixes ==> co.secure)
    && (HostPrefix in prefixes ==> co.secure && co.path == Some("/") && !co.tailmatch)
    && !(!running && newsession && co.expires == 0)
  }

  function ExpireAll(j: Jar, now: int): Jar {
    Keep(j, NotExpired(now))
  }

  function Keep(j: Jar, p: Cookie -> bool): Jar {
    var buckets := FilterEach(j.buckets, p);
    j.(buckets := buckets, numcookies := j.numcookies - (|Flat(j.buckets)| - |Flat(buckets)|))
  }

  /** The cookie as it would be stored, after the counter has moved. */
  function Stamp(j: Jar, parsed: Cookie): Cookie {
    parsed.(livecookie := j.running, creationtime := j.lastct + 1)
  }

  /** The jar on which the walk is made: counter moved, expired cookies gone unless told otherwise. */
  function Prepared(j: Jar, op: Op): Jar
    requires op.Add?
  {
    var j' := j.(lastct := j.lastct + 1);
    if op.noexpire then j' else ExpireAll(j', op.now)
  }

  function PlacementOf(j: Jar, op: Op): Placement
    requires op.Add? && |j.buckets| == COOKIE_HASH_SIZE
  {
    if !Admissible(j.running, j.newsession, op.parsed, op.prefixes) || !op.acceptable then Refused
    else
      var co := Stamp(j, op.parsed);
      Place(Prepared(j, op).buckets[CookieHash(co.domain)], co, op.secure, 0)
  }

  function Store(j: Jar, co: Cookie, at: Placement): Jar
    requires |j.buckets| == COOKIE_HASH_SIZE
    requires at.Replaced? ==> at.at < |j.buckets[CookieHash(co.domain)]|
  {
    var h := CookieHash(co.domain);
    var bucket := j.buckets[h];
    match at
    case Refused => j
    case Replaced(k) =>
      j.(buckets := j.buckets[h := bucket[k := co.(creationtime := bucket[k].creationtime)]])
    case Appended =>
      j.(buckets := j.buckets[h := bucket + [co]], numcookies := j.numcookies + 1)
  }

  lemma RefusedStoresNothing(j: Jar, co: Cookie)
    requires |j.buckets| == COOKIE_HASH_SIZE
    ensures Store(j, co, Refused) == j
  {
  }

  function Apply(j: Jar, op: Op): (j': Jar)
    requires |j.buckets| == COOKIE_HASH_SIZE
    ensures |j'.buckets| == COOKIE_HASH_SIZE
  {
    match op
    case Add(parsed, prefixes, _, _, _, _) =>
      if !Admissible(j.running, j.newsession, parsed, prefixes) then j
      else Store(Prepared(j, op), Stamp(j, parsed), PlacementOf(j, op))
    case Expire(now) => ExpireAll(j, now)
    case ClearSession => Keep(j, NotSession())
    case ClearAll => j.(buckets := seq(COOKIE_HASH_SIZE, _ => []), numcookies := 0)
    case StartLoad(discardSession) => j.(running := false, newsession := discardSession)
    case FinishLoad(fileRead, now) => (if fileRead then ExpireAll(j, now) else j).(running := true)
  }

  function Run(j: Jar, ops: seq<Op>): (j': Jar)
    requires |j.buckets| == COOKIE_HASH_SIZE
    ensures |j'.buckets| == COOKIE_HASH_SIZE
    decreases |ops|
  {
    if ops == [] then j else Run(Apply(j, ops[0]), ops[1..])
  }

  // ---- Reading a file

  function LinesOf(file: Option<seq<Line>>): seq<Line> { if file.Some? then file.value else [] }

  /** Each line is added as trusted, nothing expires meanwhile. */
  function AddsOf(lines: seq<Line>): (ops: seq<Op>)
    ensures |ops| == |lines|
  {
    seq(|lines|, i requires 0 <= i < |lines| => Add(lines[i].parsed, lines[i].prefixes, true, true, true, 0))
  }

  /** The jar is not running while its lines are added, and they are expired once at the end, if there was a file. */
  function LoadOf(file: Option<seq<Line>>, discardSession: bool, now: int): seq<Op> {
    [StartLoad(discardSession)] + AddsOf(LinesOf(file)) + [FinishLoad(file.Some?, now)]
  }

  // ---- What every run keeps

  ghost predicate Consistent(j: Jar) {
    && |j.buckets| == COOKIE_HASH_SIZE
    && j.numcookies == |Flat(j.buckets)|
    && (forall b, c :: 0 <= b < |j.buckets| && c in j.buckets[b] ==>
        CookieHash(c.domain) == b && c.creationtime <= j.lastct)
    && Pairwise(Flat(j.buckets), DifferentTimes())
  }

  ghost predicate NoDuplicates(j: Jar) {
    Pairwise(Flat(j.buckets), DifferentKeys())
  }

  lemma KeepInvariants(j: Jar, p: Cookie -> bool)
    requires |j.buckets| == COOKIE_HASH_SIZE
    ensures Flat(Keep(j, p).buckets) == Filter(Flat(j.buckets), p)
    ensures Consistent(j) ==> Consistent(Keep(j, p))
    ensures NoDuplicates(j) ==> NoDuplicates(Keep(j, p))
  {
    hide CookieHash, Flat, SameKey;
    FilterFlat(j.buckets, p);
    if Consistent(j) { FilterPairwise(Flat(j.buckets), p, DifferentTimes()); }
    if NoDuplicates(j) { FilterPairwise(Flat(j.buckets), p, DifferentKeys()); }
  }

  /** What each removal leaves: cookies without expiry or not yet past it, cookies with an expiry, nothing. */
  lemma RemovalsMean(j: Jar, now: int)
    requires |j.buckets| == COOKIE_HASH_SIZE
    ensures forall c :: c in Flat(Apply(j, Expire(now)).buckets)
                   <==> c in Flat(j.buckets) && (c.expires == 0 || c.expires >= now)
    ensures forall c :: c in Flat(Apply(j, ClearSession).buckets) <==> c in Flat(j.buckets) && c.expires != 0
    ensures Flat(Apply(j, ClearAll).buckets) == []
  {
    hide Flat, Filter, Keep;
    KeepInvariants(j, NotExpired(now));
    KeepInvariants(j, NotSession());
    FlatEmpty(COOKIE_HASH_SIZE);
  }

  lemma FlatMember(j: Jar, c: Cookie)
    requires Consistent(j) && c in Flat(j.buckets)
    ensures c in j.buckets[CookieHash(c.domain)] && c.creationtime <= j.lastct
  {
    InFlat(j.buckets, c);
  }

  /** Storing a cookie adds it to the whole, in the place of the one it replaces if there is one. */
  lemma StoreConserves(j: Jar, co: Cookie, at: Placement)
    requires Consistent(j) && !at.Refused?
    requires at.Replaced? ==> at.at < |j.buckets[CookieHash(co.domain)]|
    ensures var bucket := j.buckets[CookieHash(co.domain)];
            var flat, flat' := Flat(j.buckets), Flat(Store(j, co, at).buckets);
            if at.Replaced? then
              multiset(flat') == multiset(flat) - multiset{bucket[at.at]}
                                 + multiset{co.(creationtime := bucket[at.at].creationtime)}
            else
              multiset(flat') == multiset(flat) + multiset{co}
  {
    hide CookieHash, Flat, SameKey, Insert;
    var h := CookieHash(co.domain);
    var bucket := j.buckets[h];
    if at.Replaced? {
      var x := co.(creationtime := bucket[at.at].creationtime);
      FlatSet(j.buckets, h, at.at, x);
      MultisetUpdate(Flat(j.buckets), |Flat(j.buckets[..h])| + at.at, x);
    } else {
      FlatAppend(j.buckets, h, co);
      MultisetInsert(Flat(j.buckets), |Flat(j.buckets[..h])| + |bucket|, co);
    }
  }

  lemma StoreConsistent(j: Jar, co: Cookie, at: Placement)
    requires Consistent(j)
    requires at.Replaced? ==> at.at < |j.buckets[CookieHash(co.domain)]|
    requires co.creationtime <= j.lastct
    requires at.Appended? ==> forall c :: c in Flat(j.buckets) ==> c.creationtime < co.creationtime
    ensures Consistent(Store(j, co, at))
  {
    hide CookieHash, Flat, SameKey;
    var h := CookieHash(co.domain);
    var bucket := j.buckets[h];
    var f := Flat(j.buckets);
    match at
    case Refused =>
    case Replaced(k) =>
      var x := co.(creationtime := bucket[k].creationtime);
      var n := |Flat(j.buckets[..h])| + k;
      FlatSet(j.buckets, h, k, x);
      forall i | 0 <= i < |f| && i != n ensures DifferentTimes()(f[i], x) && DifferentTimes()(x, f[i]) {
        assert if i < n then DifferentTimes()(f[i], f[n]) else DifferentTimes()(f[n], f[i]);
      }
      PairwiseUpdate(f, n, x, DifferentTimes());
    case Appended =>
      FlatAppend(j.buckets, h, co);
      PairwiseInsert(f, |Flat(j.buckets[..h])| + |bucket|, co, DifferentTimes());
  }

  lemma LaterConsistent(j: Jar)
    requires Consistent(j)
    ensures |j.buckets| == COOKIE_HASH_SIZE && Consistent(j.(lastct := j.lastct + 1))
  {
    hide CookieHash, Flat;
  }

  lemma PreparedConsistent(j: Jar, op: Op)
    requires op.Add? && Consistent(j)
    ensures Consistent(Prepared(j, op))
    ensures NoDuplicates(j) ==> NoDuplicates(Prepared(j, op))
    ensures forall c :: c in Flat(Prepared(j, op).buckets) ==> c.creationtime <= j.lastct
  {
    var j' := j.(lastct := j.lastct + 1);
    KeepInvariants(j', NotExpired(op.now));
    forall c | c in Flat(Prepared(j, op).buckets) ensures c.creationtime <= j.lastct {
      assert c in Flat(j.buckets);
      FlatMember(j, c);
    }
  }

  lemma FlatEmpty(n: nat)
    ensures Flat<Cookie>(seq(n, _ => [])) == []
  {
    if n > 0 {
      assert seq(n, _ => [])[..n - 1] == seq<seq<Cookie>>(n - 1, _ => []);
      FlatEmpty(n - 1);
    }
  }

  lemma ApplyConsistent(j: Jar, op: Op)
    requires Consistent(j)
    ensures Consistent(Apply(j, op))
  {
    hide CookieHash, Flat, SameKey;
    match op
    case Add(parsed, prefixes, _, _, _, _) =>
      if Admissible(j.running, j.newsession, parsed, prefixes) {
        PreparedConsistent(j, op);
        StoreConsistent(Prepared(j, op), Stamp(j, parsed), PlacementOf(j, op));
      }
    case Expire(now) => KeepInvariants(j, NotExpired(now));
    case ClearSession => KeepInvariants(j, NotSession());
    case ClearAll => FlatEmpty(COOKIE_HASH_SIZE);
    case StartLoad(_) =>
    case FinishLoad(_, now) => KeepInvariants(j, NotExpired(now));
  }

  /** The jar invariant holds after every run. */
  lemma {:induction false} RunConsistent(j: Jar, ops: seq<Op>)
    requires Consistent(j)
    ensures Consistent(Run(j, ops))
    decreases |ops|
  {
    if ops != [] {
      ApplyConsistent(j, ops[0]);
      RunConsistent(Apply(j, ops[0]), ops[1..]);
    }
  }

  lemma EmptyJarConsistent()
    ensures Consistent(EmptyJar()) && NoDuplicates(EmptyJar()) && |EmptyJar().buckets| == 256
  {
    FlatEmpty(COOKIE_HASH_SIZE);
  }

  // ---- When no cookie is kept twice

  lemma SkipMeansOther(was: Cookie, co: Cookie, secure: bool)
    requires Judge(was, co, secure) == Skip
    ensures !SameKey(was, co) && !SameKey(co, was)
  {
  }

  /** An insecure newcomer meets a secure cookie of its name and domain with another path, and its own is not below
      that. */
  ghost predicate Tramples(was: Cookie, co: Cookie, secure: bool) {
    && EqualNoCase(was.name, co.name) && SameDomain(was, co)
    && was.secure && !co.secure && !secure
    && was.spath.Some? && co.spath.Some?
    && !EqualNoCase(was.spath.value, co.spath.value) && !Below(was.spath.value, co.spath.value)
    && (was.livecookie ==> co.livecookie)
  }

  lemma TramplesMeansReplaced(was: Cookie, co: Cookie, secure: bool)
    ensures Tramples(was, co, secure) <==> Judge(was, co, secure) == Replace && !SameKey(was, co)
  {
    hide Overlays, Below;
    if was.spath.Some? && co.spath.Some? { OverlaysMeans(was.spath.value, co.spath.value); }
  }

  /** The first cookie not skipped is one the newcomer tramples on, while one with the newcomer's key is in the
      bucket. */
  ghost predicate MakesDuplicate(bucket: seq<Cookie>, co: Cookie, secure: bool) {
    && (exists k :: FirstMet(bucket, co, secure, 0, k) && Tramples(bucket[k], co, secure))
    && exists c :: c in bucket && SameKey(c, co)
  }

  /** The cookie with key of `co` elsewhere than at the place it is put, if any. */
  ghost predicate KeyElsewhere(bucket: seq<Cookie>, co: Cookie, at: nat) {
    exists i :: 0 <= i < |bucket| && i != at && SameKey(bucket[i], co)
  }

  lemma KeyIsOnce(bucket: seq<Cookie>, co: Cookie, i: nat, k: nat)
    requires Pairwise(bucket, DifferentKeys()) && i < |bucket| && k < |bucket| && i != k && SameKey(bucket[i], co)
    ensures !SameKey(bucket[k], co)
  {
    hide SameKey;
    assert if i < k then DifferentKeys()(bucket[i], bucket[k]) else DifferentKeys()(bucket[k], bucket[i]);
    SameKeySymmetric(bucket[k], co);
    SameKeySymmetric(bucket[i], bucket[k]);
    if SameKey(bucket[k], co) { SameKeyTransitive(bucket[i], co, bucket[k]); }
  }

  /** What is replaced has another key exactly when the newcomer tramples on it. */
  lemma KeyElsewhereExactly(j: Jar, co: Cookie, secure: bool, k: nat)
    requires Consistent(j) && NoDuplicates(j)
    requires FirstMet(j.buckets[CookieHash(co.domain)], co, secure, 0, k)
    requires Judge(j.buckets[CookieHash(co.domain)][k], co, secure) == Replace
    ensures KeyElsewhere(j.buckets[CookieHash(co.domain)], co, k)
       <==> MakesDuplicate(j.buckets[CookieHash(co.domain)], co, secure)
  {
    hide CookieHash, Flat, SameKey, Judge, Tramples;
    var bucket := j.buckets[CookieHash(co.domain)];
    TramplesMeansReplaced(bucket[k], co, secure);
    PairwisePart(j.buckets, CookieHash(co.domain), DifferentKeys());
    if i :| 0 <= i < |bucket| && i != k && SameKey(bucket[i], co) {
      KeyIsOnce(bucket, co, i, k);
      assert bucket[i] in bucket;
    }
  }

  lemma AppendedHasNone(j: Jar, co: Cookie, secure: bool)
    requires Consistent(j) && NoDuplicates(j)
    requires forall c :: c in j.buckets[CookieHash(co.domain)] ==> Judge(c, co, secure) == Skip
    ensures NoDuplicates(Store(j, co, Appended))
  {
    hide CookieHash, Flat, SameKey, Judge;
    var h := CookieHash(co.domain);
    var f, bucket := Flat(j.buckets), j.buckets[h];
    forall c | c in f ensures DifferentKeys()(c, co) && DifferentKeys()(co, c) {
      OtherBucketOtherKey(j, c, co);
      if c in bucket { SkipMeansOther(c, co, secure); }
    }
    FlatAppend(j.buckets, h, co);
    PairwiseInsert(f, |Flat(j.buckets[..h])| + |bucket|, co, DifferentKeys());
  }

  /** After a store there are duplicates exactly when the newcomer tramples on a cookie while one with its own key
      is in the bucket. */
  lemma StoreDuplicates(j: Jar, co: Cookie, secure: bool)
    requires Consistent(j) && NoDuplicates(j)
    ensures var bucket := j.buckets[CookieHash(co.domain)];
            NoDuplicates(Store(j, co, Place(bucket, co, secure, 0))) <==> !MakesDuplicate(bucket, co, secure)
  {
    hide CookieHash, Flat, SameKey, Judge, Tramples;
    var h := CookieHash(co.domain);
    var bucket := j.buckets[h];
    var at := Place(bucket, co, secure, 0);
    match at
    case Refused =>
      forall k | FirstMet(bucket, co, secure, 0, k) ensures !Tramples(bucket[k], co, secure) {
        TramplesMeansReplaced(bucket[k], co, secure);
      }
    case Appended =>
      AppendedHasNone(j, co, secure);
    case Replaced(k) =>
      ReplacedDuplicates(j, co, k);
      KeyElsewhereExactly(j, co, secure, k);
  }

  lemma OtherBucketOtherKey(j: Jar, c: Cookie, co: Cookie)
    requires Consistent(j) && c in Flat(j.buckets)
    ensures SameKey(c, co) || SameKey(co, c) ==> c in j.buckets[CookieHash(co.domain)]
  {
    FlatMember(j, c);
    if SameKey(c, co) { SameKeySameBucket(c, co); }
    if SameKey(co, c) { SameKeySameBucket(co, c); }
  }

  lemma ReplacedDuplicates(j: Jar, co: Cookie, k: nat)
    requires Consistent(j) && NoDuplicates(j) && k < |j.buckets[CookieHash(co.domain)]|
    ensures NoDuplicates(Store(j, co, Replaced(k))) <==> !KeyElsewhere(j.buckets[CookieHash(co.domain)], co, k)
  {
    hide CookieHash, Flat, SameKey;
    var h := CookieHash(co.domain);
    var bucket := j.buckets[h];
    var x := co.(creationtime := bucket[k].creationtime);
    var f, n := Flat(j.buckets), |Flat(j.buckets[..h])| + k;
    FlatSet(j.buckets, h, k, x);
    SameKeyIgnoresTime(co, bucket[k].creationtime);
    if KeyElsewhere(bucket, co, k) {
      var i :| 0 <= i < |bucket| && i != k && SameKey(bucket[i], co);
      var m := |Flat(j.buckets[..h])| + i;
      FlatSet(j.buckets, h, i, x);
      SameKeySymmetric(f[m], x);
      var f' := Flat(Store(j, co, Replaced(k)).buckets);
      assert m < n ==> !DifferentKeys()(f'[m], f'[n]);
      assert n < m ==> !DifferentKeys()(f'[n], f'[m]);
    } else {
      forall i | 0 <= i < |f| && i != n ensures DifferentKeys()(f[i], x) && DifferentKeys()(x, f[i]) {
        KeyNotAt(j, co, k, i);
        SameKeySymmetric(f[i], x);
      }
      PairwiseUpdate(f, n, x, DifferentKeys());
    }
  }

  lemma SameKeyIgnoresTime(co: Cookie, time: int)
    ensures forall c :: SameKey(c, co.(creationtime := time)) == SameKey(c, co)
  {
  }

  lemma KeyNotAt(j: Jar, co: Cookie, k: nat, i: nat)
    requires Consistent(j) && k < |j.buckets[CookieHash(co.domain)]|
    requires !KeyElsewhere(j.buckets[CookieHash(co.domain)], co, k)
    requires i < |Flat(j.buckets)| && i != |Flat(j.buckets[..CookieHash(co.domain)])| + k
    ensures !SameKey(Flat(j.buckets)[i], co)
  {
    hide CookieHash, Flat, SameKey;
    var h := CookieHash(co.domain);
    var bucket, f, base := j.buckets[h], Flat(j.buckets), |Flat(j.buckets[..h])|;
    FlatSplit(j.buckets, h);
    if base <= i < base + |bucket| {
      assert f[i] == bucket[i - base];
    } else if SameKey(f[i], co) {
      SameKeySameBucket(f[i], co);
      NotInOtherBuckets(j, h, i);
    }
  }

  lemma NotInOtherBuckets(j: Jar, h: nat, i: nat)
    requires Consistent(j) && h < COOKIE_HASH_SIZE && i < |Flat(j.buckets)|
    requires !(|Flat(j.buckets[..h])| <= i < |Flat(j.buckets[..h])| + |j.buckets[h]|)
    ensures CookieHash(Flat(j.buckets)[i].domain) != h
  {
    FlatSplit(j.buckets, h);
    var c := Flat(j.buckets)[i];
    if i < |Flat(j.buckets[..h])| {
      InFlat(j.buckets[..h], c);
      var b :| 0 <= b < h && c in j.buckets[..h][b];
      assert c in j.buckets[b];
    } else {
      InFlat(j.buckets[h + 1..], c);
      var b :| 0 <= b < |j.buckets| - h - 1 && c in j.buckets[h + 1..][b];
      assert c in j.buckets[h + 1 + b];
    }
  }

  predicate SecureOnly(ops: seq<Op>) {
    forall op :: op in ops && op.Add? ==> op.secure
  }

  lemma ApplyNoDuplicates(j: Jar, op: Op)
    requires Consistent(j) && NoDuplicates(j)
    requires op.Add? ==> op.secure
    ensures NoDuplicates(Apply(j, op))
  {
    match op
    case Add(parsed, prefixes, _, _, _, _) =>
      if Admissible(j.running, j.newsession, parsed, prefixes) {
        PreparedConsistent(j, op);
        var j', co := Prepared(j, op), Stamp(j, parsed);
        StoreDuplicates(j', co, op.secure);
      }
    case Expire(now) => KeepInvariants(j, NotExpired(now));
    case ClearSession => KeepInvariants(j, NotSession());
    case ClearAll => FlatEmpty(COOKIE_HASH_SIZE);
    case StartLoad(_) =>
    case FinishLoad(_, now) => KeepInvariants(j, NotExpired(now));
  }

  /** When every cookie arrives over a secure channel, no two cookies of the jar stand for each other. */
  lemma {:induction false} SecureRunHasNoDuplicates(j: Jar, ops: seq<Op>)
    requires Consistent(j) && NoDuplicates(j) && SecureOnly(ops)
    ensures NoDuplicates(Run(j, ops))
    decreases |ops|
  {
    if ops != [] {
      assert ops[0] in ops;
      ApplyConsistent(j, ops[0]);
      ApplyNoDuplicates(j, ops[0]);
      SecureRunHasNoDuplicates(Apply(j, ops[0]), ops[1..]);
    }
  }

  // ---- A run that leaves a duplicate

  lemma NoSlash(s: string, i: nat)
    requires i <= |s| && forall k :: i <= k < |s| ==> s[k] != '/'
    ensures SlashFrom(s, i) == |s|
    decreases |s| - i
  {
    if i < |s| { NoSlash(s, i + 1); }
  }

  /** The jar just started, with these cookies in one bucket. */
  function OneBucket(h: nat, bucket: seq<Cookie>): Jar
    requires h < COOKIE_HASH_SIZE
  {
    Jar(EmptyJar().buckets[h := bucket], true, false, |bucket|, |bucket|)
  }

  lemma AddToBucket(h: nat, bucket: seq<Cookie>, parsed: Cookie, secure: bool)
    requires h == CookieHash(parsed.domain)
    requires forall c :: c in bucket ==> Judge(c, parsed.(livecookie := true), secure) == Skip
    ensures Apply(OneBucket(h, bucket), Add(parsed, {}, true, secure, true, 0))
         == OneBucket(h, bucket + [parsed.(livecookie := true, creationtime := |bucket| + 1)])
  {
    hide CookieHash, Judge;
    var j, op := OneBucket(h, bucket), Add(parsed, {}, true, secure, true, 0);
    var co := Stamp(j, parsed);
    JudgeIgnoresTime(parsed.(livecookie := true), secure);
    var at := Place(bucket, co, secure, 0);
    forall k | 0 <= k < |bucket| ensures Judge(bucket[k], co, secure) == Skip {
      assert bucket[k] in bucket;
    }
    assert at == Appended;
    assert j.buckets[h] == bucket;
    assert j.buckets[h := bucket + [co]] == EmptyJar().buckets[h := bucket + [co]];
  }

  lemma JudgeIgnoresTime(co: Cookie, secure: bool)
    ensures forall c, time: int :: Judge(c, co.(creationtime := time), secure) == Judge(c, co, secure)
  {
  }

  function LoginCookie(path: string, secure: bool): Cookie {
    Cookie("a", Some("v"), Some(path), Some(path), Some("x"), 0, false, secure, false, false, 0)
  }

  lemma {:induction false} RunLast(j: Jar, ops: seq<Op>, op: Op)
    requires |j.buckets| == COOKIE_HASH_SIZE
    ensures Run(j, ops + [op]) == Apply(Run(j, ops), op)
    decreases |ops|
  {
    hide Apply;
    if ops == [] {
      assert ops + [op] == [op] && [op][1..] == [];
    } else {
      assert (ops + [op])[1..] == ops[1..] + [op];
      RunLast(Apply(j, ops[0]), ops[1..], op);
    }
  }

  /** A secure cookie and one of another path arrive over a secure channel. */
  function SecureAdds(): seq<Op> {
    [FinishLoad(false, 0)] + [Add(LoginCookie("/login", true), {}, true, true, true, 0)]
    + [Add(LoginCookie("/x", false), {}, true, true, true, 0)]
  }

  lemma SecureAddsGive(c1: Cookie, c2: Cookie)
    requires c1 == LoginCookie("/login", true).(livecookie := true, creationtime := 1)
    requires c2 == LoginCookie("/x", false).(livecookie := true, creationtime := 2)
    ensures Run(EmptyJar(), SecureAdds()) == OneBucket(CookieHash(Some("x")), [c1, c2])
  {
    hide CookieHash, Judge;
    var h := CookieHash(Some("x"));
    var load, login, x := FinishLoad(false, 0), Add(LoginCookie("/login", true), {}, true, true, true, 0),
      Add(LoginCookie("/x", false), {}, true, true, true, 0);
    RunLast(EmptyJar(), [], load);
    RunLast(EmptyJar(), [load], login);
    RunLast(EmptyJar(), [load] + [login], x);
    assert [] + [load] == [load] && EmptyJar().buckets[h := []] == EmptyJar().buckets;
    AddToBucket(h, [], login.parsed, true);
    SkipsOtherPath(c1, c2.(creationtime := 0));
    AddToBucket(h, [c1], x.parsed, true);
    assert [] + [c1] == [c1] && [c1] + [c2] == [c1, c2];
  }

  lemma SkipsOtherPath(was: Cookie, co: Cookie)
    requires was.spath == Some("/login") && co.spath == Some("/x")
    ensures Judge(was, co, true) == Skip
  {
    assert |Upper("/login")| != |Upper("/x")|;
  }

  /** The second cookie once more, over an insecure channel, overwrites the first and stands there twice. */
  lemma InsecureAddMayDuplicate()
    ensures var again := Add(LoginCookie("/x", false), {}, true, false, true, 0);
            && NoDuplicates(Run(EmptyJar(), SecureAdds()))
            && !NoDuplicates(Run(EmptyJar(), SecureAdds() + [again]))
  {
    hide CookieHash, Flat, Judge, Run, Store, Place;
    var c1 := LoginCookie("/login", true).(livecookie := true, creationtime := 1);
    var c2 := LoginCookie("/x", false).(livecookie := true, creationtime := 2);
    var again := Add(LoginCookie("/x", false), {}, true, false, true, 0);
    var j := Run(EmptyJar(), SecureAdds());
    EmptyJarConsistent();
    RunConsistent(EmptyJar(), SecureAdds());
    SecureRunHasNoDuplicates(EmptyJar(), SecureAdds());
    RunLast(EmptyJar(), SecureAdds(), again);
    SecureAddsGive(c1, c2);
    var co := Stamp(j, again.parsed);
    PreparedConsistent(j, again);
    StoreDuplicates(Prepared(j, again), co, false);
    TramplesOnLogin(c1, co);
    TramplesMeansReplaced(c1, co, false);
    assert FirstMet([c1, c2], co, false, 0, 0);
    assert SameKey(c2, co) && c2 in [c1, c2];
  }

  lemma TramplesOnLogin(was: Cookie, co: Cookie)
    requires was.name == co.name && SameDomain(was, co) && was.secure && !co.secure && co.livecookie
    requires was.spath == Some("/login") && co.spath == Some("/x")
    ensures Tramples(was, co, false)
  {
    assert |Upper("/login")| != |Upper("/x")|;
    NoSlash("/login", 1);
    OverlaysMeans("/login", "/x");
  }
}
