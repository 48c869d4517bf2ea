/** The cache of alternative services: reading a header, looking up an origin. */
module AltSvc {
  import opened Ascii
  import opened ByteString
  import opened Decimal
  import opened Lists
  import opened Text
  import opened Wrappers

  datatype Alpn = None_ | H1 | H2 | H3

  datatype Host = Host(alpn: Alpn, name: string, port: nat)

  datatype Entry = Entry(src: Host, dst: Host, expires: int, persist: bool)

  const MAX_ALPNLEN := 10
  const MAX_HOSTLEN := 512
  const OPTIONLEN := 32
  const DAY := 86400
  const ULONG_MAX := 0xFFFF_FFFF_FFFF_FFFF

  /** The character a pointer to the text points to. */
  function Head(p: string): char { if p == "" then NUL else p[0] }

  predicate IsNewline(c: char) { c == '\n' || c == '\r' }

  function AlpnOf(name: string): Alpn {
    if EqualNoCase(name, "h1") then H1 else if EqualNoCase(name, "h2") then H2
    else if EqualNoCase(name, "h3") then H3 else None_
  }

  /** The longest prefix of characters that qualify. */
  function Span(p: string, ok: char -> bool): (w: string)
    ensures w <= p && (forall c :: c in w ==> ok(c)) && (|w| < |p| ==> !ok(p[|w|]))
  {
    if p == "" || !ok(p[0]) then "" else [p[0]] + Span(p[1..], ok)
  }

  lemma {:induction false} SpanIs(w: string, tail: string, ok: char -> bool)
    requires (forall c :: c in w ==> ok(c)) && (tail == "" || !ok(tail[0]))
    ensures Span(w + tail, ok) == w
  {
    if w == "" {
      assert w + tail == tail;
    } else {
      assert (w + tail)[1..] == w[1..] + tail;
      SpanIs(w[1..], tail, ok);
    }
  }

  function TokenChar(): char -> bool { c => !IsBlank(c) && c != ';' && c != '=' }

  function ValueChar(): char -> bool { c => !IsBlank(c) && c != ';' && c != ',' }

  function HostChar(): char -> bool { c => IsAlnum(c) || c == '.' || c == '-' }

  function NoQuote(): char -> bool { c => c != '"' }

  /** A token of less than buflen characters, and the rest; the rest is reported in any case. */
  function GetAlnum(p: string, buflen: nat): (r: (string, Option<string>))
    ensures |r.0| <= |p|
  {
    var q := SkipBlanks(p);
    var w := Span(q, TokenChar());
    (q[|w|..], if w == "" || |w| >= buflen then None else Some(w))
  }

  /** strtoul in base 10: the number, and how many characters were read. */
  function StrToUl(s: string): (r: (nat, nat))
    ensures r.1 <= |s|
  {
    SkipSpacesShortens(s);
    var t := SkipSpaces(s);
    var signed := t != "" && (t[0] == '-' || t[0] == '+');
    var d := LeadingDigits(if signed then t[1..] else t);
    if d == "" then (0, 0)
    else
      var v := Value(d);
      (if v > ULONG_MAX then ULONG_MAX else if signed && t[0] == '-' && v > 0 then ULONG_MAX + 1 - v else v,
       |s| - |t| + (if signed then 1 else 0) + |d|)
  }

  lemma {:induction false} SkipSpacesShortens(s: string)
    ensures |SkipSpaces(s)| <= |s|
  {
    if s != "" { SkipSpacesShortens(s[1..]); }
  }

  /** An unsigned 64-bit number stored in a signed one. */
  function AsTime(num: nat): int { if num > ULONG_MAX / 2 then num - ULONG_MAX - 1 else num }

  // ---- One alternative

  /** The host before the port, up to where it ends; the origin's own when none is given. */
  function ReadHost(p: string, srchost: string): (r: (string, string, bool))
    ensures |r.0| <= |p|
  {
    if Head(p) == ':' then (p, srchost, true)
    else
      var w := Span(p, HostChar());
      if w == "" || |w| >= MAX_HOSTLEN then (p[|w|..], "", false) else (p[|w|..], w, true)
  }

  /** The port, of which 16 bits are kept even when it is refused. */
  function ReadPort(q: string, dstport: nat): (r: (string, nat, bool))
    ensures |r.0| <= |q|
  {
    if Head(q) != ':' then (q, dstport, true)
    else
      var (port, used) := StrToUl(q[1..]);
      var end := q[1..][used..];
      (end, port % 65536, port <= 65535 && used != 0 && Head(end) == '"')
  }

  /** What follows the opening quote: host, port and closing quote. */
  datatype Target = Target(rest: string, host: string, alpn: Alpn, port: nat, broken: bool)

  function ReadTarget(p: string, alpn: Alpn, srchost: string, dstport: nat): (t: Target)
    ensures !t.broken ==> |t.rest| < |p|
  {
    var (q, host, goodHost) := ReadHost(p, srchost);
    var (end, port, goodPort) := ReadPort(q, dstport);
    var alpn' := if goodHost && goodPort then alpn else None_;
    if Head(end) != '"' then Target(end, host, alpn', port, true) else Target(end[1..], host, alpn', port, false)
  }

  /** One option: the end of them, or a name with the number its value begins with. */
  datatype Opt =
    | NoMore(rest: string, aborted: bool)
    | Opt(rest: string, quoted: bool, name: Option<string>, num: nat, used: nat)

  /** Once a value was quoted, those behind it are taken as quoted too. */
  function ReadValue(e: string, quoted: bool, name: Option<string>): (o: Opt)
    ensures |o.rest| <= |e|
  {
    var w := Span(e, if quoted then NoQuote() else ValueChar());
    if quoted && |w| == |e| then NoMore("", true)
    else
      var (num, used) := StrToUl(e);
      Opt(e[|w| + (if quoted then 1 else 0)..], quoted, name, num, used)
  }

  function ReadOption(p: string, quoted: bool): (o: Opt)
    ensures |o.rest| <= |p| && (o.Opt? ==> |o.rest| < |p|)
  {
    var a := SkipBlanks(p);
    if Head(a) != ';' then NoMore(a, false)
    else if Head(a[1..]) == NUL || IsNewline(Head(a[1..])) then NoMore(a[1..], false)
    else
      var (b, name) := GetAlnum(a[1..], OPTIONLEN);
      var c := SkipBlanks(b);
      if Head(c) != '=' then NoMore(c, true)
      else
        var d := SkipBlanks(c[1..]);
        if d == "" then NoMore(d, true)
        else if d[0] == '"' then ReadValue(d[1..], true, name)
        else ReadValue(d, quoted, name)
  }

  /** Where the options of an alternative end; aborted: the header is not read any further. */
  datatype Options = Options(rest: string, maxage: int, persist: bool, aborted: bool)

  predicate Counts(o: Opt) { o.Opt? && o.used != 0 && o.num < ULONG_MAX && o.name.Some? }

  predicate SetsAge(o: Opt) { Counts(o) && EqualNoCase("ma", o.name.value) }

  predicate SetsPersist(o: Opt) { Counts(o) && !SetsAge(o) && EqualNoCase("persist", o.name.value) && o.num == 1 }

  function ReadOptions(p: string, quoted: bool, maxage: int, persist: bool): (o: Options)
    ensures |o.rest| <= |p|
    decreases |p|
  {
    var o := ReadOption(p, quoted);
    if o.NoMore? then Options(o.rest, maxage, persist, o.aborted)
    else ReadOptions(o.rest, o.quoted, if SetsAge(o) then AsTime(o.num) else maxage, persist || SetsPersist(o))
  }

  function Here(t: Target, o: Options, src: Host, now: int): (es: seq<Entry>)
    ensures forall e :: e in es ==> e.src == src && e.dst.alpn != None_
  {
    if t.alpn == None_ then [] else [Entry(src, Host(t.alpn, t.host, t.port), o.maxage + now, o.persist)]
  }

  /** The entries of a header from the '=' behind a protocol name on. */
  function Alternatives(p: string, alpnbuf: string, dstport: nat, src: Host, now: int): (es: seq<Entry>)
    ensures forall e :: e in es ==> e.src == src && e.dst.alpn != None_
    decreases |p|, 0
  {
    if Head(p) != '=' || Head(p[1..]) != '"' then []
    else
      var t := ReadTarget(p[2..], AlpnOf(alpnbuf), src.name, dstport);
      if t.broken then []
      else
        var o := ReadOptions(t.rest, false, DAY, false);
        if o.aborted then [] else Here(t, o, src, now) + After(o.rest, alpnbuf, t.port, src, now)
  }

  /** Those behind one alternative; without a comma the protocol name stays what it was. */
  function After(p: string, alpnbuf: string, dstport: nat, src: Host, now: int): (es: seq<Entry>)
    ensures forall e :: e in es ==> e.src == src && e.dst.alpn != None_
    decreases |p|, 1
  {
    if Head(p) == ',' then
      var (rest, name) := GetAlnum(p[1..], MAX_ALPNLEN);
      if name.None? || Ends(rest) then [] else Alternatives(rest, name.value, dstport, src, now)
    else if Ends(p) then []
    else Alternatives(p, alpnbuf, dstport, src, now)
  }

  predicate Ends(p: string) { Head(p) in {NUL, ';', '\n', '\r'} }

  // ---- The cache

  predicate SameOrigin(a: Host, b: Host) {
    a.alpn == b.alpn && a.port == b.port && EqualNoCase(a.name, b.name)
  }

  function From(src: Host): Entry -> bool { (e: Entry) => SameOrigin(src, e.src) }

  function NotFrom(src: Host): Entry -> bool { (e: Entry) => !SameOrigin(src, e.src) }

  /** A header replaces all that is known of its origin, unless its first token cannot be read. */
  function Accepted(value: string): bool { GetAlnum(value, MAX_ALPNLEN).1.Some? }

  function Announced(value: string, src: Host, now: int): (es: seq<Entry>)
    ensures forall e :: e in es ==> e.src == src && e.dst.alpn != None_
  {
    var (rest, name) := GetAlnum(value, MAX_ALPNLEN);
    if name.None? || EqualNoCase(name.value, "clear") then [] else Alternatives(rest, name.value, src.port, src, now)
  }

  function Parse(list: seq<Entry>, value: string, src: Host, now: int): seq<Entry> {
    if Accepted(value) then Filter(list, NotFrom(src)) + Announced(value, src, now) else list
  }

  predicate Live(e: Entry, now: int) { e.expires >= now }

  predicate Wanted(e: Entry, src: Host, versions: set<Alpn>) {
    SameOrigin(e.src, src) && e.dst.alpn in versions
  }

  function LiveAt(now: int): Entry -> bool { (e: Entry) => Live(e, now) }

  function MatchAt(list: seq<Entry>, src: Host, versions: set<Alpn>, now: int): (k: nat)
    ensures k <= |list| && (k < |list| ==> Live(list[k], now) && Wanted(list[k], src, versions))
    ensures forall j :: 0 <= j < k ==> !(Live(list[j], now) && Wanted(list[j], src, versions))
  {
    if list == [] || (Live(list[0], now) && Wanted(list[0], src, versions)) then 0
    else 1 + MatchAt(list[1..], src, versions, now)
  }

  /** Drops expired entries before the first live match. */
  function Lookup(list: seq<Entry>, src: Host, versions: set<Alpn>, now: int): (seq<Entry>, Option<Entry>) {
    var k := MatchAt(list, src, versions, now);
    (Filter(list[..k], LiveAt(now)) + list[k..], if k < |list| then Some(list[k]) else None)
  }

  // ---- Lookups

  /** Not expired, of this origin, and in one of these versions. */
  predicate Offers(e: Entry, src: Host, versions: set<Alpn>, now: int) {
    && e.expires >= now && e.dst.alpn in versions
    && e.src.alpn == src.alpn && e.src.port == src.port && EqualNoCase(e.src.name, src.name)
  }

  lemma OffersIsTest(e: Entry, src: Host, versions: set<Alpn>, now: int)
    ensures Offers(e, src, versions, now) <==> Live(e, now) && Wanted(e, src, versions)
  {
    hide EqualNoCase;
  }

  ghost predicate FirstOffer(list: seq<Entry>, src: Host, versions: set<Alpn>, now: int, k: nat) {
    k < |list| && Offers(list[k], src, versions, now) && forall j :: 0 <= j < k ==> !Offers(list[j], src, versions, now)
  }

  /** A lookup returns the earliest live entry of the origin with a wanted version, and drops the expired ones
      before it; it finds none exactly when there is none, and then all expired ones are dropped. */
  lemma LookupFinds(list: seq<Entry>, src: Host, versions: set<Alpn>, now: int) returns (k: nat)
    ensures var (list', found) := Lookup(list, src, versions, now);
            && k <= |list| && list' == Filter(list[..k], (e: Entry) => e.expires >= now) + list[k..]
            && (found.None? ==> k == |list|)
            && (found.Some? ==> FirstOffer(list, src, versions, now, k) && found.value == list[k])
            && (found.None? <==> forall e :: e in list ==> !Offers(e, src, versions, now))
  {
    hide Filter, Wanted, Live, Offers;
    k := MatchAt(list, src, versions, now);
    forall e: Entry ensures Offers(e, src, versions, now) <==> Live(e, now) && Wanted(e, src, versions) {
      OffersIsTest(e, src, versions, now);
    }
    SameFilter(list[..k], now);
  }

  lemma {:induction false} SameFilter(list: seq<Entry>, now: int)
    ensures Filter(list, LiveAt(now)) == Filter(list, (e: Entry) => e.expires >= now)
    decreases |list|
  {
    if list != [] { SameFilter(list[..|list| - 1], now); }
  }

  // ---- Runs of headers and lookups

  datatype Op =
    | Header(value: string, src: Host, now: int)
    | Ask(src: Host, versions: set<Alpn>, now: int)

  function Apply(list: seq<Entry>, op: Op): seq<Entry> {
    match op
    case Header(value, src, now) => Parse(list, value, src, now)
    case Ask(src, versions, now) => Lookup(list, src, versions, now).0
  }

  function Run(ops: seq<Op>): seq<Entry> {
    if ops == [] then [] else Apply(Run(ops[..|ops| - 1]), ops[|ops| - 1])
  }

  /** What the last header for the origin announced, of those whose first token could be read. */
  function LastAnnounced(ops: seq<Op>, src: Host): seq<Entry> {
    if ops == [] then []
    else
      var op := ops[|ops| - 1];
      if op.Header? && SameOrigin(op.src, src) && Accepted(op.value) then Announced(op.value, op.src, op.now)
      else LastAnnounced(ops[..|ops| - 1], src)
  }

  function LatestAsk(ops: seq<Op>): int {
    if ops == [] then 0
    else
      var t, op := LatestAsk(ops[..|ops| - 1]), ops[|ops| - 1];
      if op.Ask? && op.now > t then op.now else t
  }

  /** What is kept is all of it but for some that expired before time t, in the same order. */
  predicate Thinned(kept: seq<Entry>, all: seq<Entry>, t: int)
    decreases |all|
  {
    if all == [] then kept == []
    else
      var n := |all| - 1;
      || (kept != [] && kept[|kept| - 1] == all[n] && Thinned(kept[..|kept| - 1], all[..n], t))
      || (all[n].expires < t && Thinned(kept, all[..n], t))
  }

  lemma {:induction false} ThinnedLonger(kept: seq<Entry>, all: seq<Entry>, t: int, u: int)
    requires Thinned(kept, all, t) && t <= u
    ensures Thinned(kept, all, u)
    decreases |all|
  {
    if all != [] {
      var n := |all| - 1;
      if kept != [] && kept[|kept| - 1] == all[n] && Thinned(kept[..|kept| - 1], all[..n], t) {
        ThinnedLonger(kept[..|kept| - 1], all[..n], t, u);
      } else {
        ThinnedLonger(kept, all[..n], t, u);
      }
    }
  }

  lemma {:induction false} AllIsThinned(all: seq<Entry>, t: int)
    ensures Thinned(all, all, t)
    decreases |all|
  {
    if all != [] { AllIsThinned(all[..|all| - 1], t); }
  }

  /** Thinning further is thinning. */
  lemma {:induction false} ThinnedTwice(less: seq<Entry>, kept: seq<Entry>, all: seq<Entry>, t: int)
    requires Thinned(less, kept, t) && Thinned(kept, all, t)
    ensures Thinned(less, all, t)
    decreases |all|
  {
    if all != [] {
      var n := |all| - 1;
      if kept != [] && kept[|kept| - 1] == all[n] && Thinned(kept[..|kept| - 1], all[..n], t) {
        var kept' := kept[..|kept| - 1];
        if less != [] && less[|less| - 1] == kept[|kept| - 1] && Thinned(less[..|less| - 1], kept', t) {
          ThinnedTwice(less[..|less| - 1], kept', all[..n], t);
        } else {
          ThinnedTwice(less, kept', all[..n], t);
        }
      } else {
        ThinnedTwice(less, kept, all[..n], t);
      }
    }
  }

  /** A lookup thins every origin's entries by what has expired. */
  lemma {:induction false} LookupThins(list: seq<Entry>, src: Host, versions: set<Alpn>, now: int, origin: Host)
    ensures Thinned(Filter(Lookup(list, src, versions, now).0, From(origin)), Filter(list, From(origin)), now)
    decreases |list|
  {
    var k := LookupFinds(list, src, versions, now);
    var list' := Lookup(list, src, versions, now).0;
    var a, b := list[..k], list[k..];
    assert list == a + b;
    FilterConcat(a, b, From(origin));
    FilterConcat(Filter(a, LiveAt(now)), b, From(origin));
    FilterThins(a, now, origin);
    ThinnedAppend(Filter(Filter(a, LiveAt(now)), From(origin)), Filter(a, From(origin)), Filter(b, From(origin)), now);
  }

  lemma {:induction false} FilterThins(a: seq<Entry>, now: int, origin: Host)
    ensures Thinned(Filter(Filter(a, LiveAt(now)), From(origin)), Filter(a, From(origin)), now)
    decreases |a|
  {
    hide SameOrigin;
    if a != [] {
      var n := |a| - 1;
      FilterThins(a[..n], now, origin);
      assert LiveAt(now)(a[n]) <==> a[n].expires >= now;
      var live := Filter(a[..n], LiveAt(now));
      assert (live + [a[n]])[..|live|] == live;
      var kept, all := Filter(live, From(origin)), Filter(a[..n], From(origin));
      assert (all + [a[n]])[..|all|] == all && (kept + [a[n]])[..|kept|] == kept;
    }
  }

  lemma {:induction false} ThinnedAppend(kept: seq<Entry>, all: seq<Entry>, tail: seq<Entry>, t: int)
    requires Thinned(kept, all, t)
    ensures Thinned(kept + tail, all + tail, t)
    decreases |tail|
  {
    if tail == [] {
      assert kept + tail == kept && all + tail == all;
    } else {
      var tail' := tail[..|tail| - 1];
      ThinnedAppend(kept, all, tail', t);
      assert (kept + tail)[..|kept + tail| - 1] == kept + tail' && (all + tail)[..|all + tail| - 1] == all + tail';
    }
  }

  lemma OriginIsEquivalence(a: Host, b: Host, c: Host)
    ensures SameOrigin(a, a)
    ensures SameOrigin(a, b) ==> SameOrigin(b, a)
    ensures SameOrigin(a, b) && SameOrigin(b, c) ==> SameOrigin(a, c)
  {
  }

  /** A header leaves other origins alone; for its own, what it announces is all there is. */
  lemma ParseReplacesOrigin(list: seq<Entry>, value: string, src: Host, now: int, origin: Host)
    ensures var list' := Parse(list, value, src, now);
            Filter(list', From(origin)) ==
              if Accepted(value) && SameOrigin(src, origin) then Announced(value, src, now)
              else Filter(list, From(origin))
  {
    hide Filter, Announced, SameOrigin;
    OriginIsEquivalence(origin, src, src);
    OriginIsEquivalence(src, origin, origin);
    if Accepted(value) {
      var kept, fresh_ := Filter(list, NotFrom(src)), Announced(value, src, now);
      FilterConcat(kept, fresh_, From(origin));
      if SameOrigin(src, origin) {
        forall e | e in kept ensures !From(origin)(e) { OriginIsEquivalence(src, origin, e.src); }
        FilterNone(kept, From(origin));
        FilterAll(fresh_, From(origin));
      } else {
        forall e | e in list && From(origin)(e) ensures NotFrom(src)(e) {
          OriginIsEquivalence(src, e.src, origin);
          OriginIsEquivalence(origin, e.src, e.src);
        }
        FilterOfFilter(list, NotFrom(src), From(origin));
        FilterNone(fresh_, From(origin));
      }
    }
  }

  /** Over every run of headers and lookups: what is cached for an origin is what the last header for it
      announced, less entries that had expired when something was looked up. */
  lemma {:induction false} LatestHeaderWins(ops: seq<Op>, origin: Host)
    ensures Thinned(Filter(Run(ops), From(origin)), LastAnnounced(ops, origin), LatestAsk(ops))
    decreases |ops|
  {
    hide Filter, Announced, Parse, Lookup, Thinned, Accepted, SameOrigin;
    if ops == [] {
      FilterNone([], From(origin));
      AllIsThinned([], 0);
    } else {
      var before, op := ops[..|ops| - 1], ops[|ops| - 1];
      LatestHeaderWins(before, origin);
      var list := Run(before);
      match op
      case Header(value, src, now) =>
        ParseReplacesOrigin(list, value, src, now, origin);
        AllIsThinned(Announced(value, src, now), LatestAsk(ops));
      case Ask(src, versions, now) =>
        LookupThins(list, src, versions, now, origin);
        var kept, last := Filter(list, From(origin)), LastAnnounced(before, origin);
        ThinnedLonger(kept, last, LatestAsk(before), LatestAsk(ops));
        ThinnedLonger(Filter(Run(ops), From(origin)), kept, now, LatestAsk(ops));
        ThinnedTwice(Filter(Run(ops), From(origin)), kept, last, LatestAsk(ops));
    }
  }
}
