/** Headers in the form of section 3 of RFC 7838, and what is read from them. */
module AltSvcFormat {
  import opened AltSvc
  import opened AltSvcParams
  import opened Ascii
  import opened Decimal
  import opened Lists
  import opened Wrappers

  /** An alternative. An empty host stands for the origin's own, and so does a missing port, which the standard does not
      allow but the parser takes; blanks may stand before the name and at the end. */
  datatype Service = Service(gap: string, name: string, host: string, port: Option<nat>, params: seq<Param>,
      trail: string)

  predicate Proper(a: Service) {
    && Blanks(a.gap) && Blanks(a.trail) && IsToken(a.name)
    && (forall c :: c in a.host ==> IsAlnum(c) || c == '.' || c == '-')
    && forall p :: p in a.params ==> ProperParam(p)
  }

  function PortText(port: Option<nat>): string { if port.Some? then ":" + Digits(port.value) else "" }

  function Authority(a: Service): string { a.host + (PortText(a.port) + "\"") }

  /** Everything behind the protocol name. */
  function Body(a: Service): string { "=\"" + Authority(a) + ParamsText(a.params) + a.trail }

  function Rest(as_: seq<Service>): string {
    if as_ == [] then "" else "," + (as_[0].gap + as_[0].name + (Body(as_[0]) + Rest(as_[1..])))
  }

  /** The header of section 3 of RFC 7838. */
  function Header(as_: seq<Service>): string
    requires as_ != []
  {
    as_[0].gap + as_[0].name + (Body(as_[0]) + Rest(as_[1..]))
  }

  // ---- What is written

  /** A host or a port is given, and both are acceptable. */
  predicate Addressed(a: Service) {
    && |a.host| < 512 && (a.host != "" || a.port.Some?)
    && (a.port.Some? ==> a.port.value <= 65535)
  }

  /** An alternative that is taken in: its protocol is known and its address acceptable. */
  predicate Heard(a: Service) { AlpnOf(a.name) != None_ && Addressed(a) }

  function EntryWith(a: Service, port: nat, maxage: int, persist: bool, src: Host, now: int): (es: seq<Entry>)
    ensures |es| == if Heard(a) then 1 else 0
  {
    if !Heard(a) then []
    else [Entry(src, Host(AlpnOf(a.name), if a.host == "" then src.name else a.host, port), maxage + now, persist)]
  }

  /** What an alternative stands for with these parameters and at this port. */
  function EntryOf(a: Service, ps: seq<Param>, port: nat, src: Host, now: int): (es: seq<Entry>)
    ensures |es| == if Heard(a) then 1 else 0
  {
    var (maxage, persist) := Effect(ps, 24 * 60 * 60, false);
    EntryWith(a, port, maxage, persist, src, now)
  }

  /** The port meant: that of the origin when none is given. */
  function PortMeant(a: Service, src: Host): nat { if a.port.Some? then a.port.value else src.port }

  function EntriesOf(as_: seq<Service>, src: Host, now: int): seq<Entry> {
    if as_ == [] then []
    else EntryOf(as_[0], as_[0].params, PortMeant(as_[0], src), src, now) + EntriesOf(as_[1..], src, now)
  }

  // ---- Reading one piece off the front

  /** The port kept once this alternative is read: 16 bits of its own, also when it is refused, or the one kept
      before. */
  function PortAfter(a: Service, kept: nat): nat {
    if a.port.Some? then (if a.port.value > ULONG_MAX then ULONG_MAX else a.port.value) % 65536 else kept
  }

  lemma HostIsRead(host: string, tail: string, srchost: string)
    requires (forall c :: c in host ==> HostChar()(c)) && tail != "" && (tail[0] == ':' || tail[0] == '"')
    ensures var r := ReadHost(host + tail, srchost);
            && r.0 == tail && (r.2 <==> |host| < MAX_HOSTLEN && (host != "" || tail[0] == ':'))
            && (r.2 ==> r.1 == if host == "" then srchost else host)
  {
    hide Span;
    var p := host + tail;
    SpanIs(host, tail, HostChar());
    assert p[|host|..] == tail;
    if host == "" { assert p == tail; } else { assert p[0] == host[0] && host[0] in host; }
  }

  lemma PortIsRead(a: Service, tail: string, kept: nat)
    ensures ReadPort(PortText(a.port) + ("\"" + tail), kept)
         == ("\"" + tail, PortAfter(a, kept), a.port.Some? ==> a.port.value <= 65535)
  {
    hide StrToUl, Digits;
    if a.port.Some? {
      var port := a.port.value;
      var number := Digits(port) + ("\"" + tail);
      assert PortText(a.port) + ("\"" + tail) == ":" + number && (":" + number)[1..] == number;
      NumberIsRead(port, "\"" + tail);
      assert number[|Digits(port)|..] == "\"" + tail;
    } else {
      assert PortText(a.port) + ("\"" + tail) == "\"" + tail;
    }
  }

  lemma TargetIsRead(a: Service, tail: string, srchost: string, kept: nat)
    requires Proper(a)
    ensures var t := ReadTarget(Authority(a) + tail, AlpnOf(a.name), srchost, kept);
            && t.rest == tail && !t.broken && t.port == PortAfter(a, kept)
            && t.alpn == (if Heard(a) then AlpnOf(a.name) else None_)
            && (Heard(a) ==> t.host == if a.host == "" then srchost else a.host)
  {
    hide ReadHost, ReadPort, AlpnOf, PortAfter;
    var rest := PortText(a.port) + ("\"" + tail);
    assert Authority(a) + tail == a.host + rest;
    HostIsRead(a.host, rest, srchost);
    PortIsRead(a, tail, kept);
    assert ("\"" + tail)[1..] == tail;
  }

  lemma QuoteInService(trail: string, a: Service, more: string)
    requires Blanks(trail) && Proper(a)
    ensures '"' in trail + ("," + (a.gap + a.name + (Body(a) + more)))
    ensures Misleads(trail + ("," + (a.gap + a.name + (Body(a) + more))))
  {
    hide IsTchar, Misleads, Junk, Authority, ParamsText, Proper;
    var front := trail + ("," + (a.gap + a.name + "="));
    var params := ParamsText(a.params) + a.trail + more;
    assert trail + ("," + (a.gap + a.name + (Body(a) + more))) == front + ("\"" + (Authority(a) + params));
    NameHasNoQuote(trail, a);
    AuthorityIsJunk(a, params);
    QuoteIsHere(front, Authority(a) + params);
  }

  lemma NameHasNoQuote(trail: string, a: Service)
    requires Blanks(trail) && Proper(a)
    ensures '"' !in trail + ("," + (a.gap + a.name + "="))
  {
    hide IsTchar;
    NoTcharIsQuote(a.name);
  }

  /** Every alternative opens a quote for its authority. */
  lemma QuoteInRest(trail: string, as_: seq<Service>)
    requires Blanks(trail) && forall a :: a in as_ ==> Proper(a)
    ensures '"' in trail + Rest(as_) <==> as_ != []
    ensures Misleads(trail + Rest(as_))
  {
    hide Misleads, Proper, Body;
    if as_ != [] {
      assert as_[0] in as_;
      QuoteInService(trail, as_[0], Rest(as_[1..]));
    } else {
      assert trail + Rest(as_) == trail + "";
      NoQuoteMisleads();
      QuoteIsBehind(trail, "");
    }
  }

  lemma NoQuoteMisleads()
    ensures Misleads("")
  {
  }

  lemma AuthorityIsJunk(a: Service, more: string)
    requires Proper(a)
    ensures Junk(Authority(a) + more)
  {
    if a.host != "" { assert a.host[0] in a.host; }
  }

  // ---- Whole headers

  predicate Fits(a: Service) { |a.name| < 10 }

  /** The parameters that are read of a disorderly alternative. */
  function UpToStray(ps: seq<Param>): seq<Param>
    requires !Orderly(ps)
  {
    ps[..StrayAt(ps, false) + 1]
  }

  /** All the text behind the stray value of a disorderly alternative. */
  function Behind(a: Service, rest: seq<Service>): string
    requires !Orderly(a.params)
  {
    ParamsText(a.params[StrayAt(a.params, false) + 1..]) + (a.trail + Rest(rest))
  }

  /** What is read of it and of the text behind it: that is taken up behind the next quote, wherever that is; without
      one nothing more is read, and the alternative is dropped. */
  function PastStray(a: Service, rest: seq<Service>, port: nat, src: Host, now: int): seq<Entry>
    requires !Orderly(a.params)
  {
    var behind := Behind(a, rest);
    if '"' !in behind then []
    else
      var soFar := Effect(UpToStray(a.params), DAY, false);
      var o := ReadOptions(PastQuote(behind), true, soFar.0, soFar.1);
      if o.aborted then []
      else EntryWith(a, port, o.maxage, o.persist, src, now) + After(o.rest, a.name, port, src, now)
  }

  /** What is read: all alternatives up to the first whose name is too long, or which is disorderly. */
  function ReadEntries(as_: seq<Service>, kept: nat, src: Host, now: int): seq<Entry> {
    if as_ == [] || !Fits(as_[0]) then []
    else
      var a, port := as_[0], PortAfter(as_[0], kept);
      if Orderly(a.params) then EntryOf(a, a.params, port, src, now) + ReadEntries(as_[1..], port, src, now)
      else PastStray(a, as_[1..], port, src, now)
  }

  lemma RestBegins(as_: seq<Service>)
    ensures Rest(as_) == "" <==> as_ == []
    ensures as_ != [] ==> Rest(as_)[0] == ','
  {
  }

  /** The target of an alternative, and then its parameters. */
  lemma TargetThenParams(a: Service, tail: string, kept: nat, src: Host, now: int)
    requires Proper(a)
    ensures var o, port := ReadOptions(ParamsText(a.params) + (a.trail + tail), false, DAY, false), PortAfter(a, kept);
            Alternatives(Body(a) + tail, a.name, kept, src, now)
            == if o.aborted then []
               else EntryWith(a, port, o.maxage, o.persist, src, now) + After(o.rest, a.name, port, src, now)
  {
    hide ReadTarget, ReadOptions, After, Authority, ParamsText, AlpnOf, Proper, PortAfter, Addressed;
    var params := ParamsText(a.params) + (a.trail + tail);
    var p := Body(a) + tail;
    assert p == "=\"" + (Authority(a) + params);
    assert p[1..][0] == '"' && p[2..] == Authority(a) + params;
    TargetIsRead(a, params, src.name, kept);
  }

  /** An orderly alternative is read off; what follows is read with its port as the default. */
  lemma ServiceIsRead(a: Service, tail: string, kept: nat, src: Host, now: int)
    requires Proper(a) && Orderly(a.params) && (tail == "" || tail[0] == ',')
    ensures var port := PortAfter(a, kept);
            Alternatives(Body(a) + tail, a.name, kept, src, now)
            == EntryOf(a, a.params, port, src, now) + After(tail, a.name, port, src, now)
  {
    hide Alternatives, ReadOptions, After, EntryWith, ParamsText, ProperParam, IsToken, Effect, Body, IsAlnum,
        PortAfter;
    TargetThenParams(a, tail, kept, src, now);
    OrderlyIsRead(a.params, false, a.trail, tail, DAY, false);
  }

  /** A disorderly one is read up to its stray value. */
  lemma DisorderlyServiceIsRead(a: Service, rest: seq<Service>, kept: nat, src: Host, now: int)
    requires Proper(a) && !Orderly(a.params)
    ensures Alternatives(Body(a) + Rest(rest), a.name, kept, src, now)
        == PastStray(a, rest, PortAfter(a, kept), src, now)
  {
    hide Alternatives, ReadOptions, After, EntryWith, ParamsText, ProperParam, IsToken, Effect, Body, IsAlnum,
      PortAfter, Rest, PastQuote, StrayAt;
    var end := a.trail + Rest(rest);
    RestBegins(rest);
    EndFollows(a.trail, Rest(rest));
    TargetThenParams(a, Rest(rest), kept, src, now);
    DisorderlyIsRead(a.params, false, end, DAY, false);
  }

  lemma {:induction false} ServicesAreRead(as_: seq<Service>, kept: nat, src: Host, now: int)
    requires as_ != [] && Fits(as_[0]) && forall a :: a in as_ ==> Proper(a)
    ensures Alternatives(Body(as_[0]) + Rest(as_[1..]), as_[0].name, kept, src, now) == ReadEntries(as_, kept, src, now)
    decreases |as_|
  {
    hide Alternatives, GetAlnum, Body, Proper, Orderly, EntryOf, PastStray, PortAfter;
    var a, rest, port := as_[0], as_[1..], PortAfter(as_[0], kept);
    assert Proper(a) && forall b :: b in rest ==> b in as_;
    RestBegins(rest);
    if !Orderly(a.params) {
      DisorderlyServiceIsRead(a, rest, kept, src, now);
    } else {
      ServiceIsRead(a, Rest(rest), kept, src, now);
      if rest != [] {
        var next := Body(rest[0]) + Rest(rest[1..]);
        assert Proper(rest[0]);
        NextName(rest[0], next);
        assert Rest(rest)[1..] == rest[0].gap + rest[0].name + next;
        if Fits(rest[0]) { ServicesAreRead(rest, port, src, now); }
      }
    }
  }

  lemma NextName(a: Service, more: string)
    requires Proper(a) && Body(a) <= more
    ensures GetAlnum(a.gap + a.name + more, MAX_ALPNLEN) == (more, if Fits(a) then Some(a.name) else None)
    ensures Head(more) == '=' && !Ends(more)
  {
    hide Authority, ParamsText;
    assert Body(a)[0] == '=' == more[0];
    TokenIsRead(a.gap, a.name, more, MAX_ALPNLEN);
  }

  /** What a header does: nothing when its first name is too long; else it replaces the entries of the origin by those
      read, of which there are none behind "clear". */
  lemma HeaderIsRead(list: seq<Entry>, as_: seq<Service>, src: Host, now: int)
    requires as_ != [] && forall a :: a in as_ ==> Proper(a)
    ensures Parse(list, Header(as_), src, now)
         == if !Fits(as_[0]) then list
            else Filter(list, NotFrom(src))
                 + (if EqualNoCase(as_[0].name, "clear") then [] else ReadEntries(as_, src.port, src, now))
  {
    hide Alternatives, Body, Filter, GetAlnum, ReadEntries, Proper, EqualNoCase;
    assert Proper(as_[0]);
    NextName(as_[0], Body(as_[0]) + Rest(as_[1..]));
    if Fits(as_[0]) { ServicesAreRead(as_, src.port, src, now); }
  }

  // ---- Ports

  /** The last port written. */
  function LastPort(as_: seq<Service>): Option<nat> {
    if as_ == [] then None
    else if LastPort(as_[1..]).Some? then LastPort(as_[1..])
    else as_[0].port
  }

  /** The port kept after these alternatives. */
  function PortKept(as_: seq<Service>, kept: nat): nat {
    if as_ == [] then kept else PortKept(as_[1..], PortAfter(as_[0], kept))
  }

  lemma {:induction false} KeptIsLast(as_: seq<Service>, kept: nat)
    ensures var last := LastPort(as_);
            PortKept(as_, kept) == if last.None? then kept
                else (if last.value > ULONG_MAX then ULONG_MAX else last.value) % 65536
    decreases |as_|
  {
    if as_ != [] { KeptIsLast(as_[1..], PortAfter(as_[0], kept)); }
  }

  lemma {:induction false} ReadAfter(before: seq<Service>, as_: seq<Service>, kept: nat, src: Host, now: int)
    requires forall a :: a in before ==> Fits(a) && Orderly(a.params)
    ensures ReadEntries(before + as_, kept, src, now)
         == ReadEntries(before, kept, src, now) + ReadEntries(as_, PortKept(before, kept), src, now)
    decreases |before|
  {
    hide Orderly, EntryOf, PastStray, PortAfter, Fits;
    if before == [] {
      assert before + as_ == as_;
    } else {
      assert before[0] in before && (before + as_)[0] == before[0] && (before + as_)[1..] == before[1..] + as_;
      ReadAfter(before[1..], as_, PortAfter(before[0], kept), src, now);
    }
  }

  /** An alternative without a port is taken to be at the last port written before it, of which 16 bits count even if
      it was refused, and at the origin's when there is none. So it is taken to be at the origin's port exactly when
      no port was written before it, or the last one counts the same. */
  lemma PortIsCarriedOver(before: seq<Service>, b: Service, after: seq<Service>, src: Host, now: int)
    requires (forall a :: a in before ==> Fits(a) && Orderly(a.params)) && Fits(b) && Orderly(b.params) && b.port.None?
    ensures var last := LastPort(before);
            var port := if last.None? then src.port
                else (if last.value > ULONG_MAX then ULONG_MAX else last.value) % 65536;
            && ReadEntries(before + ([b] + after), src.port, src, now)
               == ReadEntries(before, src.port, src, now)
                  + (EntryOf(b, b.params, port, src, now) + ReadEntries(after, port, src, now))
            && (Heard(b) ==> (EntryOf(b, b.params, port, src, now) == EntryOf(b, b.params, PortMeant(b, src), src, now)
                              <==> last.None? || port == src.port))
  {
    hide Orderly, Effect, AlpnOf, PastStray, Fits;
    KeptIsLast(before, src.port);
    ReadAfter(before, [b] + after, src.port, src, now);
    assert ([b] + after)[1..] == after;
  }

  // ---- When a header is read as it is written

  /** Well formed, and where a quote may be missed, quoted values are tokens within quotes. */
  predicate Readable(a: Service) {
    Proper(a) && (Orderly(a.params) || forall p :: p in a.params ==> Simple(p))
  }

  /** Whether the stray value finds a quote to end at. */
  predicate QuoteFollows(ps: seq<Param>, last: bool)
    requires !Orderly(ps)
  {
    AnyQuoted(ps[StrayAt(ps, false) + 1..]) || !last
  }

  /** Nothing behind a stray value is read then. */
  lemma SimpleIsCut(a: Service, rest: seq<Service>, port: nat, src: Host, now: int)
    requires Readable(a) && (forall b :: b in rest ==> Proper(b)) && !Orderly(a.params)
    ensures PastStray(a, rest, port, src, now)
         == if QuoteFollows(a.params, rest == []) then EntryOf(a, UpToStray(a.params), port, src, now) else []
  {
    hide ReadOptions, After, EntryWith, ParamsText, ProperParam, IsToken, Effect, IsAlnum, Rest, AnyQuoted, Simple,
      Misleads, Junk, PastQuote, StrayAt;
    var end, behind := a.trail + Rest(rest), Behind(a, rest);
    QuoteInRest(a.trail, rest);
    QuoteInParams(a.params[StrayAt(a.params, false) + 1..], end);
    if '"' in behind {
      var (age, kept) := Effect(UpToStray(a.params), DAY, false);
      MisleadsToJunk(behind);
      JunkEnds(PastQuote(behind), true, age, kept, a.name, port, src, now);
    }
  }

  lemma MisleadsToJunk(s: string)
    requires '"' in s && Misleads(s)
    ensures Junk(PastQuote(s))
  {
  }

  /** All alternatives are orderly, and at the ports meant; or the first that is not orderly, or has too long a name,
      ends what is heard, and it loses nothing that counts. */
  predicate AsWritten(as_: seq<Service>, kept: nat, src: Host) {
    as_ == []
    || (var a, rest, port := as_[0], as_[1..], PortAfter(as_[0], kept);
        && (Heard(a) ==> port == PortMeant(a, src))
        && if Fits(a) && Orderly(a.params) then AsWritten(rest, port, src)
           else
             && (forall b :: b in rest ==> !Heard(b))
             && (Heard(a) ==>
                   && QuoteFollows(a.params, rest == [])
                   && Effect(UpToStray(a.params), DAY, false) == Effect(a.params, DAY, false)))
  }

  /** The entries read are those written exactly when this holds. */
  lemma {:induction false} ReadAsWrittenExactly(as_: seq<Service>, kept: nat, src: Host, now: int)
    requires forall a :: a in as_ ==> Readable(a)
    ensures ReadEntries(as_, kept, src, now) == EntriesOf(as_, src, now) <==> AsWritten(as_, kept, src)
    decreases |as_|
  {
    hide Orderly, QuoteFollows, UpToStray, Effect, Proper, Simple, PastStray, PortAfter, PortMeant, EntryOf, Heard,
        Fits;
    if as_ != [] {
      var a, rest, port := as_[0], as_[1..], PortAfter(as_[0], kept);
      assert Readable(a) && forall b :: b in rest ==> b in as_;
      var e, written := EntryOf(a, a.params, PortMeant(a, src), src, now), EntriesOf(rest, src, now);
      LongIsNotHeard(a);
      if Fits(a) && Orderly(a.params) {
        ReadAsWrittenExactly(rest, port, src, now);
        SameEntry(a, a.params, port, a.params, PortMeant(a, src), src, now);
        SameBoth(EntryOf(a, a.params, port, src, now), e, ReadEntries(rest, port, src, now), written);
      } else {
        NothingHeard(rest, src, now);
        if Fits(a) {
          SimpleIsCut(a, rest, port, src, now);
          SameEntry(a, UpToStray(a.params), port, a.params, PortMeant(a, src), src, now);
        }
        assert |e + written| == |e| + |written| && (written == [] ==> e + written == e);
      }
    }
  }

  lemma LongIsNotHeard(a: Service)
    ensures !Fits(a) ==> !Heard(a)
  {
    assert |Upper(a.name)| == |a.name| && |Upper("h1")| == 2 && |Upper("h2")| == 2 && |Upper("h3")| == 2;
  }

  lemma SameEntry(a: Service, ps: seq<Param>, p: nat, qs: seq<Param>, q: nat, src: Host, now: int)
    ensures EntryOf(a, ps, p, src, now) == EntryOf(a, qs, q, src, now)
       <==> !Heard(a) || (p == q && Effect(ps, DAY, false) == Effect(qs, DAY, false))
    ensures |EntryOf(a, ps, p, src, now)| == if Heard(a) then 1 else 0
  {
    hide Effect, AlpnOf, Addressed;
    if Heard(a) { assert EntryOf(a, ps, p, src, now)[0] == EntryOf(a, qs, q, src, now)[0]
                     <==> p == q && Effect(ps, DAY, false) == Effect(qs, DAY, false); }
  }

  lemma SameBoth(d: seq<Entry>, e: seq<Entry>, r: seq<Entry>, s: seq<Entry>)
    requires |d| == |e|
    ensures d + r == e + s <==> d == e && r == s
  {
    if d + r == e + s {
      assert d == (d + r)[..|d|] == (e + s)[..|e|] == e;
      assert r == (d + r)[|d|..] == (e + s)[|e|..] == s;
    }
  }

  lemma {:induction false} NothingHeard(as_: seq<Service>, src: Host, now: int)
    ensures EntriesOf(as_, src, now) == [] <==> forall a :: a in as_ ==> !Heard(a)
    decreases |as_|
  {
    hide Heard, EntryWith;
    if as_ != [] {
      NothingHeard(as_[1..], src, now);
      assert as_[0] in as_ && forall a :: a in as_ <==> a == as_[0] || a in as_[1..];
    }
  }

  /** A header of orderly alternatives that all give a port is read as it is written. */
  lemma {:induction false} OrderlyIsAsWritten(as_: seq<Service>, kept: nat, src: Host)
    requires forall a :: a in as_ ==> Fits(a) && Orderly(a.params) && a.port.Some?
    ensures AsWritten(as_, kept, src)
    decreases |as_|
  {
    hide Orderly, AlpnOf, Fits;
    if as_ != [] {
      assert as_[0] in as_;
      OrderlyIsAsWritten(as_[1..], PortAfter(as_[0], kept), src);
    }
  }

  // ---- Examples

  function Simply(name: string, value: Content): Param { Param("", " ", name, value) }

  function AtPort443(params: seq<Param>): Service { Service("", "h2", "", Some(443), params, "") }

  lemma Print443()
    ensures Digits(443) == "443"
  {
    assert Digits(4) == "4" && Digits(44) == "44";
  }

  lemma HeadOf443(params: seq<Param>)
    ensures Header([AtPort443(params)]) == "h2=\":443\"" + ParamsText(params)
  {
    hide Digits, ParamsText;
    Print443();
    var a := AtPort443(params);
    assert [a][1..] == [];
    assert Header([a]) == "h2" + ("=\"" + (":" + "443" + "\"") + ParamsText(params));
  }

  /** An age within quotes, and persistence without, and perhaps more. */
  function QuotedAge(more: seq<Param>): seq<Param> {
    [Simply("ma", Quoted("10"))] + ([Simply("persist", Token("1"))] + more)
  }

  lemma QuotedAgeText(more: seq<Param>)
    ensures ParamsText(QuotedAge(more)) == "; ma=\"10\"; persist=1" + ParamsText(more)
  {
    hide ParamText;
    var ps := QuotedAge(more);
    assert ps[1..] == [Simply("persist", Token("1"))] + more && ps[1..][1..] == more;
    QuotedAgeTexts();
  }

  lemma QuotedAgeTexts()
    ensures ParamText(Simply("ma", Quoted("10"))) == "; ma=\"10\""
        && ParamText(Simply("persist", Token("1"))) == "; persist=1"
  {
  }

  lemma QuotedAgeIsDisorderly(more: seq<Param>)
    ensures !Orderly(QuotedAge(more)) && StrayAt(QuotedAge(more), false) == 1
    ensures QuotedAge(more)[2..] == more && UpToStray(QuotedAge(more)) == QuotedAge([])
  {
    var ps := QuotedAge(more);
    assert ps[1..] == [Simply("persist", Token("1"))] + more;
    assert !OrderlyFrom(ps[1..], true) && StrayAt(ps[1..], true) == 0;
    assert ps[0].value.Quoted? && StrayAt(ps, false) == 1 + StrayAt(ps[1..], true);
    assert ps[..2] == QuotedAge([]);
  }

  lemma QuotedAgeIsReadable(more: seq<Param>)
    requires forall p :: p in more ==> ProperParam(p) && Simple(p)
    ensures Readable(AtPort443(QuotedAge(more)))
  {
    assert ProperParam(Simply("ma", Quoted("10"))) && Simple(Simply("ma", Quoted("10")));
    assert ProperParam(Simply("persist", Token("1"))) && Simple(Simply("persist", Token("1")));
  }

  lemma AlpnOfH2()
    ensures AlpnOf("h2") == H2 && !EqualNoCase("h2", "clear")
  {
    assert Upper("h1")[1] != Upper("h2")[1] && |Upper("h2")| != |Upper("clear")|;
  }

  lemma ReadableIsProper(a: Service)
    requires Readable(a)
    ensures Proper(a)
  {
  }

  lemma QuotedAgeReadsNothing(src: Host, now: int)
    ensures ReadEntries([AtPort443(QuotedAge([]))], src.port, src, now) == []
    ensures AlpnOf("h2") != None_ ==> |EntriesOf([AtPort443(QuotedAge([]))], src, now)| == 1
  {
    hide Orderly, StrayAt, AlpnOf, Readable, Effect, PastStray;
    var a := AtPort443(QuotedAge([]));
    QuotedAgeIsReadable([]);
    QuotedAgeIsDisorderly([]);
    assert [a][1..] == [] && !QuoteFollows(a.params, true);
    SimpleIsCut(a, [], 443, src, now);
    assert PortAfter(a, src.port) == 443;
  }

  /** This header flushes its origin, and its one alternative is dropped: the value of "persist" never ends. */
  lemma QuotedAgeLosesAll(list: seq<Entry>, src: Host, now: int)
    ensures Parse(list, "h2=\":443\"; ma=\"10\"; persist=1", src, now) == Filter(list, NotFrom(src))
    ensures |EntriesOf([AtPort443(QuotedAge([]))], src, now)| == 1
  {
    hide Parse, Filter, ParamsText, AlpnOf, Readable, Header, EqualNoCase, ReadEntries, EntriesOf, QuotedAge, Proper;
    var a := AtPort443(QuotedAge([]));
    HeadOf443(a.params);
    QuotedAgeText([]);
    assert ParamsText([]) == "" by { NoParams(); }
    QuotedAgeIsReadable([]);
    ReadableIsProper(a);
    HeaderIsRead(list, [a], src, now);
    AlpnOfH2();
    QuotedAgeReadsNothing(src, now);
    assert "h2=\":443\"" + ("; ma=\"10\"; persist=1" + "") == "h2=\":443\"; ma=\"10\"; persist=1";
  }

  lemma NoParams()
    ensures ParamsText([]) == ""
  {
  }

  /** With another quoted value behind it, it ends there, and what is read is what is written. */
  lemma QuotedAgeIsSaved(src: Host)
    ensures var as_ := [AtPort443(QuotedAge([Simply("x", Quoted("y"))]))];
            AsWritten(as_, src.port, src) && !Orderly(as_[0].params)
  {
    hide StrayAt, Orderly, Effect, QuotedAge;
    var more := [Simply("x", Quoted("y"))];
    QuotedAgeIsDisorderly(more);
    assert more[0].value.Quoted?;
    UnknownHasNoEffect(more);
  }

  lemma UnknownHasNoEffect(more: seq<Param>)
    requires more == [Simply("x", Quoted("y"))]
    ensures Effect(QuotedAge(more), DAY, false) == Effect(QuotedAge([]), DAY, false)
  {
    hide OptAt, SetsAge, SetsPersist;
    var short, long := QuotedAge([]), QuotedAge(more);
    EffectStep(short, DAY, false);
    EffectStep(long, DAY, false);
    assert long[1..] == [short[1]] + more && short[1..] == [short[1]];
    var first := Effect([short[0]], DAY, false);
    EffectStep(long[1..], first.0, first.1);
    assert long[1..][1..] == more && more[1..] == [];
    NotCounted(more[0]);
  }

  lemma NotCounted(p: Param)
    requires p.name == "x"
    ensures !SetsAge(OptAt(p, "", false)) && !SetsPersist(OptAt(p, "", false))
  {
    assert |Upper("ma")| != |Upper("x")| && |Upper("persist")| != |Upper("x")|;
  }

  function WithPort(): Service { Service("", "h2", "", Some(8443), [], "") }

  function WithoutPort(): Service { Service(" ", "h3", "b.c", None, [], "") }

  lemma PortExampleText()
    ensures Header([WithPort(), WithoutPort()]) == "h2=\":8443\", h3=\"b.c\""
  {
    hide Body;
    PortBodies();
    var as_ := [WithPort(), WithoutPort()];
    assert as_[1..] == [WithoutPort()] && as_[1..][1..] == [];
    assert Rest([]) == "" && Rest(as_[1..]) == ", h3=\"b.c\"";
  }

  lemma PortBodies()
    ensures Body(WithPort()) == "=\":8443\"" && Body(WithoutPort()) == "=\"b.c\""
  {
    hide Digits, ParamsText;
    Print8443();
    NoParams();
    assert Authority(WithPort()) == ":8443\"" && Authority(WithoutPort()) == "b.c\"";
  }

  lemma Print8443()
    ensures Digits(8443) == "8443"
  {
    assert Digits(8) == "8" && Digits(84) == "84" && Digits(844) == "844";
  }

  lemma PortExampleIsProper(a: Service)
    requires a in [WithPort(), WithoutPort()]
    ensures Proper(a) && Heard(a) && Fits(a) && Orderly(a.params)
  {
    AlpnOfH2();
    AlpnOfH3();
  }

  lemma AlpnOfH3()
    ensures AlpnOf("h3") == H3
  {
    assert Upper("h1")[1] != Upper("h3")[1] && Upper("h2")[1] != Upper("h3")[1];
  }

  /** The second alternative is taken to be at port 8443, whatever the origin's port. */
  lemma PortlessIsAt8443(src: Host, now: int)
    ensures Parse([], "h2=\":8443\", h3=\"b.c\"", src, now)
         == [Entry(src, Host(H2, src.name, 8443), DAY + now, false),
             Entry(src, Host(H3, "b.c", 8443), DAY + now, false)]
  {
    hide Parse, Filter, Header, Proper, Orderly, AlpnOf, EqualNoCase, ReadEntries, Addressed;
    var as_ := [WithPort(), WithoutPort()];
    PortExampleText();
    forall a | a in as_ ensures Proper(a) && Heard(a) && Fits(a) && Orderly(a.params) { PortExampleIsProper(a); }
    HeaderIsRead([], as_, src, now);
    AlpnOfH2();
    AlpnOfH3();
    FilterNone([], NotFrom(src));
    PortExampleIsRead(src, now);
  }

  lemma PortExampleIsRead(src: Host, now: int)
    ensures ReadEntries([WithPort(), WithoutPort()], src.port, src, now)
         == [Entry(src, Host(H2, src.name, 8443), DAY + now, false),
             Entry(src, Host(H3, "b.c", 8443), DAY + now, false)]
  {
    hide Orderly, AlpnOf;
    var as_ := [WithPort(), WithoutPort()];
    assert as_[1..] == [WithoutPort()] && as_[1..][1..] == [];
    PortExampleIsProper(WithPort());
    PortExampleIsProper(WithoutPort());
    AlpnOfH2();
    AlpnOfH3();
    assert Effect([], DAY, false) == (DAY, false);
    assert ReadEntries(as_[1..], 8443, src, now)
        == EntryOf(WithoutPort(), [], 8443, src, now) + ReadEntries([], 8443, src, now);
    assert ReadEntries([], 8443, src, now) == [];
    assert ReadEntries(as_, src.port, src, now)
        == EntryOf(WithPort(), [], 8443, src, now) + ReadEntries(as_[1..], 8443, src, now);
  }
}
