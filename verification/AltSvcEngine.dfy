/** The list of alternatives, edited in place, and the parser's cursor. */
module AltSvcEngine {
  import opened AltSvc
  import opened Ascii
  import opened ByteString
  import opened Lists
  import opened Text
  import opened Wrappers

  /** The character at a position; NUL at the end. */
  function At(s: string, p: nat): char { if p < |s| then s[p] else NUL }

  lemma HeadIsAt(s: string, p: nat)
    requires p <= |s|
    ensures Head(s[p..]) == At(s, p)
    ensures p < |s| ==> s[p..][0] == s[p] && s[p..][1..] == s[p + 1..]
  {
  }

  lemma Further(s: string, p: nat, k: nat)
    requires p <= |s| && k <= |s| - p
    ensures s[p..][k..] == s[p + k..]
  {
  }

  method BlanksEnd(s: string, p: nat) returns (q: nat)
    requires p <= |s|
    ensures p <= q <= |s| && s[q..] == SkipBlanks(s[p..])
  {
    q := p;
    while q < |s| && IsBlank(s[q])
      invariant p <= q <= |s| && SkipBlanks(s[q..]) == SkipBlanks(s[p..])
    {
      HeadIsAt(s, q);
      q := q + 1;
    }
    HeadIsAt(s, q);
  }

  method SpanEnd(s: string, p: nat, ok: char -> bool) returns (q: nat)
    requires p <= |s|
    ensures p <= q <= |s| && s[p..q] == Span(s[p..], ok)
    ensures s[p..][|Span(s[p..], ok)|..] == s[q..]
  {
    hide Span;
    q := p;
    while q < |s| && ok(s[q])
      invariant p <= q <= |s| && forall c :: c in s[p..q] ==> ok(c)
    {
      assert s[p..q + 1] == s[p..q] + [s[q]];
      q := q + 1;
    }
    HeadIsAt(s, q);
    assert s[p..] == s[p..q] + s[q..];
    SpanIs(s[p..q], s[q..], ok);
  }

  method TokenAt(s: string, p: nat, buflen: nat) returns (q: nat, w: Option<string>)
    requires p <= |s|
    ensures p <= q <= |s| && (s[q..], w) == GetAlnum(s[p..], buflen)
  {
    var start := BlanksEnd(s, p);
    q := SpanEnd(s, start, TokenChar());
    Further(s, start, q - start);
    var len := q - start;
    w := if len == 0 || len >= buflen then None else Some(s[start..q]);
  }

  method HostAt(s: string, p: nat, srchost: string) returns (q: nat, host: string, good: bool)
    requires p <= |s|
    ensures p <= q <= |s| && (s[q..], host, good) == ReadHost(s[p..], srchost)
  {
    hide Span;
    HeadIsAt(s, p);
    if At(s, p) == ':' { return p, srchost, true; }
    q := SpanEnd(s, p, HostChar());
    var len := q - p;
    good := !(len == 0 || len >= MAX_HOSTLEN);
    host := if good then s[p..q] else "";
  }

  method PortAt(s: string, p: nat, dstport: nat) returns (q: nat, port: nat, good: bool)
    requires p <= |s|
    ensures p <= q <= |s| && (s[q..], port, good) == ReadPort(s[p..], dstport)
  {
    hide StrToUl;
    HeadIsAt(s, p);
    if At(s, p) != ':' { return p, dstport, true; }
    var (number, used) := StrToUl(s[p + 1..]);
    q := p + 1 + used;
    Further(s, p + 1, used);
    HeadIsAt(s, q);
    good := !(number > 65535 || used == 0 || At(s, q) != '"');
    port := number % 65536;
  }

  method TargetAt(s: string, p: nat, alpn: Alpn, srchost: string, dstport: nat)
      returns (q: nat, host: string, dstalpn: Alpn, port: nat, broken: bool)
    requires p <= |s|
    ensures p <= q <= |s| && Target(s[q..], host, dstalpn, port, broken) == ReadTarget(s[p..], alpn, srchost, dstport)
  {
    hide ReadHost, ReadPort;
    dstalpn := alpn;
    var good: bool;
    q, host, good := HostAt(s, p, srchost);
    if !good { dstalpn := None_; }
    q, port, good := PortAt(s, q, dstport);
    if !good { dstalpn := None_; }
    HeadIsAt(s, q);
    broken := At(s, q) != '"';
    if !broken { q := q + 1; }
  }

  /** The part of an option behind its '=' and quote. */
  method ValueAt(s: string, p: nat, quoted: bool, name: Option<string>)
      returns (q: nat, num: nat, used: nat, aborted: bool)
    requires p <= |s|
    ensures p <= q <= |s|
    ensures ReadValue(s[p..], quoted, name) == if aborted then NoMore(s[q..], true)
        else Opt(s[q..], quoted, name, num, used)
  {
    hide Span, StrToUl;
    num, used, aborted := 0, 0, false;
    q := SpanEnd(s, p, if quoted then NoQuote() else ValueChar());
    if quoted {
      if q == |s| {
        aborted := true;
        return;
      }
      Further(s, p, q + 1 - p);
      q := q + 1;
    }
    var (n, m) := StrToUl(s[p..]);
    num, used := n, m;
  }

  /** The loop over the options of one alternative. */
  method OptionsAt(s: string, p: nat) returns (q: nat, maxage: int, persist: bool, aborted: bool)
    requires p <= |s|
    ensures p <= q <= |s| && Options(s[q..], maxage, persist, aborted) == ReadOptions(s[p..], false, DAY, false)
  {
    hide ReadOption, EqualNoCase;
    q, maxage, persist, aborted := p, DAY, false, false;
    var quoted := false;
    while true
      invariant p <= q <= |s| && !aborted
      invariant ReadOptions(s[q..], quoted, maxage, persist) == ReadOptions(s[p..], false, DAY, false)
      decreases |s| - q
    {
      var opt: Opt;
      q, opt := OptionAt(s, q, quoted);
      if opt.NoMore? { return q, maxage, persist, opt.aborted; }
      quoted := opt.quoted;
      if opt.used != 0 && opt.num < ULONG_MAX && opt.name.Some? {
        if EqualNoCase("ma", opt.name.value) { maxage := AsTime(opt.num); }
        else if EqualNoCase("persist", opt.name.value) && opt.num == 1 { persist := true; }
      }
    }
  }

  method OptionAt(s: string, p: nat, quoted: bool) returns (q: nat, opt: Opt)
    requires p <= |s|
    ensures p <= q <= |s| && opt == ReadOption(s[p..], quoted) && opt.rest == s[q..]
  {
    hide GetAlnum, SkipBlanks, ReadValue;
    q := BlanksEnd(s, p);
    HeadIsAt(s, q);
    if At(s, q) != ';' { return q, NoMore(s[q..], false); }
    q := q + 1;
    HeadIsAt(s, q);
    if At(s, q) == NUL || IsNewline(At(s, q)) { return q, NoMore(s[q..], false); }
    var name: Option<string>;
    q, name := TokenAt(s, q, OPTIONLEN);
    q := BlanksEnd(s, q);
    HeadIsAt(s, q);
    if At(s, q) != '=' { return q, NoMore(s[q..], true); }
    q := BlanksEnd(s, q + 1);
    HeadIsAt(s, q);
    if q == |s| { return q, NoMore(s[q..], true); }
    var inQuotes := quoted;
    if s[q] == '"' { q, inQuotes := q + 1, true; }
    var num, used, aborted;
    q, num, used, aborted := ValueAt(s, q, inQuotes, name);
    opt := if aborted then NoMore(s[q..], true) else Opt(s[q..], inQuotes, name, num, used);
  }

  class AltSvcInfo {
    var list: seq<Entry>

    constructor ()
      ensures list == []
    {
      list := [];
    }

    /** Removes every alternative of the origin. */
    method Flush(src: Host)
      modifies `list
      ensures list == Filter(old(list), NotFrom(src))
    {
      hide SameOrigin;
      var kept := [];
      for k := 0 to |list|
        invariant list == old(list) && kept == Filter(list[..k], NotFrom(src))
      {
        assert list[..k + 1][..k] == list[..k];
        if !SameOrigin(src, list[k].src) { kept := kept + [list[k]]; }
      }
      assert list[..|list|] == list;
      list := kept;
    }

    method Parse(value: string, src: Host, now: int)
      requires NUL !in value
      modifies `list
      ensures list == AltSvc.Parse(old(list), value, src, now)
    {
      hide Alternatives, GetAlnum, Filter, EqualNoCase;
      assert value[0..] == value;
      var p, name := TokenAt(value, 0, MAX_ALPNLEN);
      if name.None? { return; }
      Flush(src);
      if EqualNoCase(name.value, "clear") {
        assert list + [] == list;
        return;
      }
      ReadAll(value, p, name.value, src, now);
    }

    /** The loop over the alternatives. */
    method ReadAll(value: string, start: nat, name: string, src: Host, now: int)
      requires start <= |value|
      modifies `list
      ensures list == old(list) + Alternatives(value[start..], name, src.port, src, now)
    {
      hide Alternatives;
      var p, alpnbuf, dstport := start, name, src.port;
      var more := true;
      while more
        invariant p <= |value|
        invariant list + (if more then Alternatives(value[p..], alpnbuf, dstport, src, now) else []) ==
                    old(list) + Alternatives(value[start..], name, src.port, src, now)
        decreases |value| - p, more
      {
        ghost var before, rest := list, Alternatives(value[p..], alpnbuf, dstport, src, now);
        var here: seq<Entry>;
        more, p, alpnbuf, dstport, here := ReadOne(value, p, alpnbuf, dstport, src, now);
        list := list + here;
        ghost var later := if more then Alternatives(value[p..], alpnbuf, dstport, src, now) else [];
        assert before + rest == before + (here + later) == list + later;
      }
    }

    /** One alternative, and the name of the next one if there is any. */
    method ReadOne(value: string, p: nat, alpnbuf: string, dstport: nat, src: Host, now: int)
        returns (more: bool, end: nat, name: string, port: nat, here: seq<Entry>)
      requires p <= |value|
      ensures end <= |value| && (more ==> p < end)
      ensures p <= end
      ensures Alternatives(value[p..], alpnbuf, dstport, src, now) ==
                here + if more then Alternatives(value[end..], name, port, src, now) else []
    {
      hide ReadTarget, ReadOptions, Alternatives, After, Here;
      more, end, name, port, here := false, p, alpnbuf, dstport, [];
      OneAlternative(value[p..], alpnbuf, dstport, src, now);
      HeadIsAt(value, p);
      if At(value, p) != '=' { return; }
      HeadIsAt(value, p + 1);
      if At(value, p + 1) != '"' { return; }
      Further(value, p, 2);
      var q, host, alpn, found, broken := TargetAt(value, p + 2, AlpnOf(alpnbuf), src.name, dstport);
      if broken { return; }
      var r, maxage, persist, aborted := OptionsAt(value, q);
      if aborted { return; }
      HereIs(Target(value[q..], host, alpn, found, false), Options(value[r..], maxage, persist, false), src, now);
      if alpn != None_ { here := [Entry(src, Host(alpn, host, found), maxage + now, persist)]; }
      port := found;
      more, end, name := NextAlternative(value, r, alpnbuf, port, src, now);
    }

    /** Past the comma to the next protocol name; without a comma the name stays. */
    method NextAlternative(value: string, p: nat, alpnbuf: string, ghost port: nat, ghost src: Host, ghost now: int)
        returns (more: bool, end: nat, name: string)
      requires p <= |value|
      ensures p <= end <= |value|
      ensures After(value[p..], alpnbuf, port, src, now) ==
                if more then Alternatives(value[end..], name, port, src, now) else []
    {
      hide GetAlnum, Alternatives, After, Ends;
      BehindOne(value[p..], alpnbuf, port, src, now);
      more, end, name := false, p, alpnbuf;
      HeadIsAt(value, p);
      if At(value, p) == ',' {
        var next: Option<string>;
        end, next := TokenAt(value, p + 1, MAX_ALPNLEN);
        if next.None? { return; }
        name := next.value;
      }
      more := !Ends(value[end..]);
    }

    /** Removes the expired entries it meets, up to the first match. */
    method Lookup(src: Host, versions: set<Alpn>, now: int) returns (found: Option<Entry>)
      modifies `list
      ensures (list, found) == AltSvc.Lookup(old(list), src, versions, now)
    {
      hide Wanted, Live;
      var kept := [];
      var k := 0;
      found := None;
      assert list[0..] == list;
      while k < |list| && found.None?
        invariant k <= |list| && list == old(list)
        invariant kept == Filter(list[..k], LiveAt(now))
        invariant found.None? ==> MatchAt(list, src, versions, now) == k + MatchAt(list[k..], src, versions, now)
        invariant found.Some? ==> k < |list| && MatchAt(list, src, versions, now) == k && found.value == list[k]
        decreases |list| - k, found.None?
      {
        var as_ := list[k];
        if Live(as_, now) && Wanted(as_, src, versions) {
          found := Some(as_);
        } else {
          assert list[..k + 1][..k] == list[..k];
          assert list[k..][1..] == list[k + 1..];
          if Live(as_, now) { kept := kept + [as_]; }
          k := k + 1;
        }
      }
      list := kept + list[k..];
    }
  }

  lemma OneAlternative(p: string, alpnbuf: string, dstport: nat, src: Host, now: int)
    ensures Alternatives(p, alpnbuf, dstport, src, now) ==
              if Head(p) != '=' || Head(p[1..]) != '"' then []
              else
                var t := ReadTarget(p[2..], AlpnOf(alpnbuf), src.name, dstport);
                if t.broken then []
                else
                  var o := ReadOptions(t.rest, false, DAY, false);
                  if o.aborted then [] else Here(t, o, src, now) + After(o.rest, alpnbuf, t.port, src, now)
  {
  }

  lemma BehindOne(p: string, alpnbuf: string, dstport: nat, src: Host, now: int)
    ensures After(p, alpnbuf, dstport, src, now) ==
              if Head(p) == ',' then
                var (rest, name) := GetAlnum(p[1..], MAX_ALPNLEN);
                if name.None? || Ends(rest) then [] else Alternatives(rest, name.value, dstport, src, now)
              else if Ends(p) then [] else Alternatives(p, alpnbuf, dstport, src, now)
  {
  }

  lemma HereIs(t: Target, o: Options, src: Host, now: int)
    ensures Here(t, o, src, now) ==
              if t.alpn == None_ then [] else [Entry(src, Host(t.alpn, t.host, t.port), o.maxage + now, o.persist)]
  {
  }
}
