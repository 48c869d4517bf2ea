/** The parameters of an alternative service: tokens and quoted strings, and what is read from them. */
module AltSvcParams {
  import opened AltSvc
  import opened Ascii
  import opened ByteString
  import opened Decimal
  import opened Text
  import opened Wrappers

  /** The characters of a token (section 3.2.6 of RFC 7230). */
  predicate IsTchar(c: char) { IsAlnum(c) || c in "!#$%&'*+-.^_`|~" }

  predicate IsToken(s: string) { s != "" && forall c :: c in s ==> IsTchar(c) }

  predicate Blanks(s: string) { forall c :: c in s ==> IsBlank(c) }

  datatype Content = Token(text: string) | Quoted(text: string)

  /** A parameter; blanks may stand before and after the semicolon in front of it. */
  datatype Param = Param(lead: string, gap: string, name: string, value: Content)

  predicate ProperParam(p: Param) {
    && Blanks(p.lead) && Blanks(p.gap) && IsToken(p.name)
    && (if p.value.Token? then IsToken(p.value.text) else '"' !in p.value.text)
  }

  function ContentText(v: Content): string {
    if v.Token? then v.text else "\"" + v.text + "\""
  }

  function ParamText(p: Param): string { p.lead + ";" + (p.gap + p.name + ("=" + ContentText(p.value))) }

  function ParamsText(ps: seq<Param>): string {
    if ps == [] then "" else ParamText(ps[0]) + ParamsText(ps[1..])
  }

  // ---- What they say

  /** The name of a parameter, when it fits its buffer. */
  function OptName(p: Param): Option<string> { if |p.name| < 32 then Some(p.name) else None }

  /** The parameter as an option: its name, and the number its value begins with. */
  function OptAt(p: Param, rest: string, quoted: bool): Opt {
    var (num, used) := StrToUl(p.value.text);
    Opt(rest, quoted, OptName(p), num, used)
  }

  /** The age and the persistence that parameters add up to, in order. */
  function Effect(ps: seq<Param>, maxage: int, persist: bool): (int, bool) {
    if ps == [] then (maxage, persist)
    else
      var o := OptAt(ps[0], "", false);
      Effect(ps[1..], if SetsAge(o) then AsTime(o.num) else maxage, persist || SetsPersist(o))
  }

  // ---- Reading one piece off the front

  lemma {:induction false} DigitsLead(d: string, tail: string)
    requires (forall c :: c in d ==> IsDigit(c)) && (tail == "" || !IsDigit(tail[0]))
    ensures LeadingDigits(d + tail) == d
  {
    if d == "" {
      assert d + tail == tail;
    } else {
      assert (d + tail)[1..] == d[1..] + tail;
      DigitsLead(d[1..], tail);
    }
  }

  lemma NumberIsRead(n: nat, tail: string)
    requires tail == "" || !IsDigit(tail[0])
    ensures StrToUl(Digits(n) + tail) == (if n > ULONG_MAX then ULONG_MAX else n, |Digits(n)|)
  {
    hide Digits, Value, LeadingDigits;
    var s := Digits(n) + tail;
    assert s[0] == Digits(n)[0] && Digits(n)[0] in Digits(n);
    assert SkipSpaces(s) == s;
    DigitsLead(Digits(n), tail);
    ValueOfDigits(n);
  }

  /** A number of seconds given for "ma", quoted or not, is the age. */
  lemma AgeIsTaken(p: Param, n: nat, maxage: int, persist: bool)
    requires EqualNoCase("ma", p.name) && p.value.text == Digits(n) && n <= ULONG_MAX / 2
    ensures Effect([p], maxage, persist) == (n, persist)
  {
    hide Digits, StrToUl;
    assert |Upper("ma")| == 2 && |Upper(p.name)| == |p.name|;
    NumberIsRead(n, "");
    assert Digits(n) + "" == Digits(n) && [p][1..] == [];
  }

  lemma TcharIsVisible(w: string)
    requires forall c :: c in w ==> IsTchar(c)
    ensures forall c :: c in w ==>
              TokenChar()(c) && ValueChar()(c) && NoQuote()(c) && !IsSpace(c) && c != NUL && c != '='
  {
  }

  /** A token behind blanks, and '=' after it; it is reported when it fits the buffer. */
  lemma TokenIsRead(gap: string, w: string, tail: string, buflen: nat)
    requires Blanks(gap) && IsToken(w) && tail != "" && tail[0] == '='
    ensures GetAlnum(gap + w + tail, buflen) == (tail, if |w| < buflen then Some(w) else None)
  {
    hide Span, IsTchar, SkipBlanks;
    var s := w + tail;
    TcharIsVisible(w);
    assert gap + w + tail == gap + s && s[0] == w[0] && w[0] in w;
    BlanksAreSkipped(gap, s);
    SpanIs(w, tail, TokenChar());
  }

  // ---- Numbers at the head of a value

  lemma {:induction false} SpacesStop(v: string, tail: string)
    requires tail == "" || !IsSpace(tail[0])
    ensures SkipSpaces(v + tail) == SkipSpaces(v) + tail
  {
    if v == "" {
      assert v + tail == tail;
    } else {
      assert (v + tail)[1..] == v[1..] + tail;
      SpacesStop(v[1..], tail);
    }
  }

  lemma {:induction false} DigitsStop(v: string, tail: string)
    requires tail == "" || !IsDigit(tail[0])
    ensures LeadingDigits(v + tail) == LeadingDigits(v)
  {
    if v == "" {
      assert v + tail == tail;
    } else {
      assert (v + tail)[1..] == v[1..] + tail;
      DigitsStop(v[1..], tail);
    }
  }

  lemma SpacesAreSkipped(v: string, tail: string)
    requires (v != "" && !IsSpace(v[0])) || tail == "" || !IsSpace(tail[0])
    ensures SkipSpaces(v + tail) == SkipSpaces(v) + tail
    ensures SkipSpaces(v) == "" || SkipSpaces(v + tail)[0] == SkipSpaces(v)[0]
  {
    if v != "" && !IsSpace(v[0]) { assert (v + tail)[0] == v[0]; } else { SpacesStop(v, tail); }
  }

  /** What cannot go on a number does not change it. */
  lemma NumberStops(v: string, tail: string)
    requires tail == "" || (!IsDigit(tail[0]) && tail[0] != '+' && tail[0] != '-')
    requires (v != "" && !IsSpace(v[0])) || tail == "" || !IsSpace(tail[0])
    ensures StrToUl(v + tail) == StrToUl(v)
  {
    hide IsSpace, IsDigit, Value, SkipSpaces, LeadingDigits;
    var t := SkipSpaces(v);
    SpacesAreSkipped(v, tail);
    DigitsStop(t, tail);
    if t != "" {
      assert (t + tail)[1..] == t[1..] + tail;
      DigitsStop(t[1..], tail);
    }
  }

  // ---- One parameter

  /** What may come behind a parameter. */
  predicate Follows(tail: string) { tail == "" || IsBlank(tail[0]) || tail[0] == ';' || tail[0] == ',' }

  /** All up to the value. */
  lemma OptionBegins(p: Param, value: string, quoted: bool)
    requires Blanks(p.lead) && Blanks(p.gap) && IsToken(p.name) && value != "" && !IsBlank(value[0])
    ensures ReadOption(p.lead + (";" + (p.gap + p.name + ("=" + value))), quoted) ==
              if value[0] == '"' then ReadValue(value[1..], true, OptName(p)) else ReadValue(value, quoted, OptName(p))
  {
    hide ReadValue, GetAlnum, SkipBlanks, IsToken, Blanks, IsBlank;
    var named := p.gap + p.name + ("=" + value);
    SemicolonIsFound(p.lead, named);
    assert (";" + named)[1..] == named;
    TokenIsRead(p.gap, p.name, "=" + value, OPTIONLEN);
    GapBegins(p.gap, p.name, "=" + value);
    NothingIsSkipped("=" + value);
    assert ("=" + value)[1..] == value;
    NothingIsSkipped(value);
  }

  lemma SemicolonIsFound(lead: string, behind: string)
    requires Blanks(lead)
    ensures SkipBlanks(lead + (";" + behind)) == ";" + behind
  {
    BlanksAreSkipped(lead, ";" + behind);
  }

  lemma NothingIsSkipped(s: string)
    requires s != "" && (s[0] == '=' || !IsBlank(s[0]))
    ensures SkipBlanks(s) == s
  {
  }

  lemma ValueBegins(p: Param, tail: string, quoted: bool)
    requires ProperParam(p)
    ensures ReadOption(ParamText(p) + tail, quoted) ==
              if p.value.Quoted? then ReadValue(p.value.text + ("\"" + tail), true, OptName(p))
              else ReadValue(p.value.text + tail, quoted, OptName(p))
  {
    hide ReadOption, ReadValue, IsTchar, OptName;
    var value := ContentText(p.value) + tail;
    assert ParamText(p) + tail == p.lead + (";" + (p.gap + p.name + ("=" + value)));
    if p.value.Token? {
      TcharIsVisible(p.value.text);
      NoTcharIsQuote(p.value.text);
      assert value[0] == p.value.text[0] && p.value.text[0] in p.value.text;
    } else {
      assert value[0] == '"' && value[1..] == p.value.text + ("\"" + tail);
    }
    OptionBegins(p, value, quoted);
  }

  lemma NoTcharIsQuote(w: string)
    requires forall c :: c in w ==> IsTchar(c)
    ensures '"' !in w
  {
  }

  lemma GapBegins(gap: string, name: string, tail: string)
    requires Blanks(gap) && IsToken(name)
    ensures Head(gap + name + tail) != NUL && !IsNewline(Head(gap + name + tail))
  {
    hide IsTchar;
    TcharIsVisible(name);
    assert name[0] in name;
    if gap == "" {
      assert (gap + name + tail)[0] == name[0];
    } else {
      assert (gap + name + tail)[0] == gap[0] && gap[0] in gap;
    }
  }

  /** A parameter is read as it is written, unless it is a token and an earlier value was quoted. */
  lemma ParamIsRead(p: Param, tail: string, quoted: bool)
    requires ProperParam(p) && (p.value.Token? ==> !quoted) && Follows(tail)
    ensures ReadOption(ParamText(p) + tail, quoted) == OptAt(p, tail, p.value.Quoted?)
  {
    hide ReadOption, Span, StrToUl, IsTchar, ParamText;
    ValueBegins(p, tail, quoted);
    var v := p.value.text;
    if p.value.Token? {
      TcharIsVisible(v);
      SpanIs(v, tail, ValueChar());
      assert v[0] in v;
      NumberStops(v, tail);
      assert (v + tail)[|v|..] == tail;
    } else {
      var behind := "\"" + tail;
      SpanIs(v, behind, NoQuote());
      NumberStops(v, behind);
      assert (v + behind)[|v| + 1..] == tail;
    }
  }

  /** What is behind the first quote. */
  function PastQuote(s: string): string
    requires '"' in s
  {
    s[|Until(s, '"')| + 1..]
  }

  /** A token behind a quoted value is read up to the next quote, wherever that is. */
  lemma StrayIsRead(p: Param, tail: string)
    requires ProperParam(p) && p.value.Token? && Follows(tail)
    ensures ReadOption(ParamText(p) + tail, true) ==
              if '"' in tail then OptAt(p, PastQuote(tail), true) else NoMore("", true)
  {
    hide ReadOption, Span, StrToUl, IsTchar, ParamText;
    ValueBegins(p, tail, true);
    var v, w := p.value.text, Until(tail, '"');
    TcharIsVisible(v);
    assert v[0] in v;
    NumberStops(v, tail);
    assert v + tail == (v + w) + tail[|w|..];
    forall c | c in v + w ensures NoQuote()(c) {}
    SpanIs(v + w, tail[|w|..], NoQuote());
    if '"' in tail {
      assert |w| < |tail| && (v + tail)[|v + w| + 1..] == PastQuote(tail);
    }
  }

  // ---- All parameters of an alternative

  /** No unquoted value comes behind a quoted one. */
  predicate OrderlyFrom(ps: seq<Param>, quoted: bool) {
    ps == [] || ((ps[0].value.Token? ==> !quoted) && OrderlyFrom(ps[1..], ps[0].value.Quoted?))
  }

  predicate Orderly(ps: seq<Param>) { OrderlyFrom(ps, false) }

  /** The first unquoted value behind a quoted one. */
  function StrayAt(ps: seq<Param>, quoted: bool): (k: nat)
    requires !OrderlyFrom(ps, quoted)
    ensures k < |ps| && ps[k].value.Token?
  {
    if ps[0].value.Token? && quoted then 0 else 1 + StrayAt(ps[1..], ps[0].value.Quoted?)
  }

  lemma ParamsFollow(ps: seq<Param>, end: string)
    requires (forall p :: p in ps ==> ProperParam(p)) && Follows(end)
    ensures Follows(ParamsText(ps) + end)
  {
    if ps == [] {
      assert ParamsText(ps) + end == end;
    } else {
      assert ps[0] in ps;
      var lead := ps[0].lead;
      if lead != "" { assert lead[0] in lead; }
      assert (ParamsText(ps) + end)[0] == (lead + ";")[0];
    }
  }

  lemma OptionCounts(s: string, p: Param, rest: string, after: bool, quoted: bool, maxage: int, persist: bool)
    requires ReadOption(s, quoted) == OptAt(p, rest, after)
    ensures var first := Effect([p], maxage, persist);
            ReadOptions(s, quoted, maxage, persist) == ReadOptions(rest, after, first.0, first.1)
  {
    hide ReadOption, StrToUl, EqualNoCase;
    assert [p][1..] == [] && forall m: int, b: bool :: Effect([], m, b) == (m, b);
  }

  lemma EffectStep(ps: seq<Param>, maxage: int, persist: bool)
    requires ps != []
    ensures var first := Effect([ps[0]], maxage, persist);
            Effect(ps, maxage, persist) == Effect(ps[1..], first.0, first.1)
  {
    hide OptAt, SetsAge, SetsPersist;
    assert [ps[0]][1..] == [] && forall m: int, b: bool :: Effect([], m, b) == (m, b);
  }

  /** Orderly parameters are read to their end. */
  lemma {:induction false} OrderlyIsRead(ps: seq<Param>, quoted: bool, trail: string, tail: string, maxage: int,
      persist: bool)
    requires (forall p :: p in ps ==> ProperParam(p)) && OrderlyFrom(ps, quoted)
    requires Blanks(trail) && (tail == "" || tail[0] == ',')
    ensures var (age, kept) := Effect(ps, maxage, persist);
            ReadOptions(ParamsText(ps) + (trail + tail), quoted, maxage, persist) == Options(tail, age, kept, false)
    decreases |ps|
  {
    hide ReadOptions, ProperParam, ParamText, OptAt, ReadOption, Follows, Effect;
    var end := trail + tail;
    if ps == [] {
      assert ParamsText(ps) + end == end;
      EndIsRead(trail, tail, quoted, maxage, persist);
    } else {
      var p, more := ps[0], ParamsText(ps[1..]) + end;
      assert p in ps && ParamsText(ps) + end == ParamText(p) + more;
      EndFollows(trail, tail);
      ParamsFollow(ps[1..], end);
      ParamIsRead(p, more, quoted);
      OptionCounts(ParamText(p) + more, p, more, p.value.Quoted?, quoted, maxage, persist);
      EffectStep(ps, maxage, persist);
      var first := Effect([p], maxage, persist);
      OrderlyIsRead(ps[1..], p.value.Quoted?, trail, tail, first.0, first.1);
    }
  }

  lemma EndFollows(trail: string, tail: string)
    requires Blanks(trail) && (tail == "" || tail[0] == ',')
    ensures Follows(trail + tail)
  {
    if trail != "" { assert trail[0] in trail; } else { assert trail + tail == tail; }
  }

  lemma EndIsRead(trail: string, tail: string, quoted: bool, maxage: int, persist: bool)
    requires Blanks(trail) && (tail == "" || tail[0] == ',')
    ensures ReadOptions(trail + tail, quoted, maxage, persist) == Options(tail, maxage, persist, false)
    ensures Effect([], maxage, persist) == (maxage, persist)
  {
    BlanksAreSkipped(trail, tail);
  }

  /** The options of s end with the value that goes on to the next quote behind it, or takes all there is. */
  predicate EndsInStray(s: string, quoted: bool, maxage: int, persist: bool, behind: string, after: (int, bool)) {
    var o := ReadOptions(s, quoted, maxage, persist);
    if '"' in behind then o == ReadOptions(PastQuote(behind), true, after.0, after.1) else o.aborted
  }

  lemma StrayEnds(p: Param, more: string, maxage: int, persist: bool)
    requires ProperParam(p) && p.value.Token? && Follows(more)
    ensures EndsInStray(ParamText(p) + more, true, maxage, persist, more, Effect([p], maxage, persist))
  {
    hide ReadOptions, ProperParam, ParamText, OptAt, ReadOption, Follows, Effect, PastQuote;
    StrayIsRead(p, more);
    if '"' in more {
      OptionCounts(ParamText(p) + more, p, PastQuote(more), true, true, maxage, persist);
    } else {
      AbortIsRead(ParamText(p) + more, true, maxage, persist);
    }
  }

  /** Disorderly parameters are read up to the stray value. */
  lemma {:induction false} DisorderlyIsRead(ps: seq<Param>, quoted: bool, end: string, maxage: int, persist: bool)
    requires (forall p :: p in ps ==> ProperParam(p)) && !OrderlyFrom(ps, quoted) && Follows(end)
    ensures var k := StrayAt(ps, quoted);
            EndsInStray(ParamsText(ps) + end, quoted, maxage, persist,
                        ParamsText(ps[k + 1..]) + end, Effect(ps[..k + 1], maxage, persist))
    decreases |ps|
  {
    hide ReadOptions, ProperParam, ParamText, OptAt, ReadOption, Follows, Effect, ParamsText, EndsInStray;
    var p, more := ps[0], ParamsText(ps[1..]) + end;
    assert p in ps && ParamsText(ps) + end == ParamText(p) + more by { TextStep(ps, end); }
    ParamsFollow(ps[1..], end);
    var k := StrayAt(ps, quoted);
    if k == 0 {
      assert ps[..1] == [p];
      StrayEnds(p, more, maxage, persist);
    } else {
      ParamIsRead(p, more, quoted);
      OptionCounts(ParamText(p) + more, p, more, p.value.Quoted?, quoted, maxage, persist);
      var first := Effect([p], maxage, persist);
      DisorderlyIsRead(ps[1..], p.value.Quoted?, end, first.0, first.1);
      EffectStep(ps[..k + 1], maxage, persist);
      assert ps[..k + 1][1..] == ps[1..][..k] && ps[1..][k..] == ps[k + 1..];
      SameEnd(ParamText(p) + more, quoted, maxage, persist, more, p.value.Quoted?, first.0, first.1,
              ParamsText(ps[k + 1..]) + end, Effect(ps[..k + 1], maxage, persist));
    }
  }

  lemma SameEnd(s: string, quoted: bool, maxage: int, persist: bool, t: string, quoted': bool, maxage': int,
                persist': bool,
                behind: string, after: (int, bool))
    requires ReadOptions(s, quoted, maxage, persist) == ReadOptions(t, quoted', maxage', persist')
    requires EndsInStray(t, quoted', maxage', persist', behind, after)
    ensures EndsInStray(s, quoted, maxage, persist, behind, after)
  {
    hide ReadOptions, PastQuote;
  }

  lemma TextStep(ps: seq<Param>, end: string)
    requires ps != []
    ensures ParamsText(ps) + end == ParamText(ps[0]) + (ParamsText(ps[1..]) + end)
  {
  }

  lemma AbortIsRead(s: string, quoted: bool, maxage: int, persist: bool)
    requires ReadOption(s, quoted) == NoMore("", true)
    ensures ReadOptions(s, quoted, maxage, persist).aborted
  {
  }

  // ---- Where the next quote is

  /** The rest of a quoted text whose end was missed: no option goes on from it, and no alternative. */
  predicate Junk(r: string) {
    r != "" && !IsBlank(r[0]) && r[0] !in {';', ',', '=', '\n', '\r', NUL}
  }

  /** Behind the first quote there is junk. */
  predicate Misleads(s: string) { '"' in s ==> Junk(PastQuote(s)) }

  lemma JunkEnds(r: string, quoted: bool, maxage: int, persist: bool, alpnbuf: string, dstport: nat, src: Host,
      now: int)
    requires Junk(r)
    ensures ReadOptions(r, quoted, maxage, persist) == Options(r, maxage, persist, false)
    ensures After(r, alpnbuf, dstport, src, now) == []
  {
    NothingIsSkipped(r);
  }

  lemma QuoteIsBehind(s: string, t: string)
    requires '"' !in s
    ensures '"' in s + t <==> '"' in t
    ensures Misleads(s + t) <==> Misleads(t)
  {
    hide Junk;
    UntilPast(s, t, '"');
    if '"' in t { assert PastQuote(s + t) == PastQuote(t); }
  }

  lemma QuoteIsHere(s: string, r: string)
    requires '"' !in s && Junk(r)
    ensures '"' in s + ("\"" + r) && Misleads(s + ("\"" + r))
  {
    hide Junk;
    var t := "\"" + r;
    assert t[0] == '"' && t[1..] == r && Until(t, '"') == "";
    QuoteIsBehind(s, t);
  }

  /** A quoted value, if there is one, is a token within quotes. */
  predicate Simple(p: Param) { p.value.Quoted? ==> forall c :: c in p.value.text ==> IsTchar(c) }

  predicate AnyQuoted(ps: seq<Param>) { exists i :: 0 <= i < |ps| && ps[i].value.Quoted? }

  lemma NoQuotes(p: Param)
    requires ProperParam(p)
    ensures '"' !in p.lead + ";" + (p.gap + p.name + "=")
    ensures p.value.Token? ==> '"' !in p.value.text
  {
    NoTcharIsQuote(p.name);
    if p.value.Token? { NoTcharIsQuote(p.value.text); }
  }

  lemma QuoteInParam(p: Param, more: string)
    requires ProperParam(p) && Simple(p)
    ensures p.value.Quoted? ==> '"' in ParamText(p) + more && Misleads(ParamText(p) + more)
    ensures p.value.Token? ==>
              ('"' in ParamText(p) + more <==> '"' in more) && (Misleads(ParamText(p) + more) <==> Misleads(more))
  {
    hide IsTchar, Misleads, Junk;
    NoQuotes(p);
    var front := p.lead + ";" + (p.gap + p.name + "=");
    if p.value.Quoted? {
      var r := p.value.text + ("\"" + more);
      assert ParamText(p) + more == front + ("\"" + r);
      QuotedIsJunk(p.value.text, more);
      QuoteIsHere(front, r);
    } else {
      assert ParamText(p) + more == (front + p.value.text) + more;
      QuoteIsBehind(front + p.value.text, more);
    }
  }

  lemma QuotedIsJunk(text: string, more: string)
    requires forall c :: c in text ==> IsTchar(c)
    ensures Junk(text + ("\"" + more))
  {
    if text != "" { assert text[0] in text && IsTchar(text[0]); }
  }

  lemma {:induction false} QuoteInParams(ps: seq<Param>, end: string)
    requires (forall p :: p in ps ==> ProperParam(p) && Simple(p)) && Misleads(end)
    ensures '"' in ParamsText(ps) + end <==> AnyQuoted(ps) || '"' in end
    ensures Misleads(ParamsText(ps) + end)
    decreases |ps|
  {
    hide ProperParam, Simple, ParamText, Misleads;
    if ps == [] {
      assert ParamsText(ps) + end == end;
    } else {
      var more := ParamsText(ps[1..]) + end;
      assert ps[0] in ps && ParamsText(ps) + end == ParamText(ps[0]) + more;
      QuoteInParams(ps[1..], end);
      QuoteInParam(ps[0], more);
      AnyQuotedStep(ps);
    }
  }

  lemma AnyQuotedStep(ps: seq<Param>)
    requires ps != []
    ensures AnyQuoted(ps) <==> ps[0].value.Quoted? || AnyQuoted(ps[1..])
  {
    if i :| 0 <= i < |ps| && ps[i].value.Quoted? && i > 0 { assert ps[1..][i - 1].value.Quoted?; }
    if i :| 0 <= i < |ps[1..]| && ps[1..][i].value.Quoted? { assert ps[i + 1].value.Quoted?; }
  }
}
