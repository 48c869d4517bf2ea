/** Numbers and names in a header, what parameters count for, and headers at the end of a line. */
module AltSvcLine {
  import opened AltSvc
  import opened AltSvcFormat
  import opened AltSvcParams
  import opened Ascii
  import opened Decimal
  import opened Lists
  import opened Text
  import opened Wrappers

  // ---- Names and numbers

  /** A name ends at a blank, a semicolon or an equals sign. */
  lemma NameExactly(gap: string, w: string, tail: string, buflen: nat)
    requires Blanks(gap) && w != "" && forall c :: c in w ==> c !in " \t;="
    requires tail == "" || tail[0] in " \t;="
    ensures GetAlnum(gap + (w + tail), buflen) == (tail, if |w| < buflen then Some(w) else None)
  {
    hide Span, SkipBlanks;
    assert (w + tail)[0] == w[0] && w[0] in w;
    BlanksAreSkipped(gap, w + tail);
    SpanIs(w, tail, TokenChar());
    assert (w + tail)[|w|..] == tail;
  }

  const TWO_TO_64 := 0x1_0000_0000_0000_0000

  lemma {:induction false} SpacesGo(spaces: string, rest: string)
    requires (forall c :: c in spaces ==> IsSpace(c)) && rest != "" && !IsSpace(rest[0])
    ensures SkipSpaces(spaces + rest) == rest
    decreases |spaces|
  {
    if spaces == "" {
      assert spaces + rest == rest;
    } else {
      assert spaces[0] in spaces && (spaces + rest)[1..] == spaces[1..] + rest;
      SpacesGo(spaces[1..], rest);
    }
  }

  /** strtoul: white space, perhaps a sign, digits; what does not fit 64 bits is the largest number, and a minus sign
      takes the number from two to the power of 64. */
  lemma NumberExactly(spaces: string, sign: string, n: nat, tail: string)
    requires (forall c :: c in spaces ==> IsSpace(c)) && sign in {"", "+", "-"} && (tail == "" || !IsDigit(tail[0]))
    ensures StrToUl(spaces + (sign + (Digits(n) + tail)))
         == (if n >= TWO_TO_64 then TWO_TO_64 - 1 else if sign == "-" then (TWO_TO_64 - n) % TWO_TO_64 else n,
             |spaces| + |sign| + |Digits(n)|)
  {
    hide Digits, Value, LeadingDigits, SkipSpaces;
    var d := Digits(n);
    var t := sign + (d + tail);
    assert d[0] in d;
    DigitIsNoSpace(d[0]);
    assert t[0] == if sign == "" then d[0] else sign[0];
    SpacesGo(spaces, t);
    DigitsLead(d, tail);
    ValueOfDigits(n);
    assert sign != "" ==> t[1..] == d + tail;
    assert sign == "" ==> t == d + tail;
    assert |spaces + t| - |t| == |spaces|;
  }

  lemma DigitIsNoSpace(c: char)
    requires IsDigit(c)
    ensures !IsSpace(c) && c != '-' && c != '+'
  {
  }

  /** A text that begins with neither of these is no number. */
  lemma NoNumber(s: string)
    requires s == "" || (!IsSpace(s[0]) && s[0] != '+' && s[0] != '-' && !IsDigit(s[0]))
    ensures StrToUl(s) == (0, 0)
  {
  }

  // ---- What one parameter counts for

  /** The age is the number a parameter "ma" begins with, unless that is the largest there is. */
  lemma AgeExactly(p: Param, n: nat, tail: string, maxage: int, persist: bool)
    requires EqualNoCase(p.name, "ma") && p.value.text == Digits(n) + tail && (tail == "" || !IsDigit(tail[0]))
    ensures Effect([p], maxage, persist)
         == (if n >= TWO_TO_64 - 1 then maxage
             else if n < 0x8000_0000_0000_0000 then n else n - TWO_TO_64, persist)
  {
    hide Digits, StrToUl, Upper;
    NumberIsRead(n, tail);
    EqualNoCaseSymmetric("ma", p.name);
    NamesDiffer(p.name);
    assert [p][1..] == [];
    assert forall m: int, b: bool :: Effect([], m, b) == (m, b);
  }

  lemma NamesDiffer(name: string)
    ensures EqualNoCase(name, "ma") ==> |name| == 2 && !EqualNoCase("persist", name)
    ensures EqualNoCase(name, "persist") ==> |name| == 7 && !EqualNoCase("ma", name)
  {
    EqualNoCaseSymmetric(name, "ma");
    EqualNoCaseSymmetric(name, "persist");
    EqualNoCaseSymmetric("persist", name);
    EqualNoCaseSymmetric("ma", name);
  }

  /** An alternative is persistent from a parameter "persist" on whose value begins with the number 1. */
  lemma PersistExactly(p: Param, n: nat, tail: string, maxage: int, persist: bool)
    requires EqualNoCase(p.name, "persist") && p.value.text == Digits(n) + tail && (tail == "" || !IsDigit(tail[0]))
    ensures Effect([p], maxage, persist) == (maxage, persist || n == 1)
  {
    hide Digits, StrToUl, Upper;
    NumberIsRead(n, tail);
    EqualNoCaseSymmetric("persist", p.name);
    NamesDiffer(p.name);
    assert [p][1..] == [];
    assert forall m: int, b: bool :: Effect([], m, b) == (m, b);
  }

  /** Parameters of other names, and values that are no numbers, count for nothing. */
  lemma OthersCountForNothing(p: Param, maxage: int, persist: bool)
    requires (!EqualNoCase(p.name, "ma") && !EqualNoCase(p.name, "persist"))
        || (var s := p.value.text; s == "" || (!IsSpace(s[0]) && s[0] != '+' && s[0] != '-' && !IsDigit(s[0])))
    ensures Effect([p], maxage, persist) == (maxage, persist)
  {
    hide StrToUl, Upper;
    EqualNoCaseSymmetric("ma", p.name);
    EqualNoCaseSymmetric("persist", p.name);
    NoNumberCounts(p);
    assert [p][1..] == [];
    assert forall m: int, b: bool :: Effect([], m, b) == (m, b);
  }

  lemma NoNumberCounts(p: Param)
    ensures var s := p.value.text;
            s == "" || (!IsSpace(s[0]) && s[0] != '+' && s[0] != '-' && !IsDigit(s[0]))
            ==> !Counts(OptAt(p, "", false))
  {
    var s := p.value.text;
    if s == "" || (!IsSpace(s[0]) && s[0] != '+' && s[0] != '-' && !IsDigit(s[0])) { NoNumber(s); }
  }

  // ---- What is not in the form

  /** A colon without a port behind it is refused. */
  lemma NoPortBehindColon(tail: string, kept: nat)
    ensures !ReadPort(":\"" + tail, kept).2
  {
    hide StrToUl;
    assert (":\"" + tail)[1..] == "\"" + tail;
    NoNumber("\"" + tail);
  }

  /** A parameter without a value drops the alternative and all behind it. */
  lemma MissingValueAborts(name: string, tail: string, quoted: bool, maxage: int, persist: bool)
    requires IsToken(name) && (tail in {"", "="} || tail[0] == ';')
    ensures ReadOptions(";" + (name + tail), quoted, maxage, persist).aborted
  {
    hide ReadOption, IsToken;
    MissingValue(name, tail, quoted);
  }

  lemma MissingValue(name: string, tail: string, quoted: bool)
    requires IsToken(name) && (tail in {"", "="} || tail[0] == ';')
    ensures var o := ReadOption(";" + (name + tail), quoted); o.NoMore? && o.aborted
  {
    hide GetAlnum, IsToken, IsTchar, SkipBlanks, ReadValue;
    var named := name + tail;
    SemicolonIsFound("", named);
    assert "" + (";" + named) == ";" + named && (";" + named)[1..] == named;
    GapBegins("", name, tail);
    assert "" + name + tail == named;
    TokenHasNoEnd(name);
    NameExactly("", name, tail, OPTIONLEN);
    assert "" + named == named;
    NothingBefore(tail);
    NothingBefore("");
    if tail == "=" { assert tail[1..] == ""; }
  }

  lemma TokenHasNoEnd(name: string)
    requires IsToken(name)
    ensures name != "" && forall c :: c in name ==> c !in " \t;="
  {
    TcharIsVisible(name);
  }

  lemma NothingBefore(tail: string)
    requires tail in {"", "="} || tail[0] == ';'
    ensures SkipBlanks(tail) == tail
  {
  }

  // ---- The end of the line

  /** How a header may end: at a line break, or at a semicolon before it. */
  predicate LineEnd(e: string) { e in {"\n", "\r\n", ";", ";\n", ";\r\n"} }

  /** What is left when the parameters have been read. */
  ghost predicate EndsWell(o: Options, maxage: int, persist: bool) {
    !o.aborted && o.maxage == maxage && o.persist == persist && Ends(o.rest)
  }

  lemma EndIsSeen(trail: string, e: string, quoted: bool, maxage: int, persist: bool)
    requires Blanks(trail) && (LineEnd(e) || (e == "" && trail == ""))
    ensures EndsWell(ReadOptions(trail + e, quoted, maxage, persist), maxage, persist)
  {
    BlanksAreSkipped(trail, e);
    if e != "" && e[0] == ';' { assert e[1..] == "" || e[1..] == "\n" || e[1..] == "\r\n"; }
  }

  /** A token at the very end takes the line break along, which does not change its number. */
  lemma TokenTakesBreak(p: Param, e: string)
    requires ProperParam(p) && p.value.Token? && e in {"\n", "\r\n"}
    ensures ReadOption(ParamText(p) + e, false) == OptAt(p, "", false)
  {
    hide ReadOption, Span, StrToUl, IsTchar, ParamText;
    ValueBegins(p, e, false);
    var v := p.value.text;
    TcharIsVisible(v);
    assert v[0] in v;
    NumberStops(v, e);
    forall c | c in v + e ensures ValueChar()(c) {}
    assert (v + e) + "" == v + e;
    SpanIs(v + e, "", ValueChar());
    assert (v + e)[|v + e|..] == "";
  }

  lemma {:induction false} ParamsThenEnd(ps: seq<Param>, quoted: bool, trail: string, e: string, maxage: int,
      persist: bool)
    requires (forall p :: p in ps ==> ProperParam(p)) && OrderlyFrom(ps, quoted) && Blanks(trail) && LineEnd(e)
    ensures var (age, kept) := Effect(ps, maxage, persist);
            EndsWell(ReadOptions(ParamsText(ps) + (trail + e), quoted, maxage, persist), age, kept)
    decreases |ps|
  {
    hide ReadOptions, ProperParam, ParamText, OptAt, ReadOption, Effect, EndsWell, LineEnd, Follows, Ends;
    var end := trail + e;
    if ps == [] {
      NoEffect(ps, maxage, persist);
      assert ParamsText(ps) + end == end;
      EndIsSeen(trail, e, quoted, maxage, persist);
    } else {
      var p, more := ps[0], ParamsText(ps[1..]) + end;
      assert p in ps && ParamsText(ps) + end == ParamText(p) + more by { TextStep(ps, end); }
      EffectStep(ps, maxage, persist);
      var first := Effect([p], maxage, persist);
      FollowsOrBreaks(ps[1..], trail, e);
      if Follows(more) {
        ParamIsRead(p, more, quoted);
        OptionCounts(ParamText(p) + more, p, more, p.value.Quoted?, quoted, maxage, persist);
        ParamsThenEnd(ps[1..], p.value.Quoted?, trail, e, first.0, first.1);
      } else {
        NoEffect(ps[1..], first.0, first.1);
        LastBeforeBreak(p, e, quoted, maxage, persist);
      }
    }
  }

  lemma NoEffect(ps: seq<Param>, maxage: int, persist: bool)
    ensures ps == [] ==> Effect(ps, maxage, persist) == (maxage, persist) && ParamsText(ps) == ""
  {
  }

  lemma FollowsOrBreaks(ps: seq<Param>, trail: string, e: string)
    requires (forall p :: p in ps ==> ProperParam(p)) && Blanks(trail) && LineEnd(e)
    ensures || Follows(ParamsText(ps) + (trail + e))
            || (ps == [] && trail == "" && e in {"\n", "\r\n"} && ParamsText(ps) + (trail + e) == e)
  {
    hide ParamText;
    if ps != [] {
      assert ps[0] in ps;
      var lead := ps[0].lead;
      if lead != "" { assert lead[0] in lead; }
      assert ParamText(ps[0])[0] == (lead + ";")[0] by { TextBegins(ps[0]); }
      assert (ParamsText(ps) + (trail + e))[0] == ParamText(ps[0])[0];
    } else {
      if trail != "" { assert trail[0] in trail; }
    }
  }

  lemma TextBegins(p: Param)
    ensures ParamText(p) != "" && ParamText(p)[0] == (p.lead + ";")[0]
  {
  }

  /** The last parameter, right before the line break. */
  lemma LastBeforeBreak(p: Param, e: string, quoted: bool, maxage: int, persist: bool)
    requires ProperParam(p) && (p.value.Token? ==> !quoted) && e in {"\n", "\r\n"}
    ensures var (age, kept) := Effect([p], maxage, persist);
            EndsWell(ReadOptions(ParamText(p) + e, quoted, maxage, persist), age, kept)
  {
    hide ReadOptions, ProperParam, ParamText, OptAt, ReadOption, Effect, EndsWell;
    var first := Effect([p], maxage, persist);
    if p.value.Token? {
      TokenTakesBreak(p, e);
      OptionCounts(ParamText(p) + e, p, "", false, quoted, maxage, persist);
      assert "" + "" == "";
      EndIsSeen("", "", false, first.0, first.1);
    } else {
      QuotedBeforeBreak(p, e, quoted);
      OptionCounts(ParamText(p) + e, p, e, true, quoted, maxage, persist);
      assert "" + e == e;
      EndIsSeen("", e, true, first.0, first.1);
    }
  }

  lemma QuotedBeforeBreak(p: Param, e: string, quoted: bool)
    requires ProperParam(p) && p.value.Quoted?
    ensures ReadOption(ParamText(p) + e, quoted) == OptAt(p, e, true)
  {
    hide ReadOption, Span, StrToUl, ParamText;
    ValueBegins(p, e, quoted);
    var v, behind := p.value.text, "\"" + e;
    SpanIs(v, behind, NoQuote());
    NumberStops(v, behind);
    assert (v + behind)[|v| + 1..] == e;
  }

  // ---- Whole lines

  lemma LastServiceIsRead(a: Service, e: string, kept: nat, src: Host, now: int)
    requires Proper(a) && Orderly(a.params) && LineEnd(e)
    ensures Alternatives(Body(a) + e, a.name, kept, src, now) == EntryOf(a, a.params, PortAfter(a, kept), src, now)
  {
    hide Alternatives, ReadOptions, EntryWith, ParamsText, ProperParam, IsToken, Effect, Body, IsAlnum,
      PortAfter, LineEnd;
    TargetThenParams(a, e, kept, src, now);
    ParamsThenEnd(a.params, false, a.trail, e, DAY, false);
    var o := ReadOptions(ParamsText(a.params) + (a.trail + e), false, DAY, false);
    NothingAfter(o.rest, a.name, PortAfter(a, kept), src, now);
    assert EntryWith(a, PortAfter(a, kept), o.maxage, o.persist, src, now) + []
        == EntryWith(a, PortAfter(a, kept), o.maxage, o.persist, src, now);
  }

  lemma NothingAfter(p: string, alpnbuf: string, dstport: nat, src: Host, now: int)
    requires Ends(p)
    ensures After(p, alpnbuf, dstport, src, now) == []
  {
  }

  lemma {:induction false} ServicesOfLine(as_: seq<Service>, e: string, kept: nat, src: Host, now: int)
    requires as_ != [] && LineEnd(e) && forall a :: a in as_ ==> Proper(a) && Fits(a) && Orderly(a.params)
    ensures Alternatives(Body(as_[0]) + (Rest(as_[1..]) + e), as_[0].name, kept, src, now)
         == ReadEntries(as_, kept, src, now)
    decreases |as_|
  {
    hide Alternatives, GetAlnum, Body, Proper, Orderly, EntryOf, PastStray, PortAfter, Fits, LineEnd;
    var a, rest, port := as_[0], as_[1..], PortAfter(as_[0], kept);
    assert a in as_ && forall b :: b in rest ==> b in as_;
    if rest == [] {
      assert Rest(rest) + e == e;
      LastServiceIsRead(a, e, kept, src, now);
      assert ReadEntries(rest, port, src, now) == [];
    } else {
      var next, tail := Body(rest[0]) + (Rest(rest[1..]) + e), Rest(rest) + e;
      assert tail == "," + (rest[0].gap + rest[0].name + next);
      ServiceIsRead(a, tail, kept, src, now);
      assert rest[0] in as_;
      assert Body(rest[0]) <= next;
      NextName(rest[0], next);
      assert tail[1..] == rest[0].gap + rest[0].name + next;
      ServicesOfLine(rest, e, port, src, now);
    }
  }

  /** A header of orderly alternatives means the same at the end of a line, and with a semicolon before that. */
  lemma LineIsRead(list: seq<Entry>, as_: seq<Service>, e: string, src: Host, now: int)
    requires as_ != [] && LineEnd(e) && forall a :: a in as_ ==> Proper(a) && Fits(a) && Orderly(a.params)
    ensures Parse(list, AltSvcFormat.Header(as_) + e, src, now) == Parse(list, AltSvcFormat.Header(as_), src, now)
  {
    hide Alternatives, Body, Filter, GetAlnum, ReadEntries, Proper, EqualNoCase, Orderly, Fits, LineEnd;
    var a := as_[0];
    assert a in as_;
    HeaderIsRead(list, as_, src, now);
    var next := Body(a) + (Rest(as_[1..]) + e);
    assert AltSvcFormat.Header(as_) + e == a.gap + a.name + next && Body(a) <= next;
    NextName(a, next);
    ServicesOfLine(as_, e, src.port, src, now);
  }
}
