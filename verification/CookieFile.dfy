/** The cookie file: one tab-separated line per cookie. */
module CookieFile {
  import opened Ascii
  import opened CookieJar
  import opened CookiePath
  import opened Cookies
  import opened Decimal
  import opened Text
  import opened Wrappers

  const MAX_COOKIE_LINE := 5000

  // ---- Writing

  function Flag(b: bool): string { if b then "TRUE" else "FALSE" }

  /** The domain column: domains that match by their tail start with a dot. */
  function DomainField(co: Cookie): string {
    (if co.tailmatch && co.domain.Some? && !("." <= co.domain.value) then "." else "")
    + (if co.domain.Some? then co.domain.value else "unknown")
  }

  function OtherFields(co: Cookie): seq<string> {
    [Flag(co.tailmatch), if co.path.Some? then co.path.value else "/", Flag(co.secure), Print(co.expires), co.name,
     if co.value.Some? then co.value.value else ""]
  }

  function Join(fields: seq<string>): string
    requires fields != []
  {
    if |fields| == 1 then fields[0] else fields[0] + ['\t'] + Join(fields[1..])
  }

  function Format(co: Cookie): string {
    (if co.httponly then "#HttpOnly_" else "") + Join([DomainField(co)] + OtherFields(co))
  }

  // ---- Reading

  /** The pieces strtok_r finds: empty columns vanish. */
  function Tokens(s: string): seq<string>
    decreases |s|
  {
    if s == [] then []
    else if s[0] == '\t' then Tokens(s[1..])
    else [Until(s, '\t')] + Tokens(s[|Until(s, '\t')|..])
  }

  /** The half-built cookie, the number of columns taken, whether the line is given up. */
  datatype Reading = Reading(co: Cookie, fields: nat, bad: bool, prefixes: set<Prefix>)

  function SecureField(r: Reading, token: string, trusted: bool): Reading {
    var on := EqualNoCase(token, "TRUE");
    r.(co := r.co.(secure := on && trusted), bad := on && !trusted, fields := r.fields + 1)
  }

  function TakeField(r: Reading, token: string, trusted: bool): Reading {
    var co, next := r.co, r.fields + 1;
    match r.fields
    case 0 => r.(co := co.(domain := Some(if "." <= token then token[1..] else token)), fields := next)
    case 1 => r.(co := co.(tailmatch := EqualNoCase(token, "TRUE")), fields := next)
    case 2 =>
      if token != "TRUE" && token != "FALSE" then
        r.(co := co.(path := Some(token), spath := Some(Sanitize(token))), fields := next)
      else
        SecureField(r.(co := co.(path := Some("/"), spath := Some("/")), fields := next), token, trusted)
    case 3 => SecureField(r, token, trusted)
    case 4 =>
      var expires := ReadOff(token);
      if expires.None? then r.(bad := true, fields := next)
      else r.(co := co.(expires := expires.value), fields := next)
    case 5 =>
      var prefixes := if HasPrefixNoCase("__Secure-", token) then {SecurePrefix}
                      else if HasPrefixNoCase("__Host-", token) then {HostPrefix} else {};
      r.(co := co.(name := token), prefixes := prefixes, fields := next)
    case 6 => r.(co := co.(value := Some(token)), fields := next)
    case _ => r.(fields := next)
  }

  function TakeFields(r: Reading, tokens: seq<string>, trusted: bool): Reading
    decreases |tokens|
  {
    if tokens == [] || r.bad then r else TakeFields(TakeField(r, tokens[0], trusted), tokens[1..], trusted)
  }

  function Blank(httponly: bool): Reading {
    Reading(Cookie("", None, None, None, None, 0, false, false, false, httponly, 0), 0, false, {})
  }

  function Finish(r: Reading): Option<Line> {
    var r := if r.fields == 6 then r.(co := r.co.(value := Some("")), fields := 7) else r;
    if r.bad || r.fields != 7 then None else Some(Line(r.co, r.prefixes))
  }

  const HTTP_ONLY := "#HttpOnly_"

  function CutLine(s: string): string { Until(Until(s, '\r'), '\n') }

  function ParseLine(line: string, trusted: bool): Option<Line> {
    var httponly := HTTP_ONLY <= line;
    var rest := if httponly then line[|HTTP_ONLY|..] else line;
    if "#" <= rest then None
    else Finish(TakeFields(Blank(httponly), Tokens(CutLine(rest)), trusted))
  }

  lemma {:induction false} UntrustedStaysInsecure(r: Reading, tokens: seq<string>)
    requires !r.co.secure
    ensures var r' := TakeFields(r, tokens, false); !r'.co.secure
    decreases |tokens|
  {
    hide EqualNoCase, HasPrefixNoCase, ReadOff, Sanitize;
    if tokens != [] && !r.bad { UntrustedStaysInsecure(TakeField(r, tokens[0], false), tokens[1..]); }
  }

  /** Over an untrusted channel a line with a secure cookie is bad, and no other line makes one. */
  lemma SecureNeedsTrust(line: string)
    ensures ParseLine(line, false).Some? ==> !ParseLine(line, false).value.parsed.secure
    ensures forall r: Reading, token :: EqualNoCase(token, "TRUE") ==> SecureField(r, token, false).bad
  {
    var httponly := HTTP_ONLY <= line;
    var rest := if httponly then line[|HTTP_ONLY|..] else line;
    UntrustedStaysInsecure(Blank(httponly), Tokens(CutLine(rest)));
  }

  lemma SkipTab(s: string, i: nat)
    requires i < |s| && s[i] == '\t'
    ensures Tokens(s[i..]) == Tokens(s[i + 1..])
  {
    assert s[i..][1..] == s[i + 1..];
  }

  lemma TakeToken(s: string, i: nat, j: nat)
    requires i < j <= |s| && '\t' !in s[i..j] && (j < |s| ==> s[j] == '\t')
    ensures Tokens(s[i..]) == [s[i..j]] + Tokens(s[j..])
  {
    UntilAll(s[i..j], s[j..], '\t');
    assert s[i..] == s[i..j] + s[j..];
    assert s[i..][0] == s[i..j][0];
    assert s[i..][j - i..] == s[j..];
  }

  /** The token that starts at or after position i, and where the search goes on. */
  method NextToken(s: string, i: nat) returns (token: Option<string>, j: nat)
    requires i <= |s|
    ensures i <= j <= |s|
    ensures token.None? ==> Tokens(s[i..]) == []
    ensures token.Some? ==> i < j && Tokens(s[i..]) == [token.value] + Tokens(s[j..])
  {
    hide Tokens, Until;
    j := i;
    while j < |s| && s[j] == '\t'
      invariant i <= j <= |s|
      invariant Tokens(s[j..]) == Tokens(s[i..])
    {
      SkipTab(s, j);
      j := j + 1;
    }
    if j == |s| {
      NoTokens();
      assert s[|s|..] == "";
      return None, j;
    }
    var start := j;
    while j < |s| && s[j] != '\t'
      invariant start <= j <= |s|
      invariant '\t' !in s[start..j]
    {
      j := j + 1;
    }
    token := Some(s[start..j]);
    TakeToken(s, start, j);
    if j < |s| {
      // the delimiter is passed with the token
      SkipTab(s, j);
      j := j + 1;
    }
  }

  lemma NoTokens()
    ensures Tokens("") == []
  {
  }

  /** The branch that reads lines which are not header lines. */
  method ReadLine(line: string, trusted: bool) returns (result: Option<Line>)
    ensures result == ParseLine(line, trusted)
  {
    hide TakeField, Tokens, CutLine;
    var httponly := HTTP_ONLY <= line;
    var rest := if httponly then line[|HTTP_ONLY|..] else line;
    if "#" <= rest { return None; }
    var text := CutLine(rest);
    var r := Blank(httponly);
    var token, at := NextToken(text, 0);
    assert text[0..] == text;
    ghost var all := Tokens(text);
    while token.Some? && !r.bad
      invariant at <= |text|
      invariant token.Some? ==>
          TakeFields(r, [token.value] + Tokens(text[at..]), trusted) == TakeFields(Blank(httponly), all, trusted)
      invariant token.None? ==> r == TakeFields(Blank(httponly), all, trusted)
      decreases token.Some?, |text| - at
    {
      ghost var left := [token.value] + Tokens(text[at..]);
      assert left[1..] == Tokens(text[at..]);
      r := TakeField(r, token.value, trusted);
      token, at := NextToken(text, at);
    }
    if r.fields == 6 {
      r := r.(co := r.co.(value := Some("")), fields := 7);
    }
    if r.bad || r.fields != 7 { return None; }
    result := Some(Line(r.co, r.prefixes));
  }

  /** The first line of a text, its newline included, when it fits the line buffer. */
  function FirstLine(text: string): Option<string> {
    var line := Until(text, '\n');
    if |line| == |text| || |line| + 1 > MAX_COOKIE_LINE - 1 then None else Some(line + ['\n'])
  }

  /** What loading a file adds for its first line: that line is trusted, the jar not running, sessions kept. */
  function LoadFirst(text: string): Option<Cookie> {
    var line := FirstLine(text);
    if line.None? then None
    else
      var parsed := ParseLine(SkipBlanks(line.value), true);
      if parsed.None? || !Admissible(false, false, parsed.value.parsed, parsed.value.prefixes) then None
      else Some(parsed.value.parsed)
  }

  // ---- The round trip

  predicate SameContent(c: Cookie, d: Cookie) {
    && c.domain == d.domain && c.tailmatch == d.tailmatch && c.path == d.path && c.spath == d.spath
    && c.secure == d.secure && c.httponly == d.httponly && c.expires == d.expires
    && c.name == d.name && c.value == d.value
  }

  predicate Clean(s: string) { '\t' !in s && '\r' !in s && '\n' !in s }

  predicate CleanFields(fields: seq<string>) { forall f :: f in fields ==> Clean(f) }

  /** What a caller must know of a cookie to be sure that its line reads back. */
  predicate Storable(co: Cookie) {
    && co.domain.Some? && Clean(co.domain.value)
    && !("." <= co.domain.value)
    && (!co.tailmatch ==>
          co.domain.value != "" && co.domain.value[0] != '#' && (co.httponly || co.domain.value[0] != ' '))
    && co.path.Some? && Clean(co.path.value) && co.path.value !in {"", "TRUE", "FALSE"}
    && co.spath == Some(Sanitize(co.path.value))
    && 0 <= co.expires <= OFF_T_MAX
    && Clean(co.name) && co.name != ""
    && (HasPrefixNoCase("__Secure-", co.name) ==> co.secure)
    && (HasPrefixNoCase("__Host-", co.name) && !HasPrefixNoCase("__Secure-", co.name)
        ==> co.secure && co.path == Some("/") && !co.tailmatch)
    && co.value.Some? && Clean(co.value.value)
    && |Format(co)| + 1 < 5000
  }

  function NonEmpty(fields: seq<string>): seq<string> {
    if fields == [] then []
    else (if fields[0] == "" then [] else [fields[0]]) + NonEmpty(fields[1..])
  }

  /** strtok_r undoes the joining of tab-free columns, except that it loses the empty ones. */
  lemma {:induction false} TokensOfJoin(fields: seq<string>)
    requires fields != [] && forall f :: f in fields ==> '\t' !in f
    ensures Tokens(Join(fields)) == NonEmpty(fields)
    decreases |fields|
  {
    var f := fields[0];
    if |fields| == 1 {
      assert fields[1..] == [];
      if f != "" {
        UntilAll(f, [], '\t');
        assert f + [] == f && f[|f|..] == [];
      }
    } else {
      var rest := ['\t'] + Join(fields[1..]);
      assert Join(fields) == f + rest;
      assert rest[1..] == Join(fields[1..]);
      TokensOfJoin(fields[1..]);
      if f == "" {
        assert f + rest == rest;
      } else {
        UntilAll(f, rest, '\t');
        assert (f + rest)[|f|..] == rest;
      }
    }
  }


  // ---- What reading a line can yield

  lemma {:induction false} TokensAreColumns(s: string)
    ensures forall t :: t in Tokens(s) ==> t != "" && '\t' !in t && (forall c :: c in t ==> c in s)
    decreases |s|
  {
    if s != [] {
      if s[0] == '\t' {
        TokensAreColumns(s[1..]);
      } else {
        TokensAreColumns(s[|Until(s, '\t')|..]);
      }
    }
  }

  lemma CutLineTokens(s: string)
    ensures forall t :: t in Tokens(CutLine(s)) ==> t != "" && Clean(t)
  {
    TokensAreColumns(CutLine(s));
  }

  /** The columns read so far are what a token can be. */
  ghost predicate Plausible(r: Reading) {
    && (r.fields > 0 ==> r.co.domain.Some? && Clean(r.co.domain.value))
    && (r.fields > 2 ==> r.co.path.Some? && Clean(r.co.path.value) && r.co.path.value !in {"", "TRUE", "FALSE"})
    && (r.fields > 5 ==> Clean(r.co.name) && r.co.name != "")
    && (r.fields > 6 ==> r.co.value.Some? && Clean(r.co.value.value))
  }

  lemma TakeFieldPlausible(r: Reading, token: string)
    requires Plausible(r) && token != "" && Clean(token)
    ensures Plausible(TakeField(r, token, true))
    ensures r.fields > 0 ==> TakeField(r, token, true).co.domain == r.co.domain
    ensures TakeField(r, token, true).co.httponly == r.co.httponly && TakeField(r, token, true).fields > 0
  {
    hide EqualNoCase, HasPrefixNoCase, ReadOff, Sanitize;
  }

  lemma {:induction false} TakeFieldsPlausible(r: Reading, tokens: seq<string>)
    requires Plausible(r) && forall t :: t in tokens ==> t != "" && Clean(t)
    ensures var r' := TakeFields(r, tokens, true);
            && Plausible(r') && r'.co.httponly == r.co.httponly
            && (r.fields > 0 ==> r'.co.domain == r.co.domain)
    decreases |tokens|
  {
    hide TakeField, Plausible;
    if tokens != [] && !r.bad {
      assert tokens[0] in tokens && forall t :: t in tokens[1..] ==> t in tokens;
      TakeFieldPlausible(r, tokens[0]);
      TakeFieldsPlausible(TakeField(r, tokens[0], true), tokens[1..]);
    }
  }

  function Undotted(token: string): string {
    if "." <= token then token[1..] else token
  }

  /** The first column is the domain; flags of the line are those of its start. */
  lemma TokensResult(httponly: bool, tokens: seq<string>, result: Line)
    requires forall t :: t in tokens ==> t != "" && Clean(t)
    requires Finish(TakeFields(Blank(httponly), tokens, true)) == Some(result)
    ensures tokens != []
    ensures var co := result.parsed;
            && co.domain == Some(Undotted(tokens[0])) && Clean(co.domain.value) && co.httponly == httponly
            && co.path.Some? && Clean(co.path.value) && co.path.value !in {"", "TRUE", "FALSE"}
            && Clean(co.name) && co.name != ""
            && co.value.Some? && Clean(co.value.value)
  {
    hide TakeField;
    TakeFieldsPlausible(Blank(httponly), tokens);
    if tokens != [] {
      assert tokens[0] in tokens && forall t :: t in tokens[1..] ==> t in tokens;
      TakeFieldPlausible(Blank(httponly), tokens[0]);
      TakeFieldsPlausible(TakeField(Blank(httponly), tokens[0], true), tokens[1..]);
      FirstFieldIsDomain(httponly, tokens[0]);
    }
  }

  lemma FirstFieldIsDomain(httponly: bool, token: string)
    ensures TakeField(Blank(httponly), token, true).co.domain == Some(Undotted(token))
  {
  }

  // ---- Reading a joined line

  function PrefixesOf(name: string): set<Prefix> {
    if HasPrefixNoCase("__Secure-", name) then {SecurePrefix}
    else if HasPrefixNoCase("__Host-", name) then {HostPrefix} else {}
  }

  lemma TakeOne(r: Reading, token: string, tokens: seq<string>)
    requires !r.bad
    ensures TakeFields(r, [token] + tokens, true) == TakeFields(TakeField(r, token, true), tokens, true)
  {
    assert ([token] + tokens)[1..] == tokens;
  }

  lemma ReadFlag(b: bool)
    ensures EqualNoCase(Flag(b), "TRUE") == b
  {
    assert |Upper("FALSE")| != |Upper("TRUE")|;
  }

  /** The first three columns. */
  lemma ReadThree(first: string, co: Cookie, rest: seq<string>)
    requires first != "" && co.path.Some? && co.path.value !in {"", "TRUE", "FALSE"}
    ensures TakeFields(Blank(co.httponly), [first, Flag(co.tailmatch), co.path.value] + rest, true) ==
              TakeFields(Reading(Cookie("", None, co.path, Some(Sanitize(co.path.value)), Some(Undotted(first)), 0,
                                        co.tailmatch, false, false, co.httponly, 0), 3, false, {}), rest, true)
  {
    hide EqualNoCase, Sanitize, TakeFields;
    var path := co.path.value;
    ReadFlag(co.tailmatch);
    var r0 := Blank(co.httponly);
    var r1 := TakeField(r0, first, true);
    var r2 := TakeField(r1, Flag(co.tailmatch), true);
    TakeOne(r0, first, [Flag(co.tailmatch), path] + rest);
    TakeOne(r1, Flag(co.tailmatch), [path] + rest);
    TakeOne(r2, path, rest);
    assert [first] + ([Flag(co.tailmatch), path] + rest) == [first, Flag(co.tailmatch), path] + rest;
    assert [Flag(co.tailmatch)] + ([path] + rest) == [Flag(co.tailmatch), path] + rest;
  }

  /** The secure flag and the expiry. */
  lemma ReadTwo(r: Reading, co: Cookie, rest: seq<string>)
    requires r.fields == 3 && !r.bad
    ensures TakeFields(r, [Flag(co.secure), Print(co.expires)] + rest, true) ==
              if 0 <= co.expires <= OFF_T_MAX
              then TakeFields(r.(co := r.co.(secure := co.secure, expires := co.expires), fields := 5), rest, true)
              else r.(co := r.co.(secure := co.secure), fields := 5, bad := true)
  {
    hide EqualNoCase, ReadOff, Print, TakeFields;
    ReadFlag(co.secure);
    ReadPrinted(co.expires);
    var r4 := TakeField(r, Flag(co.secure), true);
    TakeOne(r, Flag(co.secure), [Print(co.expires)] + rest);
    TakeOne(r4, Print(co.expires), rest);
    assert [Flag(co.secure)] + ([Print(co.expires)] + rest) == [Flag(co.secure), Print(co.expires)] + rest;
    if !(0 <= co.expires <= OFF_T_MAX) { StopOnBad(TakeField(r4, Print(co.expires), true), rest); }
  }

  /** Columns in order, none missing but perhaps the last, give back the cookie they were made of. */
  lemma ReadColumns(first: string, co: Cookie)
    requires first != "" && co.path.Some? && co.path.value !in {"", "TRUE", "FALSE"} && co.name != "" && co.value.Some?
    ensures Finish(TakeFields(Blank(co.httponly), NonEmpty([first] + OtherFields(co)), true))
         == if 0 <= co.expires <= OFF_T_MAX then
              Some(Line(Cookie(co.name, co.value, co.path, Some(Sanitize(co.path.value)), Some(Undotted(first)),
                  co.expires,
                               co.tailmatch, co.secure, false, co.httponly, 0), PrefixesOf(co.name)))
            else None
  {
    hide EqualNoCase, HasPrefixNoCase, Sanitize, Print, TakeFields, NonEmpty, OtherFields;
    var path, name, value := co.path.value, co.name, co.value.value;
    var last := if value == "" then [] else [value];
    ColumnsKept(first, co, last);
    var rest := [Flag(co.secure), Print(co.expires)] + ([name] + last);
    assert [first, Flag(co.tailmatch), path] + rest
        == [first, Flag(co.tailmatch), path, Flag(co.secure), Print(co.expires), name] + last;
    ReadThree(first, co, rest);
    var r3 := Reading(Cookie("", None, co.path, Some(Sanitize(path)), Some(Undotted(first)), 0,
                             co.tailmatch, false, false, co.httponly, 0), 3, false, {});
    ReadTwo(r3, co, [name] + last);
    if 0 <= co.expires <= OFF_T_MAX {
      ReadLast(r3.(co := r3.co.(secure := co.secure, expires := co.expires), fields := 5), name, value, last);
    }
  }

  lemma StopOnBad(r: Reading, tokens: seq<string>)
    requires r.bad
    ensures TakeFields(r, tokens, true) == r
  {
  }

  lemma ReadLast(r: Reading, name: string, value: string, last: seq<string>)
    requires r.fields == 5 && !r.bad && last == if value == "" then [] else [value]
    ensures Finish(TakeFields(r, [name] + last, true))
         == Some(Line(r.co.(name := name, value := Some(value)), PrefixesOf(name)))
  {
    hide HasPrefixNoCase;
    var r' := TakeField(r, name, true);
    TakeOne(r, name, last);
    if value != "" {
      TakeOne(r', value, []);
      assert [value] + [] == last;
    }
  }

  lemma ColumnsKept(first: string, co: Cookie, last: seq<string>)
    requires first != "" && co.path.Some? && co.path.value != "" && co.name != "" && co.value.Some?
    requires last == if co.value.value == "" then [] else [co.value.value]
    ensures NonEmpty([first] + OtherFields(co))
         == [first, Flag(co.tailmatch), co.path.value, Flag(co.secure), Print(co.expires), co.name] + last
  {
    hide Print, NonEmpty, Flag;
    var value := co.value.value;
    var six := [first, Flag(co.tailmatch), co.path.value, Flag(co.secure), Print(co.expires), co.name];
    assert [first] + OtherFields(co) == six + [value];
    PrintedIsClean(co.expires);
    FlagIsSomething(co.tailmatch);
    FlagIsSomething(co.secure);
    AllKept(six);
    KeptApart(six, [value]);
    OneKept(value);
  }

  lemma FlagIsSomething(b: bool)
    ensures Flag(b) != ""
  {
  }

  lemma OneKept(field: string)
    ensures NonEmpty([field]) == if field == "" then [] else [field]
  {
  }

  lemma {:induction false} AllKept(fields: seq<string>)
    requires forall f :: f in fields ==> f != ""
    ensures NonEmpty(fields) == fields
  {
    if fields != [] {
      assert fields[0] in fields && forall f :: f in fields[1..] ==> f in fields;
      AllKept(fields[1..]);
    }
  }

  lemma {:induction false} KeptApart(a: seq<string>, b: seq<string>)
    ensures NonEmpty(a + b) == NonEmpty(a) + NonEmpty(b)
  {
    if a == [] {
      assert a + b == b;
    } else {
      assert (a + b)[1..] == a[1..] + b;
      KeptApart(a[1..], b);
    }
  }

  lemma PrintedIsClean(n: int)
    ensures Print(n) != "" && Clean(Print(n))
  {
    var d := Digits(if n < 0 then -n else n);
    forall c | c in d ensures c != '\t' && c != '\r' && c != '\n' {
      assert IsDigit(c);
    }
  }

  // ---- From the line written to its columns

  lemma {:induction false} JoinIsClean(fields: seq<string>)
    requires fields != [] && CleanFields(fields)
    ensures '\r' !in Join(fields) && '\n' !in Join(fields)
    decreases |fields|
  {
    assert fields[0] in fields;
    if |fields| > 1 {
      assert forall f :: f in fields[1..] ==> f in fields;
      JoinIsClean(fields[1..]);
    }
  }

  lemma {:induction false} SkipBlanksShape(s: string)
    ensures |SkipBlanks(s)| <= |s|
    ensures |SkipBlanks(s)| == |s| <==> SkipBlanks(s) == s
    ensures SkipBlanks(s) != "" ==> !IsBlank(SkipBlanks(s)[0])
    ensures forall c :: c in SkipBlanks(s) ==> c in s
  {
    if s != "" { SkipBlanksShape(s[1..]); }
  }

  /** The first column as the reader sees it. */
  function FirstColumn(co: Cookie): string {
    if co.httponly then DomainField(co) else SkipBlanks(DomainField(co))
  }

  /** What is left of the line once its flag prefix and leading blanks are gone. */
  function Body(co: Cookie): string {
    if FirstColumn(co) == "" && !co.httponly then Join(OtherFields(co)) else Join([FirstColumn(co)] + OtherFields(co))
  }

  lemma BodyOfLine(co: Cookie)
    ensures SkipBlanks(Format(co) + "\n") == (if co.httponly then HTTP_ONLY else "") + Body(co) + "\n"
  {
    hide DomainField, Flag, Print, SkipBlanks;
    var d, others := DomainField(co), OtherFields(co);
    var all := [d] + others;
    assert all[1..] == others;
    var rest := ['\t'] + Join(others) + "\n";
    if co.httponly {
      SkipBlanksStop(Format(co) + "\n");
    } else {
      assert Format(co) + "\n" == d + rest;
      SkipBlanksOf(d, rest);
      if SkipBlanks(d) == "" {
        JoinStarts(co);
        assert (Join(others) + "\n")[0] == Join(others)[0];
        SkipBlanksTab(Join(others) + "\n");
        assert rest == ['\t'] + (Join(others) + "\n");
      } else {
        assert ([SkipBlanks(d)] + others)[1..] == others;
      }
    }
  }

  lemma SkipBlanksStop(s: string)
    requires s != "" && !IsBlank(s[0])
    ensures SkipBlanks(s) == s
  {
  }

  lemma SkipBlanksTab(s: string)
    requires s != "" && !IsBlank(s[0])
    ensures SkipBlanks(['\t'] + s) == s
  {
    assert (['\t'] + s)[1..] == s;
  }

  lemma JoinStarts(co: Cookie)
    ensures Join(OtherFields(co)) != "" && Join(OtherFields(co))[0] in {'T', 'F'}
  {
  }

  ghost predicate CleanCookie(co: Cookie) {
    CleanFields([DomainField(co)] + OtherFields(co))
  }

  lemma BodyIsClean(co: Cookie)
    requires CleanCookie(co)
    ensures '\r' !in Body(co) && '\n' !in Body(co)
    ensures Tokens(Body(co)) == NonEmpty([FirstColumn(co)] + OtherFields(co))
  {
    hide DomainField, OtherFields, Tokens, SkipBlanks;
    var others := OtherFields(co);
    var all := [DomainField(co)] + others;
    var seen := [FirstColumn(co)] + others;
    assert DomainField(co) in all && forall f :: f in others ==> f in all;
    SkipBlanksShape(DomainField(co));
    assert others != [] by { HasColumns(co); }
    assert CleanFields(seen) && CleanFields(others);
    JoinIsClean(seen);
    JoinIsClean(others);
    TokensOfJoin(seen);
    TokensOfJoin(others);
    assert seen[1..] == others;
  }

  lemma HasColumns(co: Cookie)
    ensures OtherFields(co) != []
  {
  }

  /** The whole line holds no line end, so the reader gets all of it. */
  lemma LineIsDelivered(co: Cookie)
    requires CleanCookie(co)
    ensures FirstLine(Format(co) + "\n")
         == if |Format(co)| + 1 <= MAX_COOKIE_LINE - 1 then Some(Format(co) + "\n") else None
  {
    hide DomainField, OtherFields, Join;
    var all := [DomainField(co)] + OtherFields(co);
    JoinIsClean(all);
    UntilAll(Format(co), "\n", '\n');
  }

  lemma ParseBody(co: Cookie)
    requires CleanCookie(co) && !("#" <= Body(co))
    ensures ParseLine((if co.httponly then HTTP_ONLY else "") + Body(co) + "\n", true)
         == Finish(TakeFields(Blank(co.httponly), NonEmpty([FirstColumn(co)] + OtherFields(co)), true))
  {
    hide Body, Tokens, TakeFields, NonEmpty, OtherFields, FirstColumn, DomainField, Until;
    var line := (if co.httponly then HTTP_ONLY else "") + Body(co) + "\n";
    var rest := Body(co) + "\n";
    BodyIsClean(co);
    UntilAll(Body(co), "\n", '\n');
    UntilIsAll(rest, '\r');
    if co.httponly {
      assert line == HTTP_ONLY + rest;
      assert line[|HTTP_ONLY|..] == rest;
    } else {
      assert line == rest;
    }
    assert !("#" <= rest) && !(HTTP_ONLY <= rest);
  }

  lemma HashIsComment(co: Cookie)
    requires "#" <= Body(co) && co.httponly
    ensures ParseLine(HTTP_ONLY + Body(co) + "\n", true).None?
  {
    hide Body, TakeFields, Tokens;
    var rest := Body(co) + "\n";
    assert HTTP_ONLY + Body(co) + "\n" == HTTP_ONLY + rest;
    assert (HTTP_ONLY + rest)[|HTTP_ONLY|..] == rest && "#" <= rest;
  }

  lemma ParseHash(co: Cookie, result: Line)
    requires "#" <= Body(co)
    requires ParseLine((if co.httponly then HTTP_ONLY else "") + Body(co) + "\n", true) == Some(result)
    ensures result.parsed.httponly != co.httponly
  {
    hide Body, TakeFields, Tokens, ParseLine;
    if co.httponly {
      HashIsComment(co);
    } else {
      var line := Body(co) + "\n";
      assert "" + Body(co) + "\n" == line && "#" <= line;
      ParseUnflaggedHash(line, result);
    }
  }

  lemma ParseUnflaggedHash(line: string, result: Line)
    requires "#" <= line && ParseLine(line, true) == Some(result)
    ensures result.parsed.httponly
  {
    hide TakeFields, Tokens;
    var rest := line[|HTTP_ONLY|..];
    CutLineTokens(rest);
    TokensResult(true, Tokens(CutLine(rest)), result);
  }

  const HEADER := "Set-Cookie:"

  /** The line starts like a header, which another branch reads. */
  predicate HeaderLine(line: string) { HasPrefixNoCase(HEADER, line) }

  // ---- The round trip, both ways

  lemma StorableIsClean(co: Cookie)
    requires Storable(co)
    ensures CleanCookie(co) && Undotted(FirstColumn(co)) == co.domain.value
    ensures FirstColumn(co) != "" && !("#" <= Body(co))
  {
    hide Print, HasPrefixNoCase, Format, Sanitize;
    PrintedIsClean(co.expires);
    var d := DomainField(co);
    if !co.httponly { SkipBlanksStop(d); }
    assert Body(co)[0] == d[0];
  }

  lemma StorableReadsBack(co: Cookie)
    requires Storable(co)
    ensures var r := LoadFirst(Format(co) + "\n");
            r.Some? && SameContent(r.value, co)
  {
    hide Format, Body, FirstColumn, DomainField, OtherFields, Sanitize, TakeFields, ParseLine, HasPrefixNoCase;
    StorableIsClean(co);
    LineIsDelivered(co);
    BodyOfLine(co);
    ParseBody(co);
    ReadColumns(FirstColumn(co), co);
  }

  /** A cookie that came back holds only what a line can hold. */
  lemma ReadBackIsClean(co: Cookie)
    requires co.domain.Some? && Clean(co.domain.value) && co.path.Some? && Clean(co.path.value) && Clean(co.name)
    requires co.value.Some? && Clean(co.value.value)
    ensures CleanCookie(co)
  {
    hide Print;
    PrintedIsClean(co.expires);
  }

  lemma ParsedIsClean(line: string, parsed: Line)
    requires ParseLine(line, true) == Some(parsed)
    ensures var co := parsed.parsed;
            && co.domain.Some? && Clean(co.domain.value)
            && co.path.Some? && Clean(co.path.value) && co.path.value !in {"", "TRUE", "FALSE"}
            && Clean(co.name) && co.name != ""
            && co.value.Some? && Clean(co.value.value)
  {
    hide TakeFields, Tokens;
    var rest := if HTTP_ONLY <= line then line[|HTTP_ONLY|..] else line;
    CutLineTokens(rest);
    TokensResult(HTTP_ONLY <= line, Tokens(CutLine(rest)), parsed);
  }

  /** If the first column gives back the domain, the domain is one that a first column can hold. */
  lemma DomainCondition(co: Cookie)
    requires co.domain.Some? && Clean(co.domain.value) && !("#" <= Body(co))
    requires var seen := FirstColumn(co);
             co.domain.value == Undotted(if seen == "" then Flag(co.tailmatch) else seen)
    ensures FirstColumn(co) != "" && Undotted(FirstColumn(co)) == co.domain.value
    ensures !("." <= co.domain.value)
    ensures !co.tailmatch ==>
              co.domain.value != "" && co.domain.value[0] != '#' && (co.httponly || co.domain.value[0] != ' ')
  {
    hide Print, OtherFields;
    var d := DomainField(co);
    SkipBlanksShape(d);
    SkipBlanksStop("FALSE");
    if co.tailmatch {
      SkipBlanksStop(d);
    } else if FirstColumn(co) == "" {
      assert false;
    } else {
      assert FirstColumn(co) == d == co.domain.value;
      HasColumns(co);
      assert Body(co)[0] == d[0];
    }
  }

  lemma FirstToken(co: Cookie)
    ensures NonEmpty([FirstColumn(co)] + OtherFields(co)) != []
    ensures NonEmpty([FirstColumn(co)] + OtherFields(co))[0]
         == if FirstColumn(co) == "" then Flag(co.tailmatch) else FirstColumn(co)
  {
    hide FirstColumn, Print;
    var s := [FirstColumn(co)] + OtherFields(co);
    assert s[1..][0] == Flag(co.tailmatch);
  }

  lemma ReadBackIsStorable(co: Cookie)
    requires var r := LoadFirst(Format(co) + "\n");
             r.Some? && SameContent(r.value, co)
    ensures Storable(co)
  {
    hide Format, Body, FirstColumn, DomainField, OtherFields, Sanitize, TakeFields, ParseLine, HasPrefixNoCase,
        NonEmpty, FirstLine;
    var line := FirstLine(Format(co) + "\n").value;
    var parsed := ParseLine(SkipBlanks(line), true).value;
    ParsedIsClean(SkipBlanks(line), parsed);
    ReadBackIsClean(co);
    LineIsDelivered(co);
    BodyOfLine(co);
    if "#" <= Body(co) {
      ParseHash(co, parsed);
      assert false;
    }
    ParseBody(co);
    FirstToken(co);
    var tokens := NonEmpty([FirstColumn(co)] + OtherFields(co));
    BodyIsClean(co);
    TokensAreColumns(Body(co));
    forall t | t in tokens ensures t != "" && Clean(t) {}
    TokensResult(co.httponly, tokens, parsed);
    DomainCondition(co);
    ReadColumns(FirstColumn(co), co);
  }

  /** A cookie's line reads back as the same cookie exactly when the cookie is storable. */
  lemma RoundTrip(co: Cookie)
    requires !HeaderLine(Format(co))
    ensures (var r := LoadFirst(Format(co) + "\n"); r.Some? && SameContent(r.value, co)) <==> Storable(co)
  {
    hide LoadFirst, Format, Storable;
    if Storable(co) { StorableReadsBack(co); }
    var r := LoadFirst(Format(co) + "\n");
    if r.Some? && SameContent(r.value, co) { ReadBackIsStorable(co); }
  }
}
