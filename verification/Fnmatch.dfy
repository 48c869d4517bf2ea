/** The built-in file name matcher and the language of patterns it decides. */
module Fnmatch {
  import opened GlobBrackets
  import opened GlobSet

  // ---- Patterns and what they mean

  datatype Elem = Lit(c: char) | AnyOne | Star | InBrackets(cs: Charset) | Unclosed

  /** The pattern from position i on, element by element; an unclosed set is the last of them. */
  function Elems(p: Octets, i: nat): seq<Elem>
    decreases |p| - i
  {
    if i >= |p| then []
    else match p[i]
      case '*' => [Star] + Elems(p, i + 1)
      case '?' => [AnyOne] + Elems(p, i + 1)
      case '\\' => if i + 1 < |p| then [Lit(p[i + 1])] + Elems(p, i + 2) else [Lit('\\')]
      case '[' =>
        var br := ParseSet(p, i + 1);
        if br.None? then [Unclosed] else [InBrackets(br.value.cs)] + Elems(p, br.value.end + 1)
      case c => [Lit(c)] + Elems(p, i + 1)
  }

  predicate OneChar(e: Elem, w: string) {
    |w| == 1 && 0 < w[0] as int < 256
    && match e
       case Lit(c) => w[0] == c
       case AnyOne => true
       case InBrackets(cs) => InSet(cs, w[0])
       case Star => true
       case Unclosed => false
  }

  /** The strings an element stands for. */
  predicate Stands(e: Elem, w: string) { e == Star || OneChar(e, w) }

  function Joined(parts: seq<string>): string {
    if parts == [] then "" else parts[0] + Joined(parts[1..])
  }

  /** The glob language: a string that splits into one piece for each element. */
  ghost predicate InLanguage(es: seq<Elem>, s: string) {
    exists parts: seq<string> :: Splits(es, s, parts)
  }

  ghost predicate Splits(es: seq<Elem>, s: string, parts: seq<string>) {
    |parts| == |es| && Joined(parts) == s && forall i :: 0 <= i < |es| ==> Stands(es[i], parts[i])
  }

  /** How many groups of consecutive '*' and '?' hold a '*'; `open` when such a group is being read. */
  function StarGroups(es: seq<Elem>, open: bool): nat {
    if es == [] then 0
    else match es[0]
      case Star => (if open then 0 else 1) + StarGroups(es[1..], true)
      case AnyOne => StarGroups(es[1..], open)
      case _ => StarGroups(es[1..], false)
  }

  // ---- The language, one element at a time

  ghost predicate Matches(es: seq<Elem>, s: string)
    decreases |es|
  {
    if es == [] then s == ""
    else if es[0] == Star then exists k :: 0 <= k <= |s| && Matches(es[1..], s[k..])
    else s != "" && OneChar(es[0], s[..1]) && Matches(es[1..], s[1..])
  }

  lemma {:induction false} MatchesIsSplit(es: seq<Elem>, s: string)
    requires Matches(es, s)
    ensures InLanguage(es, s)
    decreases |es|
  {
    if es == [] {
      assert Splits(es, s, []);
    } else {
      var k := 1;
      if es[0] == Star { k :| 0 <= k <= |s| && Matches(es[1..], s[k..]); }
      MatchesIsSplit(es[1..], s[k..]);
      var parts :| Splits(es[1..], s[k..], parts);
      var all := [s[..k]] + parts;
      assert all[1..] == parts && s[..k] + s[k..] == s;
      assert forall i :: 1 <= i < |es| ==> Stands(es[i], all[i]) by {
        assert forall i :: 1 <= i < |es| ==> es[i] == es[1..][i - 1] && all[i] == parts[i - 1];
      }
      assert Splits(es, s, all);
    }
  }

  lemma {:induction false} SplitMatches(es: seq<Elem>, s: string, parts: seq<string>)
    requires Splits(es, s, parts)
    ensures Matches(es, s)
    decreases |es|
  {
    if es != [] {
      var k := |parts[0]|;
      assert Stands(es[0], parts[0]);
      assert s[..k] == parts[0] && s[k..] == Joined(parts[1..]);
      forall i | 0 <= i < |es| - 1 ensures Stands(es[1..][i], parts[1..][i]) {
        assert Stands(es[i + 1], parts[i + 1]);
      }
      assert Splits(es[1..], s[k..], parts[1..]);
      SplitMatches(es[1..], s[k..], parts[1..]);
    }
  }

  /** The two readings of a pattern agree. */
  lemma MatchesIsLanguage(es: seq<Elem>, s: string)
    ensures Matches(es, s) <==> InLanguage(es, s)
  {
    if Matches(es, s) { MatchesIsSplit(es, s); }
    if InLanguage(es, s) {
      var parts :| Splits(es, s, parts);
      SplitMatches(es, s, parts);
    }
  }

  // ---- What the matcher decides

  /** Within the star budget, and in the language. */
  ghost predicate Accepts(p: Octets, i: nat, s: Octets, j: nat, maxstars: nat)
    requires j <= |s|
  {
    StarGroups(Elems(p, i), false) <= maxstars && Matches(Elems(p, i), s[j..])
  }

  /** The same with a star already read: any text may come first. */
  ghost predicate AcceptsAfterStar(p: Octets, i: nat, s: Octets, j: nat, maxstars: nat)
    requires j <= |s|
  {
    StarGroups(Elems(p, i), true) <= maxstars && Matches([Star] + Elems(p, i), s[j..])
  }

  lemma StepOne(p: Octets, i: nat, next: nat, e: Elem, s: Octets, j: nat, maxstars: nat)
    requires Elems(p, i) == [e] + Elems(p, next) && e != Star && j <= |s|
    ensures j < |s| && OneChar(e, s[j..j + 1]) && e != AnyOne ==>
              (Accepts(p, i, s, j, maxstars) <==> Accepts(p, next, s, j + 1, maxstars))
    ensures j < |s| && e == AnyOne ==>
              (Accepts(p, i, s, j, maxstars) <==> Accepts(p, next, s, j + 1, maxstars))
    ensures j == |s| || !OneChar(e, s[j..j + 1]) ==> !Accepts(p, i, s, j, maxstars)
  {
    hide Elems;
    var es := Elems(p, i);
    assert es[1..] == Elems(p, next);
    if j < |s| {
      assert s[j..][..1] == s[j..j + 1] && s[j..][1..] == s[j + 1..];
    }
  }

  lemma StepStar(p: Octets, i: nat, s: Octets, j: nat, maxstars: nat)
    requires i < |p| && p[i] == '*' && j <= |s|
    ensures Accepts(p, i, s, j, maxstars) <==> maxstars > 0 && AcceptsAfterStar(p, i + 1, s, j, maxstars - 1)
  {
    assert Elems(p, i)[1..] == Elems(p, i + 1);
  }

  /** A second star in a group adds nothing. */
  lemma StepStarAgain(p: Octets, i: nat, s: Octets, j: nat, maxstars: nat)
    requires i < |p| && p[i] == '*' && j <= |s|
    ensures AcceptsAfterStar(p, i, s, j, maxstars) <==> AcceptsAfterStar(p, i + 1, s, j, maxstars)
  {
    var rest := Elems(p, i + 1);
    assert Elems(p, i) == [Star] + rest && Elems(p, i)[1..] == rest;
    assert [Star] + Elems(p, i) == [Star, Star] + rest;
    StarStar(rest, s[j..]);
  }

  lemma StarStar(rest: seq<Elem>, s: string)
    ensures Matches([Star, Star] + rest, s) <==> Matches([Star] + rest, s)
  {
    var one, two := [Star] + rest, [Star, Star] + rest;
    assert two[1..] == one && one[1..] == rest;
    if Matches(two, s) {
      var k :| 0 <= k <= |s| && Matches(one, s[k..]);
      var m :| 0 <= m <= |s[k..]| && Matches(rest, s[k..][m..]);
      assert s[k..][m..] == s[k + m..];
    }
    if Matches(one, s) {
      assert s[0..] == s;
    }
  }

  /** A '?' in a group takes one character before the rest of the group. */
  lemma StepQuestion(p: Octets, i: nat, s: Octets, j: nat, maxstars: nat)
    requires i < |p| && p[i] == '?' && j <= |s|
    ensures AcceptsAfterStar(p, i, s, j, maxstars) <==> j < |s| && AcceptsAfterStar(p, i + 1, s, j + 1, maxstars)
  {
    var rest := Elems(p, i + 1);
    assert Elems(p, i) == [AnyOne] + rest && Elems(p, i)[1..] == rest;
    assert StarGroups(Elems(p, i), true) == StarGroups(rest, true);
    assert [Star] + Elems(p, i) == [Star, AnyOne] + rest;
    var tail := s[j..];
    assert forall k :: 0 <= k < |tail| ==> tail[k] == s[j + k];
    hide Elems, StarGroups, Matches;
    StarQuestion(rest, tail);
    if j < |s| { assert tail[1..] == s[j + 1..]; } else { assert tail == ""; }
  }

  lemma StarQuestion(rest: seq<Elem>, s: string)
    requires forall k :: 0 <= k < |s| ==> 0 < s[k] as int < 256
    ensures Matches([Star, AnyOne] + rest, s) <==> s != "" && Matches([Star] + rest, s[1..])
  {
    var one, two := [Star] + rest, [Star, AnyOne] + rest;
    assert two[1..] == [AnyOne] + rest && ([AnyOne] + rest)[1..] == rest && one[1..] == rest;
    if Matches(two, s) {
      var k :| 0 <= k <= |s| && Matches([AnyOne] + rest, s[k..]);
      assert s[k..][1..] == s[1..][k..];
    }
    if s != "" && Matches(one, s[1..]) {
      var k :| 0 <= k <= |s| - 1 && Matches(rest, s[1..][k..]);
      assert s[k..][1..] == s[1..][k..];
      assert OneChar(AnyOne, s[k..][..1]);
      assert Matches([AnyOne] + rest, s[k..]);
    }
  }

  /** After a group, some tail of the text must match what follows; not the empty one, for that needs a character. */
  lemma StepSearch(p: Octets, i: nat, s: Octets, j: nat, maxstars: nat)
    requires i < |p| && p[i] != '*' && p[i] != '?' && j <= |s|
    ensures AcceptsAfterStar(p, i, s, j, maxstars) <==> exists k :: j <= k < |s| && Accepts(p, i, s, k, maxstars)
  {
    var es := Elems(p, i);
    assert es != [] && es[0] != Star && es[0] != AnyOne;
    assert StarGroups(es, true) == StarGroups(es, false);
    assert ([Star] + es)[1..] == es;
    hide Elems, StarGroups;
    if AcceptsAfterStar(p, i, s, j, maxstars) {
      var k :| 0 <= k <= |s[j..]| && Matches(es, s[j..][k..]);
      assert s[j..][k..] == s[j + k..];
      assert Accepts(p, i, s, j + k, maxstars);
      assert s[|s|..] == "";
    }
    if k :| j <= k < |s| && Accepts(p, i, s, k, maxstars) {
      assert s[j..][k - j..] == s[k..];
    }
  }

  datatype MatchResult = CURL_FNMATCH_MATCH | CURL_FNMATCH_NOMATCH

  /** The matcher; it calls itself at stars only, each time with a smaller budget. */
  method Loop(p: Octets, pattern: nat, s: Octets, str: nat, maxstars: nat) returns (r: MatchResult)
    requires pattern <= |p| && str <= |s|
    ensures r == CURL_FNMATCH_MATCH <==> Accepts(p, pattern, s, str, maxstars)
    decreases maxstars
  {
    hide Elems, StarGroups, Matches, OneChar, InSet;
    var i: nat, j: nat := pattern, str;
    var charset := new bool[CHSET_SIZE](_ => false);
    while true
      invariant i <= |p| && j <= |s|
      invariant Accepts(p, i, s, j, maxstars) <==> Accepts(p, pattern, s, str, maxstars)
      decreases |p| - i
    {
      if i == |p| {
        AtEnd(p, i, s, j, maxstars);
        return if j < |s| then CURL_FNMATCH_NOMATCH else CURL_FNMATCH_MATCH;
      }
      match p[i] {
        case '*' =>
          StepStar(p, i, s, j, maxstars);
          if maxstars == 0 { return CURL_FNMATCH_NOMATCH; }
          r := SkipGroup(p, i + 1, s, j, maxstars);
          return;
        case '?' =>
          StepAny(p, i, s, j, maxstars);
          if j == |s| { return CURL_FNMATCH_NOMATCH; }
          j := j + 1;
          i := i + 1;
        case '\\' =>
          var c, next := StepEscape(p, i, s, j, maxstars);
          if At(p, i + 1) != '\0' { i := i + 1; }
          if At(s, j) != p[i] { return CURL_FNMATCH_NOMATCH; }
          j := j + 1;
          i := i + 1;
        case '[' =>
          var ok, end := SetCharset(p, i + 1, charset);
          StepSet(p, i, s, j, maxstars);
          if !ok || j == |s| || !InSet(charset[..], s[j]) { return CURL_FNMATCH_NOMATCH; }
          i := end + 1;
          j := j + 1;
        case _ =>
          StepLiteral(p, i, s, j, maxstars);
          if At(s, j) != p[i] { return CURL_FNMATCH_NOMATCH; }
          j := j + 1;
          i := i + 1;
      }
    }
  }

  /** Behind a star: the rest of the group, then every place where the rest of the pattern may match. */
  method SkipGroup(p: Octets, pattern: nat, s: Octets, str: nat, maxstars: nat) returns (r: MatchResult)
    requires pattern <= |p| && str <= |s| && maxstars > 0
    ensures r == CURL_FNMATCH_MATCH <==> AcceptsAfterStar(p, pattern, s, str, maxstars - 1)
    decreases maxstars, 0
  {
    hide Elems, StarGroups, Matches, Accepts, AcceptsAfterStar;
    var i: nat, j: nat := pattern, str;
    while true
      invariant i <= |p| && j <= |s|
      invariant AcceptsAfterStar(p, i, s, j, maxstars - 1) <==> AcceptsAfterStar(p, pattern, s, str, maxstars - 1)
      decreases |p| - i
    {
      if i == |p| {
        StarAtEnd(p, i, s, j, maxstars - 1);
        return CURL_FNMATCH_MATCH;
      }
      if p[i] == '?' {
        StepQuestion(p, i, s, j, maxstars - 1);
        if j == |s| { return CURL_FNMATCH_NOMATCH; }
        j := j + 1;
      } else if p[i] == '*' {
        StepStarAgain(p, i, s, j, maxstars - 1);
      } else {
        break;
      }
      i := i + 1;
    }
    StepSearch(p, i, s, j, maxstars - 1);
    ghost var from, budget: nat := j, maxstars - 1;
    while j < |s|
      invariant from <= j <= |s|
      invariant forall k: nat :: from <= k < j ==> !Accepts(p, i, s, k, budget)
    {
      r := Loop(p, i, s, j, maxstars - 1);
      if r == CURL_FNMATCH_MATCH { return; }
      j := j + 1;
    }
    r := CURL_FNMATCH_NOMATCH;
  }

  lemma AtEnd(p: Octets, i: nat, s: Octets, j: nat, maxstars: nat)
    requires i == |p| && j <= |s|
    ensures Accepts(p, i, s, j, maxstars) <==> j == |s|
  {
    assert s[j..] == "" <==> j == |s|;
  }

  lemma StarAtEnd(p: Octets, i: nat, s: Octets, j: nat, maxstars: nat)
    requires i == |p| && j <= |s|
    ensures AcceptsAfterStar(p, i, s, j, maxstars)
  {
    var es := [Star] + Elems(p, i);
    assert es[1..] == [] && s[j..][|s| - j..] == "";
    assert Matches(es[1..], s[j..][|s| - j..]);
  }

  lemma StepAny(p: Octets, i: nat, s: Octets, j: nat, maxstars: nat)
    requires i < |p| && p[i] == '?' && j <= |s|
    ensures Accepts(p, i, s, j, maxstars) <==> j < |s| && Accepts(p, i + 1, s, j + 1, maxstars)
  {
    hide StarGroups, Matches;
    if j < |s| { assert OneChar(AnyOne, s[j..j + 1]); }
    StepOne(p, i, i + 1, AnyOne, s, j, maxstars);
  }

  lemma StepLit(p: Octets, i: nat, next: nat, c: char, s: Octets, j: nat, maxstars: nat)
    requires Elems(p, i) == [Lit(c)] + Elems(p, next) && c != '\0' && j <= |s|
    ensures Accepts(p, i, s, j, maxstars) <==> At(s, j) == c && Accepts(p, next, s, j + 1, maxstars)
  {
    hide Elems, Matches, StarGroups;
    if j < |s| { assert OneChar(Lit(c), s[j..j + 1]) <==> s[j] == c; }
    StepOne(p, i, next, Lit(c), s, j, maxstars);
  }

  lemma StepLiteral(p: Octets, i: nat, s: Octets, j: nat, maxstars: nat)
    requires i < |p| && p[i] != '*' && p[i] != '?' && p[i] != '\\' && p[i] != '[' && j <= |s|
    ensures Accepts(p, i, s, j, maxstars) <==> At(s, j) == p[i] && Accepts(p, i + 1, s, j + 1, maxstars)
  {
    hide Matches, StarGroups;
    StepLit(p, i, i + 1, p[i], s, j, maxstars);
  }

  lemma StepEscape(p: Octets, i: nat, s: Octets, j: nat, maxstars: nat) returns (c: char, next: nat)
    requires i < |p| && p[i] == '\\' && j <= |s|
    ensures next == (if i + 1 < |p| then i + 2 else i + 1) && c == p[next - 1]
    ensures Accepts(p, i, s, j, maxstars) <==> At(s, j) == c && Accepts(p, next, s, j + 1, maxstars)
  {
    hide Matches, StarGroups;
    next := if i + 1 < |p| then i + 2 else i + 1;
    c := p[next - 1];
    assert Elems(p, i) == [Lit(c)] + Elems(p, next);
    StepLit(p, i, next, c, s, j, maxstars);
  }

  lemma StepSet(p: Octets, i: nat, s: Octets, j: nat, maxstars: nat)
    requires i < |p| && p[i] == '[' && j <= |s|
    ensures var br := ParseSet(p, i + 1);
            Accepts(p, i, s, j, maxstars)
            <==> br.Some? && j < |s| && InSet(br.value.cs, s[j]) && Accepts(p, br.value.end + 1, s, j + 1, maxstars)
  {
    hide StarGroups, InSet, ParseSet;
    var br := ParseSet(p, i + 1);
    if br.Some? {
      StepOne(p, i, br.value.end + 1, InBrackets(br.value.cs), s, j, maxstars);
      if j < |s| { assert OneChar(InBrackets(br.value.cs), s[j..j + 1]) <==> InSet(br.value.cs, s[j]); }
    }
  }

  /** A pattern with an unclosed set matches nothing. */
  lemma UnclosedNeverMatches(es: seq<Elem>, s: string)
    requires Unclosed in es
    ensures !InLanguage(es, s)
  {
    var i :| 0 <= i < |es| && es[i] == Unclosed;
    forall parts ensures !Splits(es, s, parts) {
      if |parts| == |es| { assert !Stands(es[i], parts[i]); }
    }
  }

  // ---- Patterns as they are meant

  /** One part of a pattern: a character plain or escaped, '?', '*', or a bracket expression. */
  datatype Glob = Char(c: char, escaped: bool) | AnyChar | AnyText | Among(b: Brackets)

  function TextOf(g: Glob): string {
    match g
    case Char(c, escaped) => if escaped then ['\\', c] else [c]
    case AnyChar => "?"
    case AnyText => "*"
    case Among(b) => "[" + Inner(b) + "]"
  }

  function Pattern(gs: seq<Glob>): string {
    if gs == [] then "" else TextOf(gs[0]) + Pattern(gs[1..])
  }

  predicate WellWritten(g: Glob) {
    match g
    case Char(c, escaped) => 0 < c as int < 256 && (escaped || c !in "*?[\\")
    case Among(b) => Proper(b)
    case _ => true
  }

  /** The strings a part is meant to stand for. */
  ghost predicate Denotes(g: Glob, w: string) {
    g.AnyText?
    || (|w| == 1 && 0 < w[0] as int < 256
        && match g
           case Char(c, _) => w[0] == c
           case Among(b) => Holds(b, w[0])
           case _ => true)
  }

  ghost predicate Divides(gs: seq<Glob>, s: string, parts: seq<string>) {
    |parts| == |gs| && Joined(parts) == s && forall i :: 0 <= i < |gs| ==> Denotes(gs[i], parts[i])
  }

  /** The language of a pattern: a string that divides into one piece for each part. */
  ghost predicate InGlob(gs: seq<Glob>, s: string) {
    exists parts: seq<string> :: Divides(gs, s, parts)
  }

  /** The groups of consecutive '*' and '?' that hold a '*'. */
  function Groups(gs: seq<Glob>, open: bool): nat {
    if gs == [] then 0
    else match gs[0]
      case AnyText => (if open then 0 else 1) + Groups(gs[1..], true)
      case AnyChar => Groups(gs[1..], open)
      case _ => Groups(gs[1..], false)
  }

  function ElemOf(g: Glob): (e: Elem)
    requires WellWritten(g)
  {
    match g
    case Char(c, _) => Lit(c)
    case AnyChar => AnyOne
    case AnyText => Star
    case Among(b) => SpelledIsKnown(b.items, b.negation.None?); InBrackets(SetOf(b))
  }

  function ElemsOf(gs: seq<Glob>): (es: seq<Elem>)
    requires forall g :: g in gs ==> WellWritten(g)
    ensures |es| == |gs| && forall i :: 0 <= i < |gs| ==> es[i] == ElemOf(gs[i])
  {
    if gs == [] then [] else [ElemOf(gs[0])] + ElemsOf(gs[1..])
  }

  lemma AmongIsRead(p: Octets, i: nat, b: Brackets)
    requires Proper(b) && i + |Inner(b)| + 2 <= |p| && p[i..i + |Inner(b)| + 2] == "[" + Inner(b) + "]"
    ensures forall item :: item in b.items ==> Known(item)
    ensures Elems(p, i) == [InBrackets(SetOf(b))] + Elems(p, i + |Inner(b)| + 2)
  {
    hide SetOf, ParseSet, Inner, Proper, Known;
    var text := "[" + Inner(b) + "]";
    var n := |Inner(b)|;
    assert text[1..n + 1] == Inner(b) && p[i..i + n + 2][1..n + 1] == p[i + 1..i + 1 + n];
    assert p[i..i + n + 2][0] == '[' && p[i..i + n + 2][n + 1] == ']';
    BracketsAreRead(p, i + 1, b);
  }

  /** One part is read off the pattern. */
  lemma PartIsRead(p: Octets, i: nat, g: Glob)
    requires WellWritten(g) && i + |TextOf(g)| <= |p| && p[i..i + |TextOf(g)|] == TextOf(g)
    ensures Elems(p, i) == [ElemOf(g)] + Elems(p, i + |TextOf(g)|)
  {
    hide SetOf, ParseSet, Inner;
    var text := TextOf(g);
    assert p[i..i + |text|][0] == text[0];
    match g
    case Char(c, escaped) =>
      if escaped { assert p[i..i + 2][1] == c; }
    case Among(b) =>
      hide Elems;
      AmongIsRead(p, i, b);
    case _ =>
  }

  lemma {:induction false} PatternIsRead(p: Octets, i: nat, gs: seq<Glob>)
    requires (forall g :: g in gs ==> WellWritten(g)) && i <= |p| && p[i..] == Pattern(gs)
    ensures Elems(p, i) == ElemsOf(gs)
    decreases |gs|
  {
    hide TextOf, WellWritten, ElemOf, Elems;
    if gs == [] {
      NoElems(p, i);
    } else {
      var text, rest := TextOf(gs[0]), Pattern(gs[1..]);
      assert gs[0] in gs && (text + rest)[..|text|] == text && (text + rest)[|text|..] == rest;
      assert p[i..][..|text|] == p[i..i + |text|] && p[i..][|text|..] == p[i + |text|..];
      PartIsRead(p, i, gs[0]);
      PatternIsRead(p, i + |text|, gs[1..]);
    }
  }

  lemma NoElems(p: Octets, i: nat)
    requires i >= |p|
    ensures Elems(p, i) == []
  {
  }

  lemma {:induction false} GroupsAgree(gs: seq<Glob>, open: bool)
    requires forall g :: g in gs ==> WellWritten(g)
    ensures StarGroups(ElemsOf(gs), open) == Groups(gs, open)
    decreases |gs|
  {
    hide WellWritten, SetOf;
    if gs != [] {
      assert ElemsOf(gs)[1..] == ElemsOf(gs[1..]);
      GroupsAgree(gs[1..], true);
      GroupsAgree(gs[1..], open);
      GroupsAgree(gs[1..], false);
    }
  }

  lemma StandsAgree(g: Glob, w: string)
    requires WellWritten(g) && (g.Among? ==> ReadsAsMeant(g.b))
    ensures Stands(ElemOf(g), w) <==> Denotes(g, w)
  {
    hide SetOf, Holds, InSet, ReadsAsMeant;
    if g.Among? {
      SpelledIsKnown(g.b.items, g.b.negation.None?);
      InSetIsHoldsExactly(g.b);
    }
  }

  /** Every set reads as it is meant; sets of one class do. */
  ghost predicate AllReadAsMeant(gs: seq<Glob>) {
    forall g :: g in gs && g.Among? ==> ReadsAsMeant(g.b)
  }

  lemma LanguagesAgree(gs: seq<Glob>, s: string)
    requires (forall g :: g in gs ==> WellWritten(g)) && AllReadAsMeant(gs)
    ensures InLanguage(ElemsOf(gs), s) <==> InGlob(gs, s)
  {
    hide WellWritten, Stands, Denotes, ElemOf;
    forall parts: seq<string> | |parts| == |gs| ensures Splits(ElemsOf(gs), s, parts) <==> Divides(gs, s, parts) {
      forall i | 0 <= i < |gs| ensures Stands(ElemsOf(gs)[i], parts[i]) <==> Denotes(gs[i], parts[i]) {
        assert gs[i] in gs;
        StandsAgree(gs[i], parts[i]);
      }
    }
    if InLanguage(ElemsOf(gs), s) {
      var parts :| Splits(ElemsOf(gs), s, parts);
      assert Divides(gs, s, parts);
    }
    if InGlob(gs, s) {
      var parts :| Divides(gs, s, parts);
      assert Splits(ElemsOf(gs), s, parts);
    }
  }

  /** What a well-written pattern is read as is what it means, when every set reads as it is meant. */
  lemma PatternMeans(p: Octets, gs: seq<Glob>, s: string)
    requires p == Pattern(gs) && (forall g :: g in gs ==> WellWritten(g)) && AllReadAsMeant(gs)
    ensures StarGroups(Elems(p, 0), false) == Groups(gs, false)
    ensures InLanguage(Elems(p, 0), s) <==> InGlob(gs, s)
  {
    hide WellWritten, Elems, StarGroups, Groups, InLanguage, InGlob, AllReadAsMeant;
    assert p[0..] == Pattern(gs);
    PatternIsRead(p, 0, gs);
    GroupsAgree(gs, false);
    LanguagesAgree(gs, s);
  }

  /** What Curl_fnmatch decides: at most two groups with stars, and the string in the pattern's language, which is
      the one meant when the pattern is well written and none of its sets passes over a class that matters. */
  method CurlFnmatch(pattern: Octets, str: Octets) returns (r: MatchResult)
    ensures r == CURL_FNMATCH_MATCH <==> StarGroups(Elems(pattern, 0), false) <= 2 && InLanguage(Elems(pattern, 0), str)
    ensures forall gs :: pattern == Pattern(gs) && (forall g :: g in gs ==> WellWritten(g)) && AllReadAsMeant(gs) ==>
              (r == CURL_FNMATCH_MATCH <==> Groups(gs, false) <= 2 && InGlob(gs, str))
  {
    hide Elems, StarGroups, InLanguage, Matches, Pattern, WellWritten, AllReadAsMeant, InGlob, Groups;
    assert str[0..] == str;
    MatchesIsLanguage(Elems(pattern, 0), str);
    r := Loop(pattern, 0, str, 0, 2);
    forall gs | pattern == Pattern(gs) && (forall g :: g in gs ==> WellWritten(g)) && AllReadAsMeant(gs)
      ensures r == CURL_FNMATCH_MATCH <==> Groups(gs, false) <= 2 && InGlob(gs, str)
    {
      PatternMeans(pattern, gs, str);
    }
  }

  /** A bracket expression alone matches the characters it is meant to match exactly when it reads as it is meant. */
  lemma SetMeansExactly(p: Octets, b: Brackets)
    requires Proper(b) && p == Pattern([Among(b)])
    ensures (forall c: char :: 0 < c as int < 256 ==> (InLanguage(Elems(p, 0), [c]) <==> InGlob([Among(b)], [c])))
       <==> ReadsAsMeant(b)
  {
    hide Elems, SetOf, InSet, Holds, ReadsAsMeant, WellWritten, Pattern, Known;
    var gs := [Among(b)];
    SetIsWellWritten(b);
    SpelledIsKnown(b.items, b.negation.None?);
    PatternIsRead(p, 0, gs);
    assert ElemsOf(gs) == [InBrackets(SetOf(b))];
    forall c: char | 0 < c as int < 256
      ensures InLanguage(Elems(p, 0), [c]) <==> InSet(SetOf(b), c)
      ensures InGlob(gs, [c]) <==> Holds(b, c)
    {
      OneElem(InBrackets(SetOf(b)), [c]);
      OnePart(Among(b), [c]);
    }
    InSetIsHoldsExactly(b);
  }

  lemma SetIsWellWritten(b: Brackets)
    ensures Proper(b) <==> WellWritten(Among(b))
  {
  }

  lemma OneElem(e: Elem, w: string)
    ensures InLanguage([e], w) <==> Stands(e, w)
  {
    hide Stands;
    JoinOne(w);
    if Stands(e, w) { assert Splits([e], w, [w]); }
    if InLanguage([e], w) {
      var parts :| Splits([e], w, parts);
      JoinOne(parts[0]);
      assert parts == [parts[0]];
    }
  }

  lemma OnePart(g: Glob, w: string)
    ensures InGlob([g], w) <==> Denotes(g, w)
  {
    hide Denotes;
    JoinOne(w);
    if Denotes(g, w) { assert Divides([g], w, [w]); }
    if InGlob([g], w) {
      var parts :| Divides([g], w, parts);
      JoinOne(parts[0]);
      assert parts == [parts[0]];
    }
  }

  lemma JoinOne(w: string)
    ensures Joined([w]) == w
  {
    assert [w][1..] == [] && Joined([]) == "";
  }

  /** The pattern "[[:alpha:][:digit:]]" is meant to match "5", and does not. */
  lemma TwoClasses(p: Octets)
    requires p == "[[:alpha:][:digit:]]"
    ensures p == Pattern([Among(LettersAndDigits())])
    ensures InGlob([Among(LettersAndDigits())], "5") && !InLanguage(Elems(p, 0), "5")
  {
    hide Elems, Inner, Proper, Known, SetOf, Holds, InSet;
    var b := LettersAndDigits();
    var gs := [Among(b)];
    LettersAndDigitsAreProper();
    assert gs[1..] == [] && Pattern([]) == "";
    assert p == "[" + Inner(b) + "]" == Pattern(gs);
    assert p[0..] == p;
    PatternIsRead(p, 0, gs);
    assert ElemsOf(gs) == [InBrackets(SetOf(b))];
    DigitsArePassedOver();
    OneElem(InBrackets(SetOf(b)), "5");
    OnePart(Among(b), "5");
  }
}
