/** Character sets of glob patterns: the bracket expressions of the built-in matcher. */
module GlobSet {
  import opened Ascii
  import opened Wrappers

  /** A C string of bytes; the terminator is not part of it. */
  type Octets = s: string | forall i :: 0 <= i < |s| ==> 0 < s[i] as int < 256

  /** The byte at position i; the terminator at the end. */
  function At(s: Octets, i: nat): (c: char)
    ensures c as int < 256
    ensures c != '\0' <==> i < |s|
  {
    if i < |s| then s[i] else '\0'
  }

  const CHARSET_LEN := 256
  const CHSET_SIZE := CHARSET_LEN + 15
  const NEGATE := CHARSET_LEN
  const ALNUM := CHARSET_LEN + 1
  const DIGIT := CHARSET_LEN + 2
  const XDIGIT := CHARSET_LEN + 3
  const ALPHA := CHARSET_LEN + 4
  const PRINT := CHARSET_LEN + 5
  const BLANK := CHARSET_LEN + 6
  const LOWER := CHARSET_LEN + 7
  const GRAPH := CHARSET_LEN + 8
  const SPACE := CHARSET_LEN + 9
  const UPPER := CHARSET_LEN + 10

  /** Members by byte value, then the flags for negation and named classes. */
  type Charset = cs: seq<bool> | |cs| == CHSET_SIZE witness NoneOf(CHSET_SIZE)

  function NoneOf(n: nat): (s: seq<bool>)
    ensures |s| == n && forall k :: 0 <= k < n ==> !s[k]
  {
    seq(n, _ => false)
  }

  function EmptySet(): Charset { NoneOf(CHSET_SIZE) }

  /** The white-space control characters count as printable here. */
  predicate IsPrint(c: char) { 9 <= c as int <= 13 || ' ' <= c <= '~' }

  predicate IsGraph(c: char) { IsPrint(c) && c != ' ' }

  // ---- Named classes

  function ClassFlag(keyword: string): Option<nat> {
    if keyword == "digit" then Some(DIGIT)
    else if keyword == "alnum" then Some(ALNUM)
    else if keyword == "alpha" then Some(ALPHA)
    else if keyword == "xdigit" then Some(XDIGIT)
    else if keyword == "print" then Some(PRINT)
    else if keyword == "graph" then Some(GRAPH)
    else if keyword == "space" then Some(SPACE)
    else if keyword == "blank" then Some(BLANK)
    else if keyword == "upper" then Some(UPPER)
    else if keyword == "lower" then Some(LOWER)
    else None
  }

  const KEYLEN := 10

  /** How many lower-case letters start at i. */
  function LowerRun(p: Octets, i: nat): (n: nat)
    ensures n > 0 ==> i + n <= |p|
    ensures forall k :: i <= k < i + n ==> IsLower(p[k])
    ensures !IsLower(At(p, i + n))
    decreases |p| - i
  {
    if i < |p| && IsLower(p[i]) then
      var m := LowerRun(p, i + 1);
      assert i + (1 + m) == (i + 1) + m;
      1 + m
    else 0
  }

  datatype Class = Class(flag: nat, end: nat)

  /** The class named at i, "name:]" with the opening "[:" already read. */
  function Keyword(p: Octets, i: nat): (r: Option<Class>)
    ensures r.Some? ==> i < r.value.end <= |p| && ALNUM <= r.value.flag <= UPPER
  {
    var n := LowerRun(p, i);
    if n + 1 < KEYLEN && At(p, i + n) == ':' && At(p, i + n + 1) == ']' && ClassFlag(p[i..i + n]).Some? then
      Some(Class(ClassFlag(p[i..i + n]).value, i + n + 2))
    else
      None
  }

  lemma LowerRunIs(p: Octets, i: nat, n: nat)
    requires i + n <= |p| && forall k :: i <= k < i + n ==> IsLower(p[k])
    ensures LowerRun(p, i) >= n
    ensures !IsLower(At(p, i + n)) ==> LowerRun(p, i) == n
    decreases n
  {
    if n > 0 { LowerRunIs(p, i + 1, n - 1); }
  }

  method ParseKeyword(p: Octets, start: nat) returns (r: Option<Class>)
    requires start <= |p|
    ensures r == Keyword(p, start)
  {
    hide ClassFlag;
    var n := 0;
    while n < KEYLEN && start + n < |p| && IsLower(p[start + n])
      invariant 0 <= n <= KEYLEN && start + n <= |p|
      invariant forall k :: start <= k < start + n ==> IsLower(p[k])
    {
      n := n + 1;
    }
    LowerRunIs(p, start, n);
    if n == KEYLEN || At(p, start + n) != ':' { return None; }
    // the closing bracket must come within the length allowed for a keyword
    if n + 1 >= KEYLEN || At(p, start + n + 1) != ']' { return None; }
    var flag := ClassFlag(p[start..start + n]);
    return if flag.Some? then Some(Class(flag.value, start + n + 2)) else None;
  }

  // ---- Single characters and ranges

  datatype CharClass = Other | Digit | Upper | Lower

  function ClassOf(c: char): CharClass {
    if IsUpper(c) then CharClass.Upper
    else if IsLower(c) then CharClass.Lower
    else if IsDigit(c) then CharClass.Digit
    else Other
  }

  predicate InRange(k: int, first: char, last: char) {
    first as int <= k <= last as int < 256 && ClassOf(k as char) == ClassOf(first)
  }

  function WithChar(cs: Charset, c: char): Charset
    requires c as int < 256
  {
    cs[c as int := true]
  }

  function WithRange(cs: Charset, first: char, last: char): Charset {
    seq(CHSET_SIZE, k requires 0 <= k < CHSET_SIZE => cs[k] || InRange(k, first, last))
  }

  datatype Taken = Taken(cs: Charset, end: nat)

  /** The last character of a range written "c-e" or "c-\e" at i, and where the range ends. */
  function RangeEnd(p: Octets, i: nat): (char, nat) {
    if At(p, i + 2) == '\\' then (At(p, i + 3), i + 4) else (At(p, i + 2), i + 3)
  }

  predicate IsRange(p: Octets, i: nat)
    requires i < |p|
  {
    && IsAlnum(p[i]) && At(p, i + 1) == '-'
    && RangeEnd(p, i).0 >= p[i] && ClassOf(RangeEnd(p, i).0) == ClassOf(p[i])
  }

  function CharOrRange(p: Octets, i: nat, cs: Charset): (t: Taken)
    requires i < |p|
    ensures i < t.end <= |p|
  {
    if IsRange(p, i) then Taken(WithRange(cs, p[i], RangeEnd(p, i).0), RangeEnd(p, i).1)
    else Taken(WithChar(cs, p[i]), i + 1)
  }

  method SetCharOrRange(p: Octets, i: nat, charset: array<bool>) returns (end: nat)
    requires i < |p| && charset.Length == CHSET_SIZE
    modifies charset
    ensures CharOrRange(p, i, old(charset[..])) == Taken(charset[..], end)
  {
    var c := p[i];
    charset[c as int] := true;
    end := i + 1;
    if IsAlnum(c) && At(p, i + 1) == '-' {
      var cc := ClassOf(c);
      var endrange, after := At(p, i + 2), i + 3;
      if endrange == '\\' { endrange, after := At(p, i + 3), i + 4; }
      if endrange >= c && ClassOf(endrange) == cc {
        var k := c as int;
        while k != endrange as int
          invariant c as int <= k <= endrange as int
          invariant forall m :: 0 <= m < CHSET_SIZE ==>
              charset[m] == (old(charset[m]) || (m <= k && InRange(m, c, endrange)))
        {
          k := k + 1;
          if ClassOf(k as char) == cc { charset[k] := true; }
        }
        end := after;
        assert charset[..] == WithRange(old(charset[..]), c, endrange);
      }
    }
  }

  // ---- The whole bracket expression

  datatype State = Default | RightBr | RightBrLeftBr

  /** Reads on from i, after the opening bracket; the result ends at the closing bracket. */
  function ParseFrom(p: Octets, i: nat, cs: Charset, state: State, found: bool): (r: Option<Taken>)
    ensures r.Some? ==> i <= r.value.end < |p| && p[r.value.end] == ']'
    decreases |p| - i
  {
    if i >= |p| then None
    else
      var c := p[i];
      match state
      case Default =>
        if c == ']' then
          if found then Some(Taken(cs, i)) else ParseFrom(p, i + 1, WithChar(cs, c), RightBr, true)
        else if c == '[' then
          var k := if At(p, i + 1) == ':' then Keyword(p, i + 2) else None;
          if k.Some? then ParseFrom(p, k.value.end, cs[k.value.flag := true], Default, true)
          else ParseFrom(p, i + 1, WithChar(cs, c), Default, true)
        else if c == '^' || c == '!' then
          if found then ParseFrom(p, i + 1, WithChar(cs, c), Default, true)
          else if cs[NEGATE] then ParseFrom(p, i + 1, WithChar(cs, c), Default, true)
          else ParseFrom(p, i + 1, cs[NEGATE := true], Default, false)
        else if c == '\\' then
          if i + 1 < |p| then
            var t := CharOrRange(p, i + 1, cs);
            ParseFrom(p, t.end, t.cs, Default, true)
          else None
        else
          var t := CharOrRange(p, i, cs);
          ParseFrom(p, t.end, t.cs, Default, true)
      case RightBr =>
        if c == '[' then ParseFrom(p, i + 1, WithChar(cs, c), RightBrLeftBr, found)
        else if c == ']' then Some(Taken(cs, i))
        else if IsPrint(c) then ParseFrom(p, i + 1, WithChar(cs, c), Default, found)
        else None
      case RightBrLeftBr =>
        if c == ']' then Some(Taken(cs, i)) else ParseFrom(p, i + 1, WithChar(cs, c), Default, found)
  }

  function ParseSet(p: Octets, i: nat): (r: Option<Taken>)
    ensures r.Some? ==> i <= r.value.end < |p| && p[r.value.end] == ']'
  {
    ParseFrom(p, i, EmptySet(), Default, false)
  }

  /** Fills the set from position i on; tells whether it is closed and where. */
  method SetCharset(p: Octets, start: nat, charset: array<bool>) returns (ok: bool, end: nat)
    requires start <= |p| && charset.Length == CHSET_SIZE
    modifies charset
    ensures ok <==> ParseSet(p, start).Some?
    ensures ok ==> ParseSet(p, start) == Some(Taken(charset[..], end))
  {
    hide Keyword, CharOrRange, IsPrint;
    for k := 0 to CHSET_SIZE
      invariant forall m :: 0 <= m < k ==> !charset[m]
    {
      charset[k] := false;
    }
    assert charset[..] == EmptySet();
    var state, found := Default, false;
    end := start;
    while true
      invariant start <= end <= |p|
      invariant ParseFrom(p, end, charset[..], state, found) == ParseSet(p, start)
      decreases |p| - end
    {
      if end == |p| { return false, end; }
      var c := p[end];
      ghost var before := charset[..];
      match state {
        case Default =>
          if c == ']' {
            if found { return true, end; }
            found, state := true, RightBr;
            charset[c as int] := true;
            assert charset[..] == WithChar(before, c);
            end := end + 1;
          } else if c == '[' {
            var keyword: Option<Class> := None;
            if At(p, end + 1) == ':' { keyword := ParseKeyword(p, end + 2); }
            if keyword.Some? {
              charset[keyword.value.flag] := true;
              assert charset[..] == before[keyword.value.flag := true];
              end := keyword.value.end;
            } else {
              charset[c as int] := true;
              assert charset[..] == WithChar(before, c);
              end := end + 1;
            }
            found := true;
          } else if c == '^' || c == '!' {
            if !found && !charset[NEGATE] {
              charset[NEGATE] := true;
              assert charset[..] == before[NEGATE := true];
            } else {
              charset[c as int] := true;
              assert charset[..] == WithChar(before, c);
              found := true;
            }
            end := end + 1;
          } else if c == '\\' {
            end := end + 1;
            if end == |p| {
              charset[c as int] := true;
              return false, end;
            }
            end := SetCharOrRange(p, end, charset);
            found := true;
          } else {
            end := SetCharOrRange(p, end, charset);
            found := true;
          }
        case RightBr =>
          if c == '[' {
            state := RightBrLeftBr;
          } else if c == ']' {
            return true, end;
          } else if IsPrint(c) {
            state := Default;
          } else {
            return false, end;
          }
          charset[c as int] := true;
          assert charset[..] == WithChar(before, c);
          end := end + 1;
        case RightBrLeftBr =>
          if c == ']' { return true, end; }
          state := Default;
          charset[c as int] := true;
          assert charset[..] == WithChar(before, c);
          end := end + 1;
      }
    }
  }

  // ---- Membership

  /** Is the character in the named class with this flag. */
  predicate InClass(flag: nat, c: char) {
    if flag == ALNUM then IsAlnum(c)
    else if flag == ALPHA then IsAlpha(c)
    else if flag == DIGIT then IsDigit(c)
    else if flag == XDIGIT then IsXDigit(c)
    else if flag == PRINT then IsPrint(c)
    else if flag == SPACE then IsSpace(c)
    else if flag == UPPER then IsUpper(c)
    else if flag == LOWER then IsLower(c)
    else if flag == BLANK then IsBlank(c)
    else flag == GRAPH && IsGraph(c)
  }

  /** The test of the matcher: of the named classes only the first in this order is looked at. */
  predicate InSet(cs: Charset, c: char)
    requires c as int < 256
  {
    var found :=
      if cs[c as int] then true
      else if cs[ALNUM] then IsAlnum(c)
      else if cs[ALPHA] then IsAlpha(c)
      else if cs[DIGIT] then IsDigit(c)
      else if cs[XDIGIT] then IsXDigit(c)
      else if cs[PRINT] then IsPrint(c)
      else if cs[SPACE] then IsSpace(c)
      else if cs[UPPER] then IsUpper(c)
      else if cs[LOWER] then IsLower(c)
      else if cs[BLANK] then IsBlank(c)
      else cs[GRAPH] && IsGraph(c);
    found != cs[NEGATE]
  }

  /** What a set means: the characters listed and those of every class named, or all others. */
  ghost predicate Means(cs: Charset, c: char)
    requires c as int < 256
  {
    (cs[c as int] || exists flag :: ALNUM <= flag <= UPPER && cs[flag] && InClass(flag, c)) != cs[NEGATE]
  }

  /** The test is right for sets with at most one named class. */
  lemma InSetIsMeaning(cs: Charset, c: char)
    requires c as int < 256
    requires forall f, g :: ALNUM <= f <= UPPER && ALNUM <= g <= UPPER && cs[f] && cs[g] ==> f == g
    ensures InSet(cs, c) == Means(cs, c)
  {
    hide IsAlnum, IsAlpha, IsDigit, IsXDigit, IsPrint, IsSpace, IsUpper, IsLower, IsBlank, IsGraph;
    if flag :| ALNUM <= flag <= UPPER && cs[flag] {
      assert InClass(flag, c) <==> exists f :: ALNUM <= f <= UPPER && cs[f] && InClass(f, c);
    }
  }

  /** The class that is looked at, if any is named. */
  function FirstClass(cs: Charset): (f: Option<nat>)
    ensures f.Some? ==> ALNUM <= f.value <= UPPER && cs[f.value]
    ensures f.None? ==> forall g :: ALNUM <= g <= UPPER ==> !cs[g]
  {
    if cs[ALNUM] then Some(ALNUM) else if cs[ALPHA] then Some(ALPHA) else if cs[DIGIT] then Some(DIGIT)
    else if cs[XDIGIT] then Some(XDIGIT) else if cs[PRINT] then Some(PRINT) else if cs[SPACE] then Some(SPACE)
    else if cs[UPPER] then Some(UPPER) else if cs[LOWER] then Some(LOWER) else if cs[BLANK] then Some(BLANK)
    else if cs[GRAPH] then Some(GRAPH) else None
  }

  lemma InSetLooksAtFirst(cs: Charset, c: char)
    requires c as int < 256
    ensures var f := FirstClass(cs);
            InSet(cs, c) == ((cs[c as int] || (f.Some? && InClass(f.value, c))) != cs[NEGATE])
  {
    hide IsAlnum, IsAlpha, IsDigit, IsXDigit, IsPrint, IsSpace, IsUpper, IsLower, IsBlank, IsGraph;
  }

  /** In general the test is right for every character exactly when the class looked at, with the characters
      listed, covers all the other classes named. */
  lemma InSetIsMeaningExactly(cs: Charset)
    ensures (forall c: char :: c as int < 256 ==> InSet(cs, c) == Means(cs, c)) <==>
            (forall c: char, g :: c as int < 256 && ALNUM <= g <= UPPER && cs[g] && InClass(g, c) ==>
                                    cs[c as int] || InClass(FirstClass(cs).value, c))
  {
    hide InSet, InClass;
    forall c: char | c as int < 256
      ensures InSet(cs, c) == Means(cs, c) <==>
              forall g :: ALNUM <= g <= UPPER && cs[g] && InClass(g, c) ==>
                  cs[c as int] || InClass(FirstClass(cs).value, c)
    {
      InSetLooksAtFirst(cs, c);
      var f := FirstClass(cs);
      if f.Some? && InClass(f.value, c) { assert exists g :: ALNUM <= g <= UPPER && cs[g] && InClass(g, c); }
    }
  }
}
