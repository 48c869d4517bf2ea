/** Bracket expressions as they are meant: lists of characters, ranges and named classes. */
module GlobBrackets {
  import opened Ascii
  import opened GlobSet
  import opened Wrappers

  datatype Item =
    | One(c: char, escaped: bool)
    | Range(first: char, last: char, firstEscaped: bool, lastEscaped: bool)
    | Named(name: string)

  /** The items, or with a '^' or '!' in front everything else. */
  datatype Brackets = Brackets(negation: Option<char>, items: seq<Item>)

  predicate InNamed(name: string, c: char) {
    if name == "alnum" then IsAlnum(c)
    else if name == "alpha" then IsAlpha(c)
    else if name == "blank" then IsBlank(c)
    else if name == "digit" then IsDigit(c)
    else if name == "graph" then IsGraph(c)
    else if name == "lower" then IsLower(c)
    else if name == "print" then IsPrint(c)
    else if name == "space" then IsSpace(c)
    else if name == "upper" then IsUpper(c)
    else name == "xdigit" && IsXDigit(c)
  }

  predicate Covers(item: Item, c: char) {
    match item
    case One(d, _) => c == d
    case Range(first, last, _, _) => first <= c <= last
    case Named(name) => InNamed(name, c)
  }

  ghost predicate Holds(b: Brackets, c: char) {
    (exists item :: item in b.items && Covers(item, c)) != b.negation.Some?
  }

  /** The ten classes, by the characters in them. */
  lemma ClassesMean(c: char)
    ensures InNamed("digit", c) <==> c in DIGITS
    ensures InNamed("upper", c) <==> c in CAPITALS
    ensures InNamed("lower", c) <==> c in SMALLS
    ensures InNamed("alpha", c) <==> c in CAPITALS || c in SMALLS
    ensures InNamed("alnum", c) <==> c in CAPITALS || c in SMALLS || c in DIGITS
    ensures InNamed("xdigit", c) <==> c in DIGITS + "ABCDEF" + "abcdef"
    ensures InNamed("blank", c) <==> c in " \t"
    ensures InNamed("space", c) <==> c in " \t\n\r" || c as int in {11, 12}
    ensures InNamed("print", c) <==> 32 <= c as int < 127 || 9 <= c as int <= 13
    ensures InNamed("graph", c) <==> 32 < c as int < 127 || 9 <= c as int <= 13
  {
    hide IsDigit, IsUpper, IsLower, IsXDigit, IsSpace, InNamed;
    FirstNames(c);
    OtherNames(c);
    ClassesListed(c);
  }

  lemma FirstNames(c: char)
    ensures InNamed("alnum", c) == IsAlnum(c) && InNamed("alpha", c) == IsAlpha(c) && InNamed("blank", c) == IsBlank(c)
    ensures InNamed("digit", c) == IsDigit(c) && InNamed("graph", c) == IsGraph(c)
  {
    hide IsAlnum, IsAlpha, IsBlank, IsDigit, IsGraph, IsLower, IsPrint, IsSpace, IsUpper, IsXDigit;
  }

  lemma OtherNames(c: char)
    ensures InNamed("lower", c) == IsLower(c) && InNamed("print", c) == IsPrint(c) && InNamed("space", c) == IsSpace(c)
    ensures InNamed("upper", c) == IsUpper(c) && InNamed("xdigit", c) == IsXDigit(c)
  {
    hide IsAlnum, IsAlpha, IsBlank, IsDigit, IsGraph, IsLower, IsPrint, IsSpace, IsUpper, IsXDigit;
  }

  // ---- How they are written

  function Char(c: char, escaped: bool): string { if escaped then ['\\', c] else [c] }

  function ItemText(item: Item): string {
    match item
    case One(c, escaped) => Char(c, escaped)
    case Range(first, last, firstEscaped, lastEscaped) => Char(first, firstEscaped) + "-" + Char(last, lastEscaped)
    case Named(name) => "[:" + name + ":]"
  }

  function ItemsText(items: seq<Item>): string {
    if items == [] then "" else ItemText(items[0]) + ItemsText(items[1..])
  }

  function Inner(b: Brackets): string {
    (if b.negation.Some? then [b.negation.value] else "") + ItemsText(b.items)
  }

  /** Both digits, both capitals, or both small letters. */
  predicate SameKind(c: char, d: char) {
    (c in DIGITS && d in DIGITS) || (c in CAPITALS && d in CAPITALS) || (c in SMALLS && d in SMALLS)
  }

  /** With this text behind it the character begins a range. */
  predicate BeginsRange(c: char, rest: string) {
    && |rest| >= 2 && rest[0] == '-'
    && var last := if rest[1] == '\\' && |rest| >= 3 then rest[2] else rest[1];
       c <= last && SameKind(c, last)
  }

  /** The item reads as itself: behind it comes `rest`, and `leading` says whether a mark here would negate. */
  predicate Spelled(item: Item, rest: string, leading: bool)
    requires rest != ""
  {
    match item
    case One(c, escaped) =>
      && 0 < c as int < 256 && !BeginsRange(c, rest)
      && (!escaped ==> c != ']' && c != '\\' && (c == '[' ==> rest[0] != ':') && (leading ==> c != '^' && c != '!'))
    case Range(first, last, _, _) => first <= last && SameKind(first, last)
    case Named(name) => ClassFlag(name).Some?
  }

  predicate AllSpelled(items: seq<Item>, leading: bool) {
    items == []
    || (Spelled(items[0], ItemsText(items[1..]) + "]", leading) && AllSpelled(items[1..], false))
  }

  predicate Proper(b: Brackets) {
    b.items != [] && b.negation in {None, Some('^'), Some('!')} && AllSpelled(b.items, b.negation.None?)
  }

  // ---- What is read from them

  /** Without regard to what comes behind it, the item has a meaning the matcher knows. */
  predicate Known(item: Item) {
    match item
    case One(c, _) => 0 < c as int < 256
    case Range(first, last, _, _) => IsAlnum(first) && IsAlnum(last) && ClassOf(first) == ClassOf(last)
    case Named(name) => ClassFlag(name).Some?
  }

  lemma {:induction false} SpelledIsKnown(items: seq<Item>, leading: bool)
    requires AllSpelled(items, leading)
    ensures forall item :: item in items ==> Known(item)
  {
    if items != [] {
      SpelledIsKnown(items[1..], false);
      if items[0].Range? { KindIsClass(items[0].first, items[0].last); }
    }
  }

  lemma KindIsClass(c: char, d: char)
    ensures SameKind(c, d) <==> IsAlnum(c) && ClassOf(c) == ClassOf(d)
    ensures SameKind(c, d) ==> IsAlnum(d) && 0 < c as int < 128
  {
    hide ClassOf;
    ClassesListed(c);
    ClassesListed(d);
    KindsDiffer(c);
    KindsDiffer(d);
  }

  lemma KindsDiffer(c: char)
    ensures IsUpper(c) <==> ClassOf(c) == CharClass.Upper
    ensures IsLower(c) <==> ClassOf(c) == CharClass.Lower
    ensures IsDigit(c) <==> ClassOf(c) == Digit
    ensures ClassOf(c) == Other <==> !IsAlnum(c)
  {
  }

  function With(cs: Charset, item: Item): Charset
    requires Known(item)
  {
    match item
    case One(c, _) => WithChar(cs, c)
    case Range(first, last, _, _) => WithRange(cs, first, last)
    case Named(name) => cs[ClassFlag(name).value := true]
  }

  function WithAll(cs: Charset, items: seq<Item>): Charset
    requires forall item :: item in items ==> Known(item)
    decreases |items|
  {
    if items == [] then cs else WithAll(With(cs, items[0]), items[1..])
  }

  lemma ClassNames(name: string)
    requires ClassFlag(name).Some?
    ensures 1 <= |name| <= 6 && (forall k :: 0 <= k < |name| ==> IsLower(name[k]))
    ensures ALNUM <= ClassFlag(name).value <= UPPER
  {
  }

  /** The text stands at i, with something behind it. */
  ghost predicate Reads(p: Octets, i: nat, text: string) {
    i + |text| < |p| && p[i..i + |text|] == text
  }

  /** The text stands at i, and then that which ends the set. */
  ghost predicate Continues(p: Octets, i: nat, text: string, rest: string) {
    && rest != "" && rest[|rest| - 1] == ']'
    && i + |text| + |rest| <= |p| && p[i..i + |text| + |rest|] == text + rest
  }

  lemma ContinuesAt(p: Octets, i: nat, text: string, rest: string)
    requires Continues(p, i, text, rest)
    ensures Reads(p, i, text)
    ensures forall k :: 0 <= k < |text| ==> p[i + k] == text[k]
    ensures forall k :: 0 <= k < |rest| ==> p[i + |text| + k] == rest[k]
  {
    var all := p[i..i + |text| + |rest|];
    assert forall k :: 0 <= k < |all| ==> p[i + k] == all[k];
    assert all[..|text|] == text && p[i..i + |text|] == all[..|text|];
    assert forall k :: 0 <= k < |rest| ==> p[i + (|text| + k)] == all[|text| + k] == rest[k];
  }

  lemma NameIsRead(p: Octets, i: nat, name: string)
    requires ClassFlag(name).Some? && Reads(p, i, "[:" + name + ":]")
    ensures At(p, i) == '[' && At(p, i + 1) == ':'
    ensures Keyword(p, i + 2) == Some(Class(ClassFlag(name).value, i + |name| + 4))
  {
    hide ClassFlag, LowerRun;
    ClassNames(name);
    var text, n := "[:" + name + ":]", |name|;
    assert |text| == n + 4 && text[0] == '[' && text[1] == ':' && text[n + 2] == ':' && text[n + 3] == ']';
    assert forall k :: 0 <= k < n + 4 ==> p[i + k] == p[i..i + n + 4][k] == text[k];
    assert p[i + 2 + n] == ':' && p[i + 2 + n + 1] == ']';
    forall k | i + 2 <= k < i + 2 + n ensures IsLower(p[k]) && p[k] == name[k - i - 2] {
      assert p[i + (k - i)] == text[k - i];
    }
    assert p[i + 2..i + 2 + n] == name;
    LowerRunIs(p, i + 2, n);
  }

  /** A class is read where its name stands, with ":]" behind it, and nowhere else. */
  lemma KeywordExactly(p: Octets, i: nat, flag: nat, end: nat)
    requires i <= |p|
    ensures Keyword(p, i) == Some(Class(flag, end))
       <==> exists name: string ::
              ClassFlag(name) == Some(flag) && end == i + |name| + 2 <= |p| && p[i..end] == name + ":]"
  {
    hide ClassFlag, LowerRun;
    var n := LowerRun(p, i);
    if Keyword(p, i) == Some(Class(flag, end)) {
      var name := p[i..i + n];
      assert ClassFlag(name) == Some(flag) && p[i..end] == name + [p[i + n], p[i + n + 1]] == name + ":]";
    }
    forall name: string | ClassFlag(name) == Some(flag) && end == i + |name| + 2 <= |p| && p[i..end] == name + ":]"
      ensures Keyword(p, i) == Some(Class(flag, end))
    {
      ClassNames(name);
      assert forall k :: 0 <= k < |name| + 2 ==> p[i + k] == p[i..end][k] == (name + ":]")[k];
      forall k | i <= k < i + |name| ensures IsLower(p[k]) { assert p[i + (k - i)] == name[k - i]; }
      assert At(p, i + |name|) == p[i + |name|] == ':' && At(p, i + |name| + 1) == p[i + (|name| + 1)] == ']';
      LowerRunIs(p, i, |name|);
      assert p[i..i + |name|] == p[i..end][..|name|] == name;
    }
  }

  lemma CharIsRead(p: Octets, i: nat, c: char, rest: string, cs: Charset)
    requires i < |p| && p[i] == c && !BeginsRange(c, rest)
    requires rest != "" && rest[|rest| - 1] == ']' && i + 1 + |rest| <= |p|
    requires forall k :: 0 <= k < |rest| ==> p[i + 1 + k] == rest[k]
    ensures CharOrRange(p, i, cs) == Taken(WithChar(cs, c), i + 1)
  {
    hide SameKind, ClassOf, WithRange, WithChar;
    if IsAlnum(c) && rest[0] == '-' {
      var last := if rest[1] == '\\' then rest[2] else rest[1];
      assert At(p, i + 1) == rest[0] && At(p, i + 2) == rest[1];
      if rest[1] == '\\' { assert At(p, i + 3) == rest[2]; }
      KindIsClass(c, last);
      assert RangeEnd(p, i).0 == last;
    }
  }

  lemma OneIsRead(p: Octets, i: nat, c: char, escaped: bool, rest: string, cs: Charset, found: bool)
    requires Continues(p, i, Char(c, escaped), rest) && Spelled(One(c, escaped), rest, !found && !cs[NEGATE])
    ensures ParseFrom(p, i, cs, Default, found)
         == ParseFrom(p, i + |Char(c, escaped)|, WithChar(cs, c), Default, true)
  {
    hide CharOrRange, Keyword, WithChar, IsAlnum, BeginsRange;
    var text := Char(c, escaped);
    ContinuesAt(p, i, text, rest);
    var k := i + |text| - 1;
    assert p[k] == text[|text| - 1] == c && p[i] == text[0] && p[k + 1] == rest[0];
    CharIsRead(p, k, c, rest, cs);
  }

  lemma RangeIsRead(p: Octets, i: nat, item: Item, rest: string, cs: Charset, found: bool)
    requires item.Range? && Known(item) && Continues(p, i, ItemText(item), rest) && Spelled(item, rest, false)
    ensures ParseFrom(p, i, cs, Default, found)
         == ParseFrom(p, i + |ItemText(item)|, WithRange(cs, item.first, item.last), Default, true)
  {
    hide WithRange, Keyword, ClassOf, SameKind;
    var text := ItemText(item);
    ContinuesAt(p, i, text, rest);
    KindIsClass(item.first, item.last);
    var k := if item.firstEscaped then i + 1 else i;
    assert p[i] == text[0] && p[k] == text[k - i] == item.first;
    assert At(p, k + 1) == text[k + 1 - i] == '-';
    assert At(p, k + 2) == text[k + 2 - i];
    if item.lastEscaped { assert At(p, k + 3) == text[k + 3 - i] == item.last; } else { assert item.last != '\\'; }
    assert CharOrRange(p, k, cs) == Taken(WithRange(cs, item.first, item.last), i + |text|);
  }

  lemma NamedItemIsRead(p: Octets, i: nat, item: Item, rest: string, cs: Charset, found: bool)
    requires item.Named? && Continues(p, i, ItemText(item), rest) && Known(item)
    ensures ParseFrom(p, i, cs, Default, found) == ParseFrom(p, i + |ItemText(item)|, With(cs, item), Default, true)
  {
    hide ClassFlag, Keyword;
    ContinuesAt(p, i, ItemText(item), rest);
    NameIsRead(p, i, item.name);
  }

  /** One item is read off, and the set has grown by it. */
  lemma ItemIsRead(p: Octets, i: nat, item: Item, rest: string, cs: Charset, found: bool)
    requires Continues(p, i, ItemText(item), rest) && Known(item) && Spelled(item, rest, !found && !cs[NEGATE])
    ensures ParseFrom(p, i, cs, Default, found) == ParseFrom(p, i + |ItemText(item)|, With(cs, item), Default, true)
  {
    hide ParseFrom, WithRange, WithChar, Known, ClassFlag, SameKind, BeginsRange, Char, Continues;
    match item
    case One(c, escaped) => OneIsRead(p, i, c, escaped, rest, cs, found);
    case Range(_, _, _, _) => RangeIsRead(p, i, item, rest, cs, found);
    case Named(_) => NamedItemIsRead(p, i, item, rest, cs, found);
  }

  lemma {:induction false} ItemsAreRead(p: Octets, i: nat, items: seq<Item>, cs: Charset, found: bool)
    requires Reads(p, i, ItemsText(items)) && p[i + |ItemsText(items)|] == ']' && (found || items != [])
    requires AllSpelled(items, !found && !cs[NEGATE]) && forall item :: item in items ==> Known(item)
    ensures ParseFrom(p, i, cs, Default, found) == Some(Taken(WithAll(cs, items), i + |ItemsText(items)|))
    decreases |items|
  {
    hide Spelled, Known, With, ItemText, ParseFrom;
    if items == [] {
      ClosingIsRead(p, i, cs);
    } else {
      var text, rest := ItemText(items[0]), ItemsText(items[1..]);
      var end := i + |text| + |rest|;
      assert p[i..end][..|text|] == p[i..i + |text|] && p[i..end][|text|..] == p[i + |text|..end];
      assert (text + rest)[..|text|] == text && (text + rest)[|text|..] == rest;
      assert p[i..end + 1] == p[i..end] + [p[end]] == text + (rest + "]");
      assert items[0] in items;
      ItemIsRead(p, i, items[0], rest + "]", cs, found);
      ItemsAreRead(p, i + |text|, items[1..], With(cs, items[0]), true);
    }
  }

  lemma ClosingIsRead(p: Octets, i: nat, cs: Charset)
    requires i < |p| && p[i] == ']'
    ensures ParseFrom(p, i, cs, Default, true) == Some(Taken(cs, i))
  {
  }

  function Blank(negated: bool): Charset { if negated then EmptySet()[NEGATE := true] else EmptySet() }

  /** The set the matcher makes of a bracket expression. */
  function SetOf(b: Brackets): Charset
    requires forall item :: item in b.items ==> Known(item)
  {
    WithAll(Blank(b.negation.Some?), b.items)
  }

  /** A bracket expression is read to its closing bracket, as the set of its items. */
  lemma BracketsAreRead(p: Octets, i: nat, b: Brackets)
    requires Proper(b) && Reads(p, i, Inner(b)) && p[i + |Inner(b)|] == ']'
    ensures (forall item :: item in b.items ==> Known(item)) && ParseSet(p, i) == Some(Taken(SetOf(b), i + |Inner(b)|))
  {
    hide AllSpelled, Known, WithAll, ItemsText;
    SpelledIsKnown(b.items, b.negation.None?);
    if b.negation.Some? {
      var text := ItemsText(b.items);
      assert p[i..i + |Inner(b)|][0] == b.negation.value;
      assert p[i..i + |Inner(b)|][1..] == p[i + 1..i + 1 + |text|] && Inner(b)[1..] == text;
      ItemsAreRead(p, i + 1, b.items, Blank(true), false);
      MarkIsRead(p, i);
    } else {
      assert Inner(b) == ItemsText(b.items);
      ItemsAreRead(p, i, b.items, Blank(false), false);
    }
  }

  lemma MarkIsRead(p: Octets, i: nat)
    requires i < |p| && p[i] in {'^', '!'}
    ensures ParseSet(p, i) == ParseFrom(p, i + 1, Blank(true), Default, false)
  {
  }

  // ---- The test of the matcher against the meaning

  /** The item puts the entry k of a set on. */
  predicate Adds(item: Item, k: int) {
    match item
    case One(c, _) => c as int == k
    case Range(first, last, _, _) => InRange(k, first, last)
    case Named(name) => ClassFlag(name) == Some(k)
  }

  lemma {:induction false} WithAllHas(cs: Charset, items: seq<Item>, k: nat)
    requires k < CHSET_SIZE && forall item :: item in items ==> Known(item)
    ensures WithAll(cs, items)[k] <==> cs[k] || exists item :: item in items && Adds(item, k)
    decreases |items|
  {
    hide Known, Adds, With;
    if items != [] {
      assert items[0] in items && forall item :: item in items <==> item == items[0] || item in items[1..];
      WithHas(cs, items[0], k);
      WithAllHas(With(cs, items[0]), items[1..], k);
    }
  }

  lemma WithHas(cs: Charset, item: Item, k: nat)
    requires k < CHSET_SIZE && Known(item)
    ensures With(cs, item)[k] <==> cs[k] || Adds(item, k)
  {
    hide ClassFlag, InRange;
  }

  predicate CoversAlone(item: Item, c: char) { !item.Named? && Covers(item, c) }

  lemma AddsMeans(item: Item, c: char)
    requires Known(item) && c as int < 256
    ensures Adds(item, c as int) <==> CoversAlone(item, c)
    ensures !Adds(item, NEGATE)
    ensures forall flag :: ALNUM <= flag <= UPPER ==>
        (Adds(item, flag) <==> item.Named? && ClassFlag(item.name) == Some(flag))
  {
    hide ClassFlag;
    if item.Named? { ClassNames(item.name); }
  }

  lemma NamedIsClass(name: string, c: char)
    requires ClassFlag(name).Some?
    ensures InNamed(name, c) <==> InClass(ClassFlag(name).value, c)
  {
    hide IsAlnum, IsAlpha, IsDigit, IsXDigit, IsPrint, IsSpace, IsUpper, IsLower, IsBlank, IsGraph;
  }

  /** What is on in the set of a bracket expression: its characters and ranges, its classes, its mark. */
  lemma SetHas(b: Brackets, c: char)
    requires (forall item :: item in b.items ==> Known(item)) && c as int < 256
    ensures SetOf(b)[c as int] <==> exists item :: item in b.items && CoversAlone(item, c)
    ensures forall flag :: ALNUM <= flag <= UPPER ==>
              (SetOf(b)[flag] <==> exists item :: item in b.items && item.Named? && ClassFlag(item.name) == Some(flag))
    ensures SetOf(b)[NEGATE] == b.negation.Some?
  {
    hide ClassFlag, Known, Adds, WithAll, CoversAlone;
    forall item | item in b.items
      ensures (Adds(item, c as int) <==> CoversAlone(item, c)) && !Adds(item, NEGATE)
      ensures forall flag :: ALNUM <= flag <= UPPER ==>
          (Adds(item, flag) <==> item.Named? && ClassFlag(item.name) == Some(flag))
    {
      AddsMeans(item, c);
    }
    WithAllHas(Blank(b.negation.Some?), b.items, c as int);
    WithAllHas(Blank(b.negation.Some?), b.items, NEGATE);
    forall flag | ALNUM <= flag <= UPPER
      ensures SetOf(b)[flag] <==> exists item :: item in b.items && item.Named? && ClassFlag(item.name) == Some(flag)
    {
      WithAllHas(Blank(b.negation.Some?), b.items, flag);
    }
  }

  /** The set means what the items mean. */
  lemma SetMeansItems(b: Brackets, c: char)
    requires (forall item :: item in b.items ==> Known(item)) && c as int < 256
    ensures Means(SetOf(b), c) <==> Holds(b, c)
  {
    hide ClassFlag, SetOf, InNamed, InClass;
    SetHas(b, c);
    forall item | item in b.items && item.Named?
      ensures ClassFlag(item.name).Some? && ALNUM <= ClassFlag(item.name).value <= UPPER
      ensures InNamed(item.name, c) <==> InClass(ClassFlag(item.name).value, c)
    {
      assert Known(item);
      NamedIsClass(item.name, c);
      ClassNames(item.name);
    }
    if item :| item in b.items && Covers(item, c) {
      if item.Named? {
        var flag := ClassFlag(item.name).value;
        assert SetOf(b)[flag] && InClass(flag, c);
      } else {
        assert CoversAlone(item, c);
      }
    }
  }

  /** Of the classes named, the only one the matcher looks at. */
  function ClassLookedAt(items: seq<Item>): (name: string)
    ensures name != "" ==> Named(name) in items
    ensures forall item :: item in items && item.Named? && ClassFlag(item.name).Some? ==> name != ""
  {
    if Named("alnum") in items then "alnum" else if Named("alpha") in items then "alpha"
    else if Named("digit") in items then "digit" else if Named("xdigit") in items then "xdigit"
    else if Named("print") in items then "print" else if Named("space") in items then "space"
    else if Named("upper") in items then "upper" else if Named("lower") in items then "lower"
    else if Named("blank") in items then "blank" else if Named("graph") in items then "graph" else ""
  }

  lemma FlagsOfNames(b: Brackets, flag: nat, name: string)
    requires (forall item :: item in b.items ==> Known(item)) && ClassFlag(name) == Some(flag) && ALNUM <= flag <= UPPER
    ensures SetOf(b)[flag] <==> Named(name) in b.items
  {
    hide SetOf;
    SetHas(b, 'x');
    if Named(name) in b.items { assert Named(name).Named?; }
  }

  lemma ClassFlags()
    ensures ClassFlag("alnum") == Some(ALNUM) && ClassFlag("alpha") == Some(ALPHA) && ClassFlag("digit") == Some(DIGIT)
    ensures ClassFlag("xdigit") == Some(XDIGIT) && ClassFlag("print") == Some(PRINT)
        && ClassFlag("space") == Some(SPACE)
    ensures ClassFlag("upper") == Some(UPPER) && ClassFlag("lower") == Some(LOWER)
    ensures ClassFlag("blank") == Some(BLANK) && ClassFlag("graph") == Some(GRAPH) && ClassFlag("") == None
  {
  }

  lemma SetNames(b: Brackets)
    requires forall item :: item in b.items ==> Known(item)
    ensures var cs := SetOf(b);
            && cs[ALNUM] == (Named("alnum") in b.items) && cs[ALPHA] == (Named("alpha") in b.items)
            && cs[DIGIT] == (Named("digit") in b.items) && cs[XDIGIT] == (Named("xdigit") in b.items)
            && cs[PRINT] == (Named("print") in b.items) && cs[SPACE] == (Named("space") in b.items)
            && cs[UPPER] == (Named("upper") in b.items) && cs[LOWER] == (Named("lower") in b.items)
            && cs[BLANK] == (Named("blank") in b.items) && cs[GRAPH] == (Named("graph") in b.items)
  {
    hide SetOf, Known, ClassFlag;
    ClassFlags();
    FlagsOfNames(b, ALNUM, "alnum");
    FlagsOfNames(b, ALPHA, "alpha");
    FlagsOfNames(b, DIGIT, "digit");
    FlagsOfNames(b, XDIGIT, "xdigit");
    FlagsOfNames(b, PRINT, "print");
    FlagsOfNames(b, SPACE, "space");
    FlagsOfNames(b, UPPER, "upper");
    FlagsOfNames(b, LOWER, "lower");
    FlagsOfNames(b, BLANK, "blank");
    FlagsOfNames(b, GRAPH, "graph");
  }

  ghost predicate CoveredAlone(b: Brackets, c: char) { exists item :: item in b.items && CoversAlone(item, c) }

  lemma FirstIsLookedAt(b: Brackets)
    requires forall item :: item in b.items ==> Known(item)
    ensures FirstClass(SetOf(b)) == ClassFlag(ClassLookedAt(b.items))
  {
    hide SetOf, Known, ClassFlag;
    ClassFlags();
    SetNames(b);
  }

  lemma NamedIsKnown(name: string, c: char)
    ensures InNamed(name, c) ==> ClassFlag(name).Some?
  {
  }

  lemma InSetReads(b: Brackets, c: char)
    requires (forall item :: item in b.items ==> Known(item)) && c as int < 256
    ensures InSet(SetOf(b), c) <==> (CoveredAlone(b, c) || InNamed(ClassLookedAt(b.items), c)) != b.negation.Some?
  {
    hide SetOf, Known, CoversAlone, InNamed, InSet, FirstClass, ClassLookedAt, ClassFlag, InClass;
    SetHas(b, c);
    InSetLooksAtFirst(SetOf(b), c);
    FirstIsLookedAt(b);
    var name := ClassLookedAt(b.items);
    if ClassFlag(name).Some? { NamedIsClass(name, c); } else { NamedIsKnown(name, c); }
  }

  /** No class that is passed over holds a character beyond those listed and those of the class looked at. */
  ghost predicate ReadsAsMeant(b: Brackets) {
    forall c: char, item :: 0 < c as int < 256 && item in b.items && Covers(item, c) ==>
      CoveredAlone(b, c) || InNamed(ClassLookedAt(b.items), c)
  }

  /** The test decides membership for every character exactly when no class that matters is passed over. */
  lemma InSetIsHoldsExactly(b: Brackets)
    requires forall item :: item in b.items ==> Known(item)
    ensures (forall c: char :: 0 < c as int < 256 ==> InSet(SetOf(b), c) == Holds(b, c)) <==> ReadsAsMeant(b)
  {
    hide SetOf, Known, InSet, InNamed, CoveredAlone;
    forall c: char | 0 < c as int < 256
      ensures InSet(SetOf(b), c) == Holds(b, c) <==>
              forall item :: item in b.items && Covers(item, c) ==>
                  CoveredAlone(b, c) || InNamed(ClassLookedAt(b.items), c)
    {
      InSetReads(b, c);
      FoundIsCovered(b, c);
    }
  }

  lemma FoundIsCovered(b: Brackets, c: char)
    ensures CoveredAlone(b, c) || InNamed(ClassLookedAt(b.items), c) ==>
        exists item :: item in b.items && Covers(item, c)
  {
    hide InNamed, ClassLookedAt, ClassFlag;
    var name := ClassLookedAt(b.items);
    NamedIsKnown(name, c);
    ClassFlags();
    if InNamed(name, c) { assert Named(name) in b.items && Covers(Named(name), c); }
  }

  predicate OneClass(b: Brackets) {
    forall i, k :: 0 <= i < |b.items| && 0 <= k < |b.items| && b.items[i].Named? && b.items[k].Named? ==>
      b.items[i] == b.items[k]
  }

  /** With at most one class there is none to pass over. */
  lemma OneClassReadsAsMeant(b: Brackets)
    requires (forall item :: item in b.items ==> Known(item)) && OneClass(b)
    ensures ReadsAsMeant(b)
  {
    hide ClassFlag, SetOf, InSet, Means, Holds, ReadsAsMeant, Known;
    SetHas(b, 'x');
    forall c: char | 0 < c as int < 256 ensures InSet(SetOf(b), c) == Holds(b, c) {
      InSetIsMeaning(SetOf(b), c);
      SetMeansItems(b, c);
    }
    InSetIsHoldsExactly(b);
  }

  /** "[[:alpha:][:digit:]]" */
  function LettersAndDigits(): Brackets { Brackets(None, [Named("alpha"), Named("digit")]) }

  lemma LettersAndDigitsAreProper()
    ensures Proper(LettersAndDigits()) && Inner(LettersAndDigits()) == "[:alpha:][:digit:]"
    ensures forall item :: item in LettersAndDigits().items ==> Known(item)
  {
    hide ClassFlag;
    ClassFlags();
    var b := LettersAndDigits();
    assert b.items[1..] == [Named("digit")] && b.items[1..][1..] == [];
  }

  /** The class of digits is passed over. */
  lemma DigitsArePassedOver()
    requires forall item :: item in LettersAndDigits().items ==> Known(item)
    ensures Holds(LettersAndDigits(), '5') && !InSet(SetOf(LettersAndDigits()), '5')
  {
    hide InSet, SetOf, ClassFlag;
    var b := LettersAndDigits();
    assert Covers(b.items[1], '5');
    InSetReads(b, '5');
  }
}
