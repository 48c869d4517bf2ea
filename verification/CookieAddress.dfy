/** Which texts are taken for addresses. */
module CookieAddress {
  import opened Ascii
  import opened CookieDomain
  import opened Decimal
  import opened Text
  import opened Wrappers

  // ---- Dotted quads

  ghost predicate AreDigits(s: string) { forall c :: c in s ==> IsDigit(c) }

  /** No zero in front of other digits. */
  predicate Canonical(s: string) { s != "" && (|s| == 1 || s[0] != '0') }

  lemma ValueOfLast(p: string, c: char)
    requires AreDigits(p) && IsDigit(c)
    ensures AreDigits(p + [c]) && Value(p + [c]) == Value(p) * 10 + DigitValue(c)
  {
    assert (p + [c])[..|p|] == p;
  }

  lemma {:induction false} ValueGrows(p: string, d: string)
    requires AreDigits(p) && AreDigits(d)
    ensures AreDigits(p + d) && Value(p) <= Value(p + d)
    decreases |d|
  {
    if d == "" {
      assert p + d == p;
    } else {
      var n := |d| - 1;
      ValueGrows(p, d[..n]);
      assert d == d[..n] + [d[n]] && p + d == (p + d[..n]) + [d[n]];
      ValueOfLast(p + d[..n], d[n]);
    }
  }

  lemma ZeroIsZero(p: string)
    requires AreDigits(p) && Canonical(p)
    ensures Value(p) == 0 <==> p == "0"
  {
    assert p == [p[0]] + p[1..] && p[0] in p;
    ValueOfLast("", p[0]);
    assert "" + [p[0]] == [p[0]];
    ValueGrows([p[0]], p[1..]);
  }

  lemma {:induction false} DigitsOfValue(d: string)
    requires AreDigits(d) && Canonical(d)
    ensures Digits(Value(d)) == d
    decreases |d|
  {
    hide Digits, Value;
    var n := |d| - 1;
    assert d == d[..n] + [d[n]] && d[n] in d;
    assert AreDigits(d[..n]) by { forall c | c in d[..n] ensures IsDigit(c) { assert c in d; } }
    ValueOfLast(d[..n], d[n]);
    if n > 0 {
      assert d[..n][0] == d[0];
      DigitsOfValue(d[..n]);
      ZeroIsZero(d[..n]);
      NoValue();
      DigitsStep(Value(d[..n]), d[n]);
    } else {
      NoValue();
      assert d[..n] == "";
      OneDigit(d[n]);
    }
  }

  lemma DigitsStep(v: nat, c: char)
    requires IsDigit(c) && v > 0
    ensures Digits(v * 10 + DigitValue(c)) == Digits(v) + [c]
  {
  }

  lemma OneDigit(c: char)
    requires IsDigit(c)
    ensures Digits(DigitValue(c)) == [c]
  {
  }

  lemma DigitsAreCanonical(a: nat)
    ensures AreDigits(Digits(a)) && Canonical(Digits(a)) && Value(Digits(a)) == a
  {
    ValueOfDigits(a);
    LeadingZero(a);
  }

  /** More digits of an octet, of which p has been read. */
  lemma {:induction false} OctetGoesOn(p: string, d: string, rest: string, k: nat)
    requires AreDigits(p) && AreDigits(d) && Canonical(p) && Value(p) <= 255 && (rest == "" || !IsDigit(rest[0]))
    ensures AreDigits(p + d)
    ensures Quad(d + rest, Value(p), k, true)
            <==> Canonical(p + d) && Value(p + d) <= 255 && Quad(rest, Value(p + d), k, true)
    decreases |d|
  {
    hide Value;
    if d == "" {
      assert p + d == p && d + rest == rest;
    } else {
      var c, q := d[0], p + [d[0]];
      assert c in d && (d + rest)[0] == c && (d + rest)[1..] == d[1..] + rest && p + d == q + d[1..];
      ValueOfLast(p, c);
      ValueGrows(q, d[1..]);
      ZeroIsZero(p);
      if Value(p) != 0 && Value(q) <= 255 { OctetGoesOn(q, d[1..], rest, k); }
    }
  }

  lemma OctetIsRead(d: string, rest: string, k: nat)
    requires d != "" && AreDigits(d) && (rest == "" || !IsDigit(rest[0]))
    ensures Quad(d + rest, 0, k, false)
            <==> k < 4 && Canonical(d) && Value(d) <= 255 && Quad(rest, Value(d), k + 1, true)
  {
    hide Value;
    var c := d[0];
    assert c in d && (d + rest)[0] == c && (d + rest)[1..] == d[1..] + rest && [c] + d[1..] == d;
    ValueOfLast("", c);
    assert "" + [c] == [c] && Value("") == 0 by { NoValue(); }
    if k < 4 { OctetGoesOn([c], d[1..], rest, k + 1); }
  }

  lemma NoValue()
    ensures Value("") == 0
  {
  }

  /** So many numbers below 256, printed without leading zeros and joined by dots. */
  ghost predicate Octets(s: string, n: nat)
    decreases n
  {
    n > 0 && exists a: nat, rest: string :: OctetThen(s, a, rest, n)
  }

  ghost predicate OctetThen(s: string, a: nat, rest: string, n: nat)
    requires n > 0
    decreases n, 0
  {
    && a < 256 && s == Digits(a) + rest
    && if n == 1 then rest == "" else rest != "" && rest[0] == '.' && Octets(rest[1..], n - 1)
  }

  lemma {:induction false} QuadIsOctets(s: string, k: nat)
    requires k < 4
    ensures Quad(s, 0, k, false) <==> Octets(s, 4 - k)
    decreases 4 - k
  {
    hide Value, Digits, LeadingDigits;
    if Octets(s, 4 - k) {
      var a: nat, rest: string :| OctetThen(s, a, rest, 4 - k);
      OctetIsQuad(s, k, a, rest);
      if k < 3 { QuadIsOctets(rest[1..], k + 1); }
    }
    if Quad(s, 0, k, false) {
      var d := LeadingDigits(s);
      assert s != "" && IsDigit(s[0]);
      FirstDigit(s);
      var rest := s[|d|..];
      assert s == d + rest;
      OctetIsRead(d, rest, k);
      DigitsOfValue(d);
      var a := Value(d);
      OctetIsQuad(s, k, a, rest);
      if k < 3 { QuadIsOctets(rest[1..], k + 1); }
      assert OctetThen(s, a, rest, 4 - k);
    }
  }

  lemma MoreOctets(a: nat, rest: string, n: nat)
    requires a < 256 && Octets(rest, n)
    ensures Octets(Digits(a) + "." + rest, n + 1)
  {
    hide Digits;
    assert Digits(a) + "." + rest == Digits(a) + ("." + rest) && ("." + rest)[1..] == rest;
    assert OctetThen(Digits(a) + "." + rest, a, "." + rest, n + 1);
  }

  lemma LastOctet(a: nat)
    requires a < 256
    ensures Octets(Digits(a), 1)
  {
    hide Digits;
    assert Digits(a) == Digits(a) + "" && OctetThen(Digits(a), a, "", 1);
  }

  lemma OctetsBegin(s: string, n: nat) returns (a: nat, rest: string)
    requires n > 0 && Octets(s, n)
    ensures a < 256 && if n == 1 then s == Digits(a) else s == Digits(a) + "." + rest && Octets(rest, n - 1)
  {
    hide Digits;
    var r: string;
    a, r :| OctetThen(s, a, r, n);
    rest := if n == 1 then "" else r[1..];
    assert n > 1 ==> r == "." + rest;
  }

  lemma OctetIsQuad(s: string, k: nat, a: nat, rest: string)
    requires k < 4 && a < 256 && s == Digits(a) + rest && (rest == "" || !IsDigit(rest[0]))
    ensures Quad(s, 0, k, false)
       <==> if k == 3 then rest == "" else rest != "" && rest[0] == '.' && Quad(rest[1..], 0, k + 1, false)
  {
    hide Digits, Value;
    DigitsAreCanonical(a);
    OctetIsRead(Digits(a), rest, k);
  }

  lemma FirstDigit(s: string)
    requires s != "" && IsDigit(s[0])
    ensures LeadingDigits(s) != "" && AreDigits(LeadingDigits(s))
    ensures |LeadingDigits(s)| < |s| ==> !IsDigit(s[|LeadingDigits(s)|])
  {
  }

  /** A dotted quad is four numbers below 256 without leading zeros. */
  lemma Ipv4Exactly(s: string)
    ensures IsIpv4(s)
       <==> exists a: nat, b: nat, c: nat, d: nat ::
              && a < 256 && b < 256 && c < 256 && d < 256
              && s == Digits(a) + "." + Digits(b) + "." + Digits(c) + "." + Digits(d)
  {
    hide Quad, Digits, Octets;
    QuadIsOctets(s, 0);
    if IsIpv4(s) { var a, b, c, d := FourOf(s); }
    forall a: nat, b: nat, c: nat, d: nat |
        && a < 256 && b < 256 && c < 256 && d < 256
        && s == Digits(a) + "." + Digits(b) + "." + Digits(c) + "." + Digits(d)
      ensures IsIpv4(s)
    {
      FourMake(a, b, c, d);
    }
  }

  lemma FourOf(s: string) returns (a: nat, b: nat, c: nat, d: nat)
    requires Octets(s, 4)
    ensures a < 256 && b < 256 && c < 256 && d < 256
    ensures s == Digits(a) + "." + Digits(b) + "." + Digits(c) + "." + Digits(d)
  {
    hide Digits, Octets;
    var r1, r2, r3, end: string;
    a, r1 := OctetsBegin(s, 4);
    b, r2 := OctetsBegin(r1, 3);
    c, r3 := OctetsBegin(r2, 2);
    d, end := OctetsBegin(r3, 1);
  }

  lemma FourMake(a: nat, b: nat, c: nat, d: nat)
    requires a < 256 && b < 256 && c < 256 && d < 256
    ensures Octets(Digits(a) + "." + Digits(b) + "." + Digits(c) + "." + Digits(d), 4)
  {
    hide Digits, Octets;
    LastOctet(d);
    MoreOctets(c, Digits(d), 1);
    MoreOctets(b, Digits(c) + "." + Digits(d), 2);
    MoreOctets(a, Digits(b) + "." + (Digits(c) + "." + Digits(d)), 3);
    assert Digits(a) + "." + Digits(b) + "." + Digits(c) + "." + Digits(d)
        == Digits(a) + "." + (Digits(b) + "." + (Digits(c) + "." + Digits(d)));
  }

  lemma {:induction false} QuadChars(s: string, octet: nat, octets: nat, sawDigit: bool)
    requires Quad(s, octet, octets, sawDigit)
    ensures forall c :: c in s ==> IsDigit(c) || c == '.'
    decreases |s|
  {
    if s != "" {
      assert s == [s[0]] + s[1..];
      if IsDigit(s[0]) {
        QuadChars(s[1..], octet * 10 + DigitValue(s[0]), if sawDigit then octets else octets + 1, true);
      } else {
        QuadChars(s[1..], 0, octets, false);
      }
    }
  }

  lemma {:induction false} QuadHasDot(s: string, octet: nat, octets: nat, sawDigit: bool)
    requires Quad(s, octet, octets, sawDigit) && octets < 4 && (sawDigit || octets < 3)
    ensures '.' in s
    decreases |s|
  {
    if IsDigit(s[0]) {
      QuadHasDot(s[1..], octet * 10 + DigitValue(s[0]), if sawDigit then octets else octets + 1, true);
    }
  }

  /** An octet has three digits at the most. */
  lemma LongIsNoQuad(s: string)
    requires |s| >= 4 && forall i :: 0 <= i < 4 ==> s[i] != '.'
    ensures !IsIpv4(s)
  {
    hide Quad, Digits;
    if IsIpv4(s) {
      Ipv4Exactly(s);
      var a: nat, b: nat, c: nat, d: nat :|
        && a < 256 && b < 256 && c < 256 && d < 256
        && s == Digits(a) + "." + Digits(b) + "." + Digits(c) + "." + Digits(d);
      var rest := "." + Digits(b) + "." + Digits(c) + "." + Digits(d);
      assert s == Digits(a) + rest by { Regroup4(a, b, c, d); }
      DotBehind(a, rest, s);
    }
  }

  lemma Regroup4(a: nat, b: nat, c: nat, d: nat)
    ensures Digits(a) + "." + Digits(b) + "." + Digits(c) + "." + Digits(d)
         == Digits(a) + ("." + Digits(b) + "." + Digits(c) + "." + Digits(d))
  {
    hide Digits;
  }

  lemma DotBehind(a: nat, rest: string, s: string)
    requires a < 256 && rest != "" && rest[0] == '.' && s == Digits(a) + rest
    ensures exists i :: 0 <= i < 4 && i < |s| && s[i] == '.'
  {
    ThreeDigits(a);
    assert s[|Digits(a)|] == '.';
  }

  lemma ThreeDigits(a: nat)
    requires a < 256
    ensures |Digits(a)| <= 3
  {
    assert |Digits(a / 100)| == 1 && (a >= 100 ==> Digits(a / 10) == Digits(a / 100) + [Digit(a / 10 % 10)]);
  }

  // ---- Groups between colons

  /** One to four hexadecimal digits. */
  predicate HexGroup(g: string) { 1 <= |g| <= 4 && forall c :: c in g ==> IsXDigit(c) }

  /** The text cut at its colons. */
  function Groups6(t: string): (parts: seq<string>)
    ensures parts != []
    decreases |t|
  {
    var g := Until(t, ':');
    if |g| == |t| then [t] else [g] + Groups6(t[|g| + 1..])
  }

  /** The bytes that the last group fills; it may be a dotted quad, or missing. */
  function LastBytes(g: string): nat { if g == "" then 0 else if HexGroup(g) then 2 else 4 }

  predicate IsLast(g: string) { g == "" || HexGroup(g) || IsIpv4(g) }

  /** Groups of two bytes each, and the last; at most one of the others is empty, and then there are less than sixteen
      bytes, and sixteen otherwise. */
  ghost predicate Sixteen(parts: seq<string>)
    requires parts != []
  {
    var n := |parts| - 1;
    var gaps := multiset(parts[..n])[""];
    && (forall i :: 0 <= i < n ==> parts[i] == "" || HexGroup(parts[i])) && IsLast(parts[n]) && gaps <= 1
    && if gaps == 1 then 2 * (n - gaps) + LastBytes(parts[n]) < 16 else 2 * n + LastBytes(parts[n]) == 16
  }

  /** The same, counting from the front. */
  ghost predicate SixteenFrom(parts: seq<string>, bytes: nat, gap: bool)
    requires parts != []
    decreases |parts|
  {
    if |parts| == 1 then
      var all := bytes + LastBytes(parts[0]);
      IsLast(parts[0]) && all <= 16 && (if gap then all != 16 else all == 16)
    else if parts[0] == "" then !gap && SixteenFrom(parts[1..], bytes, true)
    else HexGroup(parts[0]) && bytes + 2 <= 16 && SixteenFrom(parts[1..], bytes + 2, gap)
  }

  lemma {:induction false} CountFromFront(parts: seq<string>, bytes: nat, gap: bool)
    requires parts != []
    ensures var n := |parts| - 1;
            var gaps := multiset(parts[..n])[""] + if gap then 1 else 0;
            var all := bytes + 2 * (n - multiset(parts[..n])[""]) + LastBytes(parts[n]);
            SixteenFrom(parts, bytes, gap)
            <==> (forall i :: 0 <= i < n ==> parts[i] == "" || HexGroup(parts[i])) && IsLast(parts[n]) && gaps <= 1
                 && if gaps == 1 then all < 16 else all == 16
    decreases |parts|
  {
    hide HexGroup, IsLast, LastBytes;
    var n := |parts| - 1;
    if n > 0 {
      var rest := parts[1..];
      assert parts[..n] == [parts[0]] + rest[..n - 1];
      assert multiset(parts[..n]) == multiset{parts[0]} + multiset(rest[..n - 1]);
      assert forall i :: 1 <= i < n ==> parts[i] == rest[i - 1];
      MultisetAtMost(rest[..n - 1], "");
      if parts[0] == "" {
        if !gap { CountFromFront(rest, bytes, true); }
      } else {
        CountFromFront(rest, bytes + 2, gap);
      }
    } else {
      assert parts[..n] == [];
    }
  }

  lemma {:induction false} MultisetAtMost(parts: seq<string>, x: string)
    ensures multiset(parts)[x] <= |parts|
    decreases |parts|
  {
    if parts != [] {
      assert parts == [parts[0]] + parts[1..];
      MultisetAtMost(parts[1..], x);
    }
  }

  /** The automaton, of whose present group g has been read. */
  lemma {:induction false} GroupsAreCounted(g: string, s: string, tp: nat, colon: Option<nat>)
    requires |g| <= 4 && (forall c :: c in g ==> IsXDigit(c)) && tp <= 16
    ensures Groups(s, tp, colon, |g|, g + s) <==> SixteenFrom(Groups6(g + s), tp, colon.Some?)
    decreases |s|
  {
    hide IsIpv4, Groups6, SixteenFrom;
    var t := g + s;
    Cut(t);
    if s == "" {
      assert t == g;
      NoColon(g);
      HexIsNoQuad(g);
      OneGroup(t, tp, colon.Some?);
    } else {
      var c := s[0];
      assert t == (g + [c]) + s[1..];
      if IsXDigit(c) {
        if |g| < 4 {
          GroupsAreCounted(g + [c], s[1..], tp, colon);
        } else {
          FiveIsTooLong(t, tp, colon.Some?);
        }
      } else if c == ':' {
        assert "" + s[1..] == s[1..];
        if g == "" {
          if colon.None? { GroupsAreCounted("", s[1..], tp, Some(tp)); }
        } else if tp + 2 <= 16 {
          GroupsAreCounted("", s[1..], tp + 2, colon);
        }
        GroupEnds(g, s, tp, colon.Some?);
      } else {
        assert forall k :: 0 <= k < |g| ==> t[k] == g[k] && g[k] in g;
        OtherCharacter(t, |g|, tp, colon.Some?);
      }
    }
  }

  lemma GroupEnds(g: string, s: string, tp: nat, gap: bool)
    requires |g| <= 4 && (forall c :: c in g ==> IsXDigit(c)) && s != "" && s[0] == ':'
    ensures SixteenFrom(Groups6(g + s), tp, gap)
       <==> if g == "" then !gap && SixteenFrom(Groups6(s[1..]), tp, true)
            else tp + 2 <= 16 && SixteenFrom(Groups6(s[1..]), tp + 2, gap)
  {
    hide Groups6, SixteenFrom;
    var t := g + s;
    assert ':' !in g;
    UntilAll(g, s, ':');
    assert t[|g| + 1..] == s[1..];
    MoreGroups(t, tp, gap);
  }

  lemma Cut(t: string)
    ensures var g := Until(t, ':');
            |g| <= |t| && Groups6(t) == if |g| == |t| then [t] else [g] + Groups6(t[|g| + 1..])
  {
  }

  lemma OneGroup(t: string, tp: nat, gap: bool)
    requires Until(t, ':') == t
    ensures SixteenFrom(Groups6(t), tp, gap)
       <==> IsLast(t) && tp + LastBytes(t) <= 16 && (if gap then tp + LastBytes(t) != 16 else tp + LastBytes(t) == 16)
  {
    hide IsLast, LastBytes;
  }

  lemma MoreGroups(t: string, tp: nat, gap: bool)
    requires |Until(t, ':')| < |t|
    ensures var g := Until(t, ':');
            SixteenFrom(Groups6(t), tp, gap)
            <==> if g == "" then !gap && SixteenFrom(Groups6(t[1..]), tp, true)
                 else HexGroup(g) && tp + 2 <= 16 && SixteenFrom(Groups6(t[|g| + 1..]), tp + 2, gap)
  {
    hide IsLast, LastBytes, HexGroup;
    var g := Until(t, ':');
    assert ([g] + Groups6(t[|g| + 1..]))[1..] == Groups6(t[|g| + 1..]);
  }

  lemma NoColon(g: string)
    requires ':' !in g
    ensures Until(g, ':') == g
  {
    UntilIsAll(g, ':');
  }

  lemma HexIsNoQuad(g: string)
    requires |g| <= 4 && forall c :: c in g ==> IsXDigit(c)
    ensures !IsIpv4(g)
  {
    if IsIpv4(g) { QuadHasDot(g, 0, 0, false); }
  }

  lemma FiveIsTooLong(t: string, tp: nat, gap: bool)
    requires |t| > 4 && forall i :: 0 <= i < 5 ==> IsXDigit(t[i])
    ensures !SixteenFrom(Groups6(t), tp, gap)
  {
    hide IsIpv4, Groups6, SixteenFrom;
    var g := Until(t, ':');
    UntilCut(t, ':');
    assert |g| >= 5;
    if |g| == |t| {
      LongIsNoQuad(t);
      OneGroup(t, tp, gap);
    } else {
      MoreGroups(t, tp, gap);
    }
  }

  /** A character that is no hexadecimal digit and no colon can only stand in a dotted quad at the end. */
  lemma OtherCharacter(t: string, i: nat, tp: nat, gap: bool)
    requires i < |t| && !IsXDigit(t[i]) && (forall k :: 0 <= k <= i ==> t[k] != ':')
    ensures SixteenFrom(Groups6(t), tp, gap)
       <==> t[i] == '.' && tp + 4 <= 16 && IsIpv4(t) && (if gap then tp + 4 != 16 else tp + 4 == 16)
  {
    hide IsIpv4, Groups6, SixteenFrom;
    var g := Until(t, ':');
    UntilCut(t, ':');
    assert t[i] in t && i < |g| && g[i] == t[i] && g[i] in g;
    if IsIpv4(t) { QuadOnly(t); }
    if |g| == |t| { OneGroup(t, tp, gap); } else { MoreGroups(t, tp, gap); assert t[|g|] in t; }
  }

  lemma QuadOnly(t: string)
    requires IsIpv4(t)
    ensures forall c :: c in t ==> IsDigit(c) || c == '.'
  {
    QuadChars(t, 0, 0, false);
  }

  lemma UntilCut(t: string, c: char)
    ensures var g := Until(t, c);
            g <= t && c !in g && (|g| < |t| ==> t[|g|] == c) && forall i :: 0 <= i < |t| && t[i] == c ==> |g| <= i
  {
  }

  /** The other notation: after a colon that must be doubled, if there is one in front, groups between colons that fill
      sixteen bytes. A colon at the end is let pass. */
  lemma Ipv6Exactly(s: string)
    ensures IsIpv6(s)
       <==> if s != "" && s[0] == ':' then |s| > 1 && s[1] == ':' && Sixteen(Groups6(s[1..])) else Sixteen(Groups6(s))
  {
    hide Groups, Groups6, Sixteen, SixteenFrom;
    var t := if s != "" && s[0] == ':' then s[1..] else s;
    assert "" + t == t;
    GroupsAreCounted("", t, 0, None);
    SixteenMeans(Groups6(t));
  }

  lemma SixteenMeans(parts: seq<string>)
    requires parts != []
    ensures Sixteen(parts) <==> SixteenFrom(parts, 0, false)
  {
    hide HexGroup, IsLast, LastBytes;
    CountFromFront(parts, 0, false);
  }

  lemma {:induction false} OneMoreGroup(t: string)
    ensures Groups6(t + ":") == Groups6(t) + [""]
    decreases |t|
  {
    hide Groups6;
    var g := Until(t, ':');
    UntilCut(t, ':');
    assert t == g + t[|g|..] && t + ":" == g + (t[|g|..] + ":");
    UntilAll(g, t[|g|..] + ":", ':');
    Cut(t);
    Cut(t + ":");
    if |g| == |t| {
      assert g == t && Until(t + ":", ':') == t;
      assert (t + ":")[|g| + 1..] == "";
      Cut("");
    } else {
      assert (t + ":")[|g| + 1..] == t[|g| + 1..] + ":";
      OneMoreGroup(t[|g| + 1..]);
      assert [g] + (Groups6(t[|g| + 1..]) + [""]) == ([g] + Groups6(t[|g| + 1..])) + [""];
    }
  }

  /** Eight groups are an address with a colon behind them too. */
  lemma ColonAtEndIsLetPass(s: string)
    requires IsIpv6(s) && s != "" && s[0] != ':' && |Groups6(s)| == 8 && forall g :: g in Groups6(s) ==> HexGroup(g)
    ensures IsIpv6(s + ":")
  {
    hide IsIpv6, Groups6, IsLast, HexGroup, LastBytes;
    var parts := Groups6(s);
    Ipv6Exactly(s + ":");
    OneMoreGroup(s);
    assert (parts + [""])[..8] == parts && (s + ":")[0] == s[0];
    EmptyIsNoGroup();
    assert "" !in parts && multiset(parts)[""] == 0;
    assert forall i :: 0 <= i < 8 ==> (parts + [""])[i] in parts;
  }

  lemma EmptyIsNoGroup()
    ensures !HexGroup("") && IsLast("") && LastBytes("") == 0
  {
  }
}
