/** Character classes and case-insensitive comparison, as libcurl defines them for plain ASCII. */
module Ascii {

  /** Only 'a'..'z' have an upper-case form; every other character is left alone. */
  function ToUpper(c: char): char {
    if 'a' <= c <= 'z' then (c as int - 32) as char else c
  }

  function Upper(s: string): (u: string)
    ensures |u| == |s|
    ensures forall i :: 0 <= i < |s| ==> u[i] == ToUpper(s[i])
  {
    seq(|s|, i requires 0 <= i < |s| => ToUpper(s[i]))
  }

  predicate EqualNoCase(s: string, t: string) {
    Upper(s) == Upper(t)
  }

  /** strncasecompare(prefix, s, |prefix|) for a prefix without NUL. */
  predicate HasPrefixNoCase(prefix: string, s: string) {
    |prefix| <= |s| && EqualNoCase(prefix, s[..|prefix|])
  }

  predicate IsDigit(c: char) { '0' <= c <= '9' }

  function DigitValue(c: char): (d: nat)
    requires IsDigit(c)
    ensures d < 10
  {
    c as int - '0' as int
  }

  predicate IsXDigit(c: char) { IsDigit(c) || 'A' <= c <= 'F' || 'a' <= c <= 'f' }

  predicate IsUpper(c: char) { 'A' <= c <= 'Z' }

  predicate IsLower(c: char) { 'a' <= c <= 'z' }

  predicate IsAlpha(c: char) { IsUpper(c) || IsLower(c) }

  predicate IsAlnum(c: char) { IsAlpha(c) || IsDigit(c) }

  predicate IsBlank(c: char) { c == ' ' || c == '\t' }

  /** Space, tab, newline, vertical tab, form feed, carriage return. */
  predicate IsSpace(c: char) { c == ' ' || (9 <= c as int <= 13) }

  // ---- What these mean, written out

  const DIGITS := "0123456789"
  const CAPITALS := "ABCDEFGHIJKLMNOPQRSTUVWXYZ"
  const SMALLS := "abcdefghijklmnopqrstuvwxyz"

  lemma Listed()
    ensures |DIGITS| == 10 && forall i :: 0 <= i < 10 ==> DIGITS[i] as int == 48 + i
    ensures |CAPITALS| == 26 && forall i :: 0 <= i < 26 ==> CAPITALS[i] as int == 65 + i
    ensures |SMALLS| == 26 && forall i :: 0 <= i < 26 ==> SMALLS[i] as int == 97 + i
  {
  }

  lemma AtPlace(s: string, first: int, c: char)
    requires forall i :: 0 <= i < |s| ==> s[i] as int == first + i
    ensures c in s <==> first <= c as int < first + |s|
  {
    if first <= c as int < first + |s| { assert s[c as int - first] == c; }
  }

  lemma ClassesListed(c: char)
    ensures IsDigit(c) <==> c in DIGITS
    ensures IsUpper(c) <==> c in CAPITALS
    ensures IsLower(c) <==> c in SMALLS
    ensures IsXDigit(c) <==> c in DIGITS + "ABCDEF" + "abcdef"
    ensures IsSpace(c) <==> c in " \t\n\r" || c as int in {11, 12}
  {
    Listed();
    AtPlace(DIGITS, 48, c);
    AtPlace(CAPITALS, 65, c);
    AtPlace(SMALLS, 97, c);
    AtPlace("ABCDEF", 65, c);
    AtPlace("abcdef", 97, c);
  }

  /** The same letter, small or capital, or the same character. */
  predicate SameLetter(c: char, d: char) {
    c == d || exists i :: 0 <= i < 26 && {c, d} == {CAPITALS[i], SMALLS[i]}
  }

  lemma SameUpper(c: char, d: char)
    ensures ToUpper(c) == ToUpper(d) <==> SameLetter(c, d)
  {
    Listed();
    var upper, lower := if c < d then c else d, if c < d then d else c;
    if ToUpper(c) == ToUpper(d) && c != d {
      assert {c, d} == {CAPITALS[upper as int - 65], SMALLS[upper as int - 65]};
    }
  }

  /** Two texts are the same but for the case of letters. */
  lemma EqualNoCaseMeans(s: string, t: string)
    ensures EqualNoCase(s, t) <==> |s| == |t| && forall i :: 0 <= i < |s| ==> SameLetter(s[i], t[i])
  {
    hide SameLetter, ToUpper;
    forall c, d ensures ToUpper(c) == ToUpper(d) <==> SameLetter(c, d) { SameUpper(c, d); }
    if EqualNoCase(s, t) {
      assert |Upper(s)| == |Upper(t)|;
      forall i | 0 <= i < |s| ensures SameLetter(s[i], t[i]) { assert Upper(s)[i] == Upper(t)[i]; }
    }
  }

  lemma HasPrefixNoCaseMeans(prefix: string, s: string)
    ensures HasPrefixNoCase(prefix, s)
        <==> exists start: string, rest :: s == start + rest && EqualNoCase(start, prefix)
  {
    hide EqualNoCase;
    if HasPrefixNoCase(prefix, s) {
      assert s == s[..|prefix|] + s[|prefix|..];
      EqualNoCaseSymmetric(prefix, s[..|prefix|]);
    }
    forall start: string, rest | s == start + rest && EqualNoCase(start, prefix) ensures HasPrefixNoCase(prefix, s) {
      EqualNoCaseSymmetric(start, prefix);
      assert s[..|prefix|] == start;
    }
  }

  lemma EqualNoCaseSymmetric(s: string, t: string)
    ensures EqualNoCase(s, t) == EqualNoCase(t, s) && (EqualNoCase(s, t) ==> |s| == |t|)
  {
    assert |Upper(s)| == |s| && |Upper(t)| == |t|;
  }
}
