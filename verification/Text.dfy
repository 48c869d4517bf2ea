/** Pieces of text: up to a character, and from the first that is no blank. */
module Text {
  import opened Ascii

  /** The longest prefix without the character. */
  function Until(s: string, c: char): (h: string)
    ensures h <= s && c !in h
    ensures |h| < |s| ==> s[|h|] == c
  {
    if s == [] || s[0] == c then [] else [s[0]] + Until(s[1..], c)
  }

  lemma {:induction false} UntilAll(s: string, t: string, c: char)
    requires c !in s && (t == [] || t[0] == c)
    ensures Until(s + t, c) == s
  {
    if s == [] {
      assert s + t == t;
    } else {
      assert (s + t)[1..] == s[1..] + t;
      UntilAll(s[1..], t, c);
    }
  }

  lemma {:induction false} UntilPast(s: string, t: string, c: char)
    requires c !in s
    ensures Until(s + t, c) == s + Until(t, c)
  {
    if s == [] {
      assert s + t == t;
    } else {
      assert (s + t)[1..] == s[1..] + t;
      UntilPast(s[1..], t, c);
    }
  }

  lemma {:induction false} UntilIsAll(s: string, c: char)
    requires c !in s
    ensures Until(s, c) == s
  {
    UntilAll(s, [], c);
    assert s + [] == s;
  }

  function SkipBlanks(s: string): (t: string)
    ensures |t| <= |s| && (t == "" || !IsBlank(t[0]))
  {
    if s != "" && IsBlank(s[0]) then SkipBlanks(s[1..]) else s
  }

  lemma {:induction false} SkipBlanksOf(s: string, rest: string)
    ensures SkipBlanks(s + rest) == if SkipBlanks(s) != "" then SkipBlanks(s) + rest else SkipBlanks(rest)
  {
    if s == "" {
      assert s + rest == rest;
    } else {
      assert (s + rest)[1..] == s[1..] + rest;
      SkipBlanksOf(s[1..], rest);
    }
  }

  lemma {:induction false} OnlyBlanks(s: string)
    requires forall c :: c in s ==> IsBlank(c)
    ensures SkipBlanks(s) == ""
  {
    if s != "" {
      assert s[0] in s && forall c :: c in s[1..] ==> c in s;
      OnlyBlanks(s[1..]);
    }
  }

  /** Blanks in front are skipped. */
  lemma BlanksAreSkipped(blanks: string, rest: string)
    requires (forall c :: c in blanks ==> IsBlank(c)) && (rest == "" || !IsBlank(rest[0]))
    ensures SkipBlanks(blanks + rest) == rest
  {
    OnlyBlanks(blanks);
    SkipBlanksOf(blanks, rest);
  }
}
