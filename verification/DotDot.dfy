/** Removing "." and ".." segments from a URL path, in place over two character buffers. */
module DotDot {
  import opened ByteString
  import opened Text

  // ---- The loop of section 5.2.4 of RFC 3986

  /** The first segment with its leading slash, if it has one. */
  function First(s: string): (p: string)
    requires s != ""
    ensures p != "" && p <= s && '/' !in p[1..]
    ensures |p| < |s| ==> s[|p|] == '/'
  {
    [s[0]] + Until(s[1..], '/')
  }

  /** The output without its last segment and the slash before it. */
  function DropLast(output: string): (r: string)
    ensures r <= output
  {
    if output == "" then ""
    else if output[|output| - 1] == '/' then output[..|output| - 1]
    else DropLast(output[..|output| - 1])
  }

  function RemoveDots(input: string, output: string): (r: string)
    ensures |r| <= |input| + |output|
    decreases |input|
  {
    if input == "" then output
    else if "./" <= input then RemoveDots(input[2..], output)
    else if "../" <= input then RemoveDots(input[3..], output)
    else if "/./" <= input then RemoveDots(input[2..], output)
    else if input == "/." then RemoveDots("/", output)
    else if "/../" <= input then RemoveDots(input[3..], DropLast(output))
    else if input == "/.." then RemoveDots("/", DropLast(output))
    else if input == "." || input == ".." then output
    else var p := First(input); RemoveDots(input[|p|..], output + p)
  }

  // ---- Reading and writing a character buffer

  /** A C string runs from i to end in the buffer. */
  ghost predicate CString(b: seq<char>, i: nat, end: nat) {
    i <= end < |b| && b[end] == NUL && NUL !in b[i..end]
  }

  /** strncmp(word, &b[i], |word|) == 0 */
  predicate StartsAt(b: seq<char>, i: nat, word: string) {
    i + |word| <= |b| && forall j :: 0 <= j < |word| ==> word[j] == b[i + j]
  }

  /** strcmp(word, &b[i]) == 0 */
  predicate IsAt(b: seq<char>, i: nat, word: string) {
    StartsAt(b, i, word) && i + |word| < |b| && b[i + |word|] == NUL
  }

  lemma StartsAtMeans(b: seq<char>, i: nat, end: nat, word: string)
    requires CString(b, i, end) && NUL !in word
    ensures StartsAt(b, i, word) <==> Begins(b[i..end], word)
    ensures IsAt(b, i, word) <==> word == b[i..end]
  {
    var s := b[i..end];
    assert forall j :: 0 <= j < |s| ==> s[j] == b[i + j];
    if i + |word| <= end {
      if i + |word| < end { assert s[|word|] != NUL; }
    } else {
      assert word[end - i] != NUL;
    }
  }

  lemma Skip(b: seq<char>, i: nat, end: nat, k: nat)
    requires CString(b, i, end) && i + k <= end
    ensures CString(b, i + k, end) && b[i + k..end] == b[i..end][k..]
  {
    assert forall j :: i + k <= j < end ==> b[j] == b[i..end][j - i];
  }

  // ---- The function itself

  /** Moves the output position back over the last segment. */
  method Truncate(out: array<char>, outptr: nat) returns (o: nat)
    requires outptr < out.Length
    modifies out
    ensures o <= outptr && out[..o] == DropLast(old(out[..outptr])) && out[o] == NUL
  {
    o := outptr;
    while o > 0
      invariant o <= outptr && DropLast(out[..o]) == DropLast(old(out[..outptr])) && out[..] == old(out[..])
    {
      o := o - 1;
      assert out[..o + 1][..o] == out[..o];
      if out[o] == '/' { break; }
    }
    out[o] := NUL;
  }

  /** Moves the first segment of the input to the end of the output. */
  method MoveSegment(b: array<char>, clone: nat, ghost end: nat, out: array<char>, outptr: nat) returns (c: nat, o: nat)
    requires b != out && b.Length == out.Length && CString(b[..], clone, end) && clone < end
    requires outptr + end - clone < out.Length
    modifies out
    ensures var p := First(b[clone..end]);
            c == clone + |p| && o == outptr + |p| && out[..o] == old(out[..outptr]) + p && out[o] == NUL
  {
    hide First;
    ghost var s := b[clone..end];
    ghost var p := First(s);
    c, o := clone, outptr;
    while c == clone || (b[c] != NUL && b[c] != '/')
      invariant clone <= c <= clone + |p| && o == outptr + c - clone
      invariant out[..o] == old(out[..outptr]) + p[..c - clone]
      decreases end - c
    {
      assert c < clone + |p| by { EndsThere(b[..], clone, end, c); }
      assert p[c - clone] == s[c - clone] == b[c];
      out[o] := b[c];
      c, o := c + 1, o + 1;
    }
    EndsThere(b[..], clone, end, c);
    out[o] := NUL;
  }

  /** The first segment ends where the input has its next slash or its end. */
  lemma EndsThere(b: seq<char>, clone: nat, end: nat, c: nat)
    requires CString(b, clone, end) && clone < end
    requires var p := First(b[clone..end]); clone <= c <= clone + |p|
    ensures var p := First(b[clone..end]);
            c < |b| && (c == clone + |p| <==> c != clone && (b[c] == NUL || b[c] == '/'))
  {
    var s := b[clone..end];
    var p := First(s);
    assert forall j :: clone <= j < end ==> b[j] == s[j - clone];
    if clone < c < clone + |p| { assert b[c] == p[c - clone] == p[1..][c - clone - 1]; }
  }

  lemma EmptyStays(output: string)
    ensures RemoveDots("", output) == output
  {
  }

  lemma SlashLast(b: seq<char>, i: nat, end: nat)
    requires CString(b, i, end) && i < end
    ensures var b' := b[end - 1 := '/']; CString(b', end - 1, end) && b'[end - 1..end] == "/"
  {
  }

  predicate Begins(s: string, word: string) { word <= s }

  /** The cases of one round, told apart by how the input begins. */
  lemma RoundMeans(s: string, output: string)
    requires s != ""
    ensures Begins(s, "./") ==> |s| >= 2 && RemoveDots(s, output) == RemoveDots(s[2..], output)
    ensures Begins(s, "../") ==> |s| >= 3 && RemoveDots(s, output) == RemoveDots(s[3..], output)
    ensures Begins(s, "/./") ==> |s| >= 3 && RemoveDots(s, output) == RemoveDots(s[2..], output) && s[2] == '/'
    ensures s == "/." ==> RemoveDots(s, output) == RemoveDots("/", output)
    ensures Begins(s, "/../") ==>
              |s| >= 4 && RemoveDots(s, output) == RemoveDots(s[3..], DropLast(output)) && s[3] == '/'
    ensures s == "/.." ==> RemoveDots(s, output) == RemoveDots("/", DropLast(output))
    ensures s == "." || s == ".." ==> RemoveDots(s, output) == RemoveDots("", output)
    ensures var special := Begins(s, "./") || Begins(s, "../") || Begins(s, "/./") || s == "/."
                           || Begins(s, "/../") || s == "/.." || s == "." || s == "..";
            var p := First(s);
            !special ==> RemoveDots(s, output) == RemoveDots(s[|p|..], output + p)
    ensures Begins(s, "./") || Begins(s, "../") || s == "." || s == ".." ==> s[0] != '/'
  {
    hide First, DropLast;
    assert "./" <= s ==> s[0] == '.' && s[1] == '/';
    assert "../" <= s ==> s[0] == '.' && s[1] == '.' && s[2] == '/';
    assert "/./" <= s ==> s[0] == '/' && s[1] == '.' && s[2] == '/';
    assert "/../" <= s ==> s[0] == '/' && s[1] == '.' && s[2] == '.' && s[3] == '/';
  }

  /** The input is b[clone..end], the output is out[..outptr], terminated; before a segment without a slash it is
      empty. */
  ghost predicate Ready(b: array<char>, clone: nat, end: nat, out: array<char>, outptr: nat)
    reads b, out
  {
    && b != out && b.Length == out.Length && CString(b[..], clone, end)
    && outptr + end - clone < out.Length && out[outptr] == NUL
    && (clone < end && b[clone] != '/' ==> outptr == 0)
  }

  ghost function Left(b: array<char>, clone: nat, end: nat, out: array<char>, outptr: nat): string
    requires Ready(b, clone, end, out, outptr)
    reads b, out
  {
    RemoveDots(b[..][clone..end], out[..outptr])
  }

  /** One round of the loop; A. of the standard's steps. */
  method Round(b: array<char>, clone: nat, ghost end: nat, out: array<char>, outptr: nat)
      returns (c: nat, ghost end': nat, o: nat)
    requires Ready(b, clone, end, out, outptr) && clone < end
    modifies b, out
    ensures Ready(b, c, end', out, o) && c <= end' && end' - c < end - clone && o + end' - c <= outptr + end - clone
    ensures Left(b, c, end', out, o) == old(Left(b, clone, end, out, outptr))
  {
    hide DropLast, First, StartsAt, IsAt, RemoveDots, Begins;
    c, end', o := clone, end, outptr;
    ghost var s := b[..][clone..end];
    StartsAtMeans(b[..], clone, end, "./");
    StartsAtMeans(b[..], clone, end, "../");
    RoundMeans(s, out[..outptr]);
    if StartsAt(b[..], clone, "./") {
      Skip(b[..], clone, end, 2);
      c := clone + 2;
    } else if StartsAt(b[..], clone, "../") {
      Skip(b[..], clone, end, 3);
      c := clone + 3;
    } else {
      c, end', o := RoundOnSlash(b, clone, end, out, outptr);
    }
  }

  /** B. and C. */
  method RoundOnSlash(b: array<char>, clone: nat, ghost end: nat, out: array<char>, outptr: nat)
      returns (c: nat, ghost end': nat, o: nat)
    requires Ready(b, clone, end, out, outptr) && clone < end
    requires var s := b[..][clone..end]; !Begins(s, "./") && !Begins(s, "../")
    modifies b, out
    ensures Ready(b, c, end', out, o) && c <= end' && end' - c < end - clone && o + end' - c <= outptr + end - clone
    ensures Left(b, c, end', out, o) == old(Left(b, clone, end, out, outptr))
  {
    hide DropLast, First, StartsAt, IsAt, RemoveDots, Begins, CString;
    c, end', o := clone, end, outptr;
    Bounds(b[..], clone, end);
    ghost var s := b[..][clone..end];
    StartsAtMeans(b[..], clone, end, "/./");
    StartsAtMeans(b[..], clone, end, "/.");
    StartsAtMeans(b[..], clone, end, "/../");
    StartsAtMeans(b[..], clone, end, "/..");
    RoundMeans(s, out[..outptr]);
    if StartsAt(b[..], clone, "/./") {
      Skip(b[..], clone, end, 2);
      c := clone + 2;
      assert b[c] == s[2];
    } else if IsAt(b[..], clone, "/.") {
      SlashLast(b[..], clone, end);
      b[clone + 1] := '/';
      assert b[..] == old(b[..])[clone + 1 := '/'];
      c := clone + 1;
    } else if StartsAt(b[..], clone, "/../") {
      Skip(b[..], clone, end, 3);
      c := clone + 3;
      assert b[c] == s[3];
      o := Truncate(out, outptr);
    } else if IsAt(b[..], clone, "/..") {
      SlashLast(b[..], clone, end);
      b[clone + 2] := '/';
      assert b[..] == old(b[..])[clone + 2 := '/'];
      c := clone + 2;
      o := Truncate(out, outptr);
    } else {
      c, end', o := RoundOnSegment(b, clone, end, out, outptr);
    }
  }

  /** D. and E. */
  method RoundOnSegment(b: array<char>, clone: nat, ghost end: nat, out: array<char>, outptr: nat)
      returns (c: nat, ghost end': nat, o: nat)
    requires Ready(b, clone, end, out, outptr) && clone < end
    requires var s := b[..][clone..end];
             !(Begins(s, "./") || Begins(s, "../") || Begins(s, "/./") || s == "/." || Begins(s, "/../") || s == "/..")
    modifies b, out
    ensures Ready(b, c, end', out, o) && c <= end' && end' - c < end - clone && o + end' - c <= outptr + end - clone
    ensures Left(b, c, end', out, o) == old(Left(b, clone, end, out, outptr))
  {
    hide DropLast, First, StartsAt, IsAt, RemoveDots, Begins, CString;
    c, end', o := clone, end, outptr;
    Bounds(b[..], clone, end);
    ghost var s := b[..][clone..end];
    assert s != "" && s[0] == b[clone];
    StartsAtMeans(b[..], clone, end, ".");
    StartsAtMeans(b[..], clone, end, "..");
    RoundMeans(s, out[..outptr]);
    if IsAt(b[..], clone, ".") || IsAt(b[..], clone, "..") {
      b[clone] := NUL;
      out[0] := NUL;
      end' := clone;
      EmptyString(b[..], clone);
    } else {
      Skip(b[..], clone, end, |First(s)|);
      assert b[..][clone..end] == b[clone..end];
      c, o := MoveSegment(b, clone, end, out, outptr);
      assert c < end ==> b[c] == s[c - clone];
    }
  }

  lemma Bounds(b: seq<char>, i: nat, end: nat)
    requires CString(b, i, end)
    ensures i <= end < |b|
  {
  }

  lemma EmptyString(b: seq<char>, i: nat)
    requires i < |b| && b[i] == NUL
    ensures CString(b, i, i) && b[i..i] == ""
  {
  }

  /** Puts the untouched query behind the output. */
  method AppendQuery(out: array<char>, outptr: nat, query: string)
    requires outptr + |query| < out.Length && out[outptr] == NUL
    modifies out
    ensures out[..outptr + |query|] == old(out[..outptr]) + query && out[outptr + |query|] == NUL
  {
    if query != "" {
      forall i | 0 <= i < |query| { out[outptr + i] := query[i]; }
      out[outptr + |query|] := NUL;
    }
  }

  method Dedotdotify(input: string) returns (out: array<char>)
    requires NUL !in input
    requires input == "" || input[0] != '?'
    ensures fresh(out) && out.Length == |input| + 1
    ensures var path := Until(input, '?');
            var result := RemoveDots(path, "") + input[|path|..];
            |result| <= |input| && out[..|result|] == result && out[|result|] == NUL
  {
    hide RemoveDots, Until;
    ghost var path := Until(input, '?');
    var inlen := |input|;
    out := new char[inlen + 1];
    out[0] := NUL;
    var b := new char[inlen + 1];
    forall i | 0 <= i < inlen { b[i] := input[i]; }
    b[inlen] := NUL;
    EmptyStays("");
    if inlen == 0 {
      return;
    }
    var queryp := |Until(input, '?')|;
    b[queryp] := NUL;
    assert b[..queryp] == path;
    var clone: nat, outptr: nat := 0, 0;
    ghost var end: nat := queryp;
    while b[clone] != NUL
      invariant Ready(b, clone, end, out, outptr) && outptr + end - clone <= queryp
      invariant Left(b, clone, end, out, outptr) == RemoveDots(path, "")
      decreases end - clone
    {
      EndTest(b[..], clone, end);
      clone, end, outptr := Round(b, clone, end, out, outptr);
    }
    EndTest(b[..], clone, end);
    assert out[..outptr] == RemoveDots(path, "") by { EmptyStays(out[..outptr]); }
    AppendQuery(out, outptr, input[queryp..]);
  }

  lemma EndTest(b: seq<char>, i: nat, end: nat)
    requires CString(b, i, end)
    ensures b[i] != NUL <==> i < end
    ensures i == end ==> b[i..end] == ""
  {
    if i < end { assert b[i..end][0] == b[i]; }
  }
}
