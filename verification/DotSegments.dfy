/** What dot-segment removal means, segment by segment. */
module DotSegments {
  import opened DotDot
  import opened Lists
  import opened Text

  /** A path cut before each of its slashes. */
  function Pieces(s: string): (ps: seq<string>)
    ensures s == "" <==> ps == []
    ensures s != "" ==> ps[0] == First(s)
    decreases |s|
  {
    if s == "" then [] else var p := First(s); [p] + Pieces(s[|p|..])
  }

  /** A piece as Pieces makes it: a slash, if any, only in front; only the first piece may do without. */
  predicate Shaped(ps: seq<string>) {
    && (forall i :: 0 <= i < |ps| ==> ps[i] != "" && '/' !in ps[i][1..])
    && (forall i :: 0 < i < |ps| ==> ps[i][0] == '/')
  }

  predicate Dotted(p: string) { p == "." || p == ".." || p == "/." || p == "/.." }

  predicate Clean(ps: seq<string>) {
    Shaped(ps) && forall i :: 0 <= i < |ps| ==> !Dotted(ps[i])
  }

  function Pop(stack: seq<string>): seq<string> {
    if stack == [] then [] else stack[..|stack| - 1]
  }

  /** The pieces of a path behind its leading slash. */
  function Unlead(ps: seq<string>): seq<string>
    requires ps == [] || ps[0] != ""
  {
    if ps == [] then [] else if ps[0] == "/" then ps[1..] else [ps[0][1..]] + ps[1..]
  }

  /** The meaning of a path: "." is nothing, ".." takes back the segment before it, and either leaves a slash at
      the end of the path; at the start of a relative path both vanish with the slash behind them. */
  function Walk(stack: seq<string>, ps: seq<string>): seq<string>
    requires Shaped(ps)
    decreases |ps|, if ps == [] then 0 else |ps[0]|
  {
    if ps == [] then stack
    else
      var p, rest := ps[0], ps[1..];
      var slash := if rest == [] then ["/"] else [];
      if p == "." || p == ".." then Walk(stack, Unlead(rest))
      else if p == "/." then Walk(stack + slash, rest)
      else if p == "/.." then Walk(Pop(stack) + slash, rest)
      else Walk(stack + [p], rest)
  }

  // ---- Cutting and joining

  lemma {:induction false} PiecesShaped(s: string)
    ensures Shaped(Pieces(s)) && (|Pieces(s)| > 0 ==> Pieces(s)[0][0] == s[0])
    decreases |s|
  {
    hide First;
    if s != "" {
      var p := First(s);
      PiecesShaped(s[|p|..]);
    }
  }

  lemma {:induction false} PiecesAppend(s: string, p: string)
    requires p != "" && p[0] == '/' && '/' !in p[1..]
    ensures Pieces(s + p) == Pieces(s) + [p]
    decreases |s|
  {
    if s == "" {
      OnePiece(p);
      assert s + p == p;
    } else {
      var k := |First(s)|;
      FirstWithTail(s, p);
      assert (s + p)[k..] == s[k..] + p;
      PiecesAppend(s[k..], p);
    }
  }

  lemma FirstWithTail(s: string, p: string)
    requires s != "" && p != "" && p[0] == '/'
    ensures First(s + p) == First(s)
  {
    var u := First(s)[1..];
    assert (s + p)[1..] == u + (s[1..][|u|..] + p);
    UntilAll(u, s[1..][|u|..] + p, '/');
  }

  lemma OnePiece(p: string)
    requires p != "" && '/' !in p[1..]
    ensures First(p) == p && Pieces(p) == [p]
  {
    UntilIsAll(p[1..], '/');
  }

  /** A path can be cut in one way only. */
  lemma {:induction false} PiecesOfFlat(ps: seq<string>)
    requires Shaped(ps)
    ensures Pieces(Flat(ps)) == ps
  {
    hide First, Pieces;
    if ps == [] {
      assert Pieces("") == [];
    } else {
      var init, last := ps[..|ps| - 1], ps[|ps| - 1];
      PiecesOfFlat(init);
      assert ps == init + [last];
      if init == [] {
        OnePiece(last);
        assert Flat(ps) == last;
      } else {
        PiecesAppend(Flat(init), last);
      }
    }
  }

  lemma {:induction false} FlatOfPieces(s: string, front: seq<string>)
    ensures Flat(front + Pieces(s)) == Flat(front) + s
    decreases |s|
  {
    hide First, Flat;
    if s == "" {
      assert front + Pieces(s) == front;
    } else {
      var p := First(s);
      FlatOfPieces(s[|p|..], front + [p]);
      assert front + Pieces(s) == (front + [p]) + Pieces(s[|p|..]);
      FlatPush(front, p);
    }
  }

  lemma UnleadIsTail(s: string)
    requires s != "" && s[0] == '/'
    ensures Unlead(Pieces(s)) == Pieces(s[1..])
  {
    hide Pieces, First;
    var p, t := First(s), s[1..];
    PiecesOnce(s);
    FirstOfTail(s);
    if t != "" && t[0] != '/' {
      PiecesOnce(t);
      assert s[|p|..] == t[|p| - 1..];
    } else {
      NoPieces();
    }
  }

  lemma PiecesOnce(s: string)
    requires s != ""
    ensures Pieces(s) == [First(s)] + Pieces(s[|First(s)|..])
  {
  }

  lemma NoPieces()
    ensures Pieces("") == []
  {
  }

  lemma FirstOfTail(s: string)
    requires s != "" && s[0] == '/'
    ensures First(s) == if s[1..] == "" || s[1..][0] == '/' then "/" else "/" + First(s[1..])
  {
    var t := s[1..];
    if t != "" && t[0] != '/' { assert Until(t, '/') == [t[0]] + Until(t[1..], '/'); }
  }

  lemma UnleadShaped(ps: seq<string>)
    requires Shaped(ps) && (ps != [] ==> ps[0][0] == '/')
    ensures Shaped(Unlead(ps))
  {
    if ps != [] && ps[0] != "/" {
      var tail := ps[0][1..];
      assert |ps[0]| > 1;
      assert forall c :: c in tail[1..] ==> c in tail;
    }
  }

  // ---- The character loop is the walk over the pieces

  lemma {:induction false} DropPiece(output: string, p: string)
    requires p != "" && '/' !in p[1..] && (p[0] == '/' || output == "")
    ensures DropLast(output + p) == output
    decreases |p|
  {
    var s := output + p;
    if |p| == 1 {
      assert s[..|s| - 1] == output;
    } else {
      var p' := p[..|p| - 1];
      assert s[|s| - 1] == p[1..][|p| - 2];
      assert s[..|s| - 1] == output + p';
      DropPiece(output, p');
    }
  }

  lemma PopIsDropLast(stack: seq<string>)
    requires Shaped(stack)
    ensures DropLast(Flat(stack)) == Flat(Pop(stack))
  {
    if stack != [] { DropPiece(Flat(Pop(stack)), stack[|stack| - 1]); }
  }

  /** A word is the first piece when the path is that word, or goes on with a slash. */
  lemma FirstIs(s: string, w: string)
    requires s != "" && w != "" && '/' !in w[1..]
    ensures First(s) == w <==> s == w || w + "/" <= s
  {
    if s == w || w + "/" <= s {
      assert s[1..] == w[1..] + s[|w|..];
      UntilAll(w[1..], s[|w|..], '/');
    }
    var p := First(s);
    if |p| < |s| { assert p + "/" == s[..|p| + 1]; }
  }

  /** One round of the loop, by the first piece. */
  lemma RoundByPiece(s: string, output: string)
    requires s != ""
    ensures var p := First(s);
            var rest := s[|p|..];
            RemoveDots(s, output) ==
              if p == "." || p == ".." then (if rest == "" then output else RemoveDots(rest[1..], output))
              else if p == "/." then (if rest == "" then output + "/" else RemoveDots(rest, output))
              else if p == "/.." then
                (if rest == "" then DropLast(output) + "/" else RemoveDots(rest, DropLast(output)))
              else RemoveDots(rest, output + p)
  {
    hide First, DropLast, RemoveDots;
    var p := First(s);
    var rest := s[|p|..];
    RoundMeans(s, output);
    FirstIs(s, ".");
    FirstIs(s, "..");
    FirstIs(s, "/.");
    FirstIs(s, "/..");
    assert "." + "/" == "./" && ".." + "/" == "../" && "/." + "/" == "/./" && "/.." + "/" == "/../";
    OnlySlash(output);
    OnlySlash(DropLast(output));
    EmptyStays(output);
  }

  lemma OnlySlash(output: string)
    ensures RemoveDots("/", output) == output + "/"
  {
    RoundMeans("/", output);
    OnePiece("/");
  }

  lemma ShapedPush(stack: seq<string>, p: string)
    requires Shaped(stack) && p != "" && '/' !in p[1..] && (p[0] == '/' || stack == [])
    ensures Shaped(stack + [p])
  {
  }

  lemma {:induction false} LoopIsWalk(s: string, stack: seq<string>)
    requires Shaped(stack) && (s != "" && s[0] != '/' ==> stack == [])
    ensures Shaped(Pieces(s)) && RemoveDots(s, Flat(stack)) == Flat(Walk(stack, Pieces(s)))
    decreases |s|
  {
    hide First, DropLast, RemoveDots, Shaped, Flat;
    PiecesShaped(s);
    if s == "" {
      EmptyStays(Flat(stack));
    } else {
      var p, output := First(s), Flat(stack);
      var rest := s[|p|..];
      RoundByPiece(s, output);
      PiecesShaped(rest);
      assert Pieces(s)[1..] == Pieces(rest);
      PopIsDropLast(stack);
      ShapedPop(stack);
      if p == "." || p == ".." {
        if rest != "" {
          UnleadIsTail(rest);
          LoopIsWalk(rest[1..], stack);
        }
      } else if p == "/." {
        if rest == "" { FlatPush(stack, "/"); }
        else {
          assert stack + [] == stack;
          LoopIsWalk(rest, stack);
        }
      } else if p == "/.." {
        if rest == "" { FlatPush(Pop(stack), "/"); }
        else {
          assert Pop(stack) + [] == Pop(stack);
          LoopIsWalk(rest, Pop(stack));
        }
      } else {
        ShapedPush(stack, p);
        FlatPush(stack, p);
        LoopIsWalk(rest, stack + [p]);
      }
    }
  }

  lemma ShapedPop(stack: seq<string>)
    requires Shaped(stack)
    ensures Shaped(Pop(stack))
  {
  }

  /** The loop of section 5.2.4 computes the meaning of the path. */
  lemma RemoveDotsIsWalk(s: string)
    ensures Shaped(Pieces(s)) && RemoveDots(s, "") == Flat(Walk([], Pieces(s)))
  {
    LoopIsWalk(s, []);
  }

  // ---- The result has no dot segments

  lemma {:induction false} WalkIsClean(stack: seq<string>, ps: seq<string>)
    requires Shaped(ps) && Clean(stack) && (ps != [] && ps[0][0] != '/' ==> stack == [])
    ensures Clean(Walk(stack, ps))
    decreases |ps|, if ps == [] then 0 else |ps[0]|
  {
    if ps != [] {
      var p, rest := ps[0], ps[1..];
      var slash := if rest == [] then ["/"] else [];
      assert Shaped(rest);
      if p == "." || p == ".." {
        if rest != [] { assert rest[0] == ps[1]; }
        UnleadShaped(rest);
        WalkIsClean(stack, Unlead(rest));
      } else if p == "/." {
        WalkIsClean(stack + slash, rest);
      } else if p == "/.." {
        WalkIsClean(Pop(stack) + slash, rest);
      } else {
        WalkIsClean(stack + [p], rest);
      }
    }
  }

  lemma {:induction false} CleanIsKept(stack: seq<string>, ps: seq<string>)
    requires Clean(ps)
    ensures Walk(stack, ps) == stack + ps
    decreases |ps|
  {
    if ps == [] {
      assert stack + ps == stack;
    } else {
      CleanIsKept(stack + [ps[0]], ps[1..]);
      assert stack + ps == (stack + [ps[0]]) + ps[1..];
    }
  }

  /** No segment of the result is "." or "..". */
  lemma NoDotSegments(s: string)
    ensures Clean(Pieces(RemoveDots(s, "")))
  {
    hide Walk, Clean, Flat, Pieces;
    RemoveDotsIsWalk(s);
    EmptyIsClean();
    WalkIsClean([], Pieces(s));
    CleanIsShaped(Walk([], Pieces(s)));
    PiecesOfFlat(Walk([], Pieces(s)));
  }

  lemma EmptyIsClean()
    ensures Clean([])
  {
  }

  lemma CleanIsShaped(ps: seq<string>)
    requires Clean(ps)
    ensures Shaped(ps)
  {
  }

  /** A path is left as it is exactly when it has no dot segments. */
  lemma UnchangedExactly(s: string)
    ensures RemoveDots(s, "") == s <==> Clean(Pieces(s))
  {
    hide Walk, Flat, Pieces, Clean, RemoveDots;
    NoDotSegments(s);
    if Clean(Pieces(s)) {
      RemoveDotsIsWalk(s);
      CleanIsKept([], Pieces(s));
      assert [] + Pieces(s) == Pieces(s);
      FlatOfPieces(s, []);
      assert Flat([]) == "" by { EmptyFlat(); }
    }
  }

  lemma EmptyFlat()
    ensures Flat([]) == ""
  {
  }

  /** A second removal changes nothing. */
  lemma Idempotent(s: string)
    ensures RemoveDots(RemoveDots(s, ""), "") == RemoveDots(s, "")
  {
    hide RemoveDots, Pieces, Clean;
    NoDotSegments(s);
    UnchangedExactly(RemoveDots(s, ""));
  }

  /** An absolute path stays absolute. */
  lemma {:induction false} StaysAbsolute(s: string, output: string)
    requires (s == "" && output != "") || (s != "" && s[0] == '/')
    requires output != "" ==> output[0] == '/'
    ensures var r := RemoveDots(s, output); r != "" && r[0] == '/'
    decreases |s|
  {
    hide First, DropLast, RemoveDots;
    if s == "" {
      EmptyStays(output);
    } else {
      RoundByPiece(s, output);
      var p := First(s);
      var rest := s[|p|..];
      assert p[0] == '/';
      if p == "/." {
        if rest != "" { StaysAbsolute(rest, output); }
      } else if p == "/.." {
        assert DropLast(output) <= output;
        if rest != "" { StaysAbsolute(rest, DropLast(output)); }
      } else {
        StaysAbsolute(rest, output + p);
      }
    }
  }
}
