/** Which addresses a connection tries on a network where attempts end in any way. */
module ConnectRepeats {
  import opened Connect
  import opened Wrappers

  // ---- Lists with repetitions

  /** A list with every run of equal elements cut down to one. */
  function Once(s: seq<nat>): (r: seq<nat>)
    ensures |r| <= |s|
    ensures forall x :: x in r <==> x in s
    ensures s != [] ==> r != [] && r[|r| - 1] == s[|s| - 1]
  {
    if s == [] then []
    else
      var r, last := Once(s[..|s| - 1]), s[|s| - 1];
      assert s == s[..|s| - 1] + [last];
      if r != [] && r[|r| - 1] == last then r else r + [last]
  }

  lemma OncePush(s: seq<nat>, x: nat)
    ensures Once(s + [x]) == if s != [] && s[|s| - 1] == x then Once(s) else Once(s) + [x]
  {
    assert (s + [x])[..|s|] == s;
  }

  predicate NoneTwice(s: seq<nat>) { Once(s) == s }

  ghost predicate AtMostTwice(s: seq<nat>) { forall x :: multiset(s)[x] <= 2 }

  lemma PushNew(s: seq<nat>, x: nat)
    requires AtMostTwice(s) && x !in s
    ensures Once(s + [x]) == Once(s) + [x] && (NoneTwice(s + [x]) <==> NoneTwice(s))
    ensures AtMostTwice(s + [x]) && multiset(s + [x])[x] == 1
  {
    OncePush(s, x);
    if Once(s) + [x] == s + [x] { assert Once(s) == (s + [x])[..|s|] == s; }
  }

  lemma PushAgain(s: seq<nat>, x: nat)
    requires AtMostTwice(s) && multiset(s)[x] == 1 && s != [] && s[|s| - 1] == x
    ensures Once(s + [x]) == Once(s) && !NoneTwice(s + [x]) && AtMostTwice(s + [x])
  {
    OncePush(s, x);
  }

  /** A strictly ascending list has no repetitions, nor has any beginning of it. */
  lemma {:induction false} AscendingHasNone(s: seq<nat>)
    requires forall i, j :: 0 <= i < j < |s| ==> s[i] < s[j]
    ensures NoneTwice(s)
  {
    if s != [] {
      var init := s[..|s| - 1];
      AscendingHasNone(init);
      assert s == init + [s[|s| - 1]];
      OncePush(init, s[|s| - 1]);
    }
  }

  // ---- One candidate

  /** The entries up to the cursor, and the one at it, have been tried, each at most twice, one after the other. */
  ghost predicate Done(addrs: Addrs, c: Conn, k: nat)
    requires k < 2
  {
    var a := c.tempaddr[k];
    && a <= |addrs| && (a < |addrs| ==> addrs[a] == FamilyOf(addrs, k)) && (c.tempsock[k].Some? ==> a < |addrs|)
    && Once(TriedBy(c.tries, k)) == Entries(addrs, FamilyOf(addrs, k), if a < |addrs| then a + 1 else a)
    && AtMostTwice(TriedBy(c.tries, k))
  }

  /** The same without the one at the cursor. */
  ghost predicate Ready(addrs: Addrs, c: Conn, k: nat)
    requires k < 2
  {
    var a := c.tempaddr[k];
    && a <= |addrs| && (a < |addrs| ==> addrs[a] == FamilyOf(addrs, k)) && c.tempsock[k].None?
    && Once(TriedBy(c.tries, k)) == Entries(addrs, FamilyOf(addrs, k), a)
    && AtMostTwice(TriedBy(c.tries, k))
  }

  /** The address at the cursor has been tried once only. */
  ghost predicate FirstTry(addrs: Addrs, c: Conn, k: nat)
    requires k < 2
  {
    c.tempaddr[k] < |addrs| ==> multiset(TriedBy(c.tries, k))[c.tempaddr[k]] == 1
  }

  /** Nothing but candidate k has changed. */
  ghost predicate Beside(c: Conn, c': Conn, k: nat)
    requires k < 2
  {
    && TriedBy(c'.tries, 1 - k) == TriedBy(c.tries, 1 - k)
    && c'.tempaddr[1 - k] == c.tempaddr[1 - k] && c'.tempsock[1 - k] == c.tempsock[1 - k] && c'.parallel == c.parallel
  }

  lemma SingleTries(net: Network, c: Conn, k: nat)
    requires k < 2
    ensures var (c', r) := SingleIpConnect(net, c, k);
            && c'.tempaddr == c.tempaddr && Beside(c, c', k) && |c'.tries| == |c.tries| + 1
            && TriedBy(c'.tries, k) == TriedBy(c.tries, k) + [c.tempaddr[k]]
            && (r == CURLE_COULDNT_CONNECT <==> net(|c.tries|) in {Refused, NoSocket})
            && (c'.tempsock[k].Some? <==> net(|c.tries|) == InProgress)
            && (r != CURLE_OK ==> c'.tempsock[k].None?)
  {
    var c' := SingleIpConnect(net, c, k).0;
    assert c'.tries[..|c.tries|] == c.tries;
  }

  /** Trying the address at the cursor for the first time. */
  lemma FirstTryDone(addrs: Addrs, net: Network, c: Conn, k: nat)
    requires k < 2 && Ready(addrs, c, k) && c.tempaddr[k] < |addrs|
    ensures var c' := SingleIpConnect(net, c, k).0;
            && Done(addrs, c', k) && FirstTry(addrs, c', k)
            && (NoneTwice(TriedBy(c'.tries, k)) <==> NoneTwice(TriedBy(c.tries, k)))
  {
    hide SingleIpConnect, TriedBy, Entries, Once, NoneTwice, AtMostTwice;
    SingleTries(net, c, k);
    var a, s, f := c.tempaddr[k], TriedBy(c.tries, k), FamilyOf(addrs, k);
    assert a !in Once(s);
    PushNew(s, a);
    NextEntry(addrs, f, a);
  }

  /** Trying it once more. */
  lemma SecondTryDone(addrs: Addrs, net: Network, c: Conn, k: nat)
    requires k < 2 && Done(addrs, c, k) && c.tempaddr[k] < |addrs| && FirstTry(addrs, c, k)
    ensures var c' := SingleIpConnect(net, c, k).0;
            Done(addrs, c', k) && !NoneTwice(TriedBy(c'.tries, k))
  {
    hide SingleIpConnect, TriedBy, Entries, Once, NoneTwice, AtMostTwice;
    SingleTries(net, c, k);
    var a, s, f := c.tempaddr[k], TriedBy(c.tries, k), FamilyOf(addrs, k);
    NextEntry(addrs, f, a);
    assert Once(s)[|Once(s)| - 1] == a && a in Once(s);
    PushAgain(s, a);
  }

  lemma AdvanceIsReady(addrs: Addrs, c: Conn, k: nat)
    requires k < 2 && Done(addrs, c, k) && c.tempaddr[k] < |addrs|
    ensures var c' := AiNext(addrs, c, k, true).(tempsock := c.tempsock[k := None]);
            Ready(addrs, c', k) && c'.tempaddr[k] > c.tempaddr[k] && Beside(c, c', k) && c'.tries == c.tries
  {
    hide TriedBy, Entries, Once, AtMostTwice;
    var f, start := FamilyOf(addrs, k), c.tempaddr[k] + 1;
    EntriesMonotone(addrs, f, start, SkipTo(addrs, f, start));
  }

  /** Trying on from an address not tried yet. */
  lemma {:induction false} TryFromDone(addrs: Addrs, net: Network, c: Conn, k: nat)
    requires k < 2 && Ready(addrs, c, k)
    ensures var (c', r) := TryFrom(addrs, net, c, k);
            && Done(addrs, c', k) && FirstTry(addrs, c', k) && Beside(c, c', k)
            && (NoneTwice(TriedBy(c'.tries, k)) <==> NoneTwice(TriedBy(c.tries, k)))
    decreases |addrs| - c.tempaddr[k]
  {
    hide SingleIpConnect, TriedBy, Entries, NoneTwice, Once, AtMostTwice, SkipTo;
    if c.tempaddr[k] < |addrs| {
      SingleTries(net, c, k);
      FirstTryDone(addrs, net, c, k);
      var (c', r) := SingleIpConnect(net, c, k);
      if r == CURLE_COULDNT_CONNECT {
        AdvanceIsReady(addrs, c', k);
        var c'' := AiNext(addrs, c', k, true);
        assert c''.tempsock == c'.tempsock[k := None];
        if c''.tempaddr[k] < |addrs| { TryFromDone(addrs, net, c'', k); }
      }
    }
  }

  /** Trying on from an address that was tried before. */
  lemma RetryDone(addrs: Addrs, net: Network, c: Conn, k: nat)
    requires k < 2 && Done(addrs, c, k) && c.tempaddr[k] < |addrs| && FirstTry(addrs, c, k) && c.tempsock[k].None?
    ensures var c' := TryFrom(addrs, net, c, k).0;
            Done(addrs, c', k) && Beside(c, c', k) && !NoneTwice(TriedBy(c'.tries, k))
  {
    hide SingleIpConnect, TriedBy, Entries, NoneTwice, Once, AtMostTwice, SkipTo;
    SingleTries(net, c, k);
    SecondTryDone(addrs, net, c, k);
    var (c', r) := SingleIpConnect(net, c, k);
    if r == CURLE_COULDNT_CONNECT {
      AdvanceIsReady(addrs, c', k);
      var c'' := AiNext(addrs, c', k, true);
      assert c''.tempsock == c'.tempsock[k := None];
      if c''.tempaddr[k] < |addrs| { TryFromDone(addrs, net, c'', k); }
    }
  }

  /** The first attempts of a family. */
  lemma {:induction false} FamilyDone(addrs: Addrs, net: Network, c: Conn, k: nat, soFar: Code)
    requires k < 2 && Ready(addrs, c, k)
    ensures var (c', r) := ConnectFamily(addrs, net, c, k, soFar);
            && Done(addrs, c', k) && Beside(c, c', k)
            && (NoneTwice(TriedBy(c'.tries, k)) <==> NoneTwice(TriedBy(c.tries, k)))
            && (r != CURLE_OK ==> c'.tempsock[k].None?)
    decreases |addrs| - c.tempaddr[k]
  {
    hide SingleIpConnect, TriedBy, Entries, NoneTwice, Once, AtMostTwice, SkipTo;
    if c.tempaddr[k] < |addrs| {
      SingleTries(net, c, k);
      FirstTryDone(addrs, net, c, k);
      var (c', r) := SingleIpConnect(net, c, k);
      if r != CURLE_OK {
        AdvanceIsReady(addrs, c', k);
        var c'' := AiNext(addrs, c', k, true);
        assert c''.tempsock == c'.tempsock[k := None];
        if c''.tempaddr[k] < |addrs| { FamilyDone(addrs, net, c'', k, r); }
      }
    }
  }

  // ---- Both candidates

  /** Candidate 1 has not been started. */
  ghost predicate Unstarted(addrs: Addrs, c: Conn) {
    Ready(addrs, c, 1) && TriedBy(c.tries, 1) == []
  }

  /** Candidate 1 was started, has no socket, and its cursor still is at an address. */
  predicate Stalled(addrs: Addrs, c: Conn) {
    TriedBy(c.tries, 1) != [] && c.tempsock[1].None? && c.tempaddr[1] < |addrs|
  }

  ghost predicate Kept(addrs: Addrs, c: Conn) {
    && Done(addrs, c, 0) && NoneTwice(TriedBy(c.tries, 0))
    && (Unstarted(addrs, c) || Done(addrs, c, 1))
    && (!c.parallel && c.tempsock[0].Some? ==> Unstarted(addrs, c))
  }

  /** Between calls: a stalled candidate has had one try only, while the other can still fail. */
  ghost predicate Between(addrs: Addrs, c: Conn) {
    Kept(addrs, c) && (Stalled(addrs, c) && c.tempsock[0].Some? ==> FirstTry(addrs, c, 1))
  }

  lemma NextAddressDone(addrs: Addrs, net: Network, c: Conn, i: nat, result: Code)
    requires i < 2 && Done(addrs, c, i) && c.tempsock[i].Some?
    ensures var p := NextAddress(addrs, net, c, i, result);
            && Done(addrs, p.c, i) && FirstTry(addrs, p.c, i) && Beside(c, p.c, i) && !p.connected
            && (NoneTwice(TriedBy(p.c.tries, i)) <==> NoneTwice(TriedBy(c.tries, i)))
  {
    hide TryFrom, SkipTo, Entries, TriedBy, NoneTwice, Once, AtMostTwice;
    AdvanceIsReady(addrs, c, i);
    TryFromDone(addrs, net, AiNext(addrs, c, i, true).(tempsock := c.tempsock[i := None]), i);
  }

  lemma StartDone(addrs: Addrs, net: Network, c: Conn)
    requires Unstarted(addrs, c)
    ensures var c' := TryNextIp(addrs, net, c, 1).0;
            && Done(addrs, c', 1) && FirstTry(addrs, c', 1) && Beside(c, c', 1) && NoneTwice(TriedBy(c'.tries, 1))
  {
    hide TryFrom, Entries, TriedBy, AtMostTwice;
    assert c.tempsock[1 := None] == c.tempsock;
    TryFromDone(addrs, net, c, 1);
    assert NoneTwice([]);
  }

  /** What holds of the other candidate stays. */
  lemma BesideKeeps(addrs: Addrs, c: Conn, c': Conn, k: nat)
    requires k < 2 && Beside(c, c', k)
    ensures Done(addrs, c', 1 - k) == Done(addrs, c, 1 - k) && Ready(addrs, c', 1 - k) == Ready(addrs, c, 1 - k)
    ensures FirstTry(addrs, c', 1 - k) == FirstTry(addrs, c, 1 - k)
    ensures k == 0 ==> Unstarted(addrs, c') == Unstarted(addrs, c) && Stalled(addrs, c') == Stalled(addrs, c)
  {
  }

  /** The first candidate's part of a poll. */
  lemma FirstKept(addrs: Addrs, net: Network, c: Conn, sight: Sight)
    requires Between(addrs, c)
    ensures var p := PollCandidate(addrs, net, c, 0, sight, CURLE_OK);
            && (NoneTwice(TriedBy(p.c.tries, 1)) <==> NoneTwice(TriedBy(c.tries, 1)))
            && (p.connected ==> p.c.tries == c.tries)
            && (!p.connected ==>
                  Kept(addrs, p.c) && (c.tempsock[0].Some? && Stalled(addrs, p.c) ==> FirstTry(addrs, p.c, 1)))
            && (c.tempsock[0].None? ==> p == Pass(c, CURLE_OK, false))
  {
    hide TryNextIp, NextAddress, Done, NoneTwice, TriedBy, FirstTry, Ready;
    if c.tempsock[0].Some? {
      match sight
      case Connected =>
      case Broken(_) =>
        NextAddressDone(addrs, net, c, 0, CURLE_OK);
        BesideKeeps(addrs, c, NextAddress(addrs, net, c, 0, CURLE_OK).c, 0);
      case Waiting(_, eyeballs) =>
        var c' := c;
        DoneInParallel(addrs, c);
        if !c.parallel && eyeballs {
          StartDone(addrs, net, c.(parallel := true));
          c' := TryNextIp(addrs, net, c.(parallel := true), 1).0;
          BesideKeeps(addrs, c.(parallel := true), c', 1);
        }
        NextAddressDone(addrs, net, c', 0, CURLE_OK);
        BesideKeeps(addrs, c', NextAddress(addrs, net, c', 0, CURLE_OK).c, 0);
    }
    var p := PollCandidate(addrs, net, c, 0, sight, CURLE_OK);
  }

  lemma DoneInParallel(addrs: Addrs, c: Conn)
    ensures forall k :: 0 <= k < 2 ==> Done(addrs, c.(parallel := true), k) == Done(addrs, c, k)
    ensures Unstarted(addrs, c.(parallel := true)) == Unstarted(addrs, c)
    ensures Unstarted(addrs, c) ==> NoneTwice(TriedBy(c.tries, 1))
  {
    assert NoneTwice([]);
  }

  /** The second candidate's part. */
  lemma SecondKept(addrs: Addrs, net: Network, c: Conn, sight: Sight, result: Code)
    requires Kept(addrs, c) && (Stalled(addrs, c) ==> FirstTry(addrs, c, 1))
    ensures var p := PollCandidate(addrs, net, c, 1, sight, result);
            && (NoneTwice(TriedBy(p.c.tries, 1)) <==> NoneTwice(TriedBy(c.tries, 1)))
            && (p.connected ==> p.c.tries == c.tries)
            && (!p.connected ==> Kept(addrs, p.c) && (Stalled(addrs, p.c) ==> FirstTry(addrs, p.c, 1)))
            && (c.tempsock[1].None? ==> p == Pass(c, result, false))
  {
    hide TryNextIp, NextAddress, Done, NoneTwice, TriedBy, FirstTry, Ready;
    if c.tempsock[1].Some? && !sight.Connected? {
      SocketMeansStarted(addrs, c);
      NextAddressDone(addrs, net, c, 1, result);
      BesideKeeps(addrs, c, NextAddress(addrs, net, c, 1, result).c, 1);
    }
  }

  lemma SocketMeansStarted(addrs: Addrs, c: Conn)
    requires c.tempsock[1].Some?
    ensures !Unstarted(addrs, c)
  {
  }

  /** With no socket left, the second candidate is tried from its cursor on: once more, if it is stalled. */
  lemma FallbackKept(addrs: Addrs, net: Network, c: Conn)
    requires Kept(addrs, c) && c.tempsock == [None, None] && (Stalled(addrs, c) ==> FirstTry(addrs, c, 1))
    ensures var c' := TryNextIp(addrs, net, c, 1).0;
            && Kept(addrs, c') && c'.tempsock[0].None?
            && (NoneTwice(TriedBy(c'.tries, 1)) <==> NoneTwice(TriedBy(c.tries, 1)) && !Stalled(addrs, c))
  {
    hide TryFrom, NoneTwice, TriedBy, FirstTry, Done, Ready;
    assert c.tempsock[1 := None] == c.tempsock;
    DoneInParallel(addrs, c);
    if Unstarted(addrs, c) {
      StartDone(addrs, net, c);
    } else if c.tempaddr[1] < |addrs| {
      CursorWasTried(addrs, c);
      RetryDone(addrs, net, c, 1);
    } else {
      assert TryFrom(addrs, net, c, 1) == (c, CURLE_COULDNT_CONNECT) by { NothingLeft(addrs, net, c); }
    }
    BesideKeeps(addrs, c, TryNextIp(addrs, net, c, 1).0, 1);
  }

  lemma CursorWasTried(addrs: Addrs, c: Conn)
    requires Done(addrs, c, 1) && c.tempaddr[1] < |addrs|
    ensures TriedBy(c.tries, 1) != []
  {
    hide TriedBy, Once;
    NextEntry(addrs, FamilyOf(addrs, 1), c.tempaddr[1]);
  }

  lemma NothingLeft(addrs: Addrs, net: Network, c: Conn)
    requires c.tempaddr[1] >= |addrs|
    ensures TryFrom(addrs, net, c, 1) == (c, CURLE_COULDNT_CONNECT)
  {
  }

  /** Candidate 0 has tried a beginning of its family's entries, none twice; candidate 1 has tried a beginning of its
      own in list order, none more than twice. */
  ghost predicate Tidy(addrs: Addrs, c: Conn) {
    && TriedBy(c.tries, 0) <= Entries(addrs, FamilyOf(addrs, 0), |addrs|)
    && Once(TriedBy(c.tries, 1)) <= Entries(addrs, FamilyOf(addrs, 1), |addrs|)
    && AtMostTwice(TriedBy(c.tries, 1))
  }

  lemma KeptIsTidy(addrs: Addrs, c: Conn)
    requires Kept(addrs, c)
    ensures Tidy(addrs, c)
  {
    hide TriedBy, Entries, Once, AtMostTwice;
    forall k | 0 <= k < 2
      ensures var a, f := c.tempaddr[k], FamilyOf(addrs, k);
              && (a <= |addrs| ==> Entries(addrs, f, a) <= Entries(addrs, f, |addrs|))
              && (a < |addrs| ==> Entries(addrs, f, a + 1) <= Entries(addrs, f, |addrs|))
    {
      var a, f := c.tempaddr[k], FamilyOf(addrs, k);
      if a <= |addrs| { EntriesMonotone(addrs, f, a, |addrs|); }
      if a < |addrs| { EntriesMonotone(addrs, f, a + 1, |addrs|); }
    }
  }

  /** A poll finds both candidates without a socket after an error, and falls back to the second while that is
      stalled. */
  predicate FallsBackStalled(addrs: Addrs, net: Network, c: Conn, sights: (Sight, Sight)) {
    var p0 := PollCandidate(addrs, net, c, 0, sights.0, CURLE_OK);
    var p1 := PollCandidate(addrs, net, p0.c, 1, sights.1, p0.result);
    !p0.connected && !p1.connected && p1.result != CURLE_OK && p1.c.tempsock == [None, None] && Stalled(addrs, p1.c)
  }

  lemma PollKept(addrs: Addrs, net: Network, c: Conn, sights: (Sight, Sight))
    requires Between(addrs, c)
    ensures var p := Poll(addrs, net, c, sights);
            && Tidy(addrs, p.c) && (!p.connected && p.result == CURLE_OK ==> Between(addrs, p.c))
            && (NoneTwice(TriedBy(p.c.tries, 1)) <==>
                  NoneTwice(TriedBy(c.tries, 1)) && !FallsBackStalled(addrs, net, c, sights))
  {
    hide PollCandidate, TryNextIp, Tidy, Kept, NoneTwice, TriedBy, FirstTry, Stalled;
    KeptIsTidy(addrs, c);
    FirstKept(addrs, net, c, sights.0);
    var p0 := PollCandidate(addrs, net, c, 0, sights.0, CURLE_OK);
    if p0.connected {
      SameTriesTidy(addrs, c, p0.c);
    } else if c.tempsock[0].None? && c.tempsock[1].None? {
      NoSocketNoChange(addrs, net, c, sights);
    } else {
      SocketIsNotStalled(addrs, c);
      KeptIsTidy(addrs, p0.c);
      SecondKept(addrs, net, p0.c, sights.1, p0.result);
      var p1 := PollCandidate(addrs, net, p0.c, 1, sights.1, p0.result);
      if p1.connected {
        SameTriesTidy(addrs, p0.c, p1.c);
      } else {
        KeptIsTidy(addrs, p1.c);
        if p1.result != CURLE_OK && p1.c.tempsock == [None, None] {
          FallbackKept(addrs, net, p1.c);
          KeptIsTidy(addrs, TryNextIp(addrs, net, p1.c, 1).0);
        }
      }
    }
  }

  lemma SameTriesTidy(addrs: Addrs, c: Conn, c': Conn)
    requires Tidy(addrs, c) && c'.tries == c.tries
    ensures Tidy(addrs, c')
  {
  }

  lemma SocketIsNotStalled(addrs: Addrs, c: Conn)
    ensures Stalled(addrs, c) ==> c.tempsock[1].None?
  {
  }

  /** With neither candidate under way nothing more is tried, and no error is reported. */
  lemma NoSocketNoChange(addrs: Addrs, net: Network, c: Conn, sights: (Sight, Sight))
    requires c.tempsock[0].None? && c.tempsock[1].None?
    ensures Poll(addrs, net, c, sights) == Pass(c, CURLE_OK, false) && !FallsBackStalled(addrs, net, c, sights)
  {
  }

  // ---- Whole connections

  /** Some poll of the connection falls back to the second candidate while that is stalled. */
  predicate RetriesStalled(addrs: Addrs, net: Network, c: Conn, rounds: seq<(Sight, Sight)>)
    decreases |rounds|
  {
    rounds != []
    && (FallsBackStalled(addrs, net, c, rounds[0])
        || (var p := Poll(addrs, net, c, rounds[0]);
            !p.connected && p.result == CURLE_OK && RetriesStalled(addrs, net, p.c, rounds[1..])))
  }

  lemma {:induction false} PollAllKept(addrs: Addrs, net: Network, c: Conn, rounds: seq<(Sight, Sight)>)
    requires Between(addrs, c)
    ensures var p := PollAll(addrs, net, c, rounds);
            && Tidy(addrs, p.c)
            && (NoneTwice(TriedBy(p.c.tries, 1))
                <==> NoneTwice(TriedBy(c.tries, 1)) && !RetriesStalled(addrs, net, c, rounds))
    decreases |rounds|
  {
    hide Poll, Tidy, Kept, NoneTwice, TriedBy, FallsBackStalled, FirstTry, Stalled;
    if rounds == [] {
      KeptIsTidy(addrs, c);
    } else {
      PollKept(addrs, net, c, rounds[0]);
      var p := Poll(addrs, net, c, rounds[0]);
      if !p.connected && p.result == CURLE_OK {
        PollAllKept(addrs, net, p.c, rounds[1..]);
      }
    }
  }

  lemma FreshIsReady(addrs: Addrs)
    ensures var c := Fresh(addrs); Ready(addrs, c, 0) && Unstarted(addrs, c) && TriedBy(c.tries, 0) == [] && !c.parallel
  {
    hide Entries;
    var c := Fresh(addrs);
    NoEntries(addrs, FamilyOf(addrs, 0));
    NoEntries(addrs, FamilyOf(addrs, 1));
    EntriesMonotone(addrs, FamilyOf(addrs, 1), 0, SkipTo(addrs, FamilyOf(addrs, 1), 0));
    assert AtMostTwice([]) && Once([]) == [];
  }

  lemma NoEntries(addrs: Addrs, family: Family)
    ensures Entries(addrs, family, 0) == []
  {
  }

  lemma ConnectHostKept(addrs: Addrs, net: Network)
    ensures var (c, r) := ConnectHost(addrs, net);
            Kept(addrs, c) && NoneTwice(TriedBy(c.tries, 1)) && (r == CURLE_OK ==> Between(addrs, c))
  {
    hide ConnectFamily, Fresh, TriedBy, NoneTwice, FirstTry, Done, Ready;
    var c0 := Fresh(addrs);
    FreshIsReady(addrs);
    DoneInParallel(addrs, c0);
    assert NoneTwice([]) by { NothingTwice(); }
    FamilyDone(addrs, net, c0, 0, CURLE_COULDNT_CONNECT);
    var (c1, r1) := ConnectFamily(addrs, net, c0, 0, CURLE_COULDNT_CONNECT);
    BesideKeeps(addrs, c0, c1, 0);
    if r1 != CURLE_OK {
      FamilyDone(addrs, net, c1, 1, r1);
      BesideKeeps(addrs, c1, ConnectFamily(addrs, net, c1, 1, r1).0, 1);
    }
  }

  lemma NothingTwice()
    ensures NoneTwice([])
  {
  }

  /** Over every connection, on every network: the first family's addresses are tried in list order, none twice and
      none passed over; the second family's in list order, none passed over and none more than twice; and none of
      them is tried twice exactly when no poll falls back to them while they are stalled. */
  lemma AddressesTriedOnceExactly(addrs: Addrs, net: Network, rounds: seq<(Sight, Sight)>)
    ensures var (c, r) := ConnectHost(addrs, net);
            var tries := Establish(addrs, net, rounds).c.tries;
            && TriedBy(tries, 0) <= Entries(addrs, FamilyOf(addrs, 0), |addrs|)
            && Once(TriedBy(tries, 1)) <= Entries(addrs, FamilyOf(addrs, 1), |addrs|) && AtMostTwice(TriedBy(tries, 1))
            && (TriedBy(tries, 1) <= Entries(addrs, FamilyOf(addrs, 1), |addrs|)
                <==> r != CURLE_OK || !RetriesStalled(addrs, net, c, rounds))
  {
    hide ConnectHost, PollAll, Kept, TriedBy, Entries, Once, RetriesStalled, FirstTry, Stalled, AtMostTwice, NoneTwice;
    ConnectHostKept(addrs, net);
    var (c, r) := ConnectHost(addrs, net);
    KeptIsTidy(addrs, c);
    if r == CURLE_OK { PollAllKept(addrs, net, c, rounds); }
    var tries := Establish(addrs, net, rounds).c.tries;
    PrefixHasNone(TriedBy(tries, 1), Entries(addrs, FamilyOf(addrs, 1), |addrs|));
  }

  lemma PrefixHasNone(s: seq<nat>, all: seq<nat>)
    requires Once(s) <= all && forall i, j :: 0 <= i < j < |all| ==> all[i] < all[j]
    ensures s <= all <==> NoneTwice(s)
  {
    if s <= all { AscendingHasNone(s); }
  }

  // ---- When the second candidate is stalled

  /** How many entries of its family a candidate has from its cursor on. */
  function Left(addrs: Addrs, c: Conn, k: nat): int
    requires k < 2 && c.tempaddr[k] <= |addrs|
  {
    |Entries(addrs, FamilyOf(addrs, k), |addrs|)| - |Entries(addrs, FamilyOf(addrs, k), c.tempaddr[k])|
  }

  /** Of the next attempts, one for each entry left, the first that does not just fail to connect ends without a
      socket. */
  predicate EndsEarly(net: Network, n: nat, left: int)
    decreases left
  {
    left > 0 && (net(n) in {Aborted, Unprintable} || (net(n) in {Refused, NoSocket} && EndsEarly(net, n + 1, left - 1)))
  }

  lemma LeftAdvances(addrs: Addrs, c: Conn, k: nat)
    requires k < 2 && c.tempaddr[k] < |addrs| && addrs[c.tempaddr[k]] == FamilyOf(addrs, k)
    ensures var c' := AiNext(addrs, c, k, true);
            && c.tempaddr[k] < c'.tempaddr[k] <= |addrs|
            && (c'.tempaddr[k] < |addrs| ==> addrs[c'.tempaddr[k]] == FamilyOf(addrs, k))
            && Left(addrs, c', k) == Left(addrs, c, k) - 1 >= 0
            && (c'.tempaddr[k] == |addrs| ==> Left(addrs, c', k) == 0)
  {
    hide Entries;
    var f, a := FamilyOf(addrs, k), c.tempaddr[k];
    NextEntry(addrs, f, a);
    EntriesMonotone(addrs, f, a + 1, SkipTo(addrs, f, a + 1));
    EntriesMonotone(addrs, f, a + 1, |addrs|);
  }

  /** A call ends with no socket and its cursor at an address exactly when the network lets it end early. */
  lemma {:induction false} TryFromEndsEarly(addrs: Addrs, net: Network, c: Conn, k: nat)
    requires k < 2 && c.tempaddr[k] < |addrs| && addrs[c.tempaddr[k]] == FamilyOf(addrs, k) && c.tempsock[k].None?
    ensures var c' := TryFrom(addrs, net, c, k).0;
            && |c.tries| < |c'.tries| && c'.tempaddr[k] <= |addrs|
            && (c'.tempaddr[k] < |addrs| && c'.tempsock[k].None? <==> EndsEarly(net, |c.tries|, Left(addrs, c, k)))
            && (c'.tempaddr[k] < |addrs| ==> c'.tries[|c'.tries| - 1].addr == c'.tempaddr[k])
    decreases |addrs| - c.tempaddr[k]
  {
    hide SkipTo, SingleIpConnect, Entries, TriedBy;
    SingleTries(net, c, k);
    LastTry(net, c, k);
    var (c', r) := SingleIpConnect(net, c, k);
    LeftAdvances(addrs, c, k);
    if r == CURLE_COULDNT_CONNECT {
      LeftAdvances(addrs, c', k);
      var c'' := AiNext(addrs, c', k, true);
      assert Left(addrs, c', k) == Left(addrs, c, k);
      if c''.tempaddr[k] < |addrs| { TryFromEndsEarly(addrs, net, c'', k); }
    }
  }

  lemma LastTry(net: Network, c: Conn, k: nat)
    requires k < 2
    ensures var tries := SingleIpConnect(net, c, k).0.tries; tries != [] && tries[|tries| - 1].addr == c.tempaddr[k]
  {
  }

  lemma {:induction false} TryFromBegins(addrs: Addrs, net: Network, c: Conn, k: nat)
    requires k < 2 && c.tempaddr[k] < |addrs|
    ensures var c' := TryFrom(addrs, net, c, k).0;
            c.tries + [Try(k, c.tempaddr[k], net(|c.tries|) != NoSocket)] <= c'.tries
    decreases |addrs| - c.tempaddr[k]
  {
    var (c', r) := SingleIpConnect(net, c, k);
    if r == CURLE_COULDNT_CONNECT {
      var c'' := AiNext(addrs, c', k, true);
      if c''.tempaddr[k] < |addrs| { TryFromBegins(addrs, net, c'', k); }
    }
  }

  /** A call leaves its candidate stalled exactly when it ends early; the next call for that candidate then
      begins with the same address. */
  lemma AddressRepeatsExactly(addrs: Addrs, net: Network, c: Conn, k: nat)
    requires k < 2 && c.tempaddr[k] < |addrs| && addrs[c.tempaddr[k]] == FamilyOf(addrs, k)
    ensures var c' := TryNextIp(addrs, net, c, k).0;
            var early := EndsEarly(net, |c.tries|, Left(addrs, c, k));
            && (c'.tempaddr[k] < |addrs| && c'.tempsock[k].None? <==> early)
            && (early ==> var again := TryNextIp(addrs, net, c', k).0.tries;
                          |again| > |c'.tries| > 0 && again[|c'.tries|].addr == again[|c'.tries| - 1].addr)
  {
    hide TryFrom, Entries, EndsEarly;
    TryFromEndsEarly(addrs, net, c.(tempsock := c.tempsock[k := None]), k);
    var c' := TryNextIp(addrs, net, c, k).0;
    if c'.tempaddr[k] < |addrs| { TryFromBegins(addrs, net, c'.(tempsock := c'.tempsock[k := None]), k); }
  }

  lemma TriedTwice(tries: seq<Try>)
    requires tries == [Try(0, 0, true), Try(1, 1, true)] + [Try(1, 1, true)]
    ensures TriedBy(tries, 1) == [1, 1]
  {
    assert tries[..2] == [Try(0, 0, true), Try(1, 1, true)] && tries[..2][..1] == [Try(0, 0, true)];
    assert [Try(0, 0, true)][..0] == [];
    assert TriedBy([Try(0, 0, true)], 1) == [];
    assert TriedBy(tries[..2], 1) == [1];
  }

  /** A whole connection that tries one address twice. */
  lemma AbortedAddressIsTriedAgain()
    ensures var net: Network := n => if n == 1 then Aborted else InProgress;
            TriedBy(Establish([Inet, Inet6], net, [(Waiting(true, true), Waiting(false, false))]).c.tries, 1) == [1, 1]
  {
    hide TriedBy;
    var addrs: Addrs := [Inet, Inet6];
    var net: Network := n => if n == 1 then Aborted else InProgress;
    var c1, r1 := ConnectHost(addrs, net).0, ConnectHost(addrs, net).1;
    assert c1.tempaddr == [0, 1] && c1.tempsock == [Some(0), None] && c1.tries == [Try(0, 0, true)]
        && r1 == CURLE_OK by {
      assert Fresh(addrs).tempaddr == [0, 1];
    }
    var c2, r2 := TryNextIp(addrs, net, c1.(parallel := true), 1).0, TryNextIp(addrs, net, c1.(parallel := true), 1).1;
    assert c2.tempaddr == [0, 1] && c2.tempsock == [Some(0), None] && r2 == OtherError;
    assert c2.tries == [Try(0, 0, true), Try(1, 1, true)];
    var p0 := NextAddress(addrs, net, c2, 0, CURLE_OK);
    assert p0.c.tempaddr == [2, 1] && p0.c.tempsock == [None, None] && p0.c.tries == c2.tries
        && p0.result == CURLE_COULDNT_CONNECT;
    var c4 := TryNextIp(addrs, net, p0.c, 1).0;
    assert c4.tries == c2.tries + [Try(1, 1, true)];
    TriedTwice(c4.tries);
  }
}
