/** When a connection is made, and which socket it is. */
module ConnectWinner {
  import opened Connect
  import opened Wrappers

  /** The socket that a poll finds connected: that of the first candidate, or else that of the second, which may have
      been started in this very poll. */
  function Winner(addrs: Addrs, net: Network, c: Conn, sights: (Sight, Sight)): Option<nat> {
    if c.tempsock[0].Some? && sights.0.Connected? then c.tempsock[0]
    else
      var due := c.tempsock[0].Some? && sights.0.Waiting? && sights.0.eyeballs && !c.parallel;
      var second := if due then TryNextIp(addrs, net, c.(parallel := true), 1).0.tempsock[1] else c.tempsock[1];
      if second.Some? && sights.1.Connected? then second else None
  }

  lemma NextLeavesOther(addrs: Addrs, net: Network, c: Conn, i: nat, result: Code)
    requires i < 2
    ensures var p := NextAddress(addrs, net, c, i, result);
            !p.connected && p.c.sock == c.sock && p.c.tempsock[1 - i] == c.tempsock[1 - i]
  {
    hide TryNextIp, SkipTo;
    if c.tempaddr[i] < |addrs| { RetryLeavesOther(addrs, net, AiNext(addrs, c, i, true), i); }
  }

  lemma RetryLeavesOther(addrs: Addrs, net: Network, c: Conn, i: nat)
    requires i < 2
    ensures var c' := TryNextIp(addrs, net, c, i).0; c'.sock == c.sock && c'.tempsock[1 - i] == c.tempsock[1 - i]
  {
    hide TryFrom;
    AttemptsLeaveOther(addrs, net, c.(tempsock := c.tempsock[i := None]), i);
  }

  lemma {:induction false} AttemptsLeaveOther(addrs: Addrs, net: Network, c: Conn, i: nat)
    requires i < 2
    ensures var c' := TryFrom(addrs, net, c, i).0; c'.sock == c.sock && c'.tempsock[1 - i] == c.tempsock[1 - i]
    decreases |addrs| - c.tempaddr[i]
  {
    hide SkipTo, SingleIpConnect;
    if c.tempaddr[i] < |addrs| {
      SingleKeepsAddr(net, c, i);
      AttemptLeavesOther(net, c, i);
      var (c', r) := SingleIpConnect(net, c, i);
      if r == CURLE_COULDNT_CONNECT {
        var c'' := AiNext(addrs, c', i, true);
        if c''.tempaddr[i] < |addrs| { AttemptsLeaveOther(addrs, net, c'', i); }
      }
    }
  }

  lemma AttemptLeavesOther(net: Network, c: Conn, i: nat)
    requires i < 2
    ensures var c' := SingleIpConnect(net, c, i).0; c'.sock == c.sock && c'.tempsock[1 - i] == c.tempsock[1 - i]
  {
  }

  /** A poll connects exactly when one of the candidates is seen connected; its socket becomes the connection's, and no
      candidate is left. Otherwise the connection has no socket. */
  lemma PollConnectsExactly(addrs: Addrs, net: Network, c: Conn, sights: (Sight, Sight))
    requires c.sock.None?
    ensures var p, winner := Poll(addrs, net, c, sights), Winner(addrs, net, c, sights);
            && (p.connected <==> winner.Some?) && p.c.sock == winner
            && (winner.Some? ==> p.result == CURLE_OK && p.c.tempsock == [None, None])
  {
    hide TryNextIp, NextAddress;
    var started := c.(parallel := true);
    RetryLeavesOther(addrs, net, started, 1);
    var c1 := TryNextIp(addrs, net, started, 1).0;
    NextLeavesOther(addrs, net, c, 0, CURLE_OK);
    NextLeavesOther(addrs, net, c1, 0, CURLE_OK);
    var p0 := PollCandidate(addrs, net, c, 0, sights.0, CURLE_OK);
    if !p0.connected {
      NextLeavesOther(addrs, net, p0.c, 1, p0.result);
      var p1 := PollCandidate(addrs, net, p0.c, 1, sights.1, p0.result);
      RetryLeavesOther(addrs, net, p1.c, 1);
    }
  }

  /** The poll that connects, over all that follow. */
  function WinnerOf(addrs: Addrs, net: Network, c: Conn, rounds: seq<(Sight, Sight)>): Option<nat>
    decreases |rounds|
  {
    if rounds == [] then None
    else if Winner(addrs, net, c, rounds[0]).Some? then Winner(addrs, net, c, rounds[0])
    else
      var p := Poll(addrs, net, c, rounds[0]);
      if p.result != CURLE_OK then None else WinnerOf(addrs, net, p.c, rounds[1..])
  }

  lemma {:induction false} PollAllConnectsExactly(addrs: Addrs, net: Network, c: Conn, rounds: seq<(Sight, Sight)>)
    requires c.sock.None?
    ensures var p, winner := PollAll(addrs, net, c, rounds), WinnerOf(addrs, net, c, rounds);
            && (p.connected <==> winner.Some?) && p.c.sock == winner
            && (winner.Some? ==> p.result == CURLE_OK && p.c.tempsock == [None, None])
    decreases |rounds|
  {
    hide Poll, Winner;
    if rounds != [] {
      PollConnectsExactly(addrs, net, c, rounds[0]);
      var p := Poll(addrs, net, c, rounds[0]);
      if !p.connected && p.result == CURLE_OK { PollAllConnectsExactly(addrs, net, p.c, rounds[1..]); }
    }
  }

  /** A whole connection is made exactly when the first round goes well and some poll finds a candidate connected. */
  lemma ConnectsExactly(addrs: Addrs, net: Network, rounds: seq<(Sight, Sight)>)
    ensures var (c, r), p := ConnectHost(addrs, net), Establish(addrs, net, rounds);
            var winner := if r == CURLE_OK then WinnerOf(addrs, net, c, rounds) else None;
            && (p.connected <==> winner.Some?) && p.c.sock == winner
            && (winner.Some? ==> p.result == CURLE_OK && p.c.tempsock == [None, None])
  {
    hide ConnectHost, PollAll;
    ConnectHostConserves(addrs, net);
    var (c, r) := ConnectHost(addrs, net);
    if r == CURLE_OK { PollAllConnectsExactly(addrs, net, c, rounds); }
  }

  // ---- What a poll starts

  /** The next attempt, if there is an address for it, is that of candidate k at this one. */
  predicate TriesNext(addrs: Addrs, net: Network, c: Conn, k: nat, addr: nat, c': Conn) {
    c.tries + (if addr < |addrs| then [Try(k, addr, net(|c.tries|) != NoSocket)] else []) <= c'.tries
  }

  lemma TriesOn(addrs: Addrs, net: Network, c: Conn, k: nat, addr: nat, c': Conn, c'': Conn)
    requires TriesNext(addrs, net, c, k, addr, c') && c'.tries <= c''.tries
    ensures TriesNext(addrs, net, c, k, addr, c'')
  {
  }

  lemma {:induction false} AttemptsExtend(addrs: Addrs, net: Network, c: Conn, k: nat)
    requires k < 2
    ensures TriesNext(addrs, net, c, k, c.tempaddr[k], TryFrom(addrs, net, c, k).0)
    decreases |addrs| - c.tempaddr[k]
  {
    hide SkipTo;
    if c.tempaddr[k] < |addrs| {
      var (c', r) := SingleIpConnect(net, c, k);
      if r == CURLE_COULDNT_CONNECT {
        var c'' := AiNext(addrs, c', k, true);
        if c''.tempaddr[k] < |addrs| { AttemptsExtend(addrs, net, c'', k); }
      }
    }
  }

  /** A retry begins at the cursor. */
  lemma RetryBegins(addrs: Addrs, net: Network, c: Conn, k: nat)
    requires k < 2
    ensures TriesNext(addrs, net, c, k, c.tempaddr[k], TryNextIp(addrs, net, c, k).0)
    ensures c.tries <= TryNextIp(addrs, net, c, k).0.tries
    ensures TryNextIp(addrs, net, c, k).0.parallel == c.parallel
  {
    hide TryFrom;
    AttemptsExtend(addrs, net, c.(tempsock := c.tempsock[k := None]), k);
    AttemptsKeepParallel(addrs, net, c.(tempsock := c.tempsock[k := None]), k);
  }

  lemma {:induction false} AttemptsKeepParallel(addrs: Addrs, net: Network, c: Conn, k: nat)
    requires k < 2
    ensures TryFrom(addrs, net, c, k).0.parallel == c.parallel
    decreases |addrs| - c.tempaddr[k]
  {
    hide SkipTo, SingleIpConnect;
    if c.tempaddr[k] < |addrs| {
      SingleKeepsAddr(net, c, k);
      var (c', r) := SingleIpConnect(net, c, k);
      if r == CURLE_COULDNT_CONNECT {
        var c'' := AiNext(addrs, c', k, true);
        if c''.tempaddr[k] < |addrs| { AttemptsKeepParallel(addrs, net, c'', k); }
      }
    }
  }

  /** When the first family has had its time, the second is started beside it, at its cursor, and only once. */
  lemma SecondIsStarted(addrs: Addrs, net: Network, c: Conn, timedOut: bool)
    requires c.tempsock[0].Some? && c.tempaddr[1] < |addrs|
    ensures var p := Poll(addrs, net, c, (Waiting(false, true), Waiting(timedOut, false)));
            !c.parallel ==>
              && p.c.parallel && p.c.tempsock[0] == c.tempsock[0]
              && TriesNext(addrs, net, c, 1, c.tempaddr[1], p.c)
    ensures c.parallel ==>
              Poll(addrs, net, c, (Waiting(false, true), Waiting(false, false))) == Pass(c, CURLE_OK, false)
  {
    hide TryNextIp, SkipTo;
    var started := c.(parallel := true);
    RetryBegins(addrs, net, started, 1);
    RetryLeavesOther(addrs, net, started, 1);
    var c1 := TryNextIp(addrs, net, started, 1).0;
    RetryBegins(addrs, net, AiNext(addrs, c1, 1, true), 1);
    RetryLeavesOther(addrs, net, AiNext(addrs, c1, 1, true), 1);
  }

  /** Neither family has been started beside the other after the first round. */
  lemma {:induction false} FamilyKeepsParallel(addrs: Addrs, net: Network, c: Conn, k: nat, soFar: Code)
    requires k < 2
    ensures ConnectFamily(addrs, net, c, k, soFar).0.parallel == c.parallel
    decreases |addrs| - c.tempaddr[k]
  {
    hide SkipTo, SingleIpConnect;
    if c.tempaddr[k] < |addrs| {
      SingleKeepsAddr(net, c, k);
      var (c', r) := SingleIpConnect(net, c, k);
      if r != CURLE_OK {
        var c'' := AiNext(addrs, c', k, true);
        if c''.tempaddr[k] < |addrs| { FamilyKeepsParallel(addrs, net, c'', k, r); }
      }
    }
  }

  lemma NotParallelYet(addrs: Addrs, net: Network)
    ensures !ConnectHost(addrs, net).0.parallel
  {
    hide ConnectFamily, SkipTo;
    FamilyKeepsParallel(addrs, net, Fresh(addrs), 0, CURLE_COULDNT_CONNECT);
    var (c, r) := ConnectFamily(addrs, net, Fresh(addrs), 0, CURLE_COULDNT_CONNECT);
    FamilyKeepsParallel(addrs, net, c, 1, r);
  }

  /** A candidate that fails, or whose time is up, goes on with the next address of its family, if there is one. */
  lemma FailedGoesOn(addrs: Addrs, net: Network, c: Conn, k: nat, sight: Sight)
    requires k < 2 && c.tempsock[k].Some? && c.tempaddr[k] < |addrs| && sight in {Broken(true), Waiting(true, false)}
    ensures var p, next := Poll(addrs, net, c, Sights(k, sight)), SkipTo(addrs, FamilyOf(addrs, k), c.tempaddr[k] + 1);
            TriesNext(addrs, net, c, k, next, p.c)
  {
    hide TriesNext, PollCandidate, Poll, SkipTo;
    var next := SkipTo(addrs, FamilyOf(addrs, k), c.tempaddr[k] + 1);
    FailedCandidate(addrs, net, c, k, sight, CURLE_OK);
    var p := PollCandidate(addrs, net, c, k, sight, CURLE_OK);
    if k == 0 { PollWithFirst(addrs, net, c, sight); } else { PollWithSecond(addrs, net, c, sight); }
    TriesOn(addrs, net, c, k, next, p.c, Poll(addrs, net, c, Sights(k, sight)).c);
  }

  /** What is seen when only candidate k shows something. */
  function Sights(k: nat, sight: Sight): (Sight, Sight) {
    if k == 0 then (sight, Waiting(false, false)) else (Waiting(false, false), sight)
  }

  lemma PollWithFirst(addrs: Addrs, net: Network, c: Conn, sight: Sight)
    ensures var p := PollCandidate(addrs, net, c, 0, sight, CURLE_OK);
            !p.connected ==> p.c.tries <= Poll(addrs, net, c, (sight, Waiting(false, false))).c.tries
  {
    hide PollCandidate, TryNextIp, TriesNext;
    var p := PollCandidate(addrs, net, c, 0, sight, CURLE_OK);
    CandidateWaits(addrs, net, p.c, 1, p.result);
    RetryBegins(addrs, net, p.c, 1);
  }

  lemma PollWithSecond(addrs: Addrs, net: Network, c: Conn, sight: Sight)
    ensures var p := PollCandidate(addrs, net, c, 1, sight, CURLE_OK);
            !p.connected ==> p.c.tries <= Poll(addrs, net, c, (Waiting(false, false), sight)).c.tries
  {
    hide PollCandidate, TryNextIp, TriesNext;
    CandidateWaits(addrs, net, c, 0, CURLE_OK);
    var p := PollCandidate(addrs, net, c, 1, sight, CURLE_OK);
    RetryBegins(addrs, net, p.c, 1);
  }

  lemma SameTries(addrs: Addrs, net: Network, c: Conn, d: Conn, k: nat, addr: nat, c': Conn)
    requires c.tries == d.tries
    ensures TriesNext(addrs, net, c, k, addr, c') == TriesNext(addrs, net, d, k, addr, c')
  {
  }

  lemma CandidateWaits(addrs: Addrs, net: Network, c: Conn, i: nat, result: Code)
    requires i < 2
    ensures PollCandidate(addrs, net, c, i, Waiting(false, false), result) == Pass(c, result, false)
  {
  }

  lemma FailedCandidate(addrs: Addrs, net: Network, c: Conn, k: nat, sight: Sight, result: Code)
    requires k < 2 && c.tempsock[k].Some? && c.tempaddr[k] < |addrs| && sight in {Broken(true), Waiting(true, false)}
    ensures var p := PollCandidate(addrs, net, c, k, sight, result);
            var next := SkipTo(addrs, FamilyOf(addrs, k), c.tempaddr[k] + 1);
            !p.connected && TriesNext(addrs, net, c, k, next, p.c)
  {
    hide TryNextIp, SkipTo, TriesNext;
    var c1 := AiNext(addrs, c, k, true);
    RetryBegins(addrs, net, c1, k);
    SameTries(addrs, net, c, c1, k, c1.tempaddr[k], TryNextIp(addrs, net, c1, k).0);
  }

  // ---- The plain case

  predicate NothingYet(sights: (Sight, Sight)) { sights == (Waiting(false, false), Waiting(false, false)) }

  /** The first address is under way, nothing is seen for a while, and then it is connected: the connection has the
      first socket, and nothing else was tried. */
  lemma FirstAddressConnects(addrs: Addrs, net: Network, waits: seq<(Sight, Sight)>, last: Sight)
    requires addrs != [] && net(0) == InProgress && forall sights :: sights in waits ==> NothingYet(sights)
    ensures var p := Establish(addrs, net, waits + [(Connected, last)]);
            && p.connected && p.result == CURLE_OK && p.c.sock == Some(0) && p.c.tries == [Try(0, 0, true)]
            && p.c.closed == []
  {
    hide PollAll, SkipTo;
    var (c, r) := ConnectHost(addrs, net);
    assert r == CURLE_OK && c.tempsock == [Some(0), None] && c.tries == [Try(0, 0, true)];
    WaitsThenConnects(addrs, net, c, waits, last);
  }

  lemma {:induction false} WaitsThenConnects(addrs: Addrs, net: Network, c: Conn, waits: seq<(Sight, Sight)>,
                                             last: Sight)
    requires c.tempsock == [Some(0), None] && forall sights :: sights in waits ==> NothingYet(sights)
    ensures PollAll(addrs, net, c, waits + [(Connected, last)])
         == Pass(c.(sock := Some(0), tempsock := [None, None]), CURLE_OK, true)
    decreases |waits|
  {
    hide TryNextIp, NextAddress;
    var rounds := waits + [(Connected, last)];
    if waits == [] {
      assert rounds[0] == (Connected, last);
      assert Poll(addrs, net, c, rounds[0]) == Pass(c.(sock := Some(0), tempsock := [None, None]), CURLE_OK, true);
    } else {
      assert waits[0] in waits && rounds[0] == waits[0] && rounds[1..] == waits[1..] + [(Connected, last)];
      assert Poll(addrs, net, c, rounds[0]) == Pass(c, CURLE_OK, false);
      WaitsThenConnects(addrs, net, c, waits[1..], last);
    }
  }
}
