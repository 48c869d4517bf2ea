/** When a connection is left without a socket and without an error. */
module ConnectLost {
  import opened Connect
  import opened ConnectRepeats
  import opened Wrappers

  // ---- Calls

  /** Of the next attempts, at most so many, the first that is no error is one at an address that cannot be printed. */
  predicate LostAt(net: Network, n: nat, left: int)
    decreases left
  {
    left > 0 && (net(n) == Unprintable || (net(n) in {Refused, NoSocket, Aborted} && LostAt(net, n + 1, left - 1)))
  }

  /** The same when an error other than a failure to connect ends the attempts. */
  predicate LostOnRetry(net: Network, n: nat, left: int)
    decreases left
  {
    left > 0 && (net(n) == Unprintable || (net(n) in {Refused, NoSocket} && LostOnRetry(net, n + 1, left - 1)))
  }

  ghost predicate Placed(addrs: Addrs, c: Conn, k: nat)
    requires k < 2
  {
    && c.tempaddr[k] <= |addrs| && (c.tempaddr[k] < |addrs| ==> addrs[c.tempaddr[k]] == FamilyOf(addrs, k))
    && (c.tempsock[k].Some? ==> c.tempaddr[k] < |addrs|)
  }

  /** A call touches the fields of its own candidate only, and reports no error exactly when that has a socket or was
      lost. */
  ghost predicate Outcome(addrs: Addrs, c: Conn, c': Conn, k: nat, r: Code, lost: bool)
    requires k < 2
  {
    && Placed(addrs, c', k) && c'.tempaddr[1 - k] == c.tempaddr[1 - k] && c'.tempsock[1 - k] == c.tempsock[1 - k]
    && (lost ==> r == CURLE_OK && c'.tempsock[k].None?)
    && (!lost ==> (r == CURLE_OK <==> c'.tempsock[k].Some?))
  }

  lemma {:induction false} TryFromOutcome(addrs: Addrs, net: Network, c: Conn, k: nat)
    requires k < 2 && Placed(addrs, c, k) && c.tempsock[k].None?
    ensures var (c', r) := TryFrom(addrs, net, c, k);
            Outcome(addrs, c, c', k, r, LostOnRetry(net, |c.tries|, Left(addrs, c, k)))
    decreases |addrs| - c.tempaddr[k]
  {
    hide SkipTo, SingleIpConnect, Left;
    LeftAtEnd(addrs, c, k);
    if c.tempaddr[k] < |addrs| {
      SingleOutcome(net, c, k);
      LeftAdvances(addrs, c, k);
      var (c', r) := SingleIpConnect(net, c, k);
      SameLeft(addrs, c, c', k);
      if r == CURLE_COULDNT_CONNECT {
        LeftAdvances(addrs, c', k);
        var c'' := AiNext(addrs, c', k, true);
        if c''.tempaddr[k] < |addrs| { TryFromOutcome(addrs, net, c'', k); } else { LeftAtEnd(addrs, c'', k); }
      }
    }
  }

  lemma SingleOutcome(net: Network, c: Conn, k: nat)
    requires k < 2
    ensures var (c', r), a := SingleIpConnect(net, c, k), net(|c.tries|);
            && c'.tempaddr == c.tempaddr && c'.tempsock[1 - k] == c.tempsock[1 - k] && |c'.tries| == |c.tries| + 1
            && (c'.tempsock[k].Some? <==> a == InProgress)
            && (r == CURLE_OK <==> a in {InProgress, Unprintable})
            && (r == CURLE_COULDNT_CONNECT <==> a in {Refused, NoSocket})
  {
  }

  lemma LeftAtEnd(addrs: Addrs, c: Conn, k: nat)
    requires k < 2 && c.tempaddr[k] <= |addrs|
    ensures c.tempaddr[k] == |addrs| ==> Left(addrs, c, k) == 0
  {
  }

  lemma SameLeft(addrs: Addrs, c: Conn, c': Conn, k: nat)
    requires k < 2 && c.tempaddr[k] == c'.tempaddr[k] <= |addrs|
    ensures Left(addrs, c', k) == Left(addrs, c, k)
  {
  }

  /** A retry from the cursor on. */
  lemma TryNextOutcome(addrs: Addrs, net: Network, c: Conn, k: nat)
    requires k < 2 && Placed(addrs, c.(tempsock := c.tempsock[k := None]), k)
    ensures var (c', r) := TryNextIp(addrs, net, c, k);
            Outcome(addrs, c, c', k, r, LostOnRetry(net, |c.tries|, Left(addrs, c, k)))
  {
    hide TryFrom, Left;
    var c0 := c.(tempsock := c.tempsock[k := None]);
    SameLeft(addrs, c, c0, k);
    TryFromOutcome(addrs, net, c0, k);
  }

  /** The first attempts of a family. */
  lemma {:induction false} FamilyOutcome(addrs: Addrs, net: Network, c: Conn, k: nat, soFar: Code)
    requires k < 2 && Placed(addrs, c, k) && c.tempsock[k].None? && soFar != CURLE_OK
    ensures var (c', r) := ConnectFamily(addrs, net, c, k, soFar);
            Outcome(addrs, c, c', k, r, LostAt(net, |c.tries|, Left(addrs, c, k)))
    decreases |addrs| - c.tempaddr[k]
  {
    hide SkipTo, SingleIpConnect, Left;
    LeftAtEnd(addrs, c, k);
    if c.tempaddr[k] < |addrs| {
      SingleOutcome(net, c, k);
      LeftAdvances(addrs, c, k);
      var (c', r) := SingleIpConnect(net, c, k);
      SameLeft(addrs, c, c', k);
      if r != CURLE_OK {
        LeftAdvances(addrs, c', k);
        var c'' := AiNext(addrs, c', k, true);
        if c''.tempaddr[k] < |addrs| { FamilyOutcome(addrs, net, c'', k, r); } else { LeftAtEnd(addrs, c'', k); }
      }
    }
  }

  /** How they bear on m attempts behind them. */
  lemma {:induction false} FamilyThenMore(addrs: Addrs, net: Network, c: Conn, k: nat, soFar: Code, m: nat)
    requires k < 2 && Placed(addrs, c, k) && c.tempsock[k].None? && soFar != CURLE_OK
    ensures var (c', r) := ConnectFamily(addrs, net, c, k, soFar);
            LostAt(net, |c.tries|, Left(addrs, c, k) + m)
            <==> if r == CURLE_OK then c'.tempsock[k].None? else LostAt(net, |c'.tries|, m)
    decreases |addrs| - c.tempaddr[k]
  {
    hide SkipTo, SingleIpConnect, Left;
    LeftAtEnd(addrs, c, k);
    if c.tempaddr[k] < |addrs| {
      SingleOutcome(net, c, k);
      LeftAdvances(addrs, c, k);
      var (c', r) := SingleIpConnect(net, c, k);
      SameLeft(addrs, c, c', k);
      if r != CURLE_OK {
        LeftAdvances(addrs, c', k);
        var c'' := AiNext(addrs, c', k, true);
        if c''.tempaddr[k] < |addrs| { FamilyThenMore(addrs, net, c'', k, r, m); } else { LeftAtEnd(addrs, c'', k); }
      }
    }
  }

  // ---- The first round of attempts

  lemma FreshIsPlaced(addrs: Addrs)
    ensures var c := Fresh(addrs);
            && Placed(addrs, c, 0) && Placed(addrs, c, 1) && c.tempsock == [None, None] && c.tries == []
            && Left(addrs, c, 0) == |Entries(addrs, FamilyOf(addrs, 0), |addrs|)|
            && Left(addrs, c, 1) == |Entries(addrs, FamilyOf(addrs, 1), |addrs|)|
  {
    hide Entries;
    var f := FamilyOf(addrs, 1);
    NoEntries(addrs, FamilyOf(addrs, 0));
    NoEntries(addrs, f);
    EntriesMonotone(addrs, f, 0, SkipTo(addrs, f, 0));
  }

  /** All addresses that can be tried. */
  function Candidates(addrs: Addrs): nat {
    |Entries(addrs, FamilyOf(addrs, 0), |addrs|)| + |Entries(addrs, FamilyOf(addrs, 1), |addrs|)|
  }

  /** The first round reports no error although neither candidate has a socket, exactly when of all addresses the
      first whose attempt is no error cannot be printed. */
  lemma HostIsLostExactly(addrs: Addrs, net: Network)
    ensures var (c, r) := ConnectHost(addrs, net);
            && Placed(addrs, c, 0) && Placed(addrs, c, 1)
            && (r == CURLE_OK && c.tempsock == [None, None] <==> LostAt(net, 0, Candidates(addrs)))
  {
    hide ConnectFamily, Fresh, Left, Entries;
    var c0 := Fresh(addrs);
    FreshIsPlaced(addrs);
    FamilyOutcome(addrs, net, c0, 0, CURLE_COULDNT_CONNECT);
    FamilyThenMore(addrs, net, c0, 0, CURLE_COULDNT_CONNECT, Left(addrs, c0, 1));
    var (c1, r1) := ConnectFamily(addrs, net, c0, 0, CURLE_COULDNT_CONNECT);
    SameLeft(addrs, c0, c1, 1);
    BothNone(c1);
    if r1 != CURLE_OK {
      FamilyOutcome(addrs, net, c1, 1, r1);
      BothNone(ConnectFamily(addrs, net, c1, 1, r1).0);
    }
  }

  lemma BothNone(c: Conn)
    ensures c.tempsock == [None, None] <==> c.tempsock[0].None? && c.tempsock[1].None?
  {
  }

  // ---- Polls

  /** The attempt of a candidate is over. */
  predicate Fails(sight: Sight) { (sight.Broken? && sight.error) || (sight.Waiting? && sight.timedOut) }

  /** The second candidate is started beside the first when it is time. */
  function Started(addrs: Addrs, net: Network, c: Conn, sight: Sight): Conn {
    var due := c.tempsock[0].Some? && sight.Waiting? && !c.parallel && sight.eyeballs;
    if due then TryNextIp(addrs, net, c.(parallel := true), 1).0 else c
  }

  /** Going on behind the cursor is lost. */
  predicate LosesNext(addrs: Addrs, net: Network, c: Conn, k: nat)
    requires k < 2
  {
    c.tempaddr[k] < |addrs| && LostOnRetry(net, |c.tries|, Left(addrs, c, k) - 1)
  }

  /** The last candidate with a socket loses it at an unprintable address: the first while the second has none, the
      second while the first has none, or the second as it is fallen back to. */
  predicate LosesLast(addrs: Addrs, net: Network, c: Conn, sights: (Sight, Sight)) {
    var started := Started(addrs, net, c, sights.0);
    var p0 := PollCandidate(addrs, net, c, 0, sights.0, CURLE_OK);
    var p1 := PollCandidate(addrs, net, p0.c, 1, sights.1, p0.result);
    || (c.tempsock[0].Some? && Fails(sights.0) && started.tempsock[1].None? && LosesNext(addrs, net, started, 0))
    || (!p0.connected && p0.c.tempsock[0].None? && p0.c.tempsock[1].Some? && Fails(sights.1)
        && LosesNext(addrs, net, p0.c, 1))
    || (!p0.connected && !p1.connected && p1.result != CURLE_OK && p1.c.tempsock == [None, None]
        && p1.c.tempaddr[1] <= |addrs| && LostOnRetry(net, |p1.c.tries|, Left(addrs, p1.c, 1)))
  }

  /** A candidate's retry behind its cursor. */
  lemma NextAddressOutcome(addrs: Addrs, net: Network, c: Conn, i: nat, result: Code)
    requires i < 2 && Placed(addrs, c, i) && c.tempsock[i].Some?
    ensures var p := NextAddress(addrs, net, c, i, result);
            && !p.connected && Placed(addrs, p.c, i) && p.c.tempsock[1 - i] == c.tempsock[1 - i]
            && p.c.tempaddr[1 - i] == c.tempaddr[1 - i]
            && (LosesNext(addrs, net, c, i) ==> p.c.tempsock[i].None?)
            && (c.tempsock[1 - i].None? ==>
                (p.result == CURLE_OK <==> p.c.tempsock[i].Some? || LosesNext(addrs, net, c, i)))
  {
    hide TryNextIp, Left, SkipTo;
    LeftAdvances(addrs, c, i);
    TryNextOutcome(addrs, net, AiNext(addrs, c, i, true), i);
  }

  lemma StartedOutcome(addrs: Addrs, net: Network, c: Conn, sight: Sight)
    requires Placed(addrs, c, 0) && Placed(addrs, c, 1)
    ensures var c' := Started(addrs, net, c, sight);
            Placed(addrs, c', 0) && Placed(addrs, c', 1) && c'.tempsock[0] == c.tempsock[0]
  {
    hide TryNextIp, Left;
    if c.tempsock[0].Some? && sight.Waiting? && !c.parallel && sight.eyeballs {
      TryNextOutcome(addrs, net, c.(parallel := true), 1);
    }
  }

  lemma FirstOutcome(addrs: Addrs, net: Network, c: Conn, sight: Sight)
    requires Placed(addrs, c, 0) && Placed(addrs, c, 1)
    ensures var p, c' := PollCandidate(addrs, net, c, 0, sight, CURLE_OK), Started(addrs, net, c, sight);
            && (!p.connected ==> Placed(addrs, p.c, 0) && Placed(addrs, p.c, 1))
            && (!p.connected ==> p.c.tempsock[1] == c'.tempsock[1])
            && (c.tempsock[0].None? ==> p == Pass(c, CURLE_OK, false))
            && (c.tempsock[0].Some? && !p.connected && !Fails(sight) ==> p.c.tempsock[0].Some?)
            && (c.tempsock[0].Some? && Fails(sight) && LosesNext(addrs, net, c', 0) ==>
                !p.connected && p.c.tempsock[0].None?)
            && (c.tempsock[0].Some? && !p.connected && c'.tempsock[1].None? && Fails(sight) ==>
                  (p.result == CURLE_OK <==> p.c.tempsock[0].Some? || LosesNext(addrs, net, c', 0)))
            && (!Fails(sight) ==> p.result == CURLE_OK)
  {
    hide TryNextIp, NextAddress, Left, LosesNext;
    StartedOutcome(addrs, net, c, sight);
    var c' := Started(addrs, net, c, sight);
    if c.tempsock[0].Some? && Fails(sight) { NextAddressOutcome(addrs, net, c', 0, CURLE_OK); }
  }

  lemma SecondOutcome(addrs: Addrs, net: Network, c: Conn, sight: Sight, result: Code)
    requires Placed(addrs, c, 0) && Placed(addrs, c, 1)
    ensures var p := PollCandidate(addrs, net, c, 1, sight, result);
            && (!p.connected ==> Placed(addrs, p.c, 0) && Placed(addrs, p.c, 1) && p.c.tempsock[0] == c.tempsock[0])
            && (c.tempsock[1].None? ==> p == Pass(c, result, false))
            && (c.tempsock[1].Some? && !p.connected && !Fails(sight) ==> p.c.tempsock[1].Some?)
            && (c.tempsock[1].Some? && Fails(sight) && LosesNext(addrs, net, c, 1) ==>
                !p.connected && p.c.tempsock[1].None?)
            && (c.tempsock[1].Some? && !p.connected && c.tempsock[0].None? && Fails(sight) ==>
                  (p.result == CURLE_OK <==> p.c.tempsock[1].Some? || LosesNext(addrs, net, c, 1)))
  {
    hide TryNextIp, NextAddress, Left, LosesNext;
    if c.tempsock[1].Some? && Fails(sight) { NextAddressOutcome(addrs, net, c, 1, result); }
  }

  lemma PollPlaced(addrs: Addrs, net: Network, c: Conn, sights: (Sight, Sight))
    requires Placed(addrs, c, 0) && Placed(addrs, c, 1)
    ensures var p := Poll(addrs, net, c, sights);
            !p.connected ==> Placed(addrs, p.c, 0) && Placed(addrs, p.c, 1)
  {
    hide PollCandidate, TryNextIp, Left;
    FirstOutcome(addrs, net, c, sights.0);
    var p0 := PollCandidate(addrs, net, c, 0, sights.0, CURLE_OK);
    if !p0.connected {
      SecondOutcome(addrs, net, p0.c, sights.1, p0.result);
      var p1 := PollCandidate(addrs, net, p0.c, 1, sights.1, p0.result);
      if !p1.connected && p1.result != CURLE_OK && p1.c.tempsock == [None, None] {
        TryNextOutcome(addrs, net, p1.c, 1);
      }
    }
  }

  /** A poll that began with a candidate under way ends without one, and without an error, exactly when it loses the
      last. */
  lemma PollIsLostExactly(addrs: Addrs, net: Network, c: Conn, sights: (Sight, Sight))
    requires Placed(addrs, c, 0) && Placed(addrs, c, 1) && c.tempsock != [None, None]
    ensures var p := Poll(addrs, net, c, sights);
            !p.connected && p.result == CURLE_OK && p.c.tempsock == [None, None] <==> LosesLast(addrs, net, c, sights)
  {
    hide PollCandidate, TryNextIp, Left, LosesNext, LostOnRetry, Started;
    BothNone(c);
    StartedOutcome(addrs, net, c, sights.0);
    FirstOutcome(addrs, net, c, sights.0);
    var p0 := PollCandidate(addrs, net, c, 0, sights.0, CURLE_OK);
    if !p0.connected {
      BothNone(p0.c);
      SecondOutcome(addrs, net, p0.c, sights.1, p0.result);
      var p1 := PollCandidate(addrs, net, p0.c, 1, sights.1, p0.result);
      if !p1.connected {
        BothNone(p1.c);
        if p1.result != CURLE_OK && p1.c.tempsock == [None, None] {
          TryNextOutcome(addrs, net, p1.c, 1);
          BothNone(TryNextIp(addrs, net, p1.c, 1).0);
        }
      }
    }
  }

  // ---- Whole connections

  predicate LosesIn(addrs: Addrs, net: Network, c: Conn, rounds: seq<(Sight, Sight)>)
    decreases |rounds|
  {
    && rounds != []
    && (LosesLast(addrs, net, c, rounds[0])
        || (var p := Poll(addrs, net, c, rounds[0]);
            !p.connected && p.result == CURLE_OK && LosesIn(addrs, net, p.c, rounds[1..])))
  }

  lemma {:induction false} NothingIsPolled(addrs: Addrs, net: Network, c: Conn, rounds: seq<(Sight, Sight)>)
    requires c.tempsock == [None, None]
    ensures PollAll(addrs, net, c, rounds) == Pass(c, CURLE_OK, false)
    decreases |rounds|
  {
    hide Poll;
    if rounds != [] {
      NoSocketNoChange(addrs, net, c, rounds[0]);
      NothingIsPolled(addrs, net, c, rounds[1..]);
    }
  }

  /** Neither connected, nor failed, nor under way. */
  predicate Lost(p: Pass) { !p.connected && p.result == CURLE_OK && p.c.tempsock == [None, None] }

  lemma {:induction false} PollAllIsLostExactly(addrs: Addrs, net: Network, c: Conn, rounds: seq<(Sight, Sight)>)
    requires Placed(addrs, c, 0) && Placed(addrs, c, 1) && c.tempsock != [None, None]
    ensures Lost(PollAll(addrs, net, c, rounds)) <==> LosesIn(addrs, net, c, rounds)
    decreases |rounds|
  {
    hide Poll, LosesLast, Left;
    if rounds != [] {
      PollPlaced(addrs, net, c, rounds[0]);
      PollIsLostExactly(addrs, net, c, rounds[0]);
      var p := Poll(addrs, net, c, rounds[0]);
      if !p.connected && p.result == CURLE_OK {
        if p.c.tempsock == [None, None] {
          NothingIsPolled(addrs, net, p.c, rounds[1..]);
        } else {
          PollAllIsLostExactly(addrs, net, p.c, rounds[1..]);
        }
      }
    }
  }

  /** Over every connection, on every network: no error is reported although no candidate is under way exactly when the
      first round is lost at an unprintable address, or some poll loses the last candidate at one. */
  lemma LostExactly(addrs: Addrs, net: Network, rounds: seq<(Sight, Sight)>)
    ensures var (c, r) := ConnectHost(addrs, net);
            Lost(Establish(addrs, net, rounds))
            <==> LostAt(net, 0, Candidates(addrs)) || (r == CURLE_OK && LosesIn(addrs, net, c, rounds))
  {
    hide ConnectHost, PollAll, LostAt, Candidates, LosesLast;
    HostIsLostExactly(addrs, net);
    var (c, r) := ConnectHost(addrs, net);
    if r == CURLE_OK {
      if c.tempsock == [None, None] {
        NothingIsPolled(addrs, net, c, rounds);
      } else {
        PollAllIsLostExactly(addrs, net, c, rounds);
      }
    }
  }

  // ---- Examples

  /** With an unprintable address in front nothing else is tried. */
  lemma UnprintableLeavesNothing(addrs: Addrs, net: Network, rounds: seq<(Sight, Sight)>)
    requires addrs != [] && net(0) == Unprintable
    ensures var p := Establish(addrs, net, rounds); Lost(p) && |p.c.tries| == 1
  {
    hide SkipTo, PollAll;
    var (c, r) := ConnectHost(addrs, net);
    assert r == CURLE_OK && c.tempsock == [None, None];
    NothingIsPolled(addrs, net, c, rounds);
  }

  lemma Three(addrs: Addrs)
    requires addrs == [Inet, Inet, Inet]
    ensures Candidates(addrs) == 3
  {
    hide Entries;
    NoEntries(addrs, Inet);
    NoEntries(addrs, Inet6);
    EntriesMonotone(addrs, Inet6, 0, 3);
    NextEntry(addrs, Inet, 0);
    NextEntry(addrs, Inet, 1);
    NextEntry(addrs, Inet, 2);
  }

  /** The first of three addresses refuses, the second cannot be printed, and the third is never tried. */
  lemma ThirdIsNeverTried(rounds: seq<(Sight, Sight)>)
    ensures var net: Network := n => if n == 0 then Refused else if n == 1 then Unprintable else InProgress;
            var p := Establish([Inet, Inet, Inet], net, rounds);
            Lost(p) && |p.c.tries| == 2
  {
    hide Candidates, LosesIn, PollAll;
    var addrs: Addrs := [Inet, Inet, Inet];
    var net: Network := n => if n == 0 then Refused else if n == 1 then Unprintable else InProgress;
    Three(addrs);
    LostExactly(addrs, net, rounds);
    HostIsLostExactly(addrs, net);
    var (c, r) := ConnectHost(addrs, net);
    NothingIsPolled(addrs, net, c, rounds);
  }

  /** The one candidate times out, and goes on to an address that cannot be printed. */
  lemma RetryIsLost()
    ensures var net: Network := n => if n == 1 then Unprintable else InProgress;
            Lost(Establish([Inet, Inet], net, [(Waiting(true, false), Waiting(false, false))]))
  {
    var addrs: Addrs := [Inet, Inet];
    var net: Network := n => if n == 1 then Unprintable else InProgress;
  }
}
