/** Connecting with two address families in parallel ("happy eyeballs"). */
module Connect {
  import opened Wrappers

  datatype Family = Inet | Inet6 | Unix

  /** How one connection attempt can end at once. */
  datatype Attempt =
    | InProgress      // the socket is open and its connection under way
    | Refused         // a socket was opened, the connection failed, the socket is closed again
    | NoSocket        // no socket could be had
    | Aborted         // a socket was opened and closed again, for a reason that is no connection failure
    | Unprintable     // the address could not be printed: closed again, and reported as no error

  datatype Code = CURLE_OK | CURLE_COULDNT_CONNECT | OtherError

  /** What is seen of a candidate socket when it is polled. */
  datatype Sight =
    | Waiting(timedOut: bool, eyeballs: bool)  // per-address time is up; time to start the other family
    | Connected
    | Broken(error: bool)

  /** One attempt: for which candidate, at which address, and whether a socket was opened. */
  datatype Try = Try(candidate: nat, addr: nat, socketMade: bool)

  /** The fields of the connection that the two candidates use; a socket is named by the number of its attempt. */
  datatype Fields = Conn(
    tempaddr: seq<nat>,          // per candidate, an index into the list; its length stands for NULL
    tempsock: seq<Option<nat>>,
    sock: Option<nat>,
    parallel: bool,
    tries: seq<Try>,
    closed: seq<nat>)

  type Conn = c: Fields | |c.tempaddr| == 2 && |c.tempsock| == 2
    witness Conn([0, 0], [None, None], None, false, [], [])

  type Addrs = seq<Family>

  /** The first address decides which family goes first. */
  function FamilyOf(addrs: Addrs, k: nat): Family {
    var first := if addrs == [] then Unix else addrs[0];
    if k == 0 then first else if first == Inet6 then Inet else Inet6
  }

  /** The first entry of the family at or after position i. */
  function SkipTo(addrs: Addrs, family: Family, i: nat): (r: nat)
    ensures i <= |addrs| ==> i <= r <= |addrs|
    ensures r < |addrs| ==> addrs[r] == family
    ensures forall m :: i <= m < r && m < |addrs| ==> addrs[m] != family
    decreases |addrs| - i
  {
    if i >= |addrs| || addrs[i] == family then i else SkipTo(addrs, family, i + 1)
  }

  function AiNext(addrs: Addrs, c: Conn, k: nat, next: bool): Conn
    requires k < 2
  {
    var at := c.tempaddr[k];
    var start := if at < |addrs| && next then at + 1 else at;
    c.(tempaddr := c.tempaddr[k := SkipTo(addrs, FamilyOf(addrs, k), start)])
  }

  /** The outcome of every attempt, by its number. */
  type Network = nat -> Attempt

  function SingleIpConnect(net: Network, c: Conn, k: nat): (Conn, Code)
    requires k < 2
  {
    var id := |c.tries|;
    var a := net(id);
    var c := c.(tempsock := c.tempsock[k := None], tries := c.tries + [Try(k, c.tempaddr[k], a != NoSocket)]);
    match a
    case InProgress => (c.(tempsock := c.tempsock[k := Some(id)]), CURLE_OK)
    case Refused => (c.(closed := c.closed + [id]), CURLE_COULDNT_CONNECT)
    case NoSocket => (c, CURLE_COULDNT_CONNECT)
    case Aborted => (c.(closed := c.closed + [id]), OtherError)
    case Unprintable => (c.(closed := c.closed + [id]), CURLE_OK)
  }

  function Close(c: Conn, s: Option<nat>): Conn {
    if s.Some? then c.(closed := c.closed + [s.value]) else c
  }

  /** Attempts from the current address on, until one does not end in a connection failure. */
  function TryFrom(addrs: Addrs, net: Network, c: Conn, k: nat): (Conn, Code)
    requires k < 2
    decreases |addrs| - c.tempaddr[k]
  {
    if c.tempaddr[k] >= |addrs| then (c, CURLE_COULDNT_CONNECT)
    else
      var (c', r) := SingleIpConnect(net, c, k);
      if r == CURLE_COULDNT_CONNECT then
        var c'' := AiNext(addrs, c', k, true);
        if c''.tempaddr[k] >= |addrs| then (c'', r) else TryFrom(addrs, net, c'', k)
      else (c', r)
  }

  function TryNextIp(addrs: Addrs, net: Network, c: Conn, k: nat): (Conn, Code)
    requires k < 2
  {
    var previous := c.tempsock[k];
    var (c', r) := TryFrom(addrs, net, c.(tempsock := c.tempsock[k := None]), k);
    (Close(c', previous), r)
  }

  function Fresh(addrs: Addrs): Conn {
    AiNext(addrs, Conn([0, 0], [None, None], None, false, [], []), 1, false)
  }

  /** The addresses of one family in order, until an attempt does not fail. */
  function ConnectFamily(addrs: Addrs, net: Network, c: Conn, k: nat, soFar: Code): (Conn, Code)
    requires k < 2
    decreases |addrs| - c.tempaddr[k]
  {
    if c.tempaddr[k] >= |addrs| then (c, soFar)
    else
      var (c', r) := SingleIpConnect(net, c, k);
      if r == CURLE_OK then (c', r)
      else
        var c'' := AiNext(addrs, c', k, true);
        if c''.tempaddr[k] >= |addrs| then (c'', r) else ConnectFamily(addrs, net, c'', k, r)
  }

  function ConnectHost(addrs: Addrs, net: Network): (Conn, Code) {
    var (c, r) := ConnectFamily(addrs, net, Fresh(addrs), 0, CURLE_COULDNT_CONNECT);
    if r == CURLE_OK then (c, r) else ConnectFamily(addrs, net, c, 1, r)
  }

  /** What one pass over a candidate yields. */
  datatype Pass = Pass(c: Conn, result: Code, connected: bool)

  /** The part of Curl_is_connected that deals with candidate i. */
  function PollCandidate(addrs: Addrs, net: Network, c: Conn, i: nat, sight: Sight, result: Code): Pass
    requires i < 2
  {
    var other := 1 - i;
    if c.tempsock[i].None? then Pass(c, result, false)
    else match sight
      case Connected =>
        var c' := c.(sock := c.tempsock[i], tempsock := c.tempsock[i := None]);
        Pass(Close(c', c'.tempsock[other]).(tempsock := [None, None]), CURLE_OK, true)
      case Broken(error) =>
        if error then NextAddress(addrs, net, c, i, result) else Pass(c, result, false)
      case Waiting(timedOut, eyeballs) =>
        var c' := if i == 0 && !c.parallel && eyeballs then TryNextIp(addrs, net, c.(parallel := true), 1).0 else c;
        if timedOut then NextAddress(addrs, net, c', i, result) else Pass(c', result, false)
  }

  /** The attempt of candidate i failed: go on with its next address. */
  function NextAddress(addrs: Addrs, net: Network, c: Conn, i: nat, result: Code): Pass
    requires i < 2
  {
    if c.tempaddr[i] >= |addrs| then Pass(c, result, false)
    else
      var (c', status) := TryNextIp(addrs, net, AiNext(addrs, c, i, true), i);
      Pass(c', if status != CURLE_COULDNT_CONNECT || c'.tempsock[1 - i].None? then status else result, false)
  }

  /** Curl_is_connected on a connection that is not connected yet, within its time. */
  function Poll(addrs: Addrs, net: Network, c: Conn, sights: (Sight, Sight)): Pass
  {
    var p0 := PollCandidate(addrs, net, c, 0, sights.0, CURLE_OK);
    if p0.connected then p0
    else
      var p1 := PollCandidate(addrs, net, p0.c, 1, sights.1, p0.result);
      if p1.connected then p1
      else if p1.result != CURLE_OK && p1.c.tempsock == [None, None] then
        var (c', r) := TryNextIp(addrs, net, p1.c, 1);
        Pass(c', r, false)
      else Pass(p1.c, CURLE_OK, false)
  }

  // ---- What every run keeps

  ghost predicate Holds(c: Conn, id: nat) {
    c.tempsock[0] == Some(id) || c.tempsock[1] == Some(id) || c.sock == Some(id)
  }

  /** Every socket ever made is closed, or one of the two candidates, or the connection's own, or the one
      set aside to be closed later; and only one of these. */
  ghost predicate Accounted(c: Conn, aside: Option<nat>) {
    && (forall id: nat ::
          (id < |c.tries| && c.tries[id].socketMade) <==> (id in c.closed || Holds(c, id) || aside == Some(id)))
    && (forall id: nat :: id in c.closed ==> !Holds(c, id))
    && (forall i, j :: 0 <= i < j < |c.closed| ==> c.closed[i] != c.closed[j])
    && (c.tempsock[0].Some? ==> c.tempsock[0] != c.tempsock[1] && c.tempsock[0] != c.sock)
    && (c.tempsock[1].Some? ==> c.tempsock[1] != c.sock)
    && (aside.Some? ==> aside.value !in c.closed && !Holds(c, aside.value))
  }

  ghost predicate Conserved(c: Conn) { Accounted(c, None) }

  lemma SingleConserves(net: Network, c: Conn, k: nat, aside: Option<nat>)
    requires k < 2 && Accounted(c, aside) && c.tempsock[k].None?
    ensures var (c', r) := SingleIpConnect(net, c, k);
            && Accounted(c', aside) && c'.sock == c.sock && c'.tempsock[1 - k] == c.tempsock[1 - k]
            && (r != CURLE_OK ==> c'.tempsock[k].None?)
  {
    var id := |c.tries|;
    assert id !in c.closed && !Holds(c, id) && aside != Some(id);
    assert forall i: nat :: i in c.closed || Holds(c, i) || aside == Some(i) ==> i < id;
    var tries := c.tries + [Try(k, c.tempaddr[k], net(id) != NoSocket)];
    assert c.tempsock[k := None] == c.tempsock;
    if net(id) == InProgress {
      NewCandidate(c, tries, k, aside);
    } else {
      NewClosed(c, tries, aside);
    }
  }

  lemma NewCandidate(c: Conn, tries: seq<Try>, k: nat, aside: Option<nat>)
    requires k < 2 && Accounted(c, aside) && c.tempsock[k].None?
    requires |tries| == |c.tries| + 1 && tries[..|c.tries|] == c.tries && tries[|c.tries|].socketMade
    requires forall i: nat :: i in c.closed || Holds(c, i) || aside == Some(i) ==> i < |c.tries|
    ensures Accounted(c.(tempsock := c.tempsock[k := Some(|c.tries|)], tries := tries), aside)
  {
    assert forall i :: 0 <= i < |c.tries| ==> tries[i] == c.tries[i];
  }

  lemma NewClosed(c: Conn, tries: seq<Try>, aside: Option<nat>)
    requires Accounted(c, aside)
    requires |tries| == |c.tries| + 1 && tries[..|c.tries|] == c.tries
    requires forall i: nat :: i in c.closed || Holds(c, i) || aside == Some(i) ==> i < |c.tries|
    ensures var closed := if tries[|c.tries|].socketMade then c.closed + [|c.tries|] else c.closed;
            Accounted(c.(tries := tries, closed := closed), aside)
  {
    var n := |c.tries|;
    var c' := c.(tries := tries, closed := if tries[n].socketMade then c.closed + [n] else c.closed);
    forall id: nat
      ensures (id < |tries| && tries[id].socketMade) <==> (id in c'.closed || Holds(c', id) || aside == Some(id))
      ensures id in c'.closed ==> !Holds(c', id)
    {
      assert id in c'.closed <==> id in c.closed || (id == n && tries[n].socketMade);
      assert Holds(c', id) <==> Holds(c, id);
      if id < n { assert tries[id] == c.tries[id]; }
    }
  }

  lemma {:induction false} TryFromConserves(addrs: Addrs, net: Network, c: Conn, k: nat, aside: Option<nat>)
    requires k < 2 && Accounted(c, aside) && c.tempsock[k].None?
    ensures var (c', r) := TryFrom(addrs, net, c, k);
            && Accounted(c', aside) && c'.sock == c.sock && c'.tempsock[1 - k] == c.tempsock[1 - k]
            && (r != CURLE_OK ==> c'.tempsock[k].None?)
    decreases |addrs| - c.tempaddr[k]
  {
    hide SkipTo, SingleIpConnect;
    if c.tempaddr[k] < |addrs| {
      SingleConserves(net, c, k, aside);
      var (c', r) := SingleIpConnect(net, c, k);
      SingleKeepsAddr(net, c, k);
      if r == CURLE_COULDNT_CONNECT {
        var c'' := AiNext(addrs, c', k, true);
        assert Accounted(c'', aside);
        if c''.tempaddr[k] < |addrs| { TryFromConserves(addrs, net, c'', k, aside); }
      }
    }
  }

  lemma SingleKeepsAddr(net: Network, c: Conn, k: nat)
    requires k < 2
    ensures SingleIpConnect(net, c, k).0.tempaddr == c.tempaddr && SingleIpConnect(net, c, k).0.parallel == c.parallel
  {
  }

  /** Trying on leaves the other candidate and the connection's socket alone, and closes the failed socket last,
      while the new one is already open. */
  lemma TryNextConserves(addrs: Addrs, net: Network, c: Conn, k: nat)
    requires k < 2 && Conserved(c)
    ensures var (c', r) := TryNextIp(addrs, net, c, k);
            && Conserved(c') && c'.sock == c.sock && c'.tempsock[1 - k] == c.tempsock[1 - k]
            && (r != CURLE_OK ==> c'.tempsock[k].None?)
            && (c.tempsock[k].Some? ==> c'.closed != [] && c'.closed[|c'.closed| - 1] == c.tempsock[k].value)
  {
    hide TryFrom;
    var previous := c.tempsock[k];
    var c0 := c.(tempsock := c.tempsock[k := None]);
    assert Accounted(c0, previous);
    TryFromConserves(addrs, net, c0, k, previous);
    var (c1, r) := TryFrom(addrs, net, c0, k);
    assert Conserved(Close(c1, previous));
  }

  lemma {:induction false} FamilyConserves(addrs: Addrs, net: Network, c: Conn, k: nat, soFar: Code)
    requires k < 2 && Conserved(c) && c.tempsock[k].None?
    ensures var (c', r) := ConnectFamily(addrs, net, c, k, soFar);
            && Conserved(c') && c'.sock == c.sock && c'.tempsock[1 - k] == c.tempsock[1 - k]
            && (r != CURLE_OK ==> c'.tempsock[k].None?)
    decreases |addrs| - c.tempaddr[k]
  {
    hide SkipTo, SingleIpConnect;
    if c.tempaddr[k] < |addrs| {
      SingleConserves(net, c, k, None);
      SingleKeepsAddr(net, c, k);
      var (c', r) := SingleIpConnect(net, c, k);
      if r != CURLE_OK {
        var c'' := AiNext(addrs, c', k, true);
        assert Conserved(c'');
        if c''.tempaddr[k] < |addrs| { FamilyConserves(addrs, net, c'', k, r); }
      }
    }
  }

  lemma ConnectHostConserves(addrs: Addrs, net: Network)
    ensures var (c, r) := ConnectHost(addrs, net);
            Conserved(c) && c.sock.None? && (r != CURLE_OK ==> c.tempsock[0].None? && c.tempsock[1].None?)
  {
    hide ConnectFamily, SkipTo;
    FamilyConserves(addrs, net, Fresh(addrs), 0, CURLE_COULDNT_CONNECT);
    var (c, r) := ConnectFamily(addrs, net, Fresh(addrs), 0, CURLE_COULDNT_CONNECT);
    FamilyConserves(addrs, net, c, 1, r);
  }

  lemma NextAddressConserves(addrs: Addrs, net: Network, c: Conn, i: nat, result: Code)
    requires i < 2 && Conserved(c)
    ensures var p := NextAddress(addrs, net, c, i, result);
            Conserved(p.c) && p.c.sock == c.sock && !p.connected
  {
    hide TryNextIp, SkipTo;
    if c.tempaddr[i] < |addrs| {
      assert Conserved(AiNext(addrs, c, i, true));
      TryNextConserves(addrs, net, AiNext(addrs, c, i, true), i);
    }
  }

  lemma WinnerConserves(c: Conn, i: nat)
    requires i < 2 && Conserved(c) && c.sock.None? && c.tempsock[i].Some?
    ensures Conserved(Close(c.(sock := c.tempsock[i]), c.tempsock[1 - i]).(tempsock := [None, None]))
  {
    var c' := Close(c.(sock := c.tempsock[i]), c.tempsock[1 - i]).(tempsock := [None, None]);
    forall id: nat ensures (id in c'.closed || Holds(c', id)) <==> (id in c.closed || Holds(c, id)) {}
  }

  lemma CandidateConserves(addrs: Addrs, net: Network, c: Conn, i: nat, sight: Sight, result: Code)
    requires i < 2 && Conserved(c) && c.sock.None?
    ensures var p := PollCandidate(addrs, net, c, i, sight, result);
            && Conserved(p.c) && (p.connected <==> p.c.sock.Some?)
            && (p.connected ==> p.c.sock == c.tempsock[i] && p.c.tempsock == [None, None])
  {
    hide TryNextIp, NextAddress, Accounted;
    if c.tempsock[i].Some? {
      match sight
      case Connected => WinnerConserves(c, i);
      case Broken(_) => NextAddressConserves(addrs, net, c, i, result);
      case Waiting(_, eyeballs) =>
        var c' := if i == 0 && !c.parallel && eyeballs then TryNextIp(addrs, net, c.(parallel := true), 1).0 else c;
        assert Conserved(c.(parallel := true)) by { ParallelIsNoMatter(c); }
        TryNextConserves(addrs, net, c.(parallel := true), 1);
        NextAddressConserves(addrs, net, c', i, result);
    }
  }

  lemma ParallelIsNoMatter(c: Conn)
    requires Conserved(c)
    ensures Conserved(c.(parallel := true))
  {
  }

  /** A poll conserves sockets; when it connects, the winner is the one socket still open. */
  lemma PollConserves(addrs: Addrs, net: Network, c: Conn, sights: (Sight, Sight))
    requires Conserved(c) && c.sock.None?
    ensures var p := Poll(addrs, net, c, sights);
            && Conserved(p.c) && (p.connected <==> p.c.sock.Some?)
            && (p.connected || p.result != CURLE_OK ==> p.c.tempsock[0].None? && p.c.tempsock[1].None?)
  {
    hide PollCandidate, TryNextIp;
    CandidateConserves(addrs, net, c, 0, sights.0, CURLE_OK);
    var p0 := PollCandidate(addrs, net, c, 0, sights.0, CURLE_OK);
    if !p0.connected {
      CandidateConserves(addrs, net, p0.c, 1, sights.1, p0.result);
      var p1 := PollCandidate(addrs, net, p0.c, 1, sights.1, p0.result);
      if !p1.connected { TryNextConserves(addrs, net, p1.c, 1); }
    }
  }

  // ---- Which addresses are tried

  /** The addresses a candidate has tried, in order. */
  function TriedBy(tries: seq<Try>, k: nat): seq<nat> {
    if tries == [] then []
    else
      var rest, last := TriedBy(tries[..|tries| - 1], k), tries[|tries| - 1];
      if last.candidate == k then rest + [last.addr] else rest
  }

  /** The entries of a family before position n, in list order. */
  function Entries(addrs: Addrs, family: Family, n: nat): (r: seq<nat>)
    requires n <= |addrs|
    ensures forall i :: i in r ==> i < n && addrs[i] == family
    ensures forall i, j :: 0 <= i < j < |r| ==> r[i] < r[j]
  {
    if n == 0 then []
    else
      var rest := Entries(addrs, family, n - 1);
      assert forall i :: 0 <= i < |rest| ==> rest[i] in rest;
      if addrs[n - 1] == family then rest + [n - 1] else rest
  }

  lemma {:induction false} EntriesMonotone(addrs: Addrs, family: Family, m: nat, n: nat)
    requires m <= n <= |addrs|
    ensures Entries(addrs, family, m) <= Entries(addrs, family, n)
    ensures (forall i :: m <= i < n ==> addrs[i] != family) ==> Entries(addrs, family, m) == Entries(addrs, family, n)
  {
    if m < n { EntriesMonotone(addrs, family, m, n - 1); }
  }

  /** A candidate has tried the entries of its family up to its cursor, the one at the cursor too while that is
      pending. */
  ghost predicate Caught(addrs: Addrs, c: Conn, k: nat, pending: bool)
    requires k < 2
  {
    && c.tempaddr[k] <= |addrs|
    && (c.tempaddr[k] < |addrs| ==> addrs[c.tempaddr[k]] == FamilyOf(addrs, k))
    && (pending ==> c.tempaddr[k] < |addrs|)
    && TriedBy(c.tries, k) == Entries(addrs, FamilyOf(addrs, k), if pending then c.tempaddr[k] + 1 else c.tempaddr[k])
  }

  /** Between calls: each candidate is caught up; the first has a socket or nothing left to try; the second
      has none before it is started beside the first. */
  ghost predicate InOrder(addrs: Addrs, c: Conn) {
    && Caught(addrs, c, 0, c.tempsock[0].Some?) && Caught(addrs, c, 1, c.tempsock[1].Some?)
    && (c.tempsock[0].None? ==> c.tempaddr[0] == |addrs|)
    && (!c.parallel && c.tempsock[0].Some? ==> c.tempsock[1].None?)
  }

  /** Attempts succeed for now or fail to connect; they do not end in other ways. */
  ghost predicate Plain(net: Network) {
    forall n: nat :: net(n) in {InProgress, Refused, NoSocket}
  }

  lemma AdvanceCatchesUp(addrs: Addrs, c: Conn, k: nat, next: bool)
    requires k < 2 && c.tempaddr[k] <= |addrs|
    requires var upTo := if next && c.tempaddr[k] < |addrs| then c.tempaddr[k] + 1 else c.tempaddr[k];
             TriedBy(c.tries, k) == Entries(addrs, FamilyOf(addrs, k), upTo)
    ensures Caught(addrs, AiNext(addrs, c, k, next), k, false)
    ensures next && c.tempaddr[k] < |addrs| ==> AiNext(addrs, c, k, next).tempaddr[k] > c.tempaddr[k]
  {
    hide Entries, TriedBy;
    var start := if c.tempaddr[k] < |addrs| && next then c.tempaddr[k] + 1 else c.tempaddr[k];
    EntriesMonotone(addrs, FamilyOf(addrs, k), start, SkipTo(addrs, FamilyOf(addrs, k), start));
  }

  lemma SingleCatchesUp(addrs: Addrs, net: Network, c: Conn, k: nat)
    requires k < 2 && Plain(net) && Caught(addrs, c, k, false) && c.tempaddr[k] < |addrs|
    ensures var (c', r) := SingleIpConnect(net, c, k);
            && Caught(addrs, c', k, true) && (r == CURLE_OK <==> c'.tempsock[k].Some?) && r != OtherError
            && TriedBy(c'.tries, 1 - k) == TriedBy(c.tries, 1 - k)
            && c'.tempaddr == c.tempaddr && c'.parallel == c.parallel && c'.tempsock[1 - k] == c.tempsock[1 - k]
  {
    hide Entries;
    var (c', r) := SingleIpConnect(net, c, k);
    assert c'.tries[..|c.tries|] == c.tries;
    assert net(|c.tries|) in {InProgress, Refused, NoSocket};
    NextEntry(addrs, FamilyOf(addrs, k), c.tempaddr[k]);
  }

  lemma NextEntry(addrs: Addrs, family: Family, i: nat)
    requires i < |addrs| && addrs[i] == family
    ensures Entries(addrs, family, i + 1) == Entries(addrs, family, i) + [i]
  {
  }

  /** What trying on from the cursor leaves behind. */
  ghost predicate Tried(addrs: Addrs, c: Conn, c': Conn, k: nat, r: Code)
    requires k < 2
  {
    && Caught(addrs, c', k, c'.tempsock[k].Some?)
    && r != OtherError && (r == CURLE_OK <==> c'.tempsock[k].Some?)
    && (r != CURLE_OK ==> c'.tempaddr[k] == |addrs|)
    && TriedBy(c'.tries, 1 - k) == TriedBy(c.tries, 1 - k)
    && c'.tempaddr[1 - k] == c.tempaddr[1 - k] && c'.parallel == c.parallel && c'.tempsock[1 - k] == c.tempsock[1 - k]
  }

  lemma {:induction false} TryFromInOrder(addrs: Addrs, net: Network, c: Conn, k: nat)
    requires k < 2 && Plain(net) && Caught(addrs, c, k, false) && c.tempsock[k].None?
    ensures var (c', r) := TryFrom(addrs, net, c, k);
            Tried(addrs, c, c', k, r)
    decreases |addrs| - c.tempaddr[k]
  {
    hide SkipTo, SingleIpConnect, Plain, Entries, TriedBy;
    if c.tempaddr[k] < |addrs| {
      SingleCatchesUp(addrs, net, c, k);
      var (c', r) := SingleIpConnect(net, c, k);
      if r == CURLE_COULDNT_CONNECT {
        AdvanceCatchesUp(addrs, c', k, true);
        var c'' := AiNext(addrs, c', k, true);
        if c''.tempaddr[k] < |addrs| { TryFromInOrder(addrs, net, c'', k); }
      }
    }
  }

  lemma TryNextInOrder(addrs: Addrs, net: Network, c: Conn, k: nat)
    requires k < 2 && Plain(net) && Caught(addrs, c, k, false)
    ensures var (c', r) := TryNextIp(addrs, net, c, k);
            Tried(addrs, c, c', k, r)
  {
    hide TryFrom, Entries, TriedBy, Plain;
    TryFromInOrder(addrs, net, c.(tempsock := c.tempsock[k := None]), k);
  }

  lemma {:induction false} FamilyInOrder(addrs: Addrs, net: Network, c: Conn, k: nat, soFar: Code)
    requires k < 2 && Plain(net) && Caught(addrs, c, k, false) && c.tempsock[k].None? && soFar == CURLE_COULDNT_CONNECT
    ensures var (c', r) := ConnectFamily(addrs, net, c, k, soFar);
            Tried(addrs, c, c', k, r)
    decreases |addrs| - c.tempaddr[k]
  {
    hide SkipTo, SingleIpConnect, Plain, Entries, TriedBy;
    if c.tempaddr[k] < |addrs| {
      SingleCatchesUp(addrs, net, c, k);
      var (c', r) := SingleIpConnect(net, c, k);
      if r != CURLE_OK {
        AdvanceCatchesUp(addrs, c', k, true);
        var c'' := AiNext(addrs, c', k, true);
        if c''.tempaddr[k] < |addrs| { FamilyInOrder(addrs, net, c'', k, r); }
      }
    }
  }

  /** The first round of attempts: either a socket is under way, or every address was tried. */
  lemma ConnectHostInOrder(addrs: Addrs, net: Network)
    requires addrs != [] && Plain(net)
    ensures var (c, r) := ConnectHost(addrs, net);
            && InOrder(addrs, c) && r != OtherError
            && (r != CURLE_OK ==> AllTried(addrs, c))
  {
    hide ConnectFamily, SkipTo, Plain;
    var c0 := Fresh(addrs);
    AdvanceCatchesUp(addrs, Conn([0, 0], [None, None], None, false, [], []), 1, false);
    assert Caught(addrs, c0, 0, false);
    FamilyInOrder(addrs, net, c0, 0, CURLE_COULDNT_CONNECT);
    var (c1, r1) := ConnectFamily(addrs, net, c0, 0, CURLE_COULDNT_CONNECT);
    if r1 != CURLE_OK { FamilyInOrder(addrs, net, c1, 1, r1); }
  }

  /** Both families were tried to the end. */
  ghost predicate AllTried(addrs: Addrs, c: Conn) {
    forall k :: 0 <= k < 2 ==> TriedBy(c.tries, k) == Entries(addrs, FamilyOf(addrs, k), |addrs|)
  }

  /** Each candidate has tried a beginning of its family's entries: in list order, none twice, none left out. */
  ghost predicate Prefixes(addrs: Addrs, c: Conn) {
    forall k :: 0 <= k < 2 ==> TriedBy(c.tries, k) <= Entries(addrs, FamilyOf(addrs, k), |addrs|)
  }

  lemma CaughtIsPrefix(addrs: Addrs, c: Conn)
    requires InOrder(addrs, c)
    ensures Prefixes(addrs, c)
  {
    hide Entries, TriedBy;
    forall k | 0 <= k < 2 ensures TriedBy(c.tries, k) <= Entries(addrs, FamilyOf(addrs, k), |addrs|) {
      var upTo := if c.tempsock[k].Some? then c.tempaddr[k] + 1 else c.tempaddr[k];
      EntriesMonotone(addrs, FamilyOf(addrs, k), upTo, |addrs|);
    }
  }

  lemma NextAddressInOrder(addrs: Addrs, net: Network, c: Conn, i: nat, result: Code)
    requires i < 2 && Plain(net) && InOrder(addrs, c) && c.tempsock[i].Some?
    ensures var p := NextAddress(addrs, net, c, i, result);
            && InOrder(addrs, p.c) && !p.connected
            && (p.result == result || p.result == CURLE_OK || p.c.tempsock == [None, None])
            && (i == 1 ==> p.c.tempsock[0] == c.tempsock[0])
  {
    hide TryNextIp, SkipTo, Plain, Entries, TriedBy;
    AdvanceCatchesUp(addrs, c, i, true);
    TryNextInOrder(addrs, net, AiNext(addrs, c, i, true), i);
    var (c', status) := TryNextIp(addrs, net, AiNext(addrs, c, i, true), i);
    assert c'.tempsock == [c'.tempsock[0], c'.tempsock[1]];
  }

  lemma CandidateInOrder(addrs: Addrs, net: Network, c: Conn, i: nat, sight: Sight, result: Code)
    requires i < 2 && Plain(net) && InOrder(addrs, c)
    ensures var p := PollCandidate(addrs, net, c, i, sight, result);
            Prefixes(addrs, p.c) && (!p.connected ==> InOrder(addrs, p.c))
  {
    hide TryNextIp, NextAddress, Plain, Entries, TriedBy;
    CaughtIsPrefix(addrs, c);
    var p := PollCandidate(addrs, net, c, i, sight, result);
    if c.tempsock[i].Some? {
      match sight
      case Connected =>
        assert p.c.tries == c.tries;
      case Broken(_) =>
        NextAddressInOrder(addrs, net, c, i, result);
      case Waiting(_, eyeballs) =>
        var c' := c;
        if i == 0 && !c.parallel && eyeballs {
          TryNextInOrder(addrs, net, c.(parallel := true), 1);
          c' := TryNextIp(addrs, net, c.(parallel := true), 1).0;
        }
        assert InOrder(addrs, c');
        NextAddressInOrder(addrs, net, c', i, result);
    }
    if !p.connected { CaughtIsPrefix(addrs, p.c); }
  }

  lemma PollInOrder(addrs: Addrs, net: Network, c: Conn, sights: (Sight, Sight))
    requires Plain(net) && InOrder(addrs, c)
    ensures var p := Poll(addrs, net, c, sights);
            && Prefixes(addrs, p.c) && (!p.connected ==> InOrder(addrs, p.c))
            && (!p.connected && p.result != CURLE_OK ==> AllTried(addrs, p.c))
  {
    hide PollCandidate, TryNextIp, Plain, Entries, TriedBy;
    CandidateInOrder(addrs, net, c, 0, sights.0, CURLE_OK);
    var p0 := PollCandidate(addrs, net, c, 0, sights.0, CURLE_OK);
    if !p0.connected {
      CandidateInOrder(addrs, net, p0.c, 1, sights.1, p0.result);
      var p1 := PollCandidate(addrs, net, p0.c, 1, sights.1, p0.result);
      if !p1.connected && p1.result != CURLE_OK && p1.c.tempsock == [None, None] {
        TryNextInOrder(addrs, net, p1.c, 1);
        CaughtIsPrefix(addrs, TryNextIp(addrs, net, p1.c, 1).0);
      }
    }
  }

  // ---- Whole connections

  /** Polls until the connection is made or given up. */
  function PollAll(addrs: Addrs, net: Network, c: Conn, rounds: seq<(Sight, Sight)>): Pass
    decreases |rounds|
  {
    if rounds == [] then Pass(c, CURLE_OK, false)
    else
      var p := Poll(addrs, net, c, rounds[0]);
      if p.connected || p.result != CURLE_OK then p else PollAll(addrs, net, p.c, rounds[1..])
  }

  function Establish(addrs: Addrs, net: Network, rounds: seq<(Sight, Sight)>): Pass {
    var (c, r) := ConnectHost(addrs, net);
    if r != CURLE_OK then Pass(c, r, false) else PollAll(addrs, net, c, rounds)
  }

  ghost predicate OnlyOpen(c: Conn, keep: Option<nat>) {
    forall id: nat :: id < |c.tries| && c.tries[id].socketMade && keep != Some(id) ==> id in c.closed
  }

  lemma {:induction false} PollAllConserves(addrs: Addrs, net: Network, c: Conn, rounds: seq<(Sight, Sight)>)
    requires Conserved(c) && c.sock.None?
    ensures var p := PollAll(addrs, net, c, rounds);
            && Conserved(p.c) && (p.connected <==> p.c.sock.Some?)
            && (p.connected || p.result != CURLE_OK ==> p.c.tempsock[0].None? && p.c.tempsock[1].None?)
    decreases |rounds|
  {
    hide Poll, Accounted;
    if rounds != [] {
      PollConserves(addrs, net, c, rounds[0]);
      var p := Poll(addrs, net, c, rounds[0]);
      if !p.connected && p.result == CURLE_OK { PollAllConserves(addrs, net, p.c, rounds[1..]); }
    }
  }

  /** Sockets are conserved over every connection, on any network; in the end only the connection's own is open,
      and none when it was given up. */
  lemma SocketsAreConserved(addrs: Addrs, net: Network, rounds: seq<(Sight, Sight)>)
    ensures var p := Establish(addrs, net, rounds);
            Conserved(p.c) && (p.connected || p.result != CURLE_OK ==> OnlyOpen(p.c, p.c.sock))
  {
    hide ConnectHost, PollAll;
    ConnectHostConserves(addrs, net);
    PollAllConserves(addrs, net, ConnectHost(addrs, net).0, rounds);
  }

  lemma {:induction false} PollAllInOrder(addrs: Addrs, net: Network, c: Conn, rounds: seq<(Sight, Sight)>)
    requires Plain(net) && InOrder(addrs, c)
    ensures var p := PollAll(addrs, net, c, rounds);
            Prefixes(addrs, p.c) && (!p.connected && p.result != CURLE_OK ==> AllTried(addrs, p.c))
    decreases |rounds|
  {
    hide Poll, Plain, InOrder, Prefixes, AllTried;
    if rounds == [] {
      CaughtIsPrefix(addrs, c);
    } else {
      PollInOrder(addrs, net, c, rounds[0]);
      var p := Poll(addrs, net, c, rounds[0]);
      if !p.connected && p.result == CURLE_OK { PollAllInOrder(addrs, net, p.c, rounds[1..]); }
    }
  }

  /** Each family's addresses are tried in list order, none twice, none passed over; a connection is given up
      only when all of both families have been tried. */
  lemma AddressesTriedInOrder(addrs: Addrs, net: Network, rounds: seq<(Sight, Sight)>)
    requires addrs != [] && Plain(net)
    ensures var p := Establish(addrs, net, rounds);
            Prefixes(addrs, p.c) && (!p.connected && p.result != CURLE_OK ==> AllTried(addrs, p.c))
  {
    hide ConnectHost, PollAll, Plain;
    ConnectHostInOrder(addrs, net);
    CaughtIsPrefix(addrs, ConnectHost(addrs, net).0);
    PollAllInOrder(addrs, net, ConnectHost(addrs, net).0, rounds);
  }
}
