/** The connection record whose fields the connecting functions update in place. */
module ConnectEngine {
  import opened Wrappers
  import opened Connect

  class ConnectData {
    const tempaddr: array<nat>
    const tempsock: array<Option<nat>>
    var sock: Option<nat>
    var parallel: bool
    var tries: seq<Try>
    var closed: seq<nat>

    ghost predicate Valid()
      reads this
    {
      tempaddr.Length == 2 && tempsock.Length == 2
    }

    ghost function Contents(): Conn
      reads this, tempaddr, tempsock
      requires Valid()
    {
      Conn(tempaddr[..], tempsock[..], sock, parallel, tries, closed)
    }

    constructor ()
      ensures Valid() && fresh(tempaddr) && fresh(tempsock)
      ensures sock == None && !parallel && tries == [] && closed == []
    {
      tempaddr := new nat[2];
      tempsock := new Option<nat>[2];
      sock, parallel, tries, closed := None, false, [], [];
    }

    method AiNext(addrs: Addrs, k: nat, next: bool)
      requires Valid() && k < 2
      modifies tempaddr
      ensures Valid() && Contents() == Connect.AiNext(addrs, old(Contents()), k, next)
    {
      var ai := tempaddr[k];
      if ai < |addrs| && next { ai := ai + 1; }
      var family := FamilyOf(addrs, k);
      ghost var start := ai;
      while ai < |addrs| && addrs[ai] != family
        invariant SkipTo(addrs, family, ai) == SkipTo(addrs, family, start)
        decreases |addrs| - ai
      {
        ai := ai + 1;
      }
      tempaddr[k] := ai;
      assert tempaddr[..] == old(tempaddr[..])[k := ai];
    }

    method SingleIpConnect(net: Network, k: nat) returns (result: Code)
      requires Valid() && k < 2
      modifies tempsock, `tries, `closed
      ensures Valid() && (Contents(), result) == Connect.SingleIpConnect(net, old(Contents()), k)
    {
      var id := |tries|;
      tempsock[k] := None;
      assert tempsock[..] == old(tempsock[..])[k := None];
      tries := tries + [Try(k, tempaddr[k], net(id) != NoSocket)];
      match net(id)
      case NoSocket =>
        return CURLE_COULDNT_CONNECT;
      case Unprintable =>
        closed := closed + [id];
        return CURLE_OK;
      case Aborted =>
        closed := closed + [id];
        return OtherError;
      case Refused =>
        closed := closed + [id];
        return CURLE_COULDNT_CONNECT;
      case InProgress =>
        tempsock[k] := Some(id);
        assert tempsock[..] == old(tempsock[..])[k := None][k := Some(id)];
        return CURLE_OK;
    }

    method CloseSocket(s: Option<nat>)
      requires Valid()
      modifies `closed
      ensures Valid() && Contents() == Close(old(Contents()), s)
    {
      if s.Some? { closed := closed + [s.value]; }
    }

    method TryNextIp(addrs: Addrs, net: Network, k: nat) returns (result: Code)
      requires Valid() && k < 2
      modifies tempaddr, tempsock, `tries, `closed
      ensures Valid() && (Contents(), result) == Connect.TryNextIp(addrs, net, old(Contents()), k)
    {
      hide Connect.AiNext, Connect.SingleIpConnect;
      result := CURLE_COULDNT_CONNECT;
      var previous := tempsock[k];
      tempsock[k] := None;
      assert tempsock[..] == old(tempsock[..])[k := None];
      ghost var all := TryFrom(addrs, net, Contents(), k);
      while tempaddr[k] < |addrs|
        invariant Valid() && result == CURLE_COULDNT_CONNECT && all == TryFrom(addrs, net, Contents(), k)
        decreases |addrs| - tempaddr[k]
      {
        CursorAdvances(addrs, net, Contents(), k);
        result := SingleIpConnect(net, k);
        if result == CURLE_COULDNT_CONNECT {
          AiNext(addrs, k, true);
          continue;
        }
        break;
      }
      assert (Contents(), result) == all;
      CloseSocket(previous);
    }

    method ConnectHost(addrs: Addrs, net: Network) returns (result: Code)
      requires Valid() && sock == None && !parallel && tries == [] && closed == []
      modifies tempaddr, tempsock, `tries, `closed
      ensures Valid() && (Contents(), result) == Connect.ConnectHost(addrs, net)
    {
      hide Connect.AiNext, Connect.SingleIpConnect, ConnectFamily;
      result := CURLE_COULDNT_CONNECT;
      tempaddr[0], tempaddr[1] := 0, 0;
      tempsock[0], tempsock[1] := None, None;
      assert tempaddr[..] == [0, 0] && tempsock[..] == [None, None];
      AiNext(addrs, 1, false);
      ghost var first := ConnectFamily(addrs, net, Contents(), 0, result);
      var i := 0;
      while i < 2 && result != CURLE_OK
        invariant Valid() && 0 <= i <= 2
        invariant i == 0 ==> Contents() == Fresh(addrs) && result == CURLE_COULDNT_CONNECT
        invariant i == 1 ==> (Contents(), result) == first
        invariant i == 2 ==>
            first.1 != CURLE_OK && (Contents(), result) == ConnectFamily(addrs, net, first.0, 1, first.1)
      {
        result := WalkFamily(addrs, net, i, result);
        i := i + 1;
      }
    }

    method WalkFamily(addrs: Addrs, net: Network, k: nat, soFar: Code) returns (result: Code)
      requires Valid() && k < 2
      modifies tempaddr, tempsock, `tries, `closed
      ensures Valid() && (Contents(), result) == ConnectFamily(addrs, net, old(Contents()), k, soFar)
    {
      hide Connect.AiNext, Connect.SingleIpConnect;
      result := soFar;
      ghost var all := ConnectFamily(addrs, net, Contents(), k, soFar);
      while tempaddr[k] < |addrs|
        invariant Valid() && all == ConnectFamily(addrs, net, Contents(), k, result)
        decreases |addrs| - tempaddr[k]
      {
        CursorAdvances(addrs, net, Contents(), k);
        result := SingleIpConnect(net, k);
        if result == CURLE_OK { break; }
        AiNext(addrs, k, true);
      }
    }

    method NextAddress(addrs: Addrs, net: Network, i: nat, soFar: Code) returns (result: Code)
      requires Valid() && i < 2
      modifies tempaddr, tempsock, `tries, `closed
      ensures Valid()
      ensures Pass(Contents(), result, false) == Connect.NextAddress(addrs, net, old(Contents()), i, soFar)
    {
      hide Connect.AiNext, Connect.TryNextIp;
      result := soFar;
      if tempaddr[i] < |addrs| {
        AiNext(addrs, i, true);
        var status := TryNextIp(addrs, net, i);
        if status != CURLE_COULDNT_CONNECT || tempsock[1 - i].None? {
          result := status;
        }
      }
    }

    method IsConnected(addrs: Addrs, net: Network, sights: (Sight, Sight)) returns (result: Code, connected: bool)
      requires Valid()
      modifies this, tempaddr, tempsock
      ensures Valid() && Pass(Contents(), result, connected) == Poll(addrs, net, old(Contents()), sights)
    {
      hide Connect.NextAddress, Connect.TryNextIp;
      result, connected := CURLE_OK, false;
      ghost var p0 := PollCandidate(addrs, net, Contents(), 0, sights.0, CURLE_OK);
      var i := 0;
      while i < 2
        invariant Valid() && 0 <= i <= 2 && !connected
        invariant i == 0 ==> Contents() == old(Contents()) && result == CURLE_OK
        invariant i == 1 ==> Pass(Contents(), result, false) == p0
        invariant i == 2 ==>
            !p0.connected && Pass(Contents(), result, false) == PollCandidate(addrs, net, p0.c, 1, sights.1, p0.result)
      {
        var sight := if i == 0 then sights.0 else sights.1;
        var other := 1 - i;
        if tempsock[i] == None {
          i := i + 1;
          continue;
        }
        ghost var before := Contents();
        var error := false;
        match sight {
          case Waiting(timedOut, eyeballs) =>
            error := timedOut;
            if i == 0 && !parallel && eyeballs {
              parallel := true;
              var _ := TryNextIp(addrs, net, 1);
            }
          case Connected =>
            sock := tempsock[i];
            tempsock[i] := None;
            if tempsock[other] != None {
              CloseSocket(tempsock[other]);
              tempsock[other] := None;
            }
            assert tempsock[..] == [None, None];
            return CURLE_OK, true;
          case Broken(e) =>
            error := e;
        }
        if error { result := NextAddress(addrs, net, i, result); }
        i := i + 1;
      }
      if result != CURLE_OK && tempsock[0] == None && tempsock[1] == None {
        assert tempsock[..] == [None, None];
        result := TryNextIp(addrs, net, 1);
      } else {
        result := CURLE_OK;
      }
    }
  }

  lemma CursorAdvances(addrs: Addrs, net: Network, c: Conn, k: nat)
    requires k < 2 && c.tempaddr[k] < |addrs|
    ensures var c' := Connect.SingleIpConnect(net, c, k).0;
            c'.tempaddr == c.tempaddr && Connect.AiNext(addrs, c', k, true).tempaddr[k] > c.tempaddr[k]
  {
  }
}
