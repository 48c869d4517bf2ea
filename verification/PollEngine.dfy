/** The poller's loop and the parser's loop. */
module PollEngine {
  import opened EventEngine
  import opened Events
  import opened Polling
  import opened Wrappers

  /** What becomes of one request. */
  datatype Reply = Failed | Refused | NoParser | Answered(batch: seq<Update>)

  /** What a series of requests leads to; an answer that is not ok and a missing parser thread end it. */
  datatype Outcome = Outcome(offset: string, handled: seq<Update>, running: bool, blocked: bool)

  function Serve(offset: string, reply: Reply): Outcome {
    match reply
    case Failed => Outcome(offset, [], true, false)
    case Refused => Outcome(offset, [], false, true)
    case NoParser => Outcome(offset, [], false, false)
    case Answered(batch) => Outcome(NextOffset(offset, ReplyText(LastId(batch))), batch, true, false)
  }

  function Session(offset: string, replies: seq<Reply>): Outcome
    decreases |replies|
  {
    if replies == [] then Outcome(offset, [], true, false)
    else
      var first := Serve(offset, replies[0]);
      if !first.running then first
      else
        var rest := Session(first.offset, replies[1..]);
        rest.(handled := first.handled + rest.handled)
  }

  /** The session as far as its first k replies lead: the offset asked for and the updates handled by then. */
  ghost predicate Reached(offset: string, replies: seq<Reply>, k: nat, now: Outcome) {
    k <= |replies| &&
    if now.running then
      var rest := Session(now.offset, replies[k..]);
      !now.blocked && Session(offset, replies) == rest.(handled := now.handled + rest.handled)
    else Session(offset, replies) == now
  }

  lemma ReachedFirst(offset: string, replies: seq<Reply>)
    ensures Reached(offset, replies, 0, Outcome(offset, [], true, false))
  {
    assert replies[0..] == replies;
  }

  lemma ReachedNext(offset: string, replies: seq<Reply>, k: nat, now: Outcome)
    requires Reached(offset, replies, k, now) && now.running && k < |replies|
    ensures var o := Serve(now.offset, replies[k]);
            Reached(offset, replies, k + 1, o.(handled := now.handled + o.handled))
  {
    assert replies[k..][0] == replies[k] && replies[k..][1..] == replies[k + 1..];
    var o := Serve(now.offset, replies[k]);
    if o.running {
      var rest := Session(o.offset, replies[k + 1..]);
      assert now.handled + (o.handled + rest.handled) == (now.handled + o.handled) + rest.handled;
    }
  }

  lemma ReachedLast(offset: string, replies: seq<Reply>, k: nat, now: Outcome)
    requires Reached(offset, replies, k, now) && (k == |replies| || !now.running)
    ensures Session(offset, replies) == now
  {
    if now.running {
      assert replies[k..] == [];
      assert now.handled + [] == now.handled;
    }
  }

  /** Hands the updates of an answer to their handlers, and says what to ask for next. */
  method Parse(batch: seq<Update>, notifiers: Notifiers) returns (mtext: string, handles: seq<Handle>)
    requires notifiers.Good() && NoNamedPolls(notifiers.slots[..])
    ensures mtext == ReplyText(LastId(batch))
    ensures |handles| == |batch|
    ensures forall i :: 0 <= i < |batch| ==>
              notifiers.slots[Select(notifiers.slots[..], batch[i])].handle == Some(handles[i])
  {
    hide Select;
    var updateId := 0;
    handles := [];
    for i := 0 to |batch|
      invariant notifiers.Good() && NoNamedPolls(notifiers.slots[..])
      invariant updateId == LastId(batch[..i]) && |handles| == i
      invariant forall j :: 0 <= j < i ==>
                  notifiers.slots[Select(notifiers.slots[..], batch[j])].handle == Some(handles[j])
    {
      updateId := batch[i].id;
      var handle := notifiers.FindUpdateHandler(batch[i]);
      handles := handles + [handle];
    }
    assert batch[..|batch|] == batch;
    mtext := ReplyText(updateId);
  }

  /** Each update was given to the handler chosen for it. */
  ghost predicate GivenRight(slots: seq<Slot>, entries: seq<(Update, Option<Handle>)>)
    requires slots != []
  {
    forall i :: 0 <= i < |entries| ==> entries[i].1.Some? && entries[i].1 == slots[Select(slots, entries[i].0)].handle
  }

  lemma RightTogether(slots: seq<Slot>, a: seq<(Update, Option<Handle>)>, b: seq<(Update, Option<Handle>)>)
    requires slots != [] && GivenRight(slots, a) && GivenRight(slots, b)
    ensures GivenRight(slots, a + b)
  {
    hide Select;
  }

  class Poller {
    const url: string
    var fullurl: string
    var queue: seq<string>
    var handled: seq<(Update, Option<Handle>)>

    ghost predicate Asks(offset: string)
      reads this
    {
      fullurl == url + offset && queue == []
    }

    constructor (url: string)
      ensures Asks("0") && handled == []
    {
      this.url, this.queue, this.handled := url, [], [];
      this.fullurl := url + "0";
    }

    /** One pass of the loop: the request, and what the parser makes of its answer. */
    method ServeOne(reply: Reply, notifiers: Notifiers, ghost offset: string) returns (running: bool, blocked: bool)
      requires notifiers.Good() && NoNamedPolls(notifiers.slots[..]) && Asks(offset)
      modifies this
      ensures var o := Serve(offset, reply);
              Asks(o.offset) && running == o.running && blocked == o.blocked && (running ==> !blocked)
              && Updates(handled) == Updates(old(handled)) + o.handled
      ensures old(handled) <= handled && GivenRight(notifiers.slots[..], handled[|old(handled)|..])
    {
      hide Select, ReplyText;
      running, blocked := true, false;
      match reply {
        case Failed =>
        case Refused => running, blocked := false, true;
        case NoParser => running := false;
        case Answered(batch) =>
          var mtext, handles := Parse(batch, notifiers);
          handled := handled + seq(|batch|, i requires 0 <= i < |batch| => (batch[i], Some(handles[i])));
          queue := queue + [mtext];
          if queue[0][0] != '0' { fullurl := url + queue[0]; }
          queue := queue[1..];
      }
    }

    /** Serves the replies until one of them ends the loop; blocked tells that the poller waits for ever. */
    method Poll(replies: seq<Reply>, notifiers: Notifiers, ghost offset: string) returns (running: bool, blocked: bool)
      requires notifiers.Good() && NoNamedPolls(notifiers.slots[..]) && Asks(offset)
      modifies this
      ensures var o := Session(offset, replies);
              && Asks(o.offset) && running == o.running && blocked == o.blocked
              && Updates(handled) == Updates(old(handled)) + o.handled
      ensures old(handled) <= handled && GivenRight(notifiers.slots[..], handled[|old(handled)|..])
    {
      hide Select, Serve, NoNamedPolls, Updates, GivenRight, Session, Reached;
      running, blocked := true, false;
      ghost var now, was := Outcome(offset, [], true, false), handled;
      var k := 0;
      ReachedFirst(offset, replies);
      NothingWrong(notifiers.slots[..], handled[|was|..]);
      assert Updates(handled) == Updates(was) + now.handled;
      while running && k < |replies|
        invariant k <= |replies| && Reached(offset, replies, k, now)
        invariant Asks(now.offset) && running == now.running && blocked == now.blocked
        invariant notifiers.Good() && NoNamedPolls(notifiers.slots[..])
        invariant was <= handled && Updates(handled) == Updates(was) + now.handled
        invariant GivenRight(notifiers.slots[..], handled[|was|..])
        decreases |replies| - k
      {
        ReachedNext(offset, replies, k, now);
        ghost var before, o := handled, Serve(now.offset, replies[k]);
        running, blocked := ServeOne(replies[k], notifiers, now.offset);
        assert handled[|was|..] == before[|was|..] + handled[|before|..];
        RightTogether(notifiers.slots[..], before[|was|..], handled[|before|..]);
        assert (Updates(was) + now.handled) + o.handled == Updates(was) + (now.handled + o.handled);
        now := o.(handled := now.handled + o.handled);
        k := k + 1;
      }
      ReachedLast(offset, replies, k, now);
    }
  }

  lemma NothingWrong(slots: seq<Slot>, entries: seq<(Update, Option<Handle>)>)
    requires slots != [] && entries == []
    ensures GivenRight(slots, entries)
  {
  }

  // ---- The loop against a server

  /** What the server does with a request. */
  datatype Answer = Lost | Refuse | Unparsed | Give(n: nat)

  /** A request, and the updates that reach the server before it. */
  datatype Request = Request(arrivals: seq<Update>, answer: Answer)

  /** The server's list with new updates; identifiers only grow. */
  function Grown(log: seq<Update>, arrivals: seq<Update>): seq<Update>
    decreases |arrivals|
  {
    if arrivals == [] then log
    else Grown(if log == [] || LastId(log) < arrivals[0].id then log + [arrivals[0]] else log, arrivals[1..])
  }

  function ReplyTo(log: seq<Update>, offset: string, answer: Answer): Reply {
    var pending := Pending(log, Offset(offset));
    match answer
    case Lost => Failed
    case Refuse => Refused
    case Unparsed => NoParser
    case Give(n) => Answered(pending[..if n < |pending| then n else |pending|])
  }

  /** The replies of a server to a series of requests. */
  function Served(log: seq<Update>, offset: string, requests: seq<Request>): seq<Reply>
    decreases |requests|
  {
    if requests == [] then []
    else
      var log' := Grown(log, requests[0].arrivals);
      var reply := ReplyTo(log', offset, requests[0].answer);
      [reply] + Served(log', Serve(offset, reply).offset, requests[1..])
  }

  function Arrivals(arrivals: seq<Update>): (moves: seq<Move>)
    ensures |moves| == |arrivals|
  {
    seq(|arrivals|, i requires 0 <= i < |arrivals| => Arrive(arrivals[i]))
  }

  /** One request as moves of the state machine. */
  function MovesFor(offset: string, reply: Reply): seq<Move> {
    match reply
    case Failed => [Fail]
    case Refused => [NotOk]
    case NoParser => [NoThread]
    case Answered(batch) => Round(|batch|)
  }

  function Moves(log: seq<Update>, offset: string, requests: seq<Request>): seq<Move>
    decreases |requests|
  {
    if requests == [] then []
    else
      var log' := Grown(log, requests[0].arrivals);
      var reply := ReplyTo(log', offset, requests[0].answer);
      var o := Serve(offset, reply);
      Arrivals(requests[0].arrivals) + MovesFor(offset, reply)
          + (if o.running then Moves(log', o.offset, requests[1..]) else [])
  }

  /** Between two requests. */
  ghost predicate Ready(s: State) {
    |s.slots| == MAX_UPDATE_EVENTS && s.phase == Idle && s.running && s.queue == []
  }

  lemma {:induction false} ArrivalsGrow(s: State, arrivals: seq<Update>)
    requires |s.slots| == MAX_UPDATE_EVENTS
    ensures Run(s, Arrivals(arrivals)) == s.(log := Grown(s.log, arrivals))
    decreases |arrivals|
  {
    if arrivals != [] {
      var s' := Next(s, Arrive(arrivals[0]));
      assert Arrivals(arrivals)[1..] == Arrivals(arrivals[1..]);
      ArrivalsGrow(s', arrivals[1..]);
    }
  }

  /** The state after a reply is the one the loop is in: ready, or blocked, or ended. */
  ghost predicate Agrees(s: State, o: Outcome) {
    && s.offset == o.offset && (o.running <==> Ready(s)) && (o.blocked <==> s.phase == Blocked)
    && (!o.running && !o.blocked ==> !s.running)
  }

  lemma OneReply(s: State, answer: Answer)
    requires Ready(s)
    ensures var reply := ReplyTo(s.log, s.offset, answer);
            var s', o := Run(s, MovesFor(s.offset, reply)), Serve(s.offset, reply);
            && |s'.slots| == MAX_UPDATE_EVENTS && Agrees(s', o) && s'.log == s.log
            && Updates(s'.handled) == Updates(s.handled) + o.handled
  {
    hide Run, Pending, Offset, ReplyText, NextOffset, Round;
    var reply := ReplyTo(s.log, s.offset, answer);
    match reply
    case Failed => RunOne(s, Fail);
    case Refused => RunOne(s, NotOk);
    case NoParser => RunOne(s, NoThread);
    case Answered(batch) => RoundMeans(s, |batch|);
  }

  lemma OneRequest(s: State, request: Request)
    requires Ready(s)
    ensures var log := Grown(s.log, request.arrivals);
            var reply := ReplyTo(log, s.offset, request.answer);
            var s', o := Run(s, Arrivals(request.arrivals) + MovesFor(s.offset, reply)), Serve(s.offset, reply);
            && |s'.slots| == MAX_UPDATE_EVENTS && Agrees(s', o) && s'.log == log
            && Updates(s'.handled) == Updates(s.handled) + o.handled
  {
    hide Run, ReplyTo, MovesFor, Serve, Updates;
    ArrivalsGrow(s, request.arrivals);
    var s1 := s.(log := Grown(s.log, request.arrivals));
    var reply := ReplyTo(s1.log, s.offset, request.answer);
    RunConcat(s, Arrivals(request.arrivals), MovesFor(s.offset, reply));
    OneReply(s1, request.answer);
  }

  /** The loops do what the state machine does: against any server, with arrivals between requests, lost requests,
      refusals and missing parser threads. */
  lemma {:induction false} LoopsFollowTheProtocol(s: State, requests: seq<Request>)
    requires Ready(s)
    ensures var s', o := Run(s, Moves(s.log, s.offset, requests)), Session(s.offset, Served(s.log, s.offset, requests));
            Agrees(s', o) && Updates(s'.handled) == Updates(s.handled) + o.handled
    decreases |requests|
  {
    hide Run, Serve, ReplyTo, MovesFor, Updates, Grown;
    if requests == [] {
      RunNone(s);
      assert Updates(s.handled) + [] == Updates(s.handled);
    } else {
      var log := Grown(s.log, requests[0].arrivals);
      var reply := ReplyTo(log, s.offset, requests[0].answer);
      var first := Serve(s.offset, reply);
      var now := Arrivals(requests[0].arrivals) + MovesFor(s.offset, reply);
      OneRequest(s, requests[0]);
      assert Served(s.log, s.offset, requests)[1..] == Served(log, first.offset, requests[1..]);
      if first.running {
        RunConcat(s, now, Moves(log, first.offset, requests[1..]));
        LoopsFollowTheProtocol(Run(s, now), requests[1..]);
        var rest := Session(first.offset, Served(log, first.offset, requests[1..]));
        assert Updates(s.handled) + (first.handled + rest.handled)
            == (Updates(s.handled) + first.handled) + rest.handled;
      } else {
        assert now + [] == now;
      }
    }
  }

  lemma RunNone(s: State)
    requires |s.slots| == MAX_UPDATE_EVENTS
    ensures Run(s, []) == s
  {
  }
}
