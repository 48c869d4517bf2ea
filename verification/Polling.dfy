/** The poller, its parser threads and the server: who has seen which update. */
module Polling {
  import opened Decimal
  import opened Events
  import opened Wrappers

  /** What the parser reports: one past the last update, or 0 when there was none. */
  function ReplyText(updateId: int): (t: string)
    ensures t != ""
  {
    Print(if updateId != 0 then updateId + 1 else 0)
  }

  /** A report that begins with '0' leaves the offset alone. */
  function NextOffset(offset: string, mtext: string): string
    requires mtext != ""
  {
    if mtext[0] != '0' then mtext else offset
  }

  function LastId(batch: seq<Update>): int {
    if batch == [] then 0 else batch[|batch| - 1].id
  }

  datatype Phase =
    | Idle                                              // the poller is about to send its request
    | Parsing(batch: seq<Update>, done: nat, updateId: int)  // a parser works, the poller waits for its report
    | Replied(count: nat)                                // the report on so many updates is in the queue
    | Blocked                                           // the parser ended without a report

  datatype State = State(
    log: seq<Update>, offset: string, phase: Phase, queue: seq<string>, running: bool,
    handled: seq<(Update, Option<Handle>)>, slots: seq<Slot>)

  datatype Move =
    | Arrive(u: Update)       // the server has a new update
    | Fail                    // the request fails
    | Answer(n: nat)          // the server answers with its first n pending updates
    | NotOk                   // the server answers with "ok": false
    | NoThread                // the parser thread cannot be created
    | Dispatch | Send         // the parser handles an update; reports
    | Receive                 // the poller takes the report
    | Change(op: Op)          // the program changes a handler
    | Quit

  /** An offset is all digits; the server counts from it. */
  function Offset(text: string): nat {
    if forall c :: c in text ==> '0' <= c <= '9' then Value(text) else 0
  }

  /** What the server holds for an offset: the updates from that identifier on. */
  function Pending(log: seq<Update>, offset: nat): (p: seq<Update>)
    ensures |p| <= |log| && p == log[|log| - |p|..]
  {
    if log == [] || log[0].id >= offset then log else Pending(log[1..], offset)
  }

  function Next(s: State, m: Move): State
    requires |s.slots| == MAX_UPDATE_EVENTS
  {
    match m
    case Arrive(u) => if s.log == [] || LastId(s.log) < u.id then s.(log := s.log + [u]) else s
    case Fail => s
    case Answer(n) =>
      var pending := Pending(s.log, Offset(s.offset));
      if s.running && s.phase == Idle && n <= |pending| then s.(phase := Parsing(pending[..n], 0, 0)) else s
    case NotOk => if s.running && s.phase == Idle then s.(phase := Blocked) else s
    case NoThread => if s.running && s.phase == Idle then s.(running := false) else s
    case Dispatch =>
      if s.phase.Parsing? && s.phase.done < |s.phase.batch| then
        var u := s.phase.batch[s.phase.done];
        s.(handled := s.handled + [(u, s.slots[Select(s.slots, u)].handle)],
           phase := Parsing(s.phase.batch, s.phase.done + 1, u.id))
      else s
    case Send =>
      if s.phase.Parsing? && s.phase.done == |s.phase.batch| then
        s.(phase := Replied(s.phase.done), queue := s.queue + [ReplyText(s.phase.updateId)])
      else s
    case Receive =>
      if s.phase.Replied? && s.queue != [] && s.queue[0] != "" then
        s.(phase := Idle, queue := s.queue[1..], offset := NextOffset(s.offset, s.queue[0]))
      else s
    case Change(op) => s.(slots := Apply(s.slots, op).0)
    case Quit => s.(running := false)
  }

  function Run(s: State, moves: seq<Move>): (r: State)
    requires |s.slots| == MAX_UPDATE_EVENTS
    ensures |r.slots| == MAX_UPDATE_EVENTS
    decreases |moves|
  {
    if moves == [] then s else Run(Next(s, moves[0]), moves[1..])
  }

  function Initial(slots: seq<Slot>): State { State([], "0", Idle, [], true, [], slots) }

  // ---- Exactly once, in order

  ghost predicate Ascending(log: seq<Update>) {
    forall i, j :: 0 <= i < j < |log| ==> log[i].id < log[j].id
  }

  ghost predicate FromOn(log: seq<Update>, least: int) {
    forall i :: 0 <= i < |log| ==> log[i].id >= least
  }

  /** The offset that stands for the first k updates having been handled. */
  function OffsetAfter(log: seq<Update>, k: nat): string
    requires k <= |log|
  {
    if k == 0 then "0" else Print(log[k - 1].id + 1)
  }

  function Updates(handled: seq<(Update, Option<Handle>)>): (r: seq<Update>)
    ensures |r| == |handled|
  {
    seq(|handled|, i requires 0 <= i < |handled| => handled[i].0)
  }

  ghost predicate Invariant(s: State) {
    var k := |s.handled|;
    && Ascending(s.log) && FromOn(s.log, 1) && Valid(s.slots)
    && k <= |s.log| && Updates(s.handled) == s.log[..k]
    && (forall i :: 0 <= i < k ==> s.handled[i].1.Some?)
    && match s.phase
       case Idle => s.queue == [] && s.offset == OffsetAfter(s.log, k)
       case Blocked => s.queue == [] && s.offset == OffsetAfter(s.log, k)
       case Parsing(batch, done, updateId) =>
         && s.queue == [] && done <= |batch| && done <= k && k - done + |batch| <= |s.log|
         && batch == s.log[k - done..k - done + |batch|]
         && updateId == (if done == 0 then 0 else s.log[k - 1].id)
         && s.offset == OffsetAfter(s.log, k - done)
       case Replied(count) =>
         && |s.queue| == 1 && s.queue[0] != "" && count <= k
         && NextOffset(s.offset, s.queue[0]) == OffsetAfter(s.log, k)
         && s.offset == OffsetAfter(s.log, k - count)
  }

  /** The server starts behind what was handled. */
  lemma PendingIsSuffix(log: seq<Update>, k: nat)
    requires Ascending(log) && FromOn(log, 1) && k <= |log|
    ensures Offset(OffsetAfter(log, k)) == (if k == 0 then 0 else log[k - 1].id + 1)
    ensures Pending(log, Offset(OffsetAfter(log, k))) == log[k..]
  {
    hide Digits, Value, Pending;
    if k == 0 {
      ZeroOffset();
      Behind(log, 0, 0);
    } else {
      ValueOfDigits(log[k - 1].id + 1);
      Behind(log, k, log[k - 1].id + 1);
    }
  }

  lemma ZeroOffset()
    ensures Offset("0") == 0
  {
    assert "0"[..0] == "";
  }

  lemma {:induction false} Behind(log: seq<Update>, k: nat, offset: nat)
    requires Ascending(log) && k <= |log|
    requires forall i :: 0 <= i < k ==> log[i].id < offset
    requires k < |log| ==> log[k].id >= offset
    ensures Pending(log, offset) == log[k..]
    decreases k
  {
    if k > 0 {
      Behind(log[1..], k - 1, offset);
      assert log[1..][k - 1..] == log[k..];
    }
  }

  lemma ReportMovesOn(log: seq<Update>, k: nat, offset: string)
    requires FromOn(log, 1) && 0 < k <= |log|
    ensures NextOffset(offset, ReplyText(log[k - 1].id)) == OffsetAfter(log, k)
  {
    LeadingZero(log[k - 1].id + 1);
  }

  lemma EmptyReport(offset: string)
    ensures NextOffset(offset, ReplyText(0)) == offset
  {
    LeadingZero(0);
  }

  lemma ArriveKeeps(s: State, u: Update)
    requires Invariant(s) && u.id >= 1
    ensures Invariant(Next(s, Arrive(u)))
  {
    hide Print, Valid, NextOffset, OffsetAfter, Updates;
    var k := |s.handled|;
    SizeKept(s);
    var s' := Next(s, Arrive(u));
    if s' != s {
      AscendingPush(s.log, u);
      assert s'.log[..k] == s.log[..k];
      forall j | 0 <= j <= |s.log| ensures OffsetAfter(s'.log, j) == OffsetAfter(s.log, j) { SameOffset(s.log, u, j); }
      if s.phase.Parsing? {
        var from := k - s.phase.done;
        assert s'.log[from..from + |s.phase.batch|] == s.log[from..from + |s.phase.batch|];
      }
    }
  }

  lemma AscendingPush(log: seq<Update>, u: Update)
    requires Ascending(log) && FromOn(log, 1) && u.id >= 1 && (log == [] || LastId(log) < u.id)
    ensures Ascending(log + [u]) && FromOn(log + [u], 1)
  {
  }

  lemma SameOffset(log: seq<Update>, u: Update, j: nat)
    requires j <= |log|
    ensures OffsetAfter(log + [u], j) == OffsetAfter(log, j)
  {
  }

  /** No identifier below 1 arrives. */
  predicate Usual(m: Move) { m.Arrive? ==> m.u.id >= 1 }

  lemma NextKeeps(s: State, m: Move)
    requires Invariant(s) && Usual(m)
    ensures Invariant(Next(s, m))
  {
    hide Invariant, Select, Apply, Pending, Offset, ReplyText, NextOffset;
    SizeKept(s);
    match m
    case Arrive(u) => ArriveKeeps(s, u);
    case Answer(n) => AnswerKeeps(s, n);
    case Dispatch => DispatchKeeps(s);
    case Send => SendKeeps(s);
    case _ => QuietKeeps(s, m);
  }

  lemma AnswerKeeps(s: State, n: nat)
    requires Invariant(s)
    ensures Invariant(Next(s, Answer(n)))
  {
    hide Print, OffsetAfter, Pending, Offset, Valid;
    SizeKept(s);
    var k := |s.handled|;
    PendingIsSuffix(s.log, k);
    assert forall j :: 0 <= j <= |s.log| - k ==> s.log[k..][..j] == s.log[k..k + j];
  }

  lemma QuietKeeps(s: State, m: Move)
    requires Invariant(s) && (m.NotOk? || m.Fail? || m.NoThread? || m.Quit? || m.Receive? || m.Change?)
    ensures Invariant(Next(s, m))
  {
    hide Print, OffsetAfter, Pending, Offset, Valid, Apply, NextOffset;
    SizeKept(s);
    if m.Change? { ApplyKeepsValid(s.slots, m.op); }
  }

  lemma DispatchKeeps(s: State)
    requires Invariant(s)
    ensures Invariant(Next(s, Dispatch))
  {
    hide Print, Digits, Select, OffsetAfter, Valid;
    if s.phase.Parsing? && s.phase.done < |s.phase.batch| {
      var k := |s.handled|;
      var u := s.phase.batch[s.phase.done];
      assert u == s.log[k];
      SizeKept(s);
      SelectIsChosen(s.slots, u);
      assert s.log[..k + 1] == s.log[..k] + [u];
      var s' := Next(s, Dispatch);
      assert Updates(s'.handled) == Updates(s.handled) + [u];
    }
  }

  lemma SendKeeps(s: State)
    requires Invariant(s)
    ensures Invariant(Next(s, Send))
  {
    hide Print, Digits, OffsetAfter, NextOffset, ReplyText, Valid;
    if s.phase.Parsing? && s.phase.done == |s.phase.batch| {
      var k := |s.handled|;
      if s.phase.done == 0 { EmptyReport(s.offset); } else { ReportMovesOn(s.log, k, s.offset); }
      SizeKept(s);
      var s' := Next(s, Send);
      assert s'.queue[0] == ReplyText(s.phase.updateId);
    }
  }

  lemma {:induction false} RunKeeps(s: State, moves: seq<Move>)
    requires Invariant(s) && forall m :: m in moves ==> Usual(m)
    ensures Invariant(Run(s, moves))
    decreases |moves|
  {
    hide Next, Invariant, Usual;
    if moves != [] {
      SizeKept(s);
      NextKeeps(s, moves[0]);
      RunKeeps(Next(s, moves[0]), moves[1..]);
    }
  }

  lemma SizeKept(s: State)
    requires Invariant(s)
    ensures |s.slots| == MAX_UPDATE_EVENTS
  {
  }

  /** Whatever the order of arrivals, failures, answers and changes of handlers: the updates handled so far are
      the first ones of the server's log, each once and in its order, each given to a handler; and no report
      lies in the queue but the one the poller waits for. */
  lemma ExactlyOnceInOrder(slots: seq<Slot>, moves: seq<Move>)
    requires Valid(slots) && forall m :: m in moves ==> Usual(m)
    ensures var s := Run(Initial(slots), moves);
            && Updates(s.handled) <= s.log && (forall i :: 0 <= i < |s.handled| ==> s.handled[i].1.Some?)
            && |s.queue| <= 1 && (s.queue != [] <==> s.phase.Replied?)
  {
    assert Invariant(Initial(slots));
    RunKeeps(Initial(slots), moves);
  }

  lemma LaterOffset(log: seq<Update>, j: nat, k: nat)
    requires Ascending(log) && FromOn(log, 1) && j <= k <= |log|
    ensures Offset(OffsetAfter(log, j)) <= Offset(OffsetAfter(log, k))
  {
    hide OffsetAfter, Offset, Pending;
    PendingIsSuffix(log, j);
    PendingIsSuffix(log, k);
  }

  lemma OnlyReceiveMovesOffset(s: State, m: Move)
    requires |s.slots| == MAX_UPDATE_EVENTS
    ensures var s' := Next(s, m);
            s'.offset == s.offset || (m == Receive && s.phase.Replied? && s.queue != [] && s.queue[0] != ""
                                      && s'.offset == NextOffset(s.offset, s.queue[0]))
  {
    hide Apply, Select, Pending, Offset, ReplyText, NextOffset;
  }

  /** The offset never goes back. */
  lemma OffsetNeverDecreases(s: State, m: Move)
    requires Invariant(s)
    ensures |s.slots| == MAX_UPDATE_EVENTS && Offset(Next(s, m).offset) >= Offset(s.offset)
  {
    hide Next, Offset, OffsetAfter, Updates, NextOffset, Valid;
    SizeKept(s);
    OnlyReceiveMovesOffset(s, m);
    if s.phase.Replied? { LaterOffset(s.log, |s.handled| - s.phase.count, |s.handled|); }
  }

  // ---- Whole rounds

  function Dispatches(n: nat): seq<Move> { seq(n, _ => Dispatch) }

  /** One request that is answered, and all that follows from it. */
  function Round(n: nat): seq<Move> { [Answer(n)] + Dispatches(n) + [Send, Receive] }

  lemma {:induction false} RunConcat(s: State, a: seq<Move>, b: seq<Move>)
    requires |s.slots| == MAX_UPDATE_EVENTS
    ensures Run(s, a + b) == Run(Run(s, a), b)
    decreases |a|
  {
    hide Next;
    if a == [] {
      assert a + b == b;
    } else {
      assert (a + b)[1..] == a[1..] + b;
      NextSize(s, a[0]);
      RunConcat(Next(s, a[0]), a[1..], b);
    }
  }

  lemma NextSize(s: State, m: Move)
    requires |s.slots| == MAX_UPDATE_EVENTS
    ensures |Next(s, m).slots| == MAX_UPDATE_EVENTS
  {
  }

  lemma UpdatesPush(handled: seq<(Update, Option<Handle>)>, last: (Update, Option<Handle>))
    ensures Updates(handled + [last]) == Updates(handled) + [last.0]
  {
  }

  lemma {:induction false} DispatchesAll(s: State, n: nat)
    requires |s.slots| == MAX_UPDATE_EVENTS && s.phase.Parsing? && |s.phase.batch| == s.phase.done + n
    ensures var s' := Run(s, Dispatches(n));
            && s'.phase
               == Parsing(s.phase.batch, |s.phase.batch|, if n == 0 then s.phase.updateId else LastId(s.phase.batch))
            && s'.log == s.log && s'.offset == s.offset && s'.queue == s.queue && s'.running == s.running
            && Updates(s'.handled) == Updates(s.handled) + s.phase.batch[s.phase.done..]
    decreases n
  {
    hide Select, Apply, Pending, Offset, ReplyText, NextOffset, Updates;
    if n == 0 {
      assert s.phase.batch[s.phase.done..] == [];
    } else {
      var s1 := Next(s, Dispatch);
      assert Dispatches(n)[1..] == Dispatches(n - 1);
      DispatchesAll(s1, n - 1);
      var u := s.phase.batch[s.phase.done];
      UpdatesPush(s.handled, s1.handled[|s.handled|]);
      assert s.phase.batch[s.phase.done..] == [u] + s.phase.batch[s.phase.done + 1..];
    }
  }

  lemma RunRound(s: State, n: nat)
    requires |s.slots| == MAX_UPDATE_EVENTS
    ensures var s1 := Next(s, Answer(n));
            && |s1.slots| == MAX_UPDATE_EVENTS
            && var s2 := Run(s1, Dispatches(n));
               && |Next(s2, Send).slots| == MAX_UPDATE_EVENTS
               && Run(s, Round(n)) == Next(Next(s2, Send), Receive)
  {
    hide Next, Run;
    NextSize(s, Answer(n));
    RunConcat(s, [Answer(n)] + Dispatches(n), [Send, Receive]);
    RunConcat(s, [Answer(n)], Dispatches(n));
    RunOne(s, Answer(n));
    RunTwo(Run(Next(s, Answer(n)), Dispatches(n)), Send, Receive);
  }

  lemma RoundMeans(s: State, n: nat)
    requires |s.slots| == MAX_UPDATE_EVENTS && s.phase == Idle && s.running && s.queue == []
    requires n <= |Pending(s.log, Offset(s.offset))|
    ensures var s', batch := Run(s, Round(n)), Pending(s.log, Offset(s.offset))[..n];
            && s'.phase == Idle && s'.running && s'.queue == [] && s'.log == s.log
            && s'.offset == NextOffset(s.offset, ReplyText(LastId(batch)))
            && Updates(s'.handled) == Updates(s.handled) + batch
  {
    hide Run, Round, Select, Pending, Offset, ReplyText, NextOffset, Apply;
    RunRound(s, n);
    var s1 := Next(s, Answer(n));
    var batch := Pending(s.log, Offset(s.offset))[..n];
    DispatchesAll(s1, n);
    assert batch[0..] == batch;
    var s2 := Run(s1, Dispatches(n));
    assert Next(s2, Send).queue == [ReplyText(s2.phase.updateId)];
  }

  lemma RunOne(s: State, m: Move)
    requires |s.slots| == MAX_UPDATE_EVENTS
    ensures Run(s, [m]) == Next(s, m)
  {
    hide Next;
    NextSize(s, m);
    assert [m][1..] == [];
  }

  lemma RunTwo(s: State, m: Move, n: Move)
    requires |s.slots| == MAX_UPDATE_EVENTS
    ensures |Next(s, m).slots| == MAX_UPDATE_EVENTS && Run(s, [m, n]) == Next(Next(s, m), n)
  {
    hide Next;
    NextSize(s, m);
    RunOne(Next(s, m), n);
    assert [m, n][1..] == [n];
  }

  /** An answered round with everything pending leaves nothing unhandled. */
  lemma CatchesUp(s: State)
    requires Invariant(s) && s.phase == Idle && s.running
    ensures var n := |s.log| - |s.handled|; Updates(Run(s, Round(n)).handled) == s.log
  {
    hide Run, OffsetAfter, Offset, Pending, NextOffset, ReplyText, Print, Round;
    var k := |s.handled|;
    PendingIsSuffix(s.log, k);
    SizeKept(s);
    RoundMeans(s, |s.log| - k);
    assert s.log[k..][..|s.log| - k] == s.log[k..];
    assert s.log == s.log[..k] + s.log[k..];
  }

  /** A round moves past its updates exactly when the last of them is not number 0: that one the server would
      send again and again. */
  lemma MovesOnExactly(s: State, n: nat)
    requires |s.slots| == MAX_UPDATE_EVENTS && s.phase == Idle && s.running && s.queue == []
    requires Ascending(s.log) && FromOn(s.log, 0)
    requires 0 < n <= |Pending(s.log, Offset(s.offset))|
    ensures var pending, s' := Pending(s.log, Offset(s.offset)), Run(s, Round(n));
            Pending(s'.log, Offset(s'.offset)) == pending[n..] <==> pending[n - 1].id != 0
  {
    hide Run, Offset, Pending, NextOffset, ReplyText, Round;
    RoundMeans(s, n);
    var pending := Pending(s.log, Offset(s.offset));
    var k := |s.log| - |pending| + n;
    assert s.log[k..] == pending[n..];
    assert pending[n - 1] == s.log[k - 1] && pending[..n][n - 1] == pending[n - 1];
    assert LastId(pending[..n]) == s.log[k - 1].id;
    if s.log[k - 1].id != 0 {
      OffsetBehind(s.log, k, s.offset);
    } else {
      EmptyReport(s.offset);
    }
  }

  /** An update numbered 0 is handled in every round. */
  lemma UpdateZeroIsHandledAgain(slots: seq<Slot>, u: Update)
    requires |slots| == MAX_UPDATE_EVENTS && u.id == 0
    ensures Updates(Run(Run(Run(Initial(slots), [Arrive(u)]), Round(1)), Round(1)).handled) == [u, u]
  {
    hide Run, Round, Next, Updates;
    var s := Next(Initial(slots), Arrive(u));
    assert s == Initial(slots).(log := [u]) by { FirstArrives(slots, u); }
    RunOne(Initial(slots), Arrive(u));
    RoundOfZero(s, u);
    RoundOfZero(Run(s, Round(1)), u);
    NothingHandled(s.handled);
  }

  lemma FirstArrives(slots: seq<Slot>, u: Update)
    requires |slots| == MAX_UPDATE_EVENTS
    ensures Next(Initial(slots), Arrive(u)) == Initial(slots).(log := [u])
  {
  }

  lemma RoundOfZero(s: State, u: Update)
    requires |s.slots| == MAX_UPDATE_EVENTS && s.phase == Idle && s.running && s.queue == []
    requires u.id == 0 && s.log == [u] && s.offset == "0"
    ensures var s' := Run(s, Round(1));
            && s'.phase == Idle && s'.running && s'.queue == [] && s'.log == [u] && s'.offset == "0"
            && Updates(s'.handled) == Updates(s.handled) + [u]
  {
    hide Run, Round, Next, Offset, NextOffset, ReplyText, Updates, Pending;
    ZeroOffset();
    EmptyReport("0");
    AllPending(u);
    assert [u][..1] == [u];
    RoundMeans(s, 1);
  }

  lemma AllPending(u: Update)
    ensures u.id >= 0 ==> Pending([u], 0) == [u]
  {
  }

  lemma NothingHandled(handled: seq<(Update, Option<Handle>)>)
    ensures handled == [] ==> Updates(handled) == []
  {
  }

  lemma OffsetBehind(log: seq<Update>, k: nat, offset: string)
    requires Ascending(log) && FromOn(log, 0) && 0 < k <= |log| && log[k - 1].id != 0
    ensures Pending(log, Offset(NextOffset(offset, ReplyText(log[k - 1].id)))) == log[k..]
  {
    hide Digits, Value, Pending;
    var id := log[k - 1].id;
    LeadingZero(id + 1);
    ValueOfDigits(id + 1);
    Behind(log, k, id + 1);
  }

  /** After an answer that is not ok the poller waits for a report that nobody sends. */
  lemma {:induction false} BlockedForever(s: State, moves: seq<Move>)
    requires |s.slots| == MAX_UPDATE_EVENTS && s.phase == Blocked
    ensures var s' := Run(s, moves); s'.phase == Blocked && s'.handled == s.handled && s'.offset == s.offset
    decreases |moves|
  {
    hide Apply;
    if moves != [] {
      NextSize(s, moves[0]);
      BlockedForever(Next(s, moves[0]), moves[1..]);
    }
  }

  /** A request is answered with "not ok" while the poller asks. */
  predicate RefusedWhileAsking(s: State, moves: seq<Move>)
    requires |s.slots| == MAX_UPDATE_EVENTS
    decreases |moves|
  {
    && moves != []
    && ((moves[0] == NotOk && s.running && s.phase == Idle) || RefusedWhileAsking(Next(s, moves[0]), moves[1..]))
  }

  /** That, and nothing else, blocks the poller. */
  lemma {:induction false} BlockedExactly(s: State, moves: seq<Move>)
    requires |s.slots| == MAX_UPDATE_EVENTS && s.phase != Blocked
    ensures Run(s, moves).phase == Blocked <==> RefusedWhileAsking(s, moves)
    decreases |moves|
  {
    hide Apply, Select, Pending, Offset, ReplyText, NextOffset;
    if moves != [] {
      NextSize(s, moves[0]);
      var s' := Next(s, moves[0]);
      if s'.phase == Blocked { BlockedForever(s', moves[1..]); } else { BlockedExactly(s', moves[1..]); }
    }
  }

  /** One refused request, and no update that arrives later is handled, whatever else happens. */
  lemma RefusedOnce(slots: seq<Slot>, moves: seq<Move>)
    requires |slots| == MAX_UPDATE_EVENTS
    ensures var s := Run(Initial(slots), [NotOk] + moves); s.phase == Blocked && s.handled == []
  {
    hide Run;
    RunConcat(Initial(slots), [NotOk], moves);
    RunOne(Initial(slots), NotOk);
    BlockedForever(Next(Initial(slots), NotOk), moves);
  }

  /** While the handlers are not changed, every update goes to the handler of the slot chosen for it. */
  lemma {:induction false} ChosenHandlers(s: State, moves: seq<Move>)
    requires |s.slots| == MAX_UPDATE_EVENTS && forall move :: move in moves ==> !move.Change?
    ensures var r := Run(s, moves);
            && r.slots == s.slots && s.handled <= r.handled
            && forall i :: |s.handled| <= i < |r.handled| ==>
                 r.handled[i].1 == s.slots[Select(s.slots, r.handled[i].0)].handle
    decreases |moves|
  {
    hide Select, Pending, Offset, ReplyText, NextOffset;
    if moves != [] {
      assert moves[0] in moves;
      var s' := Next(s, moves[0]);
      ChosenHandlers(s', moves[1..]);
    }
  }
}
