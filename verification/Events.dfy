/** Which handler an update goes to, and how handlers are added, changed and removed. */
module Events {
  import opened Wrappers

  datatype UpdateType = Unknown | NoType | Any | Message | Poll

  datatype Event = Event(updateType: UpdateType, info: string)

  datatype Handle = IgnoreUpdate | User(id: nat)

  datatype Slot = Slot(event: Event, handle: Option<Handle>)

  datatype Update =
    | MessageUpdate(id: int, command: Option<string>)
    | PollUpdate(id: int)
    | UnknownUpdate(id: int)

  function TypeOf(u: Update): UpdateType {
    match u case MessageUpdate(_, _) => Message case PollUpdate(_) => Poll case UnknownUpdate(_) => Unknown
  }

  const MAX_UPDATE_EVENTS := 20

  /** Slot 0 is the default; every other slot has a handler exactly when it is in use. */
  ghost predicate Valid(s: seq<Slot>) {
    && |s| == MAX_UPDATE_EVENTS
    && s[0].event.updateType == Any && s[0].handle.Some?
    && forall i :: 0 < i < |s| ==>
         s[i].event.updateType != Any && (s[i].handle.None? <==> s[i].event.updateType == NoType)
  }

  /** Poll events that name a poll are left out. */
  ghost predicate NoNamedPolls(s: seq<Slot>) {
    forall i :: 0 < i < |s| && s[i].event.updateType == Poll ==> s[i].event.info == ""
  }

  // ---- Choosing a handler

  /** The slot asks for the very command of the message. */
  predicate Exact(slot: Slot, u: Update) {
    u.MessageUpdate? && slot.event.updateType == Message && slot.event.info != "" && u.command == Some(slot.event.info)
  }

  /** The slot asks for every message, or every poll. */
  predicate General(slot: Slot, u: Update) {
    !u.UnknownUpdate? && slot.event.updateType == TypeOf(u) && slot.event.info == ""
  }

  ghost predicate IsLowestExact(s: seq<Slot>, u: Update, i: nat) {
    0 < i < |s| && Exact(s[i], u) && forall j :: 0 < j < i ==> !Exact(s[j], u)
  }

  ghost predicate IsHighestGeneral(s: seq<Slot>, u: Update, i: nat) {
    0 < i < |s| && General(s[i], u) && forall j :: i < j < |s| ==> !General(s[j], u)
  }

  ghost predicate NoneFits(s: seq<Slot>, u: Update) {
    forall j :: 0 < j < |s| ==> !Exact(s[j], u) && !General(s[j], u)
  }

  /** The slot whose handler an update gets: the lowest that asks for its command, or else the highest general
      one of its type, or else slot 0. */
  ghost predicate Chosen(s: seq<Slot>, u: Update, i: nat) {
    || IsLowestExact(s, u, i)
    || (IsHighestGeneral(s, u, i) && forall j :: 0 < j < |s| ==> !Exact(s[j], u))
    || (i == 0 && NoneFits(s, u))
  }

  function LowestExact(s: seq<Slot>, u: Update, from: nat): (i: nat)
    requires 0 < from <= |s|
    ensures from <= i <= |s|
    ensures i < |s| ==> Exact(s[i], u)
    ensures forall j :: from <= j < i ==> !Exact(s[j], u)
    decreases |s| - from
  {
    if from == |s| || Exact(s[from], u) then from else LowestExact(s, u, from + 1)
  }

  function HighestGeneral(s: seq<Slot>, u: Update, n: nat): (i: nat)
    requires 0 < n <= |s|
    ensures i < n
    ensures 0 < i ==> General(s[i], u)
    ensures forall j :: i < j < n ==> !General(s[j], u)
  {
    if n == 1 || General(s[n - 1], u) then n - 1 else HighestGeneral(s, u, n - 1)
  }

  function Select(s: seq<Slot>, u: Update): (i: nat)
    requires s != []
    ensures i < |s|
  {
    var exact := LowestExact(s, u, 1);
    if exact < |s| then exact else HighestGeneral(s, u, |s|)
  }

  /** There is one such slot and it has a handler. */
  lemma SelectIsChosen(s: seq<Slot>, u: Update)
    requires Valid(s)
    ensures Chosen(s, u, Select(s, u)) && s[Select(s, u)].handle.Some?
    ensures forall i: nat :: Chosen(s, u, i) ==> i == Select(s, u)
  {
    var k := Select(s, u);
    assert k != 0 ==> Exact(s[k], u) || General(s[k], u);
    forall i: nat | Chosen(s, u, i) ensures i == k {
      assert i != 0 ==> Exact(s[i], u) || General(s[i], u);
    }
  }

  // ---- Changing the slots

  predicate Empty(slot: Slot) { slot.event.updateType == NoType }

  function FirstAt(s: seq<Slot>, p: Slot -> bool, from: nat): (i: nat)
    requires from <= |s|
    ensures from <= i <= |s|
    ensures i < |s| ==> p(s[i])
    ensures forall j :: from <= j < i ==> !p(s[j])
    decreases |s| - from
  {
    if from == |s| || p(s[from]) then from else FirstAt(s, p, from + 1)
  }

  function Init(s: seq<Slot>): (r: seq<Slot>)
    requires |s| == MAX_UPDATE_EVENTS
  {
    seq(|s|, i requires 0 <= i < |s| =>
      if i == 0 then s[i].(event := s[i].event.(updateType := Any), handle := Some(IgnoreUpdate))
      else s[i].(event := s[i].event.(updateType := NoType), handle := None))
  }

  function Add(s: seq<Slot>, handle: Option<Handle>, event: Event): (seq<Slot>, bool)
    requires |s| == MAX_UPDATE_EVENTS
  {
    if handle.None? then (s, false)
    else if event.updateType == Any then (s[0 := s[0].(handle := handle)], true)
    else if event.updateType == NoType then (s, false)
    else
      var i := FirstAt(s, Empty, 1);
      if i == |s| then (s, false) else (s[i := Slot(event, handle)], true)
  }

  function Modify(s: seq<Slot>, handle: Option<Handle>, event: Event): (seq<Slot>, bool)
    requires |s| == MAX_UPDATE_EVENTS
  {
    if handle.None? then (s, false)
    else if event.updateType == Any then (s[0 := s[0].(handle := handle)], true)
    else if event.updateType == NoType then (s, false)
    else
      var i := FirstAt(s, (slot: Slot) => slot.event == event, 1);
      if i == |s| then (s, false) else (s[i := s[i].(handle := handle)], true)
  }

  function Clear(slot: Slot): Slot { slot.(event := slot.event.(updateType := NoType), handle := None) }

  function Remove(s: seq<Slot>, event: Event): (seq<Slot>, bool)
    requires |s| == MAX_UPDATE_EVENTS
  {
    if event.updateType == Any then (s[0 := s[0].(handle := Some(IgnoreUpdate))], true)
    else
      var i := FirstAt(s, (slot: Slot) => slot.event == event, 1);
      if i == |s| then (s, false) else (s[i := Clear(s[i])], true)
  }

  datatype Op =
    | AddOp(handle: Option<Handle>, event: Event)
    | ModifyOp(handle: Option<Handle>, event: Event)
    | RemoveOp(event: Event)

  function Apply(s: seq<Slot>, op: Op): (seq<Slot>, bool)
    requires |s| == MAX_UPDATE_EVENTS
  {
    match op
    case AddOp(handle, event) => Add(s, handle, event)
    case ModifyOp(handle, event) => Modify(s, handle, event)
    case RemoveOp(event) => Remove(s, event)
  }

  /** No operation leaves a slot in use without a handler, or the default without one. */
  lemma ApplyKeepsValid(s: seq<Slot>, op: Op)
    requires Valid(s)
    ensures Valid(Apply(s, op).0)
    ensures NoNamedPolls(s) && !(op.AddOp? && op.event.updateType == Poll && op.event.info != "") ==>
        NoNamedPolls(Apply(s, op).0)
  {
  }

  lemma InitIsValid(s: seq<Slot>)
    requires |s| == MAX_UPDATE_EVENTS
    ensures Valid(Init(s)) && NoNamedPolls(Init(s)) && forall u :: Select(Init(s), u) == 0
  {
    forall u ensures Select(Init(s), u) == 0 { SelectIsChosen(Init(s), u); }
  }

  /** Adding fails exactly for no handler, for the type that marks a free slot, and for want of a free slot. */
  lemma AddFailsExactly(s: seq<Slot>, handle: Option<Handle>, event: Event)
    requires Valid(s)
    ensures !Add(s, handle, event).1 <==>
              || handle.None? || event.updateType == NoType
              || (event.updateType != Any && forall i :: 0 < i < |s| ==> s[i].handle.Some?)
    ensures !Add(s, handle, event).1 ==> Add(s, handle, event).0 == s
  {
    if event.updateType != Any && event.updateType != NoType && handle.Some? {
      var i := FirstAt(s, Empty, 1);
      if i < |s| { assert s[i].handle.None?; }
    }
  }

  /** A command added once reaches its handler when no slot asks for it yet. */
  lemma AddedCommandIsReached(s: seq<Slot>, handle: Handle, command: string, u: Update)
    requires Valid(s) && command != "" && Add(s, Some(handle), Event(Message, command)).1
    requires u.MessageUpdate? && u.command == Some(command)
    requires forall i :: 0 < i < |s| ==> s[i].event != Event(Message, command)
    ensures var s' := Add(s, Some(handle), Event(Message, command)).0; s'[Select(s', u)].handle == Some(handle)
  {
    var i := FirstAt(s, Empty, 1);
    var s' := Add(s, Some(handle), Event(Message, command)).0;
    ApplyKeepsValid(s, AddOp(Some(handle), Event(Message, command)));
    assert IsLowestExact(s', u, i);
    SelectIsChosen(s', u);
  }

  /** Removing an event just added gives every update its old handler back. */
  lemma RemoveUndoesAdd(s: seq<Slot>, handle: Option<Handle>, event: Event, u: Update)
    requires Valid(s) && Add(s, handle, event).1 && event.updateType != Any
    requires forall i :: 0 < i < |s| ==> s[i].event != event
    ensures var s' := Remove(Add(s, handle, event).0, event).0;
            Select(s', u) == Select(s, u) && s'[Select(s', u)].handle == s[Select(s, u)].handle
  {
    var i := FirstAt(s, Empty, 1);
    var added := Add(s, handle, event).0;
    ApplyKeepsValid(s, AddOp(handle, event));
    var s' := Remove(added, event).0;
    ApplyKeepsValid(added, RemoveOp(event));
    assert added[i].event == event;
    assert FirstAt(added, (slot: Slot) => slot.event == event, 1) == i;
    assert s' == s[i := Clear(Slot(event, handle))];
    assert forall j :: 0 <= j < |s| && j != i ==> s'[j] == s[j];
    SelectIsChosen(s, u);
    SelectIsChosen(s', u);
    assert Chosen(s', u, Select(s, u));
  }

  /** A handler for updates of unknown type is never used: they all go to slot 0. */
  lemma UnknownGoesToDefault(s: seq<Slot>, u: Update)
    requires Valid(s) && u.UnknownUpdate?
    ensures Select(s, u) == 0
  {
    SelectIsChosen(s, u);
  }

  // ---- The same by the fields of the slots

  /** The lowest slot that names the command of a message gets it. */
  lemma FirstCommandWins(s: seq<Slot>, u: Update, i: nat)
    requires Valid(s) && u.MessageUpdate? && u.command.Some? && u.command.value != "" && 0 < i < |s|
    requires s[i].event == Event(Message, u.command.value)
    requires forall j :: 0 < j < i ==> s[j].event != Event(Message, u.command.value)
    ensures Select(s, u) == i
  {
    SelectIsChosen(s, u);
    assert IsLowestExact(s, u, i);
  }

  /** No slot names the command of the update. */
  ghost predicate Unnamed(s: seq<Slot>, u: Update) {
    u.MessageUpdate? && u.command.Some? && u.command.value != "" ==>
      forall j :: 0 < j < |s| ==> s[j].event != Event(Message, u.command.value)
  }

  /** Otherwise the highest slot for all updates of its type does. */
  lemma LastGeneralWins(s: seq<Slot>, u: Update, i: nat)
    requires Valid(s) && Unnamed(s, u) && !u.UnknownUpdate? && 0 < i < |s|
    requires var all := Event(if u.MessageUpdate? then Message else Poll, "");
             s[i].event == all && forall j :: i < j < |s| ==> s[j].event != all
    ensures Select(s, u) == i
  {
    SelectIsChosen(s, u);
    assert IsHighestGeneral(s, u, i);
    assert forall j :: 0 < j < |s| ==> !Exact(s[j], u);
  }

  /** And with none of these slot 0. */
  lemma DefaultOtherwise(s: seq<Slot>, u: Update)
    requires Valid(s) && Unnamed(s, u)
    requires u.MessageUpdate? ==> forall j :: 0 < j < |s| ==> s[j].event != Event(Message, "")
    requires u.PollUpdate? ==> forall j :: 0 < j < |s| ==> s[j].event != Event(Poll, "")
    ensures Select(s, u) == 0
  {
    SelectIsChosen(s, u);
    assert NoneFits(s, u);
  }

  /** The lists agree but at this place. */
  ghost predicate SameBut(s: seq<Slot>, t: seq<Slot>, i: nat) {
    |s| == |t| && forall j :: 0 <= j < |s| && j != i ==> s[j] == t[j]
  }

  /** The lowest slot from 1 on with this event. */
  ghost predicate FirstWith(s: seq<Slot>, event: Event, i: nat) {
    0 < i < |s| && s[i].event == event && forall j :: 0 < j < i ==> s[j].event != event
  }

  /** A successful add puts event and handler into the lowest free slot, or the handler into slot 0. */
  lemma AddMeans(s: seq<Slot>, handle: Option<Handle>, event: Event)
    requires Valid(s) && Apply(s, AddOp(handle, event)).1
    ensures var s' := Apply(s, AddOp(handle, event)).0;
            if event.updateType == Any then SameBut(s, s', 0) && s'[0] == Slot(s[0].event, handle)
            else exists i: nat ::
              && 0 < i < |s| && s[i].handle.None? && (forall j :: 0 < j < i ==> s[j].handle.Some?)
              && SameBut(s, s', i) && s'[i] == Slot(event, handle)
  {
    if event.updateType != Any {
      var i := FirstAt(s, Empty, 1);
      assert s[i].handle.None? && SameBut(s, Add(s, handle, event).0, i);
    }
  }

  /** A change succeeds when there is a handler, and a slot with the event, and gives the lowest such slot the
      handler. */
  lemma ModifyMeans(s: seq<Slot>, handle: Option<Handle>, event: Event)
    requires Valid(s)
    ensures var (s', ok) := Apply(s, ModifyOp(handle, event));
            && (ok <==> handle.Some? && event.updateType != NoType
                        && (event.updateType == Any || exists i :: 0 < i < |s| && s[i].event == event))
            && (!ok ==> s' == s)
            && (ok && event.updateType == Any ==> SameBut(s, s', 0) && s'[0] == Slot(s[0].event, handle))
            && (ok && event.updateType != Any ==>
                  exists i: nat :: FirstWith(s, event, i) && SameBut(s, s', i) && s'[i] == Slot(event, handle))
  {
    var i := FirstAt(s, (slot: Slot) => slot.event == event, 1);
    if i < |s| { assert FirstWith(s, event, i) && SameBut(s, s[i := s[i].(handle := handle)], i); }
  }

  /** A removal succeeds for the default and when there is a slot with the event, and frees the lowest such slot. */
  lemma RemoveMeans(s: seq<Slot>, event: Event)
    requires Valid(s)
    ensures var (s', ok) := Apply(s, RemoveOp(event));
            && (ok <==> event.updateType == Any || exists i :: 0 < i < |s| && s[i].event == event)
            && (!ok ==> s' == s)
            && (ok && event.updateType == Any ==>
                  SameBut(s, s', 0) && s'[0] == Slot(s[0].event, Some(IgnoreUpdate)))
            && (ok && event.updateType != Any ==>
                  exists i: nat :: FirstWith(s, event, i) && SameBut(s, s', i)
                                   && s'[i] == Slot(Event(NoType, event.info), None))
  {
    var i := FirstAt(s, (slot: Slot) => slot.event == event, 1);
    if i < |s| { assert FirstWith(s, event, i) && SameBut(s, s[i := Clear(s[i])], i); }
  }

  // ---- How many handlers there is room for

  /** Free slots from i on. */
  function FreeFrom(s: seq<Slot>, i: nat): nat
    requires i <= |s|
    decreases |s| - i
  {
    if i == |s| then 0 else (if s[i].handle.None? then 1 else 0) + FreeFrom(s, i + 1)
  }

  lemma {:induction false} FreeCounts(s: seq<Slot>, t: seq<Slot>, i: nat, k: nat)
    requires i <= |s| && k < |s| && SameBut(s, t, k) && s[k].handle.None? && t[k].handle.Some?
    ensures FreeFrom(s, i) == FreeFrom(t, i) + if i <= k then 1 else 0
    decreases |s| - i
  {
    if i < |s| { FreeCounts(s, t, i + 1, k); }
  }

  lemma {:induction false} AllFree(s: seq<Slot>, i: nat)
    requires i <= |s| && forall j :: i <= j < |s| ==> s[j].handle.None?
    ensures FreeFrom(s, i) == |s| - i
    decreases |s| - i
  {
    if i < |s| { AllFree(s, i + 1); }
  }

  lemma {:induction false} NoneFree(s: seq<Slot>, i: nat)
    requires i <= |s|
    ensures FreeFrom(s, i) == 0 <==> forall j :: i <= j < |s| ==> s[j].handle.Some?
    decreases |s| - i
  {
    if i < |s| { NoneFree(s, i + 1); }
  }

  /** At first there is room for nineteen handlers beside the default; every handler added takes one place, and there is
      room as long as one is left; a removal gives the place back. */
  lemma RoomForNineteen(raw: seq<Slot>, s: seq<Slot>, handle: Handle, event: Event)
    requires |raw| == MAX_UPDATE_EVENTS && Valid(s) && event.updateType !in {Any, NoType}
    ensures FreeFrom(Init(raw), 1) == 19
    ensures var (s', ok) := Add(s, Some(handle), event);
            && (ok <==> FreeFrom(s, 1) > 0)
            && FreeFrom(s', 1) == FreeFrom(s, 1) - if ok then 1 else 0
    ensures var (s', ok) := Remove(s, event); FreeFrom(s', 1) == FreeFrom(s, 1) + if ok then 1 else 0
  {
    AllFree(Init(raw), 1);
    NoneFree(s, 1);
    AddFailsExactly(s, Some(handle), event);
    var i := FirstAt(s, Empty, 1);
    if i < |s| { FreeCounts(s, s[i := Slot(event, Some(handle))], 1, i); }
    var k := FirstAt(s, (slot: Slot) => slot.event == event, 1);
    if k < |s| { FreeCounts(s[k := Clear(s[k])], s, 1, k); }
  }
}
