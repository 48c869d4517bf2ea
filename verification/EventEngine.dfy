/** The array of notifier slots, edited in place. */
module EventEngine {
  import opened Events
  import opened Wrappers

  class Notifiers {
    const slots: array<Slot>

    ghost predicate Good()
      reads this, slots
    {
      Valid(slots[..])
    }

    constructor ()
      ensures fresh(slots) && Good() && NoNamedPolls(slots[..])
      ensures forall u :: Select(slots[..], u) == 0
    {
      slots := new Slot[MAX_UPDATE_EVENTS];
      new;
      ghost var raw := slots[..];
      slots[0] := slots[0].(event := slots[0].event.(updateType := Any), handle := Some(IgnoreUpdate));
      for i := 1 to MAX_UPDATE_EVENTS
        invariant forall j :: 0 <= j < i ==> slots[j] == Init(raw)[j]
        invariant forall j :: i <= j < MAX_UPDATE_EVENTS ==> slots[j] == raw[j]
      {
        slots[i] := slots[i].(event := slots[i].event.(updateType := NoType), handle := None);
      }
      assert slots[..] == Init(raw);
      InitIsValid(raw);
    }

    method AddUpdateNotifier(handle: Option<Handle>, event: Event) returns (found: bool)
      requires Good()
      modifies slots
      ensures Good() && (slots[..], found) == Add(old(slots[..]), handle, event)
    {
      ghost var was := slots[..];
      ApplyKeepsValid(was, AddOp(handle, event));
      found := false;
      if handle.Some? {
        if event.updateType == Any {
          slots[0] := slots[0].(handle := handle);
          found := true;
        } else if event.updateType != NoType {
          var i := 1;
          while i < MAX_UPDATE_EVENTS && !found
            invariant 1 <= i <= MAX_UPDATE_EVENTS
            invariant !found ==> slots[..] == was && FirstAt(was, Empty, i) == FirstAt(was, Empty, 1)
            invariant found ==> slots[..] == Add(was, handle, event).0 && FirstAt(was, Empty, 1) < MAX_UPDATE_EVENTS
          {
            if slots[i].event.updateType == NoType {
              slots[i] := Slot(event, handle);
              found := true;
            }
            i := i + 1;
          }
        }
      }
      assert slots[..] == Add(was, handle, event).0;
    }

    method ModifyUpdateNotifier(handle: Option<Handle>, event: Event) returns (found: bool)
      requires Good()
      modifies slots
      ensures Good() && (slots[..], found) == Modify(old(slots[..]), handle, event)
    {
      ghost var was := slots[..];
      ghost var same := (slot: Slot) => slot.event == event;
      ApplyKeepsValid(was, ModifyOp(handle, event));
      found := false;
      if handle.Some? {
        if event.updateType == Any {
          slots[0] := slots[0].(handle := handle);
          found := true;
        } else if event.updateType != NoType {
          var i := 1;
          while i < MAX_UPDATE_EVENTS && !found
            invariant 1 <= i <= MAX_UPDATE_EVENTS
            invariant !found ==> slots[..] == was && FirstAt(was, same, i) == FirstAt(was, same, 1)
            invariant found ==> slots[..] == Modify(was, handle, event).0 && FirstAt(was, same, 1) < MAX_UPDATE_EVENTS
          {
            if slots[i].event == event {
              slots[i] := slots[i].(handle := handle);
              found := true;
            }
            i := i + 1;
          }
        }
      }
      assert slots[..] == Modify(was, handle, event).0;
    }

    method RemoveUpdateNotifier(event: Event) returns (found: bool)
      requires Good()
      modifies slots
      ensures Good() && (slots[..], found) == Remove(old(slots[..]), event)
    {
      ghost var was := slots[..];
      ghost var same := (slot: Slot) => slot.event == event;
      ApplyKeepsValid(was, RemoveOp(event));
      found := false;
      if event.updateType == Any {
        slots[0] := slots[0].(handle := Some(IgnoreUpdate));
        found := true;
      } else {
        var i := 1;
        while i < MAX_UPDATE_EVENTS && !found
          invariant 1 <= i <= MAX_UPDATE_EVENTS
          invariant !found ==> slots[..] == was && FirstAt(was, same, i) == FirstAt(was, same, 1)
          invariant found ==> slots[..] == Remove(was, event).0 && FirstAt(was, same, 1) < MAX_UPDATE_EVENTS
        {
          if slots[i].event == event {
            slots[i] := Clear(slots[i]);
            found := true;
          }
          i := i + 1;
        }
      }
      assert slots[..] == Remove(was, event).0;
    }

    /** The loop: the first handler for the very command, and the last general one met. */
    method ScanSlots(u: Update) returns (exact: Option<Handle>, general: Option<Handle>)
      requires Good() && (u.PollUpdate? ==> NoNamedPolls(slots[..]))
      ensures var s := slots[..];
              && (exact.None? <==> LowestExact(s, u, 1) == |s|)
              && (exact.Some? ==> exact == s[LowestExact(s, u, 1)].handle)
              && (exact.None? ==> var g := HighestGeneral(s, u, |s|); general == if g > 0 then s[g].handle else None)
    {
      hide Select;
      ghost var s := slots[..];
      exact, general := None, None;
      var i := 1;
      while i < MAX_UPDATE_EVENTS && exact.None?
        invariant 1 <= i <= MAX_UPDATE_EVENTS
        invariant exact.None? ==> LowestExact(s, u, 1) == LowestExact(s, u, i)
        invariant exact.Some? ==> LowestExact(s, u, 1) == i - 1 && exact == s[i - 1].handle
        invariant exact.None? ==> var g := HighestGeneral(s, u, i); general == if g > 0 then s[g].handle else None
      {
        var slot := slots[i];
        if slot.event.updateType == TypeOf(u) {
          if u.MessageUpdate? {
            if slot.event.info != "" {
              if u.command.Some? && slot.event.info == u.command.value { exact := slot.handle; }
            } else {
              general := slot.handle;
            }
          } else if u.PollUpdate? {
            general := slot.handle;
          }
        }
        i := i + 1;
      }
    }

    method FindUpdateHandler(u: Update) returns (handle: Handle)
      requires Good() && (u.PollUpdate? ==> NoNamedPolls(slots[..]))
      ensures exists i: nat :: Chosen(slots[..], u, i) && slots[i].handle == Some(handle)
      ensures slots[Select(slots[..], u)].handle == Some(handle)
    {
      hide Chosen, LowestExact, HighestGeneral, NoNamedPolls;
      SelectIsChosen(slots[..], u);
      ghost var k := Select(slots[..], u);
      assert Chosen(slots[..], u, k) && slots[..][k].handle.Some?;
      var exact, general := ScanSlots(u);
      if exact.Some? { return exact.value; }
      if general.Some? { return general.value; }
      GeneralHasHandler(slots[..], u);
      return slots[0].handle.value;
    }
  }

  lemma GeneralHasHandler(s: seq<Slot>, u: Update)
    requires Valid(s)
    ensures var g := HighestGeneral(s, u, |s|); g > 0 ==> s[g].handle.Some?
  {
  }
}
