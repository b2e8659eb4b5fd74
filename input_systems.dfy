/** The input system run once per frame: it clears the released marks, then pops
    every raw event off the shared queue, applies key presses and releases
    to the key state, and forwards every popped event, key or not. */
module InputSystems {
  import opened InputEvents
  import opened Resources

  /** The effect of one forwarded event on the key state: a key press
      presses, a key release releases; a repeat and every non-key event
      leave the key state alone. */
  function Apply(s: KeyState, event: Event): (t: KeyState)
    ensures event.Key? && event.key.kind == Press ==> t.Pressed(event.key.code)
    ensures event.Key? && event.key.kind == Release ==> !t.Pressed(event.key.code) && t.Released(event.key.code)
    ensures forall k :: !(event.Key? && event.key.kind != Repeat && event.key.code == k) ==>
              (t.Pressed(k) <==> s.Pressed(k)) && (t.Released(k) <==> s.Released(k))
    ensures event.Key? && event.key.kind == Press ==> t.released == s.released
  {
    match event
    case Key(key) =>
      (match key.kind
       case Press => s.Press(key.code)
       case Release => s.Release(key.code)
       case Repeat => s)
    case _ => s
  }

  /** The key state after applying `events` in order, first to last. */
  function ApplyAll(s: KeyState, events: seq<Event>): KeyState
  {
    if events == [] then s else Apply(ApplyAll(s, events[..|events| - 1]), events[|events| - 1])
  }

  /** The order in which repeated `Vec::pop` delivers the events of a queue:
      the last one first. */
  function PopOrder(queue: seq<Event>): seq<Event>
  {
    if queue == [] then [] else [queue[|queue| - 1]] + PopOrder(queue[..|queue| - 1])
  }

  /** Draining by `pop` delivers every event exactly once, the i-th popped
      being the i-th from the end. */
  lemma {:induction false} PopOrderAt(queue: seq<Event>, i: nat)
    requires i < |queue|
    ensures |PopOrder(queue)| == |queue|
    ensures PopOrder(queue)[i] == queue[|queue| - 1 - i]
  {
    var n := |queue|;
    PopOrderLength(queue[..n - 1]);
    if i > 0 {
      PopOrderAt(queue[..n - 1], i - 1);
    }
  }

  lemma {:induction false} PopOrderLength(queue: seq<Event>)
    ensures |PopOrder(queue)| == |queue|
  {
    if queue != [] {
      PopOrderLength(queue[..|queue| - 1]);
    }
  }

  /** Draining by `pop` forwards the same events as the queue held, as many
      times each. */
  lemma {:induction false} PopOrderPermutes(queue: seq<Event>)
    ensures multiset(PopOrder(queue)) == multiset(queue)
  {
    if queue != [] {
      var n := |queue|;
      PopOrderPermutes(queue[..n - 1]);
      assert queue == queue[..n - 1] + [queue[n - 1]];
    }
  }

  /** The `while let Some(event) = queue.pop()` loop shared by both versions
      of `input_handling`: it empties the queue, forwards every event in pop
      order, and leaves the key state as if those events had been applied in
      that order. */
  method DrainQueue(queue: EventQueue, input: TerminalInput) returns (sent: seq<Event>)
    modifies queue, input
    ensures queue.events == []
    ensures sent == PopOrder(old(queue.events))
    ensures input.State() == ApplyAll(old(input.State()), sent)
  {
    ghost var original := queue.events;
    ghost var start := input.State();
    sent := [];
    while true
      invariant sent + PopOrder(queue.events) == PopOrder(original)
      invariant input.State() == ApplyAll(start, sent)
      decreases |queue.events|
    {
      var next := queue.Pop();
      if next.None? {
        break;
      }
      var event := next.value;
      match event {
        case Key(key) =>
          match key.kind {
            case Press => input.Press(key.code);
            case Release => input.Release(key.code);
            case Repeat =>
          }
        case _ =>
      }
      assert (sent + [event])[..|sent|] == sent;
      sent := sent + [event];
    }
  }

  /** `input_handling`: clear the released marks once, then drain the queue. */
  method InputHandling(queue: EventQueue, input: TerminalInput) returns (sent: seq<Event>)
    modifies queue, input
    ensures queue.events == []
    ensures sent == PopOrder(old(queue.events))
    ensures input.State() == ApplyAll(old(input.State()).ClearReleased(), sent)
  {
    input.ClearReleased();
    sent := DrainQueue(queue, input);
  }

  /** Events that are not key presses or key releases never change the key
      state, however many of them are applied. */
  lemma {:induction false} PassThroughKeepsState(s: KeyState, events: seq<Event>)
    requires forall i :: 0 <= i < |events| ==> !(events[i].Key? && events[i].key.kind != Repeat)
    ensures ApplyAll(s, events) == s
  {
    if events != [] {
      PassThroughKeepsState(s, events[..|events| - 1]);
    }
  }

  /** Only key presses and releases of `code` can change whether `code` is
      pressed or released. */
  lemma {:induction false} OtherKeysUntouched(s: KeyState, events: seq<Event>, code: KeyCode)
    requires forall i :: 0 <= i < |events| && events[i].Key? && events[i].key.kind != Repeat ==>
               events[i].key.code != code
    ensures ApplyAll(s, events).Pressed(code) == s.Pressed(code)
    ensures ApplyAll(s, events).Released(code) == s.Released(code)
  {
    if events != [] {
      OtherKeysUntouched(s, events[..|events| - 1], code);
    }
  }

  /** Applying released marks never unmarks a key: without a reset, the
      released set only grows. */
  lemma {:induction false} ReleasedOnlyGrows(s: KeyState, events: seq<Event>)
    ensures s.released <= ApplyAll(s, events).released
  {
    if events != [] {
      ReleasedOnlyGrows(s, events[..|events| - 1]);
    }
  }

  lemma {:induction false} ApplyAllSplit(s: KeyState, first: seq<Event>, second: seq<Event>)
    ensures ApplyAll(s, first + second) == ApplyAll(ApplyAll(s, first), second)
  {
    if second == [] {
      assert first + second == first;
    } else {
      var n := |second|;
      ApplyAllSplit(s, first, second[..n - 1]);
      assert (first + second)[..|first + second| - 1] == first + second[..n - 1];
    }
  }

  /** Whether a key ends up held is decided by the last press or release of
      it that is applied: held after a press, not held after a release. */
  lemma LastKeyEventDecides(s: KeyState, events: seq<Event>, i: nat, code: KeyCode, kind: KeyEventKind)
    requires i < |events| && events[i] == Key(KeyEvent(code, kind)) && kind != Repeat
    requires forall j :: i < j < |events| && events[j].Key? && events[j].key.kind != Repeat ==>
               events[j].key.code != code
    ensures ApplyAll(s, events).Pressed(code) <==> kind == Press
  {
    var before, after := events[..i + 1], events[i + 1..];
    assert events == before + after;
    assert before[..i] == events[..i];
    OtherKeysUntouched(ApplyAll(s, before), after, code);
    ApplyAllSplit(s, before, after);
  }

  /** Because the queue is drained from its end, the EARLIEST press or
      release of a key in the queue is the one applied last, and it decides
      whether the key ends up held. */
  lemma EarliestArrivalDecides(s: KeyState, queue: seq<Event>, i: nat, code: KeyCode, kind: KeyEventKind)
    requires i < |queue| && queue[i] == Key(KeyEvent(code, kind)) && kind != Repeat
    requires forall j :: 0 <= j < i && queue[j].Key? && queue[j].key.kind != Repeat ==>
               queue[j].key.code != code
    ensures ApplyAll(s, PopOrder(queue)).Pressed(code) <==> kind == Press
  {
    var n := |queue|;
    var popped := PopOrder(queue);
    PopOrderAt(queue, n - 1 - i);
    forall j | n - 1 - i < j < n && popped[j].Key? && popped[j].key.kind != Repeat
      ensures popped[j].key.code != code
    {
      PopOrderAt(queue, j);
    }
    LastKeyEventDecides(s, popped, n - 1 - i, code, kind);
  }

  /** As written, two keys typed within one frame are forwarded in the
      reverse of the order they were typed in. */
  lemma PopOrderReversesTyping()
    ensures PopOrder([Key(KeyEvent(Char('a'), Press)), Key(KeyEvent(Char('b'), Press))])
            == [Key(KeyEvent(Char('b'), Press)), Key(KeyEvent(Char('a'), Press))]
  {
    var queue := [Key(KeyEvent(Char('a'), Press)), Key(KeyEvent(Char('b'), Press))];
    assert queue[..1] == [queue[0]];
    assert queue[..1][..0] == [];
  }

  /** As written, a key pressed and released within one frame is still held
      after `input_handling` (and also marked released). */
  lemma TapWithinOneFrameStaysHeld(s: KeyState, code: KeyCode)
    ensures var queue := [Key(KeyEvent(code, Press)), Key(KeyEvent(code, Release))];
            ApplyAll(s.ClearReleased(), PopOrder(queue)).Pressed(code)
  {
    var queue := [Key(KeyEvent(code, Press)), Key(KeyEvent(code, Release))];
    EarliestArrivalDecides(s.ClearReleased(), queue, 0, code, Press);
  }

  /** The arrival-order drain: take the whole queue at once and apply and
      forward its events oldest first. */
  method DrainQueueInOrder(queue: EventQueue, input: TerminalInput) returns (sent: seq<Event>)
    modifies queue, input
    ensures queue.events == []
    ensures sent == old(queue.events)
    ensures input.State() == ApplyAll(old(input.State()), sent)
  {
    ghost var start := input.State();
    var events := queue.Take();
    sent := [];
    for i := 0 to |events|
      invariant sent == events[..i]
      invariant input.State() == ApplyAll(start, sent)
      modifies input
    {
      var event := events[i];
      match event {
        case Key(key) =>
          match key.kind {
            case Press => input.Press(key.code);
            case Release => input.Release(key.code);
            case Repeat =>
          }
        case _ =>
      }
      assert events[..i + 1] == sent + [event];
      sent := sent + [event];
    }
    assert events[..|events|] == events;
  }

  /** `input_handling` with the queue drained in arrival order. */
  method InputHandlingInOrder(queue: EventQueue, input: TerminalInput) returns (sent: seq<Event>)
    modifies queue, input
    ensures queue.events == []
    ensures sent == old(queue.events)
    ensures input.State() == ApplyAll(old(input.State()).ClearReleased(), sent)
  {
    input.ClearReleased();
    sent := DrainQueueInOrder(queue, input);
  }

  /** Drained in arrival order, the LATEST press or release of a key decides
      whether it ends up held; a key pressed and released within one frame
      ends up released. */
  lemma TapWithinOneFrameIsReleased(s: KeyState, code: KeyCode)
    ensures var t := ApplyAll(s.ClearReleased(), [Key(KeyEvent(code, Press)), Key(KeyEvent(code, Release))]);
            !t.Pressed(code) && t.Released(code)
  {
    var events := [Key(KeyEvent(code, Press)), Key(KeyEvent(code, Release))];
    assert events[..1] == [events[0]];
    assert events[..1][..0] == [];
  }
}
