/** The plugin's shared resources: the key state `TerminalInput`, with its
    pressed and released key sets, and the `EventQueue` into which the input
    thread pushes raw events and from which the input system pops them. */
module Resources {
  import opened InputEvents
  import opened Wrappers

  /** The value held by a `TerminalInput`: the keys currently held down and
      the keys that have been released. */
  datatype KeyState = KeyState(pressed: set<KeyCode>, released: set<KeyCode>) {

    predicate Pressed(code: KeyCode) { code in pressed }

    predicate Released(code: KeyCode) { code in released }

    /** The effect of `press`: the key is held down afterwards; the released
        keys, and every other key, are as before. */
    function Press(code: KeyCode): (t: KeyState)
      ensures t.Pressed(code)
      ensures t.released == released
      ensures forall k :: k != code ==> (t.Pressed(k) <==> Pressed(k))
    {
      if Pressed(code) then this else KeyState(pressed + {code}, released)
    }

    /** The effect of `release`: the key is no longer held down and is
        marked released, whether or not it was pressed before; every other
        key is as before. */
    function Release(code: KeyCode): (t: KeyState)
      ensures !t.Pressed(code) && t.Released(code)
      ensures forall k :: k != code ==> (t.Pressed(k) <==> Pressed(k))
      ensures forall k :: k != code ==> (t.Released(k) <==> Released(k))
    {
      var afterPress := if Pressed(code) then KeyState(pressed - {code}, released) else this;
      if afterPress.Released(code) then afterPress
      else KeyState(afterPress.pressed, afterPress.released + {code})
    }

    /** The effect of `clear_released`: no key is marked released; the held
        keys are untouched. */
    function ClearReleased(): (t: KeyState)
      ensures t.pressed == pressed
      ensures forall k :: !t.Released(k)
    {
      KeyState(pressed, {})
    }
  }

  /** The state a fresh `TerminalInput` starts in (`#[derive(Default)]`). */
  const Default: KeyState := KeyState({}, {})

  lemma DefaultIsEmpty(code: KeyCode)
    ensures !Default.Pressed(code) && !Default.Released(code)
  {
  }

  /** Pressing a key that is already held down changes nothing. */
  lemma PressIdempotent(s: KeyState, code: KeyCode)
    requires s.Pressed(code)
    ensures s.Press(code) == s
  {
  }

  /** Releasing twice is the same as releasing once, and releasing a key
      that was never pressed still marks it released. */
  lemma ReleaseIdempotent(s: KeyState, code: KeyCode)
    ensures s.Release(code).Release(code) == s.Release(code)
    ensures !s.Pressed(code) ==> s.Release(code).pressed == s.pressed
  {
  }

  /** `press` does not clear the released mark: releasing and then pressing
      a key leaves it both held down and released. */
  lemma ReleaseThenPress(s: KeyState, code: KeyCode)
    ensures s.Release(code).Press(code).Pressed(code)
    ensures s.Release(code).Press(code).Released(code)
  {
  }

  /** The `TerminalInput` resource, updated in place by the input system. */
  class TerminalInput {
    var pressedKeys: set<KeyCode>
    var releasedKeys: set<KeyCode>

    constructor ()
      ensures State() == Default
    {
      pressedKeys, releasedKeys := {}, {};
    }

    function State(): KeyState
      reads this
    {
      KeyState(pressedKeys, releasedKeys)
    }

    /** `is_pressed`: whether the key is held down in the current state. */
    function IsPressed(code: KeyCode): (r: bool)
      reads this
      ensures r <==> State().Pressed(code)
    {
      code in pressedKeys
    }

    /** `is_released`: whether the key is marked released in the current
        state. */
    function IsReleased(code: KeyCode): (r: bool)
      reads this
      ensures r <==> State().Released(code)
    {
      code in releasedKeys
    }

    method Press(code: KeyCode)
      modifies this
      ensures State() == old(State()).Press(code)
      ensures IsPressed(code) && releasedKeys == old(releasedKeys)
    {
      if !IsPressed(code) {
        pressedKeys := pressedKeys + {code};
      }
    }

    method Release(code: KeyCode)
      modifies this
      ensures State() == old(State()).Release(code)
      ensures !IsPressed(code) && IsReleased(code)
    {
      if IsPressed(code) {
        pressedKeys := pressedKeys - {code};
      }
      if !IsReleased(code) {
        releasedKeys := releasedKeys + {code};
      }
    }

    method ClearReleased()
      modifies this
      ensures State() == old(State()).ClearReleased()
    {
      releasedKeys := {};
    }
  }

  /** The shared queue of raw events: the input thread appends at the end,
      the input system pops from the end. */
  class EventQueue {
    var events: seq<Event>

    constructor ()
      ensures events == []
    {
      events := [];
    }

    /** One step of the capture thread: append the event just read. */
    method Push(event: Event)
      modifies this
      ensures events == old(events) + [event]
    {
      events := events + [event];
    }

    /** Hand over every queued event, oldest first, and leave the queue
        empty. The source never does this; it is used only by the
        arrival-order drain `InputSystems.DrainQueueInOrder`. */
    method Take() returns (taken: seq<Event>)
      modifies this
      ensures taken == old(events) && events == []
    {
      taken := events;
      events := [];
    }

    /** `Vec::pop`: remove and return the LAST event, if any. */
    method Pop() returns (event: Option<Event>)
      modifies this
      ensures old(events) == [] ==> event == None && events == []
      ensures old(events) != [] ==>
                event == Some(old(events)[|old(events)| - 1]) &&
                events == old(events)[..|old(events)| - 1]
    {
      if events == [] {
        event := None;
      } else {
        event := Some(events[|events| - 1]);
        events := events[..|events| - 1];
      }
    }
  }
}
