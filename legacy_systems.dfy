/** The older, single-file version of the systems. Its Braille encoder,
    `braille_char` and `resize_handling` are the same code as the display
    systems' and are modelled by `DisplaySystems`. Modelled here are the two
    differences in the encoder and input path: `print_to_terminal` skips a
    1-by-1 image, and `input_handling` never clears the released keys. */
module LegacySystems {
  import opened Wrappers
  import opened InputEvents
  import opened Resources
  import opened DisplaySystems
  import opened InputSystems

  /** The older `print_to_terminal`: the 1-by-1 image that stands for a
      first frame not yet rendered is skipped, whatever its pixel format, before
      its data is looked at; any other image is encoded as the display system
      does. */
  method PrintToTerminal(width: nat, height: nat, data: seq<bv8>) returns (frame: Option<seq<char>>)
    requires (width == 1 && height == 1) || WellFormed(width, height, data)
    ensures frame.None? <==> width == 1 && height == 1
    ensures frame.Some? ==> frame.value == Encode(width, height, data)
  {
    if width == 1 && height == 1 {
      return None;
    }
    var output := EncodeImage(width, height, data);
    frame := Some(output);
  }

  /** The older `input_handling`: the drain loop alone, with no reset of the
      released keys, so keys released in earlier frames stay marked. */
  method InputHandling(queue: EventQueue, input: TerminalInput) returns (sent: seq<Event>)
    modifies queue, input
    ensures queue.events == []
    ensures sent == PopOrder(old(queue.events))
    ensures input.State() == ApplyAll(old(input.State()), sent)
    ensures old(input.releasedKeys) <= input.releasedKeys
  {
    ghost var start := input.State();
    sent := DrainQueue(queue, input);
    ReleasedOnlyGrows(start, sent);
  }
}
