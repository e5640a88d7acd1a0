/**
 * The application side of `main.c`: its command table, the first tier of
 * console dispatch (`cli_parse_application_command`), and the callback table
 * the IR decoder is given at start-up.
 */
module Application {
  import opened Machine
  import opened CliTokenizer
  import opened Commands
  import IrDecoder
  import Led

  /** The application's `command_table`, in order. */
  const AppTable: seq<Entry<AppHandler>> := [
    Entry("pattern", LedTogglePattern),
    Entry("faster", LedSpeedIncrease),
    Entry("slower", LedSpeedDecrease),
    Entry("speed", LedSpeedSet),
    Entry("power", LedToggle),
    Entry("print", LedToggleVerbosity),
    Entry("flash", JumpToBootloader)
  ]

  /**
   * The call `cli_parse_application_command` makes for a token buffer and a
   * count, or `None` when it returns false: a count below 1, or a first token
   * no entry is named.
   */
  function AppDispatch(mem: seq<char>, count: nat): (c: Option<Call>)
    ensures count < 1 ==> c.None?
    ensures count >= 1 && c.None? ==> forall i :: 0 <= i < |AppTable| ==> AppTable[i].name != Token(mem, 0)
    ensures c.Some? ==> count >= 1
    ensures c.Some? ==>
              exists i :: 0 <= i < |AppTable| && AppTable[i].name == Token(mem, 0) &&
                          (forall j :: 0 <= j < i ==> AppTable[j].name != Token(mem, 0)) &&
                          c.value == Call(App(AppTable[i].handler), Args(mem, count))
  {
    if count < 1 then None
    else match Find(AppTable, Token(mem, 0))
      case Some(i) => Some(Call(App(AppTable[i].handler), Args(mem, count)))
      case None => None
  }

  /** The console output of a handled application command: two newlines, then the handler. */
  function AppEvents(c: Call): (ev: seq<Event>)
    ensures |ev| == 3 && ev[2] == Invoke(c)
    ensures forall k :: 0 <= k < 2 ==> ev[k] == Newline
  {
    [Newline, Newline, Invoke(c)]
  }

  /**
   * `cli_parse_application_command`: returns whether it handled the command,
   * and what it sent and called.
   */
  method ParseApplicationCommand(mem: seq<char>, count: nat) returns (handled: bool, ev: seq<Event>)
    ensures handled <==> AppDispatch(mem, count).Some?
    ensures ev == if handled then AppEvents(AppDispatch(mem, count).value) else []
  {
    if count < 1 {
      return false, [];
    }
    var args := if count > 1 then Some(Token(mem, 1)) else None;
    var i := Scan(AppTable, Token(mem, 0));
    if i.Some? {
      return true, AppEvents(Call(App(AppTable[i.value].handler), args));
    }
    return false, [];
  }

  /** Every application command name is a well-formed C string. */
  lemma AppNamesAreCStrings()
    ensures NamesAreCStrings(AppTable)
  {
  }

  /** No two application entries share a name, so each name selects exactly its own entry. */
  lemma {:induction false} AppNamesSelectOwnEntry(i: nat)
    requires i < |AppTable|
    ensures Find(AppTable, AppTable[i].name) == Some(i)
  {
    var n := AppTable[i].name;
    assert forall j :: 0 <= j < |AppTable| && j != i ==> AppTable[j].name != n;
  }

  /** "speed 3" runs the speed setter once with the argument "3". */
  lemma SpeedWithArgument(mem: seq<char>)
    requires Token(mem, 0) == "speed" && Token(mem, 1) == "3"
    ensures AppDispatch(mem, 2) == Some(Call(App(LedSpeedSet), Some("3")))
  {
    AppNamesSelectOwnEntry(3);
  }

  /** A lone command word passes a null argument. */
  lemma LoneWordPassesNull(mem: seq<char>)
    requires Token(mem, 0) == "power"
    ensures AppDispatch(mem, 1) == Some(Call(App(LedToggle), None))
  {
    AppNamesSelectOwnEntry(4);
  }

  // ---------------------------------------------------------------------------
  // The IR callback table

  /** `ir_commands`: one entry per callback slot, handed to the decoder at start-up. */
  const IrCommands: seq<IrDecoder.Callback> := [
    IrDecoder.Callback(0, None, Some(LedToggleVerbosity)),
    IrDecoder.Callback(1, Some("binary"), Some(LedSetPattern)),
    IrDecoder.Callback(2, Some("wave"), Some(LedSetPattern)),
    IrDecoder.Callback(3, Some("alternating"), Some(LedSetPattern)),
    IrDecoder.Callback(4, Some("bounce"), Some(LedSetPattern)),
    IrDecoder.Callback(5, None, None),
    IrDecoder.Callback(6, None, None),
    IrDecoder.Callback(7, None, None),
    IrDecoder.Callback(8, None, None),
    IrDecoder.Callback(9, None, None),
    IrDecoder.Callback(10, None, Some(LedToggle)),
    IrDecoder.Callback(11, Some("+"), Some(LedTogglePattern)),
    IrDecoder.Callback(12, Some("-"), Some(LedTogglePattern)),
    IrDecoder.Callback(13, None, Some(LedSpeedIncrease)),
    IrDecoder.Callback(14, None, Some(LedSpeedDecrease)),
    IrDecoder.Callback(15, None, None),
    IrDecoder.Callback(16, None, None),
    IrDecoder.Callback(17, None, None),
    IrDecoder.Callback(18, None, None),
    IrDecoder.Callback(19, None, None)
  ]

  /** The slots whose callback is null. */
  predicate Unassigned(slot: nat)
  {
    5 <= slot <= 9 || 15 <= slot <= 19
  }

  /**
   * The table fills the decoder's 20 slots exactly, each entry's id is its
   * slot, and the slots 5-9 and 15-19 are the only ones without a callback.
   */
  lemma IrCommandsShape()
    ensures |IrCommands| == IrDecoder.CallbackSlots
    ensures forall slot :: 0 <= slot < |IrCommands| ==> IrCommands[slot].id == slot
    ensures forall slot :: 0 <= slot < |IrCommands| ==> (IrCommands[slot].command.None? <==> Unassigned(slot))
  {
  }

  /** A pending key whose slot is unassigned does nothing. */
  lemma {:induction false} UnassignedKeysIgnored(pending: uint8)
    requires pending < IrDecoder.IrTableSize && Unassigned(IrDecoder.IrToCommand(pending))
    ensures IrDecoder.Dispatch(pending, IrCommands) == IrDecoder.Ignored(IrDecoder.IrToCommand(pending))
  {
    IrCommandsShape();
  }

  /** Key 1 selects the "binary" pattern; channel up and down step the pattern forwards and back. */
  lemma KeyExamples()
    ensures IrDecoder.Dispatch(IrDecoder.KP1, IrCommands) == IrDecoder.Called(Call(App(LedSetPattern), Some("binary")))
    ensures IrDecoder.Dispatch(IrDecoder.ChannelUp, IrCommands) == IrDecoder.Called(Call(App(LedTogglePattern), Some("+")))
    ensures IrDecoder.Dispatch(IrDecoder.ChannelDown, IrCommands) == IrDecoder.Called(Call(App(LedTogglePattern), Some("-")))
  {
  }

  /**
   * Keys 1 to 4 name the four patterns in declaration order, so the argument
   * each passes is one `led_set_pattern` accepts; channel up and down move the
   * pattern forwards and back.
   */
  lemma {:induction false} KeysReachPatterns(slot: nat, p: Led.Pattern)
    requires 1 <= slot <= 4 && p == [Led.Binary, Led.Wave, Led.Alternating, Led.Bounce][slot - 1]
    ensures IrCommands[slot].command == Some(LedSetPattern)
    ensures IrCommands[slot].arg == Some(Led.Name(p)) && Led.Named(IrCommands[slot].arg.value) == Some(p)
    ensures Led.Toggled(p, IrCommands[11].arg.value) == Led.NextPattern(p)
    ensures Led.Toggled(p, IrCommands[12].arg.value) == Led.PrevPattern(p)
  {
    Led.NamesRoundTrip(p);
  }

  /**
   * Start-up: installing all 20 entries with `irdecoder_set_commands` leaves
   * the decoder's table equal to `ir_commands`.
   */
  method Install(d: IrDecoder.Decoder)
    requires d.Valid()
    modifies d.irCommands
    ensures d.irCommands[..] == IrCommands
  {
    IrCommandsShape();
    d.SetCommands(IrCommands, 20);
    assert d.irCommands[..] == d.irCommands[..20];
  }
}
