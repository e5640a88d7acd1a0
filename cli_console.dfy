/**
 * `cli_process_input`: the console's input state machine. The USART
 * interrupt puts received bytes into an ingest FIFO; the main loop drains it
 * one byte at a time through three states (idle, after ESC, after `ESC [`),
 * editing the line FIFO, echoing, and on a carriage return tokenizing the
 * line and dispatching it, application table first and library table second.
 *
 * `Step` and `Drain` are the reference definitions of one byte and of a whole
 * pass; the class `Console` holds the state the firmware mutates and is
 * proved against them.
 */
module Console {
  import opened Machine
  import opened Fifo
  import opened CliTokenizer
  import opened Commands
  import opened CliDispatch
  import opened Application
  import CliText

  /** `usart_state_t`. */
  datatype Mode = Idle | Esc | Bracket

  const EscapeByte: char := 27 as char
  const DeleteByte: char := 127 as char

  /**
   * The console state outside the FIFOs' own bookkeeping: the mode, the line
   * typed so far, and `command_history[command_index][0]`, the history entry
   * the up arrow recalls.
   */
  datatype State = State(mode: Mode, line: seq<char>, history: string)

  /** One byte's effect: the new state, what is sent, and whether the pass stops there. */
  datatype StepResult = StepResult(state: State, events: seq<Event>, stop: bool)

  // ---------------------------------------------------------------------------
  // Submitting a line

  /**
   * The two tiers of dispatch: the application's resolver, and the library's
   * table only when the application does not take the command.
   */
  function Dispatched(mem: seq<char>, count: nat): (ev: seq<Event>)
    ensures AppDispatch(mem, count).None? <==> ev == LibDispatch(mem, count)
    ensures AppDispatch(mem, count).Some? ==> ev == AppEvents(AppDispatch(mem, count).value)
  {
    match AppDispatch(mem, count)
    case Some(c) => AppEvents(c)
    case None => LibDispatch(mem, count)
  }

  /**
   * What a carriage return sends for the line typed: "Invalid command" when the
   * tokenizer aborts; the dispatch unless `tokens[0][0]` is NUL, with the count
   * the tokenizer produced or, after an abort, the stale `token_length`; and
   * always a newline and the "> " prompt.
   */
  function Submit(line: seq<char>, stale: nat): (ev: seq<Event>)
    ensures |ev| >= 2 && ev[|ev| - 2..] == [Newline, Text("> ")]
    ensures Tokenized(line).Aborted? ==> ev[..2] == [Newline, Text("Invalid command")]
    ensures Token(Tokenized(line).mem, 0) == [] ==>
              ev == (if Tokenized(line).Aborted? then [Newline, Text("Invalid command")] else []) + [Newline, Text("> ")]
    ensures Token(Tokenized(line).mem, 0) != [] ==>
              ev == (if Tokenized(line).Aborted? then [Newline, Text("Invalid command")] else []) +
                    Dispatched(Tokenized(line).mem, if Tokenized(line).Done? then Tokenized(line).count else stale) +
                    [Newline, Text("> ")]
  {
    var r := Tokenized(line);
    var aborted := if r.Aborted? then [Newline, Text("Invalid command")] else [];
    var count := if r.Done? then r.count else stale;
    var dispatched := if r.mem[0] != '\0' then Dispatched(r.mem, count) else [];
    assert r.mem[0] == '\0' <==> Token(r.mem, 0) == [];
    aborted + dispatched + [Newline, Text("> ")]
  }

  // ---------------------------------------------------------------------------
  // One byte

  /**
   * The up-arrow recall of a history entry `h`: one backspace per character of
   * `h`, then `h` printed, then its characters written to the line; a write
   * that fails flushes the line and ends the pass.
   */
  function Recall(line: seq<char>, h: string, capacity: nat): (r: StepResult)
    requires |line| <= capacity
    ensures r.state.mode == Idle
    ensures r.state.history == h
    ensures h == [] ==> r == StepResult(State(Idle, line, h), [], false)
    ensures !r.stop ==> r.state.line == line[..|line| - Min(|h|, |line|)] + h
    ensures r.stop ==> r.state.line == []
    ensures r.events == seq(Min(|h|, |line|), _ => Erase) + (if h == [] then [] else [Text(h)])
    ensures r.stop <==> |line| - Min(|h|, |line|) + |h| > capacity
  {
    var erased := Min(|h|, |line|);
    var kept := line[..|line| - erased];
    var ev := seq(erased, _ => Erase) + (if h == [] then [] else [Text(h)]);
    if |kept| + |h| <= capacity then StepResult(State(Idle, kept + h, h), ev, false)
    else StepResult(State(Idle, [], h), ev, true)
  }

  function Min(a: nat, b: nat): nat
  {
    if a <= b then a else b
  }

  /**
   * One byte of `cli_process_input`, for a line FIFO of the given capacity and
   * the stale `token_length` a tokenizer abort leaves behind.
   */
  function Step(s: State, b: char, capacity: nat, stale: nat): (r: StepResult)
    requires |s.line| <= capacity
    ensures |r.state.line| <= capacity && r.state.history == s.history
    ensures s.mode == Idle ==> (r.state.mode == Esc <==> b == EscapeByte)
    ensures s.mode == Esc ==> r.state.mode == (if b == '[' then Bracket else if b == 'p' then Esc else Idle)
    ensures s.mode == Bracket ==> r.state.mode == Idle
    ensures r.stop ==> r.state.line == []
    ensures s.mode == Idle && b == DeleteByte ==>
              r.state.line == (if s.line == [] then [] else s.line[..|s.line| - 1]) &&
              r.events == (if s.line == [] then [] else [Erase])
    ensures s.mode == Idle && b !in {EscapeByte, '\r', DeleteByte, '\t'} ==>
              (r.stop <==> |s.line| == capacity) &&
              (!r.stop ==> r.state.line == s.line + [b] && r.events == [Echo(b)])
    ensures s.mode == Idle && b == '\t' ==> r == StepResult(s, [], false)
    ensures s.mode == Idle && b == '\r' ==> r == StepResult(s.(line := []), Submit(s.line, stale), false)
    ensures s.mode == Idle && b == EscapeByte ==> r == StepResult(s.(mode := Esc), [], false)
    ensures s.mode == Esc ==>
              r.state.line == s.line && !r.stop && r.events == (if b == 'p' then [Text("is this altp")] else [])
    ensures s.mode == Bracket && b == 'A' ==> r == Recall(s.line, s.history, capacity)
    ensures s.mode == Bracket && b != 'A' ==> r == StepResult(s.(mode := Idle), [], false)
  {
    match s.mode
    case Idle =>
      if b == EscapeByte then StepResult(s.(mode := Esc), [], false)
      else if b == '\r' then StepResult(s.(line := []), Submit(s.line, stale), false)
      else if b == DeleteByte then
        if s.line == [] then StepResult(s, [], false)
        else StepResult(s.(line := s.line[..|s.line| - 1]), [Erase], false)
      else if b == '\t' then StepResult(s, [], false)
      else if |s.line| < capacity then StepResult(s.(line := s.line + [b]), [Echo(b)], false)
      else StepResult(s.(line := []), [], true)
    case Esc =>
      if b == '[' then StepResult(s.(mode := Bracket), [], false)
      else if b == 'p' then StepResult(s, [Text("is this altp")], false)
      else StepResult(s.(mode := Idle), [], false)
    case Bracket =>
      if b == 'A' then Recall(s.line, s.history, capacity)
      else StepResult(s.(mode := Idle), [], false)
  }

  /** The result of a pass: the state, the ingest bytes left unread, and what was sent. */
  datatype DrainResult = DrainResult(state: State, rest: seq<char>, events: seq<Event>)

  /** A whole pass over the ingested bytes: every byte in order, up to a failed write. */
  function Drain(s: State, ingest: seq<char>, capacity: nat, stale: nat): (r: DrainResult)
    requires |s.line| <= capacity
    ensures |r.state.line| <= capacity
    ensures r.state.history == s.history
    ensures |r.rest| < |ingest| || (r.rest == ingest == [] && r.state == s && r.events == [])
    decreases |ingest|
  {
    if ingest == [] then DrainResult(s, [], [])
    else
      var st := Step(s, ingest[0], capacity, stale);
      if st.stop then DrainResult(st.state, ingest[1..], st.events)
      else
        var d := Drain(st.state, ingest[1..], capacity, stale);
        DrainResult(d.state, d.rest, st.events + d.events)
  }

  /** The state after the given bytes, each taken by `Step` in order. */
  function Walk(s: State, input: seq<char>, capacity: nat, stale: nat): (t: State)
    requires |s.line| <= capacity
    ensures |t.line| <= capacity
    decreases |input|
  {
    if input == [] then s else Walk(Step(s, input[0], capacity, stale).state, input[1..], capacity, stale)
  }

  /**
   * A pass takes the bytes in order: when it reads them all it ends in the state
   * they lead to, and when it leaves bytes unread it was stopped by the byte just
   * before them, whose write failed after every earlier byte had been taken.
   */
  lemma {:induction false} PassEnds(s: State, ingest: seq<char>, capacity: nat, stale: nat)
    requires |s.line| <= capacity
    ensures var r := Drain(s, ingest, capacity, stale);
      r.rest == ingest[|ingest| - |r.rest|..] &&
      (r.rest != [] ==> r.state.line == []) &&
      (r.rest == [] ==> r.state == Walk(s, ingest, capacity, stale)) &&
      (r.rest != [] ==>
        var k := |ingest| - |r.rest| - 1;
        var st := Step(Walk(s, ingest[..k], capacity, stale), ingest[k], capacity, stale);
        st.stop && r.state == st.state)
    decreases |ingest|
  {
    if ingest != [] {
      var st := Step(s, ingest[0], capacity, stale);
      var r := Drain(s, ingest, capacity, stale);
      if st.stop {
        if r.rest == [] {
          assert ingest == [ingest[0]];
          assert Walk(st.state, [], capacity, stale) == st.state;
        } else {
          assert ingest[..0] == [];
        }
      } else {
        var tail := ingest[1..];
        PassEnds(st.state, tail, capacity, stale);
        var d := Drain(st.state, tail, capacity, stale);
        assert r.rest == d.rest && r.state == d.state;
        if d.rest != [] {
          var k := |tail| - |d.rest| - 1;
          assert ingest[..k + 1][0] == ingest[0] && ingest[..k + 1][1..] == tail[..k];
          assert ingest[k + 1] == tail[k];
        }
      }
    }
  }

  /**
   * The pass `total` that began with output `start` is under way: the output so
   * far is `sent`, and `total` is what is left of `s` and `input`.
   */
  ghost predicate Continues(total: DrainResult, s: State, input: seq<char>, capacity: nat, stale: nat,
                            start: seq<Event>, sent: seq<Event>)
  {
    |s.line| <= capacity &&
    var d := Drain(s, input, capacity, stale);
    total.state == d.state && total.rest == d.rest && start + total.events == sent + d.events
  }

  /**
   * Taking one byte, which leaves state `t`, the unread bytes `rest` and the
   * output `sent'`: the pass stops with it, or goes on from there.
   */
  lemma DrainAdvance(total: DrainResult, s: State, input: seq<char>, capacity: nat, stale: nat,
                     start: seq<Event>, sent: seq<Event>, t: State, rest: seq<char>, sent': seq<Event>)
    requires Continues(total, s, input, capacity, stale, start, sent) && input != []
    requires var st := Step(s, input[0], capacity, stale);
      t == st.state && rest == input[1..] && sent' == sent + st.events
    ensures Step(s, input[0], capacity, stale).stop ==>
      total.state == t && total.rest == rest && start + total.events == sent'
    ensures !Step(s, input[0], capacity, stale).stop ==> Continues(total, t, rest, capacity, stale, start, sent')
  {
    var st := Step(s, input[0], capacity, stale);
    if !st.stop {
      var d := Drain(st.state, input[1..], capacity, stale);
      assert sent + (st.events + d.events) == sent' + d.events;
    }
  }

  // ---------------------------------------------------------------------------
  // Properties

  /** The application's and the library's command names are disjoint. */
  lemma NamesDisjoint()
    ensures forall i, j :: 0 <= i < |AppTable| && 0 <= j < |LibTable| ==> AppTable[i].name != LibTable[j].name
  {
  }

  /** A library command name reaches the library table, since no application entry claims it. */
  lemma {:induction false} LibraryNameReachesLibrary(mem: seq<char>, count: nat, j: nat)
    requires count >= 1 && j < |LibTable| && Token(mem, 0) == LibTable[j].name
    ensures Dispatched(mem, count) == LibDispatch(mem, count)
    ensures Dispatched(mem, count)[1].Invoke?
  {
    NamesDisjoint();
    assert AppDispatch(mem, count).None?;
  }

  /** A line that tokenizes to "memdump" and one argument runs the hex dump with that argument, then prompts. */
  lemma MemdumpCommand(line: seq<char>, stale: nat)
    requires Tokenized(line).Done? && Tokenized(line).count == 2 && Token(Tokenized(line).mem, 0) == "memdump"
    ensures Submit(line, stale) == [Newline, Invoke(Call(Lib(MemdumpHex), Some(Token(Tokenized(line).mem, 1)))), Newline, Text("> ")]
  {
    var r := Tokenized(line);
    assert r.mem[0] != '\0' by {
      assert Token(r.mem, 0) != [];
    }
    LibraryNameReachesLibrary(r.mem, 2, 2);
    assert Find(LibTable, Token(r.mem, 0)) == Some(2);
  }

  /** "memdump 0x50000000" runs the hex dump with the argument "0x50000000", then prompts. */
  lemma MemdumpLine(line: seq<char>, stale: nat)
    requires line == "memdump 0x50000000"
    ensures Submit(line, stale) == [Newline, Invoke(Call(Lib(MemdumpHex), Some("0x50000000"))), Newline, Text("> ")]
  {
    MemdumpExample(line);
    MemdumpCommand(line, stale);
  }

  /** A line of spaces only: `tokens[0][0]` holds a space, so dispatch runs, but with count 0 it does nothing. */
  lemma {:induction false} SpacesOnly(line: seq<char>, mem: seq<char>, st: bool)
    requires |mem| == TokenCells && forall i :: 0 <= i < |line| ==> line[i] == ' '
    ensures Run(line, mem, 0, 0, st).Done? && Run(line, mem, 0, 0, st).count == 0
    decreases |line|
  {
    if line != [] {
      SpacesOnly(line[1..], mem[0 := ' '], st);
    }
  }

  /** Submitting a line of spaces sends only the prompt. */
  lemma BlankLine(line: seq<char>, stale: nat)
    requires forall i :: 0 <= i < |line| ==> line[i] == ' '
    ensures Submit(line, stale) == [Newline, Text("> ")]
  {
    SpacesOnly(line, seq(TokenCells, _ => '\0'), false);
  }

  /** No command name of either table starts with `c`. */
  predicate NoNameStartsWith(c: char)
  {
    (forall i :: 0 <= i < |AppTable| ==> AppTable[i].name[0] != c) &&
    (forall i :: 0 <= i < |LibTable| ==> LibTable[i].name[0] != c)
  }

  /**
   * A sixteen-character word aborts the tokenizer, yet `tokens[0][0]` is set,
   * so the line is still dispatched, with the stale count: a second
   * "Invalid command." follows unless that count happens to be 0.
   */
  lemma AbortedLineStillDispatches(w: seq<char>, stale: nat)
    requires |w| == CommandMaxLength && forall i :: 0 <= i < |w| ==> w[i] != ' ' && w[i] != '\0'
    requires NoNameStartsWith(w[0])
    ensures Submit(w, stale) ==
            [Newline, Text("Invalid command")] +
            (if stale >= 1 then [Newline, Text("Invalid command.")] else []) +
            [Newline, Text("> ")]
  {
    var r := Tokenized(w);
    AbortedFirstByte(w);
    assert Token(r.mem, 0)[0] == w[0];
    assert AppDispatch(r.mem, stale).None? by {
      forall i | 0 <= i < |AppTable| ensures AppTable[i].name != Token(r.mem, 0) {
        assert AppTable[i].name[0] != w[0];
      }
    }
    assert stale >= 1 ==> LibDispatch(r.mem, stale) == [Newline, Text("Invalid command.")] by {
      forall i | 0 <= i < |LibTable| ensures LibTable[i].name != Token(r.mem, 0) {
        assert LibTable[i].name[0] != w[0];
      }
    }
  }

  /** A sixteen-byte word aborts, with its first byte stored in `tokens[0][0]`. */
  lemma AbortedFirstByte(w: seq<char>)
    requires |w| == CommandMaxLength && forall i :: 0 <= i < |w| ==> w[i] != ' '
    ensures Tokenized(w).Aborted? && Tokenized(w).mem[0] == w[0]
  {
    var zero := seq(TokenCells, _ => '\0');
    assert w == w[..15] + [w[15]] + [];
    FifteenAborts(w[..15], w[15], [], zero, 0, false);
    assert w == w[..1] + w[1..];
    RunChars(w[..1], w[1..], zero, 0, 0, false);
    RunFrame(w[1..], Put(zero, 0, w[..1]), 0, 1, false, 0);
  }

  /** The example of the sixteen-byte abort: "xxxxxxxxxxxxxxxx". */
  lemma AbortExample(stale: nat)
    ensures Submit("xxxxxxxxxxxxxxxx", stale) ==
            [Newline, Text("Invalid command")] +
            (if stale >= 1 then [Newline, Text("Invalid command.")] else []) +
            [Newline, Text("> ")]
  {
    AbortedLineStillDispatches("xxxxxxxxxxxxxxxx", stale);
  }

  /** After `ESC [`, the up arrow recalls the empty history: nothing is sent and the line is kept. */
  lemma UpArrowIsNoOp(line: seq<char>, capacity: nat, stale: nat)
    requires |line| <= capacity
    ensures Step(State(Bracket, line, ""), 'A', capacity, stale) == StepResult(State(Idle, line, ""), [], false)
  {
  }

  /** The other final bytes of `ESC [` (down, right, left) only return to idle. */
  lemma OtherArrowsIgnored(line: seq<char>, h: string, b: char, capacity: nat, stale: nat)
    requires |line| <= capacity && b != 'A'
    ensures Step(State(Bracket, line, h), b, capacity, stale) == StepResult(State(Idle, line, h), [], false)
  {
  }

  /** An ordinary byte: not ESC, carriage return, delete or tab. */
  predicate Ordinary(c: char)
  {
    c != EscapeByte && c != '\r' && c != DeleteByte && c != '\t'
  }

  /**
   * Typing ordinary bytes that fit in the line buffer appends them to the line
   * and echoes each one, in order.
   */
  lemma {:induction false} TypedBytes(line: seq<char>, h: string, w: seq<char>, capacity: nat, stale: nat)
    requires |line| + |w| <= capacity
    requires forall i :: 0 <= i < |w| ==> Ordinary(w[i])
    ensures Drain(State(Idle, line, h), w, capacity, stale) ==
            DrainResult(State(Idle, line + w, h), [], seq(|w|, i requires 0 <= i < |w| => Echo(w[i])))
    decreases |w|
  {
    if w != [] {
      TypedBytes(line + [w[0]], h, w[1..], capacity, stale);
      assert line + [w[0]] + w[1..] == line + w;
    }
  }

  /**
   * A byte that does not fit in the line buffer flushes the line and ends the
   * pass; the bytes after it stay in the ingest buffer.
   */
  lemma FullLineStops(line: seq<char>, h: string, b: char, rest: seq<char>, stale: nat)
    requires Ordinary(b)
    ensures Drain(State(Idle, line, h), [b] + rest, |line|, stale) == DrainResult(State(Idle, [], h), rest, [])
  {
    assert ([b] + rest)[1..] == rest;
  }

  // ---------------------------------------------------------------------------
  // The console's state

  class Console {
    var mode: Mode
    /** `ring_buffer_temp`: bytes received by the USART interrupt. */
    const ingest: ByteFifo
    /** `ring_buffer_data`: the line being typed. */
    const line: ByteFifo
    /**
     * `command_history[command_index][0]`, the entry the up arrow recalls.
     * Nothing writes the history and `command_index` stays 0, so it keeps its
     * zero initialisation: the empty string.
     */
    var history: string
    /** Everything sent to the terminal, and every handler called, so far. */
    var out: seq<Event>

    ghost predicate Valid()
      reads this, ingest, line
    {
      ingest.Valid() && line.Valid() && ingest != line && IsCString(history)
    }

    function Current(): State
      reads this, line
    {
      State(mode, line.contents, history)
    }

    /** `cli_init`'s buffers: both FIFOs created empty, the machine idle. */
    constructor (ingestCapacity: nat, lineCapacity: nat)
      ensures Valid() && fresh(ingest) && fresh(line)
      ensures mode == Idle && ingest.contents == [] && line.contents == [] && history == [] && out == []
      ensures ingest.capacity == ingestCapacity && line.capacity == lineCapacity
    {
      mode := Idle;
      ingest := new ByteFifo(ingestCapacity);
      line := new ByteFifo(lineCapacity);
      history := [];
      out := [];
    }

    /**
     * The USART receive interrupt: a byte is queued unless the overrun flag is
     * set (the byte is dropped) or the ingest buffer is full.
     */
    method Receive(b: char, overrun: bool)
      requires Valid()
      modifies ingest
      ensures Valid()
      ensures ingest.contents == if !overrun && |old(ingest.contents)| < ingest.capacity then old(ingest.contents) + [b]
                                 else old(ingest.contents)
    {
      if overrun {
        return;
      }
      var ok := ingest.Write(b);
    }

    /** `cli_process_input`: drains the ingest buffer, stopping early after a failed write. */
    method ProcessInput(stale: nat)
      requires Valid()
      modifies this, ingest, line
      ensures Valid()
      ensures var r := Drain(old(Current()), old(ingest.contents), line.capacity, stale);
        Current() == r.state && ingest.contents == r.rest && out == old(out) + r.events
    {
      ghost var total := Drain(Current(), ingest.contents, line.capacity, stale);
      while !ingest.IsEmpty()
        invariant Valid()
        invariant Continues(total, Current(), ingest.contents, line.capacity, stale, old(out), out)
        decreases |ingest.contents|
      {
        ghost var s, before, sent := Current(), ingest.contents, out;
        var stop := TakeByte(stale);
        DrainAdvance(total, s, before, line.capacity, stale, old(out), sent, Current(), ingest.contents, out);
        if stop {
          return;
        }
      }
      assert out + [] == out;
    }

    /** One round of the loop in `cli_process_input`: reads a byte and handles it. */
    method TakeByte(stale: nat) returns (stop: bool)
      requires Valid() && ingest.contents != []
      modifies this, ingest, line
      ensures Valid() && ingest.contents == old(ingest.contents)[1..]
      ensures var r := Step(old(Current()), old(ingest.contents)[0], line.capacity, stale);
        Current() == r.state && out == old(out) + r.events && stop == r.stop
    {
      ghost var s := Current();
      var ok, b := ingest.Read();
      stop := HandleByte(s, b, stale);
    }

    /** One byte of the pass, as `Step` defines it. */
    method HandleByte(ghost s: State, b: char, stale: nat) returns (stop: bool)
      requires Valid() && Current() == s
      modifies this, line
      ensures Valid() && ingest.contents == old(ingest.contents)
      ensures var r := Step(s, b, line.capacity, stale);
        Current() == r.state && out == old(out) + r.events && stop == r.stop
    {
      stop := false;
      match mode
      case Idle =>
        if b == EscapeByte {
          mode := Esc;
        } else if b == '\r' {
          SubmitLine(stale);
        } else if b == DeleteByte {
          Backspace();
        } else if b == '\t' {
        } else {
          var ok := line.Write(b);
          if !ok {
            line.Flush();
            return true;
          }
          out := out + [Echo(b)];
        }
      case Esc =>
        if b == '[' {
          mode := Bracket;
        } else if b == 'p' {
          out := out + [Text("is this altp")];
        } else {
          mode := Idle;
        }
      case Bracket =>
        mode := Idle;
        if b == 'A' {
          stop := RecallHistory();
        }
    }

    /** `cli_backspace`: deletes the last line byte and rubs it out on the terminal, if there is one. */
    method Backspace()
      requires Valid()
      modifies this, line
      ensures Valid() && mode == old(mode) && ingest.contents == old(ingest.contents) && history == old(history)
      ensures line.contents == if old(line.contents) == [] then [] else old(line.contents)[..|old(line.contents)| - 1]
      ensures out == old(out) + if old(line.contents) == [] then [] else [Erase]
    {
      var ok := line.Delete();
      if ok {
        out := out + [Erase];
      }
    }

    /** The up-arrow branch: backspaces over, prints and re-types the history entry. */
    method RecallHistory() returns (stop: bool)
      requires Valid()
      modifies this, line
      ensures Valid() && mode == old(mode) && ingest.contents == old(ingest.contents)
      ensures history == old(history)
      ensures var r := Recall(old(line.contents), history, line.capacity);
        line.contents == r.state.line && out == old(out) + r.events && stop == r.stop
    {
      var len := CliText.Strlen(history);
      for i := 0 to len
        invariant Valid() && mode == old(mode) && ingest.contents == old(ingest.contents) && history == old(history)
        invariant line.contents == old(line.contents)[..|old(line.contents)| - Min(i, |old(line.contents)|)]
        invariant out == old(out) + seq(Min(i, |old(line.contents)|), _ => Erase)
      {
        Backspace();
      }
      if history != [] {
        out := out + [Text(history)];
      }
      var i: nat := 0;
      ghost var erased := out;
      while At(history, i) != '\0'
        invariant i <= |history|
        invariant Valid() && mode == old(mode) && ingest.contents == old(ingest.contents) && out == erased
        invariant history == old(history)
        invariant line.contents == old(line.contents)[..|old(line.contents)| - Min(|history|, |old(line.contents)|)] + history[..i]
        decreases |history| - i
      {
        var ok := line.Write(history[i]);
        if !ok {
          line.Flush();
          return true;
        }
        i := i + 1;
      }
      return false;
    }

    /** The carriage-return branch: tokenize the line, dispatch it unless blank, then prompt. */
    method SubmitLine(stale: nat)
      requires Valid()
      modifies this, line
      ensures Valid() && mode == old(mode) && ingest.contents == old(ingest.contents) && history == old(history)
      ensures line.contents == [] && out == old(out) + Submit(old(line.contents), stale)
    {
      ghost var input := line.contents;
      var tokens := new char[TokenCells](_ => '\0');
      assert tokens[..] == seq(TokenCells, _ => '\0');
      var aborted, count, stray := Tokenize(line, tokens);
      ghost var r := Tokenized(input);
      var mem := tokens[..];
      assert mem == r.mem && aborted == r.Aborted?;
      var events: seq<Event> := [];
      if aborted {
        events := [Newline, Text("Invalid command")];
        count := stale;
      }
      if mem[0] != '\0' {
        var handled, ev := ParseApplicationCommand(mem, count);
        if !handled {
          ev := ParseCommand(mem, count);
        }
        assert ev == Dispatched(mem, count);
        events := events + ev;
      }
      events := events + [Newline, Text("> ")];
      out := out + events;
    }
  }
}
