/**
 * `cli_tokenize`: splits the bytes of the line buffer into at most three
 * space-separated tokens of at most sixteen bytes each, written into a
 * `command_t` (three rows of sixteen characters, contiguous in memory, so it
 * is modelled as one flat sequence of 48 characters). `Run` is the reference
 * definition of the whole pass, written in the order of the C loop: store the
 * byte, skip a space at the start of a token, check the limits, end the token
 * or advance.
 */
module CliTokenizer {
  import opened Machine
  import opened Fifo

  /** `COMMAND_MAX_LENGTH`: the width of one token row. */
  const CommandMaxLength: nat := 16
  /** `COMMAND_MAX_AMOUNT`: the number of token rows. */
  const CommandMaxAmount: nat := 3
  /** The size of a `command_t`. */
  const TokenCells: nat := 48

  /**
   * The result of a pass. `stray` records a store into `tokens[3]`, which lies
   * past the end of the array; the model does not say what that overwrites.
   * An aborted pass leaves the caller's count unassigned, so it carries none.
   */
  datatype TokResult =
    | Done(mem: seq<char>, count: nat, stray: bool)
    | Aborted(mem: seq<char>, stray: bool)

  /** The slot the C loop stores the next byte into, when it lies inside the array. */
  function Slot(token: nat, symbol: nat): nat
  {
    CommandMaxLength * token + symbol
  }

  predicate Counters(token: nat, symbol: nat)
  {
    token <= CommandMaxAmount && symbol < CommandMaxLength && (token == CommandMaxAmount ==> symbol == 0)
  }

  /** The tokenizer's effect on `tokens`, the count and the stray flag, for the remaining `input`. */
  function Run(input: seq<char>, mem: seq<char>, token: nat, symbol: nat, stray: bool): (r: TokResult)
    requires |mem| == TokenCells && Counters(token, symbol)
    ensures |r.mem| == TokenCells
    ensures r.Done? ==> r.count <= CommandMaxAmount
    ensures stray ==> r.stray
    decreases |input|
  {
    if input == [] then Done(mem, token, stray)
    else
      var b, rest := input[0], input[1..];
      var stored := if token < CommandMaxAmount then mem[Slot(token, symbol) := b] else mem;
      var stray' := stray || token == CommandMaxAmount;
      if symbol == 0 && b == ' ' then Run(rest, stored, token, symbol, stray')
      else if symbol >= CommandMaxLength - 1 || token >= CommandMaxAmount then Aborted(stored, stray')
      else if b == ' ' || rest == [] then
        var ended := if rest == [] then stored[Slot(token, symbol) + 1 := '\0'] else stored[Slot(token, symbol) := '\0'];
        Run(rest, ended, token + 1, 0, stray')
      else Run(rest, stored, token, symbol + 1, stray')
  }

  /** The tokens of a line, as the caller's zero-initialised `command_t` receives them. */
  function Tokenized(line: seq<char>): (r: TokResult)
    ensures |r.mem| == TokenCells
    ensures r.Done? ==> r.count <= CommandMaxAmount
    ensures line == [] ==> r == Done(seq(TokenCells, _ => '\0'), 0, false) && Token(r.mem, 0) == []
  {
    Run(line, seq(TokenCells, _ => '\0'), 0, 0, false)
  }

  /**
   * The C string starting at `start` in the token memory: the characters up to
   * the first NUL (or to the end of the array, where C would read on).
   */
  function CStrAt(mem: seq<char>, start: nat): (s: string)
    ensures IsCString(s)
    ensures start + |s| <= |mem| || s == []
    decreases |mem| - start
  {
    if start >= |mem| || mem[start] == '\0' then [] else [mem[start]] + CStrAt(mem, start + 1)
  }

  /** `tokens[row]` read as a C string. */
  function Token(mem: seq<char>, row: nat): string
  {
    CStrAt(mem, CommandMaxLength * row)
  }

  /**
   * `cli_tokenize` itself: drains `source` into `tokens`. On success the
   * buffer is empty because it was read out; on abort it is flushed. The
   * console prints "Invalid command" when `aborted` is set.
   */
  method Tokenize(source: ByteFifo, tokens: array<char>) returns (aborted: bool, count: nat, stray: bool)
    requires source.Valid() && tokens.Length == TokenCells
    modifies source, tokens
    ensures source.Valid() && source.contents == []
    ensures var r := Run(old(source.contents), old(tokens[..]), 0, 0, false);
      tokens[..] == r.mem && aborted == r.Aborted? && stray == r.stray && (r.Done? ==> count == r.count)
  {
    var token: nat := 0;
    var symbol: nat := 0;
    stray := false;
    while !source.IsEmpty()
      invariant source.Valid() && Counters(token, symbol)
      invariant Run(source.contents, tokens[..], token, symbol, stray) == Run(old(source.contents), old(tokens[..]), 0, 0, false)
      decreases |source.contents|
    {
      ghost var before, mem := source.contents, tokens[..];
      var ok, b := source.Read();
      assert before == [b] + source.contents;
      if token < CommandMaxAmount {
        tokens[Slot(token, symbol)] := b;
      } else {
        stray := true;
      }
      if symbol == 0 && b == ' ' {
        continue;
      }
      if symbol >= CommandMaxLength - 1 || token >= CommandMaxAmount {
        source.Flush();
        return true, 0, stray;
      }
      if b == ' ' || source.IsEmpty() {
        if source.IsEmpty() {
          tokens[Slot(token, symbol) + 1] := '\0';
        } else {
          tokens[Slot(token, symbol)] := '\0';
        }
        symbol := 0;
        token := token + 1;
      } else {
        symbol := symbol + 1;
      }
    }
    return false, token, stray;
  }

  // ---------------------------------------------------------------------------
  // Properties of a tokenizer pass

  /** A word the tokenizer can take in one row: non-empty, no space, no NUL. */
  predicate IsWord(w: string, maxLen: nat)
  {
    1 <= |w| <= maxLen && forall i :: 0 <= i < |w| ==> w[i] != ' ' && w[i] != '\0'
  }

  /** `mem` with `w` written from index `at`. */
  function Put(mem: seq<char>, at: nat, w: seq<char>): (m: seq<char>)
    requires at + |w| <= |mem|
    ensures |m| == |mem|
  {
    mem[..at] + w + mem[at + |w|..]
  }

  /** Row `t` holding the word `w` followed by its terminator. */
  function EndToken(mem: seq<char>, t: nat, w: string): (m: seq<char>)
    requires CommandMaxLength * t + |w| < |mem|
    ensures |m| == |mem|
  {
    Put(mem, CommandMaxLength * t, w)[CommandMaxLength * t + |w| := '\0']
  }

  /** Words joined by single spaces: the line a user types. */
  function Join(words: seq<string>): (line: string)
    requires |words| >= 1
    ensures |line| >= |words[0]|
  {
    if |words| == 1 then words[0] else words[0] + [' '] + Join(words[1..])
  }

  /** Non-space bytes inside a token, with more input after them, are stored one after another. */
  lemma {:induction false} RunChars(w: string, rest: seq<char>, mem: seq<char>, t: nat, s: nat, st: bool)
    requires |mem| == TokenCells && t < CommandMaxAmount && s + |w| < CommandMaxLength && rest != []
    requires forall i :: 0 <= i < |w| ==> w[i] != ' '
    ensures Run(w + rest, mem, t, s, st) == Run(rest, Put(mem, Slot(t, s), w), t, s + |w|, st)
    decreases |w|
  {
    if w != [] {
      var c, w' := w[0], w[1..];
      assert (w + rest)[0] == c && (w + rest)[1..] == w' + rest;
      assert Run(w + rest, mem, t, s, st) == Run(w' + rest, mem[Slot(t, s) := c], t, s + 1, st);
      RunChars(w', rest, mem[Slot(t, s) := c], t, s + 1, st);
      assert Put(mem[Slot(t, s) := c], Slot(t, s) + 1, w') == Put(mem, Slot(t, s), w);
    } else {
      assert w + rest == rest;
      assert Put(mem, Slot(t, s), w) == mem;
    }
  }

  /** A word followed by a space and more input becomes a terminated token, and the next token starts. */
  lemma WordThenSpace(w: string, rest: seq<char>, mem: seq<char>, t: nat, st: bool)
    requires |mem| == TokenCells && t < CommandMaxAmount && IsWord(w, CommandMaxLength - 2) && rest != []
    ensures Run(w + [' '] + rest, mem, t, 0, st) == Run(rest, EndToken(mem, t, w), t + 1, 0, st)
  {
    assert w + [' '] + rest == w + ([' '] + rest);
    RunChars(w, [' '] + rest, mem, t, 0, st);
    var m := Put(mem, Slot(t, 0), w);
    assert Run([' '] + rest, m, t, |w|, st) == Run(rest, m[Slot(t, |w|) := ' '][Slot(t, |w|) := '\0'], t + 1, 0, st);
    assert m[Slot(t, |w|) := ' '][Slot(t, |w|) := '\0'] == EndToken(mem, t, w);
  }

  /** The last word of a line, ended by the buffer running empty, becomes a terminated token. */
  lemma LastWord(w: string, mem: seq<char>, t: nat, st: bool)
    requires |mem| == TokenCells && t < CommandMaxAmount && IsWord(w, CommandMaxLength - 1)
    ensures Run(w, mem, t, 0, st) == Done(EndToken(mem, t, w), t + 1, st)
  {
    var init, last := w[..|w| - 1], w[|w| - 1];
    assert w == init + [last];
    RunChars(init, [last], mem, t, 0, st);
    var m := Put(mem, Slot(t, 0), init);
    assert Run([last], m, t, |init|, st) == Run([], m[Slot(t, |init|) := last][Slot(t, |init|) + 1 := '\0'], t + 1, 0, st);
    assert m[Slot(t, |init|) := last][Slot(t, |init|) + 1 := '\0'] == EndToken(mem, t, w);
  }

  /** Nothing before the current store position is written by the rest of a pass. */
  lemma {:induction false} RunFrame(input: seq<char>, mem: seq<char>, t: nat, s: nat, st: bool, j: nat)
    requires |mem| == TokenCells && Counters(t, s) && j < Slot(t, s) && j < TokenCells
    ensures Run(input, mem, t, s, st).mem[j] == mem[j]
    decreases |input|
  {
    if input != [] {
      var b, rest := input[0], input[1..];
      var stored := if t < CommandMaxAmount then mem[Slot(t, s) := b] else mem;
      if symbol0Space(s, b) {
        RunFrame(rest, stored, t, s, st || t == CommandMaxAmount, j);
      } else if s >= CommandMaxLength - 1 || t >= CommandMaxAmount {
      } else if b == ' ' || rest == [] {
        var ended := if rest == [] then stored[Slot(t, s) + 1 := '\0'] else stored[Slot(t, s) := '\0'];
        RunFrame(rest, ended, t + 1, 0, st, j);
      } else {
        RunFrame(rest, stored, t, s + 1, st, j);
      }
    }
  }

  predicate symbol0Space(s: nat, b: char)
  {
    s == 0 && b == ' '
  }

  /** A terminated word in memory reads back as that word. */
  lemma {:induction false} CStrOfWord(mem: seq<char>, start: nat, w: string)
    requires start + |w| < |mem| && mem[start..start + |w|] == w && mem[start + |w|] == '\0'
    requires forall i :: 0 <= i < |w| ==> w[i] != '\0'
    ensures CStrAt(mem, start) == w
    decreases |w|
  {
    if w != [] {
      assert mem[start] == w[0];
      assert mem[start + 1..start + 1 + |w[1..]|] == w[1..];
      CStrOfWord(mem, start + 1, w[1..]);
    }
  }

  /** A terminated word below the current store position still reads back after the rest of a pass. */
  lemma TokenSurvives(input: seq<char>, m: seq<char>, t: nat, st: bool, a: nat, w: string)
    requires |m| == TokenCells && Counters(t, 0) && a + |w| < Slot(t, 0)
    requires m[a..a + |w|] == w && m[a + |w|] == '\0'
    requires forall i :: 0 <= i < |w| ==> w[i] != '\0'
    ensures CStrAt(Run(input, m, t, 0, st).mem, a) == w
  {
    var r := Run(input, m, t, 0, st);
    forall j | a <= j <= a + |w|
      ensures r.mem[j] == m[j]
    {
      RunFrame(input, m, t, 0, st, j);
    }
    assert r.mem[a..a + |w|] == m[a..a + |w|];
    CStrOfWord(r.mem, a, w);
  }

  /**
   * Round trip: a line of one to three words joined by single spaces (each
   * word at most 14 characters, the last at most 15) tokenizes into exactly
   * those words, with the count equal to the number of words.
   */
  lemma {:induction false} JoinRoundTrip(words: seq<string>, mem: seq<char>, t: nat, st: bool)
    requires |mem| == TokenCells && 1 <= |words| && t + |words| <= CommandMaxAmount
    requires forall i :: 0 <= i < |words| - 1 ==> IsWord(words[i], CommandMaxLength - 2)
    requires IsWord(words[|words| - 1], CommandMaxLength - 1)
    ensures var r := Run(Join(words), mem, t, 0, st);
      r.Done? && r.count == t + |words| && r.stray == st &&
      forall i :: 0 <= i < |words| ==> Token(r.mem, t + i) == words[i]
    decreases |words|
  {
    if |words| == 1 {
      OneWord(words[0], mem, t, st);
    } else {
      JoinRoundTrip(words[1..], EndToken(mem, t, words[0]), t + 1, st);
      FirstWordKept(words, mem, t, st);
    }
  }

  /** The first word of a longer line ends its own token and survives the rest of the run. */
  lemma FirstWordKept(words: seq<string>, mem: seq<char>, t: nat, st: bool)
    requires |mem| == TokenCells && 2 <= |words| && t + |words| <= CommandMaxAmount
    requires forall i :: 0 <= i < |words| - 1 ==> IsWord(words[i], CommandMaxLength - 2)
    requires IsWord(words[0], CommandMaxLength - 2)
    requires var r := Run(Join(words[1..]), EndToken(mem, t, words[0]), t + 1, 0, st);
      r.Done? && r.count == t + |words| && r.stray == st &&
      forall i :: 0 <= i < |words| - 1 ==> Token(r.mem, t + 1 + i) == words[1..][i]
    ensures var r := Run(Join(words), mem, t, 0, st);
      r.Done? && r.count == t + |words| && r.stray == st &&
      forall i :: 0 <= i < |words| ==> Token(r.mem, t + i) == words[i]
  {
    var w, tail := words[0], words[1..];
    var m := EndToken(mem, t, w);
    WordThenSpace(w, Join(tail), mem, t, st);
    EndTokenHolds(mem, t, w);
    TokenSurvives(Join(tail), m, t + 1, st, Slot(t, 0), w);
    var r := Run(Join(tail), m, t + 1, 0, st);
    forall i | 0 <= i < |words|
      ensures Token(r.mem, t + i) == words[i]
    {
      if i > 0 {
        assert Token(r.mem, t + 1 + (i - 1)) == tail[i - 1];
      }
    }
  }

  /** The row EndToken writes holds the word and then its terminator. */
  lemma EndTokenHolds(mem: seq<char>, t: nat, w: string)
    requires CommandMaxLength * t + |w| < |mem|
    ensures EndToken(mem, t, w)[Slot(t, 0)..Slot(t, 0) + |w|] == w
    ensures EndToken(mem, t, w)[Slot(t, 0) + |w|] == '\0'
  {
  }

  /** A line of a single word gives that word as the one token. */
  lemma OneWord(w: string, mem: seq<char>, t: nat, st: bool)
    requires |mem| == TokenCells && t < CommandMaxAmount && IsWord(w, CommandMaxLength - 1)
    ensures var r := Run(w, mem, t, 0, st);
      r.Done? && r.count == t + 1 && r.stray == st && Token(r.mem, t) == w
  {
    LastWord(w, mem, t, st);
    EndTokenHolds(mem, t, w);
    CStrOfWord(EndToken(mem, t, w), Slot(t, 0), w);
  }

  /** A command word and one argument, joined by a space, tokenize into those two words. */
  lemma CommandWithArgument(line: seq<char>, cmd: string, arg: string)
    requires IsWord(cmd, CommandMaxLength - 2) && IsWord(arg, CommandMaxLength - 1)
    requires line == cmd + [' '] + arg
    ensures var r := Tokenized(line);
      r.Done? && r.count == 2 && !r.stray && Token(r.mem, 0) == cmd && Token(r.mem, 1) == arg
  {
    var words := [cmd, arg];
    assert Join(words) == line by {
      assert Join(words[1..]) == arg;
    }
    JoinRoundTrip(words, seq(TokenCells, _ => '\0'), 0, false);
  }

  /** "memdump 0x50000000" gives the tokens "memdump" and "0x50000000", count 2. */
  lemma MemdumpExample(line: seq<char>)
    requires line == "memdump 0x50000000"
    ensures var r := Tokenized(line);
      r.Done? && r.count == 2 && !r.stray && Token(r.mem, 0) == "memdump" && Token(r.mem, 1) == "0x50000000"
  {
    var cmd, arg := "memdump", "0x50000000";
    assert IsWord(cmd, CommandMaxLength - 2) && IsWord(arg, CommandMaxLength - 1);
    assert line == cmd + [' '] + arg;
    CommandWithArgument(line, cmd, arg);
  }

  /** A last token ended by the buffer running empty keeps a trailing space: "help " gives "help ". */
  lemma TrailingSpaceKept(w: string, mem: seq<char>, t: nat, st: bool)
    requires |mem| == TokenCells && t < CommandMaxAmount && IsWord(w, CommandMaxLength - 2)
    ensures var r := Run(w + [' '], mem, t, 0, st);
      r.Done? && r.count == t + 1 && Token(r.mem, t) == w + [' ']
  {
    RunChars(w, [' '], mem, t, 0, st);
    var m := Put(mem, Slot(t, 0), w);
    var m' := m[Slot(t, |w|) := ' '][Slot(t, |w|) + 1 := '\0'];
    assert Run([' '], m, t, |w|, st) == Done(m', t + 1, st);
    assert m'[Slot(t, 0)..Slot(t, 0) + |w| + 1] == w + [' '];
    CStrOfWord(m', Slot(t, 0), w + [' ']);
  }

  /** A space at the start of a token is skipped: a run of separating spaces acts as one. */
  lemma LeadingSpaceSkipped(c: char, rest: seq<char>, mem: seq<char>, t: nat, st: bool)
    requires |mem| == TokenCells && t < CommandMaxAmount && c != ' '
    ensures Run([' ', c] + rest, mem, t, 0, st) == Run([c] + rest, mem, t, 0, st)
  {
    assert ([' ', c] + rest)[1..] == [c] + rest;
    var m := mem[Slot(t, 0) := ' '];
    assert m[Slot(t, 0) := c] == mem[Slot(t, 0) := c];
    if rest == [] {
      assert m[Slot(t, 0) := c][Slot(t, 0) + 1 := '\0'] == mem[Slot(t, 0) := c][Slot(t, 0) + 1 := '\0'];
    }
  }

  /** A byte landing at index 15 of a token aborts the pass, even a separating space. */
  lemma FifteenAborts(w: string, b: char, rest: seq<char>, mem: seq<char>, t: nat, st: bool)
    requires |mem| == TokenCells && t < CommandMaxAmount && |w| == CommandMaxLength - 1
    requires forall i :: 0 <= i < |w| ==> w[i] != ' '
    ensures Run(w + [b] + rest, mem, t, 0, st).Aborted?
  {
    assert w + [b] + rest == w + ([b] + rest);
    RunChars(w, [b] + rest, mem, t, 0, st);
  }

  /** Whole words, each followed by a space, fill consecutive rows. */
  lemma {:induction false} WordsThenSpace(words: seq<string>, tail: seq<char>, mem: seq<char>, t: nat, st: bool)
    requires |mem| == TokenCells && 1 <= |words| && t + |words| <= CommandMaxAmount && tail != []
    requires forall i :: 0 <= i < |words| ==> IsWord(words[i], CommandMaxLength - 2)
    ensures exists m :: |m| == TokenCells && Run(Join(words) + [' '] + tail, mem, t, 0, st) == Run(tail, m, t + |words|, 0, st)
    decreases |words|
  {
    var w := words[0];
    if |words| == 1 {
      WordThenSpace(w, tail, mem, t, st);
      var m := EndToken(mem, t, w);
      assert Run(Join(words) + [' '] + tail, mem, t, 0, st) == Run(tail, m, t + 1, 0, st);
    } else {
      var rest := Join(words[1..]) + [' '] + tail;
      assert Join(words) + [' '] + tail == w + [' '] + rest;
      WordThenSpace(w, rest, mem, t, st);
      WordsThenSpace(words[1..], tail, EndToken(mem, t, w), t + 1, st);
    }
  }

  /** A non-space byte that would begin a fourth token aborts the pass, after a store past the array. */
  lemma FourthTokenAborts(words: seq<string>, c: char, rest: seq<char>)
    requires |words| == CommandMaxAmount && c != ' '
    requires forall i :: 0 <= i < |words| ==> IsWord(words[i], CommandMaxLength - 2)
    ensures var r := Tokenized(Join(words) + [' ', c] + rest);
      r.Aborted? && r.stray
  {
    assert Join(words) + [' ', c] + rest == Join(words) + [' '] + ([c] + rest);
    WordsThenSpace(words, [c] + rest, seq(TokenCells, _ => '\0'), 0, false);
  }
}
