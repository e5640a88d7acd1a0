/**
 * What the console's dispatch tables hold and what it sends to the terminal.
 * A `command_entry_t` pairs a name with a handler; the handlers themselves
 * are identities here (their effects are modelled where they live: the LED
 * handlers in `Led`, the dump helpers in `CliFormat`). The first-match scan
 * both tables use is `Find`, with `Scan` the loop that computes it.
 */
module Commands {
  import opened Machine
  import CliText
  import opened CliTokenizer

  /** The handlers the application table (main.c) and the IR callback table name. */
  datatype AppHandler =
    | LedTogglePattern
    | LedSetPattern
    | LedSpeedIncrease
    | LedSpeedDecrease
    | LedSpeedSet
    | LedToggle
    | LedToggleVerbosity
    | JumpToBootloader

  /** The handlers of the console library's own table. */
  datatype LibHandler = Restart | PrintHelp | MemdumpHex | MemdumpBin

  datatype Handler = App(app: AppHandler) | Lib(lib: LibHandler)

  /** A handler call with its argument: a C string, or a null pointer (`None`). */
  datatype Call = Call(handler: Handler, args: Option<string>)

  /**
   * What the console sends to the terminal, plus the handler calls it makes:
   * an echoed byte, the "\b \b" of a successful backspace, a newline, a printed
   * string (never empty: printing "" sends nothing), or a handler invocation.
   */
  datatype Event = Echo(c: char) | Erase | Newline | Text(s: string) | Invoke(call: Call)

  /** A `command_entry_t`; the terminating `{0, 0}` entry is not part of the sequence. */
  datatype Entry<H> = Entry(name: string, handler: H)

  predicate NamesAreCStrings<H>(table: seq<Entry<H>>)
  {
    forall i :: 0 <= i < |table| ==> IsCString(table[i].name)
  }

  /** The first entry at or after `from` whose name equals `name`. */
  function FindFrom<H>(table: seq<Entry<H>>, name: string, from: nat): (r: Option<nat>)
    ensures r.Some? ==> from <= r.value < |table| && table[r.value].name == name
    ensures r.Some? ==> forall j :: from <= j < r.value ==> table[j].name != name
    ensures r.None? ==> forall j :: from <= j < |table| ==> table[j].name != name
    decreases |table| - from
  {
    if from >= |table| then None
    else if table[from].name == name then Some(from)
    else FindFrom(table, name, from + 1)
  }

  /** The first entry whose name equals `name`, as the C dispatch loops find it. */
  function Find<H>(table: seq<Entry<H>>, name: string): Option<nat>
  {
    FindFrom(table, name, 0)
  }

  /** The dispatch loop: walks the table in order and stops at the first exact match. */
  method Scan<H>(table: seq<Entry<H>>, name: string) returns (r: Option<nat>)
    requires IsCString(name) && NamesAreCStrings(table)
    ensures r == Find(table, name)
  {
    var i := 0;
    while i < |table|
      invariant i <= |table|
      invariant FindFrom(table, name, i) == Find(table, name)
    {
      var hit := CliText.StringsMatch(name, table[i].name);
      if hit {
        return Some(i);
      }
      i := i + 1;
    }
    return None;
  }

  /** The argument both dispatchers pass: `tokens[1]` when the count is above 1, otherwise null. */
  function Args(mem: seq<char>, count: nat): (a: Option<string>)
    ensures a.Some? <==> count > 1
  {
    if count > 1 then Some(Token(mem, 1)) else None
  }
}
