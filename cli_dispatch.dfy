/**
 * The console library's command table and `cli_parse_command`, the second
 * tier of dispatch.
 */
module CliDispatch {
  import opened Machine
  import opened CliTokenizer
  import opened Commands

  /** The library's `command_table`, in order. */
  const LibTable: seq<Entry<LibHandler>> := [
    Entry("rs", Restart),
    Entry("help", PrintHelp),
    Entry("memdump", MemdumpHex),
    Entry("memdumphex", MemdumpHex),
    Entry("mdh", MemdumpHex),
    Entry("memdumpbin", MemdumpBin),
    Entry("mdb", MemdumpBin)
  ]

  /**
   * What `cli_parse_command` does with tokens and a count: nothing for a count
   * below 1; the first entry named `tokens[0]`, after a newline; otherwise a
   * newline and "Invalid command.".
   */
  function LibDispatch(mem: seq<char>, count: nat): (ev: seq<Event>)
    ensures count < 1 ==> ev == []
    ensures count >= 1 ==> |ev| == 2 && ev[0] == Newline
    ensures count >= 1 ==>
              (ev[1] == Text("Invalid command.") <==> forall i :: 0 <= i < |LibTable| ==> LibTable[i].name != Token(mem, 0))
    ensures count >= 1 && ev[1].Invoke? ==>
              exists i :: 0 <= i < |LibTable| && LibTable[i].name == Token(mem, 0) &&
                          ev[1].call == Call(Lib(LibTable[i].handler), Args(mem, count))
  {
    if count < 1 then []
    else match Find(LibTable, Token(mem, 0))
      case Some(i) => [Newline, Invoke(Call(Lib(LibTable[i].handler), Args(mem, count)))]
      case None => [Newline, Text("Invalid command.")]
  }

  /** `cli_parse_command`. */
  method ParseCommand(mem: seq<char>, count: nat) returns (ev: seq<Event>)
    ensures ev == LibDispatch(mem, count)
  {
    if count < 1 {
      return [];
    }
    var args := if count > 1 then Some(Token(mem, 1)) else None;
    var i := Scan(LibTable, Token(mem, 0));
    if i.Some? {
      return [Newline, Invoke(Call(Lib(LibTable[i.value].handler), args))];
    }
    return [Newline, Text("Invalid command.")];
  }
}
