# blinky firmware core, modelled in Dafny

blinky is firmware for a small STM32 board. It has three parts:

- A serial console (a REPL) typed at over a USART.
- A 16-LED shift-register animation driven by a one-millisecond timer.
- An infrared receiver for an NEC-protocol remote control.

Both the console and the remote dispatch to the same application handlers. This project models the logic of those parts and proves properties of it:

- **Console input** (`src/cli.c`):
  - The three-state input machine (idle, after ESC, after `ESC [`).
  - The line buffer with echo, backspace and overflow flush.
  - The up-arrow history recall.
  - The bounded tokenizer (three tokens of sixteen bytes).
  - Two-tier dispatch: the application table first, the library table second.
  - The string, number, hex, binary and memory-dump helpers.
- **Application** (`src/main.c`):
  - The application command table and its resolver.
  - The IR callback table installed at start-up.
- **LED animation** (`src/led.c`): the `led_state` record, the timer step, the pattern cycle, the speed ladder and the frame tables.
- **IR decoder** (`src/irdecoder.c`):
  - The falling-edge pulse capture.
  - The frame-timeout decode: address check, complement checks and command bit reversal.
  - The key-to-slot table and the callback dispatch.

## Structure

| module | file | models |
|---|---|---|
| `Machine` | machine.dfy | C integer widths, `Option`, NUL-terminated strings, arithmetic lemmas |
| `Fifo` | fifo.dfy | the ring-buffer library, as an abstract bounded FIFO class |
| `CliText` | cli_text.dfy | `cli_strings_match`, `cli_strlen`, `cli_is_number`, `cli_string_to_number`, `cli_pow` |
| `CliFormat` | cli_format.dfy | hex and binary conversion, `reverse_string`, the memory-dump argument check |
| `CliTokenizer` | cli_tokenizer.dfy | `cli_tokenize`: the reference function `Run` and the in-place method `Tokenize` |
| `Commands` | commands.dfy | command entries, handler identities, terminal events, the first-match scan |
| `CliDispatch` | cli_dispatch.dfy | the library `command_table` and `cli_parse_command` |
| `Application` | main_app.dfy | `command_table`, `cli_parse_application_command`, `ir_commands` |
| `Console` | cli_console.dfy | `cli_process_input`: the reference functions `Step` and `Drain`, and the class `Console` |
| `Led` | led.dfy | `led.c`: the reference function `Updated`, and the class `LedState` |
| `IrDecoder` | irdecoder.dfy | `irdecoder.c`: the reference function `Decode`, and the class `Decoder` |

Code that mutates state is modelled as classes with methods:

- `Console` holds `usart_state` and the two ring buffers.
- `LedState` holds `led_state`.
- `Decoder` holds `command`, `bit_times`, `bit_time_index` and `ir_commands`.
- Loops that fill caller arrays are methods over arrays with loop invariants: `Tokenize`, `DecToHexString`, `DecToBinaryString`, `ReverseString` and the decoder's assembly and clearing loops.

Each method is proved against a pure reference function, and the properties of that function are lemmas. Terminal output is modelled as a sequence of events:

- an echoed byte;
- the `"\b \b"` rub-out;
- a newline;
- a printed string;
- a handler invocation, with its argument or a null pointer.

Frames sent to the LED shift register are logged in `LedState.sent`.

Where the code does something other than what it evidently intends, the model follows the code:

- **History.** The code declares `command_history` and `command_index` but never writes either; the copy into the history is commented out at src/cli.c:528. The up arrow therefore recalls the zero-initialised entry, the empty string: no rub-outs, nothing printed, the line kept. The model does not add the history store.
- **`ESC p`.** After ESC, the byte `p` prints "is this altp" and stays in the ESC state (src/cli.c:555-556). Every other byte but `[` returns to idle.
- **Tokenizer aborts.** An abort returns before `cli_tokenize` assigns `*token_length` (src/cli.c:247-253), so the caller's `token_length` keeps its indeterminate value. The abort does not cancel the command: if `tokens[0][0]` was set before the abort, the line is still dispatched with that leftover count (src/cli.c:521-534). The model takes that count as a parameter (`stale`). The abort fires when a byte lands at index 15 of a token, and that byte can be a separating space.
- **Tokens after an abort.** An aborted line keeps the tokens already written.

## Model

| member | source | states |
|---|---|---|
| CliText.StringsMatch | src/cli.c:182-194 | true exactly when the two NUL-terminated strings are equal: same length and same characters |
| CliText.Strlen | src/cli.c:208-215 | the number of characters before the terminator |
| CliText.IsNumber | src/cli.c:196-206 | true exactly when every character is a decimal digit, so also for the empty string |
| CliText.StringToNumber | src/cli.c:217-224 | the accumulated value of (code - 48) per character, reduced modulo 2^32 as `uint32_t` arithmetic does; the `uint8_t` counter limits the length to 255 |
| CliText.DecimalValueBound | src/cli.c:217-224 | a string of decimal digits denotes a value below 10^length |
| CliText.ShortNumberExact | src/cli.c:217-224 | up to nine digits parse without wrap-around |
| CliText.Pow | src/cli.c:226-233 | a^b modulo 2^32, by the same recursion on b |
| CliFormat.DigitChar | src/cli.c:404-409 | a digit below 10 is written as '0'-'9' and one from 10 to 15 as upper-case 'A'-'F', and it reads back as its value |
| CliFormat.DigitsValid | src/cli.c:394-413 | every character of the digit string is a valid digit below the base |
| CliFormat.DigitsValue | src/cli.c:394-413 | the n digits written denote v modulo base^n |
| CliFormat.DecToHexString | src/cli.c:394-413 | writes exactly eight upper-case hex digits of the value, most significant first, then a NUL; nothing else in the array changes |
| CliFormat.HexAccumulateStep | src/cli.c:421-433 | one round of the conversion loop adds the digit weighted by 16^hexlen, modulo 2^32 |
| CliFormat.HexStringToDec | src/cli.c:415-436 | fails exactly when a character is not in 0-9, a-f or A-F, and then returns 0; otherwise returns the hex value modulo 2^32 |
| CliFormat.HexRoundTrip | src/cli.c:394-436 | parsing the eight digits written for any 32-bit value gives that value back |
| CliFormat.ReverseString | src/cli.c:362-373 | the first `length` characters end up reversed and the rest of the array is unchanged; `length` must be at least 1 because `right` starts at `length - 1` in `uint8_t` |
| CliFormat.ReversedLsbBinary | src/cli.c:375-392 | reversing the least-significant-first bits gives the most-significant-first digit string |
| CliFormat.DecToBinaryString | src/cli.c:375-392 | writes the `length` low-order binary digits of the value, most significant first, then a NUL; nothing after that changes |
| CliFormat.WriteLsbFirst | src/cli.c:379-386 | the digit loop writes the `length` low-order binary digits least significant first and touches nothing past the terminator's slot |
| CliFormat.DumpAddress | src/cli.c:312 | the address is the hex value after "0x" modulo 2^32, or 0 when it does not parse |
| CliFormat.MemdumpHex | src/cli.c:305-315 | rejects an argument without the "0x" prefix before any memory read; otherwise shows the eight hex digits of the word at the parsed address |
| CliFormat.MemdumpBin | src/cli.c:317-327 | the same prefix check; otherwise shows the 32 binary digits of the word, most significant first |
| CliFormat.DeadBeef | src/cli.c:394-413 | the word 0xDEADBEEF is shown as "DEADBEEF" |
| CliFormat.DigitsOfZero | src/cli.c:383-385 | the value 0 is written as all '0' digits |
| CliFormat.LowRowOfFifteen | src/cli.c:493-499 | for 0x0000000F the low row of the binary table reads 0000000000001111 |
| CliTokenizer.Tokenized | src/cli.c:521-523 | the tokens of a line start from an all-NUL `command_t`: an empty line gives no tokens and count 0, and a completed pass has at most three tokens |
| CliTokenizer.Run | src/cli.c:235-272 | the whole pass keeps the count within three tokens, keeps the 48-character token memory, and keeps the stray-store flag once set |
| CliTokenizer.Tokenize | src/cli.c:235-272 | fills `tokens` exactly as `Run` says, returns the count or the abort, and leaves the source buffer empty on both paths |
| CliTokenizer.RunChars | src/cli.c:240-268 | non-space bytes inside a token are stored one after another |
| CliTokenizer.WordThenSpace | src/cli.c:256-265 | a word and a space end a NUL-terminated token, and the next token starts |
| CliTokenizer.LastWord | src/cli.c:256-265 | a last word ended by the buffer running empty becomes a terminated token, and the count goes up by one |
| CliTokenizer.RunFrame | src/cli.c:240-268 | the rest of a pass never writes below the current store position |
| CliTokenizer.TokenSurvives | src/cli.c:240-268 | a finished token still reads back after the rest of the pass |
| CliTokenizer.JoinRoundTrip | src/cli.c:235-272 | one to three words joined by single spaces tokenize into exactly those words, with the count equal to the number of words |
| CliTokenizer.FirstWordKept | src/cli.c:256-265 | the first word of a longer line ends its own token and survives the rest of the pass |
| CliTokenizer.OneWord | src/cli.c:256-265 | a single word gives one token, count 1 |
| CliTokenizer.CommandWithArgument | src/cli.c:235-272 | a command word, a space and an argument give those two tokens, count 2 |
| CliTokenizer.MemdumpExample | src/cli.c:235-272 | "memdump 0x50000000" gives "memdump" and "0x50000000", count 2 |
| CliTokenizer.TrailingSpaceKept | src/cli.c:256-259 | a last token ended by the buffer running empty keeps its final space: "help " gives "help " |
| CliTokenizer.LeadingSpaceSkipped | src/cli.c:242-244 | a space at the start of a token is skipped, so runs of spaces act as one |
| CliTokenizer.FifteenAborts | src/cli.c:247-253 | a byte landing at index 15 of a token aborts the pass, even a separating space |
| CliTokenizer.WordsThenSpace | src/cli.c:256-265 | whole words, each followed by a space, fill consecutive token rows |
| CliTokenizer.FourthTokenAborts | src/cli.c:241-253 | a non-space byte that would begin a fourth token aborts the pass, after a store past the array |
| Commands.FindFrom | src/main.c:148-155 | the first entry, in table order, whose name equals the token; none when no entry matches |
| Commands.Scan | src/cli.c:284-290 | the dispatch loop finds exactly that first exact match |
| Commands.Args | src/cli.c:282 | the handler argument is `tokens[1]` exactly when the count is above 1, otherwise null |
| CliDispatch.LibDispatch | src/cli.c:276-293 | nothing below count 1; otherwise a newline, then the first matching library handler with the argument, or "Invalid command." |
| CliDispatch.ParseCommand | src/cli.c:276-293 | `cli_parse_command` sends and calls exactly what `LibDispatch` says |
| Application.AppDispatch | src/main.c:140-157 | no call below count 1 or when no name matches; otherwise the first matching entry's handler with the argument |
| Application.AppEvents | src/main.c:150-152 | a handled command sends two newlines and then calls its handler |
| Application.ParseApplicationCommand | src/main.c:140-157 | returns true exactly when the resolver finds a command, and then sends its events; otherwise sends nothing |
| Application.AppNamesAreCStrings | src/main.c:45-54 | every application command name is a well-formed C string |
| Application.AppNamesSelectOwnEntry | src/main.c:45-54 | no two entries share a name, so each name selects its own entry |
| Application.SpeedWithArgument | src/main.c:146-153 | "speed 3" calls the speed setter once with the argument "3" |
| Application.LoneWordPassesNull | src/main.c:146 | a lone command word passes a null argument |
| Application.IrCommandsShape | src/main.c:22-43 | exactly 20 entries, one per decoder slot, each id equal to its slot; slots 5-9 and 15-19 are exactly the ones without a callback |
| Application.UnassignedKeysIgnored | src/main.c:28-42 | a key whose slot has no callback does nothing |
| Application.KeyExamples | src/main.c:24-35 | key 1 sets the "binary" pattern; channel up and down toggle the pattern with "+" and "-" |
| Application.KeysReachPatterns | src/main.c:24-35 | keys 1-4 pass the names of the four patterns in order, each accepted by `led_set_pattern`; "+" steps the pattern forwards and "-" back |
| Application.Install | src/main.c:60 | installing the table with count 20 leaves the decoder's table equal to `ir_commands` |
| Console.Dispatched | src/cli.c:530-533 | the library table is consulted exactly when the application resolver declines |
| Console.Submit | src/cli.c:519-536 | a carriage return always ends with a newline and "> "; a tokenizer abort first prints "Invalid command"; an empty first token dispatches nothing; a non-empty first token goes through both dispatch tiers with the count the tokenizer produced or, after an abort, the stale `token_length` |
| Console.Recall | src/cli.c:566-587 | the up arrow sends one rub-out per character it can remove (at most the line's length) and then prints the entry if it is not empty; it stops the pass exactly when the shortened line plus the entry exceeds the capacity, with the line flushed, and otherwise leaves the shortened line followed by the entry; an empty entry changes nothing |
| Console.Step | src/cli.c:513-598 | the state transitions (ESC to the ESC state; `[` to BRACKET; `p` stays; everything else to idle; BRACKET always to idle); ESC in idle changes only the mode and sends nothing; in the ESC state the line is kept, the pass goes on, and only `p` sends something ("is this altp"); `ESC [ A` is exactly `Recall`, and any other byte after `ESC [` only returns to idle; backspace; tab ignored; a carriage return empties the line and sends `Submit`; an ordinary byte is written and echoed, or stops the pass exactly when the line is full; the line never exceeds the capacity |
| Console.Drain | src/cli.c:508-602 | a pass takes at least one byte of a non-empty input and changes nothing on an empty one; the line stays within capacity |
| Console.PassEnds | src/cli.c:508-602 | the bytes left unread are a suffix of the input; a pass that reads everything ends in the state the bytes lead to, one `Step` each; a pass that leaves bytes unread was stopped by the byte just before them, a failed write after every earlier byte was taken, and ends with the line flushed |
| Console.NamesDisjoint | src/main.c:45-54 | no application command name is also a library command name |
| Console.LibraryNameReachesLibrary | src/cli.c:530-533 | a library command name always reaches the library table and calls its handler |
| Console.MemdumpCommand | src/cli.c:519-536 | a line tokenized as "memdump" and one argument calls the hex dump with that argument, then prompts |
| Console.MemdumpLine | src/cli.c:519-536 | "memdump 0x50000000" calls the hex dump with "0x50000000", then prompts |
| Console.SpacesOnly | src/cli.c:242-244 | a line of spaces gives count 0 |
| Console.BlankLine | src/cli.c:527-536 | submitting a line of spaces, the empty line included, sends only the prompt |
| Console.AbortedFirstByte | src/cli.c:241-253 | a sixteen-byte word aborts with its first byte already stored in `tokens[0][0]` |
| Console.AbortedLineStillDispatches | src/cli.c:521-534 | such a line prints "Invalid command" and is still dispatched with the stale count, so "Invalid command." follows unless that count is 0 |
| Console.AbortExample | src/cli.c:521-534 | the same for the line "xxxxxxxxxxxxxxxx" |
| Console.UpArrowIsNoOp | src/cli.c:566-587 | `ESC [ A` with the empty history sends nothing and keeps the line |
| Console.OtherArrowsIgnored | src/cli.c:588-597 | every other byte after `ESC [` only returns to idle |
| Console.TypedBytes | src/cli.c:541-548 | ordinary bytes that fit are appended to the line and echoed, in order |
| Console.FullLineStops | src/cli.c:543-546 | a byte that does not fit flushes the line and ends the pass, leaving later bytes unread |
| Console.Console.constructor | src/cli.c:42-43 | both buffers are created empty and the machine is idle |
| Console.Console.Receive | src/cli.c:604-619 | a received byte is queued unless the overrun flag is set or the ingest buffer is full |
| Console.Console.ProcessInput | src/cli.c:508-602 | the new state, the unread input and the output are exactly those of `Drain` |
| Console.Console.TakeByte | src/cli.c:511-513 | one loop round removes the oldest ingest byte and leaves the state and output of exactly one `Step` on it |
| Console.Console.HandleByte | src/cli.c:513-599 | one byte changes the state and output exactly as `Step` says |
| Console.Console.Backspace | src/cli.c:173-180 | deletes the last line byte and sends the rub-out only if the delete succeeded |
| Console.Console.RecallHistory | src/cli.c:566-585 | the up-arrow branch does exactly what `Recall` says |
| Console.Console.SubmitLine | src/cli.c:519-536 | the carriage-return branch empties the line and sends exactly `Submit` |
| Led.Period | inc/led.h:16-22 | every speed is a period of 62 to 1000 milliseconds |
| Led.Rung | inc/led.h:16-22 | every speed has a rung from 1 to 5 on the ladder |
| Led.PeriodFallsWithRung | inc/led.h:16-22 | a higher rung means a strictly shorter period, and the rung determines the speed |
| Led.Frame | src/led.c:146-162 | the frame sent for the counter: binary sends the counter itself, wave the entry at `count % 8`, alternating 0x0F0F on even and 0xF0F0 on odd counts, bounce the entry at `count % 28`; every index is in bounds |
| Led.AlternatingComplements | src/led.c:362-365 | consecutive alternating frames are bitwise complements |
| Led.BounceMirrored | src/led.c:28-33 | the bounce table climbs and comes back down: entry `i` equals entry `28 - i` |
| Led.NextCount | src/led.c:146-162 | the counter after a frame stays within `uint16_t` |
| Led.Updated | src/led.c:133-167 | nothing changes while inactive; otherwise the tick drops by one, and on reaching 0 it restarts at the period and the counter advances; the invariant 1 <= tick <= period is kept |
| Led.Emitted | src/led.c:146-162 | a frame is sent exactly when the tick runs out |
| Led.Run | src/led.c:410-416 | any number of timer ticks keeps the invariant |
| Led.InactiveFrozen | src/led.c:135-137 | an inactive animation never changes and never sends a frame |
| Led.Quiet | src/led.c:139-141 | fewer ticks than the countdown only count it down, silently |
| Led.OneFramePerCountdown | src/led.c:139-162 | a countdown's worth of ticks sends exactly the current frame, advances the counter and starts a full period |
| Led.BounceIndexSteps | src/led.c:156-161 | with the reset at 252, the bounce index steps by one around the 28-frame table, from 27 back to 0 |
| Led.WrapOnlyBreaksBounce | src/led.c:150-161 | wave and alternating indices step correctly across the `uint16_t` wrap; bounce would not, which is what the reset prevents |
| Led.StepsInverse | src/led.c:168-211 | stepping the pattern forwards then back, or back then forwards, restores it |
| Led.CycleOfFour | src/led.c:168-211 | four forward steps visit every pattern and return to the start |
| Led.Toggled | src/led.c:168-211 | the pattern always changes: one step back when the argument starts with '-', otherwise one step forwards |
| Led.Named | src/led.c:215-226 | an argument selects a pattern exactly when it equals that pattern's name |
| Led.NamesRoundTrip | src/led.c:215-226 | each pattern's name selects that pattern |
| Led.Increased | src/led.c:234-259 | one rung faster, saturating at the fastest |
| Led.Decreased | src/led.c:261-286 | one rung slower, saturating at the slowest |
| Led.SpeedStepsInverse | src/led.c:234-286 | away from the ends, speeding up and slowing down undo each other |
| Led.SpeedSetting | src/led.c:290-318 | a parsed value selects a speed exactly when it is 1 to 5, and then the speed on that rung |
| Led.Refreshed | src/led.c:322-327 | a tick above the period becomes exactly the period; any other tick is kept |
| Led.LedState.constructor | src/led.c:73-74 | after start-up: running, binary pattern, slow speed, counter 0, tick 1, one blank frame sent |
| Led.LedState.Update | src/led.c:133-167 | the record becomes `Updated` of the old one and the frames sent are `Emitted` |
| Led.LedState.Reset | src/led.c:373-377 | tick 1, a blank frame sent, nothing else changed, from any record |
| Led.LedState.StateReset | src/led.c:400-407 | binary pattern, slow speed, tick equal to the period, counter 0, running |
| Led.LedState.TogglePattern | src/led.c:168-211 | the pattern becomes `Toggled`, with tick 1, counter 0 and a blank frame |
| Led.LedState.SetPattern | src/led.c:213-232 | switches, with a reset and counter 0, only when the argument names a pattern other than the current one; otherwise nothing changes |
| Led.LedState.RefreshSpeed | src/led.c:322-327 | restores tick <= period after a speed change, changing nothing else |
| Led.LedState.SpeedIncrease | src/led.c:234-259 | the speed becomes `Increased` and the tick is refreshed |
| Led.LedState.SpeedDecrease | src/led.c:261-286 | the speed becomes `Decreased` and the tick is refreshed |
| Led.LedState.SpeedSet | src/led.c:288-320 | values 1-5 set the speed on that rung; 0 passes the bounds check but changes nothing; above 5 is rejected with no change |
| Led.LedState.Stop | src/led.c:329-335 | inactive, tick 1, a blank frame sent |
| Led.LedState.Start | src/led.c:337-342 | active, nothing else changed |
| Led.LedState.Toggle | src/led.c:344-351 | `active` flips; stopping also resets the tick and blanks the LEDs |
| IrDecoder.PulseBit | src/irdecoder.c:143 | a pulse is a 1 bit exactly when it lasts 500 ticks or more |
| IrDecoder.Decode | src/irdecoder.c:151-167 | a foreign address clears the pending command; with the right address, failed complement checks keep the previous value |
| IrDecoder.Unfold | src/irdecoder.c:142-144 | one round of the assembly loop ORs the pulse's bit into position 31 - i |
| IrDecoder.AddressRounds | src/irdecoder.c:142-144 | pulses 0-7 form the top byte |
| IrDecoder.AddressInverseRounds | src/irdecoder.c:142-144 | pulses 8-15 form the second byte |
| IrDecoder.CommandRounds | src/irdecoder.c:142-144 | pulses 16-23 form the third byte |
| IrDecoder.CommandInverseRounds | src/irdecoder.c:142-144 | pulses 24-31 form the low byte |
| IrDecoder.Unpack | src/irdecoder.c:151-158 | the handler's shifts and masks recover the four packed bytes |
| IrDecoder.FrameFields | src/irdecoder.c:141-158 | address, inverted address, command and inverted command are pulses 0-7, 8-15, 16-23 and 24-31, first pulse most significant |
| IrDecoder.ReverseIsMirror | src/irdecoder.c:161-166 | the reversal loop moves bit i to bit 7 - i |
| IrDecoder.ReverseInvolution | src/irdecoder.c:161-166 | reversing twice gives the byte back |
| IrDecoder.ReverseComplement | src/irdecoder.c:160-166 | reversal keeps a byte and its complement complementary |
| IrDecoder.MirrorReading | src/irdecoder.c:161-166 | the mirror of the most-significant-first reading is the least-significant-first reading |
| IrDecoder.CommandFromPulses | src/irdecoder.c:141-167 | a frame that passes both checks leaves the command byte in the order the remote sends it |
| IrDecoder.AddressFromPulses | src/irdecoder.c:151-152 | the address check passes exactly when pulses 0-7, first pulse most significant, spell 0x20 |
| IrDecoder.SentBit | src/irdecoder.c:143 | the decoder reads each pulse of a sent frame as the bit the remote sent |
| IrDecoder.SentByte | src/irdecoder.c:141-144 | each byte of a sent frame, read least significant bit first, is the byte the remote sent |
| IrDecoder.NecRoundTrip | src/irdecoder.c:141-167 | a frame from a remote at address 0x04 carrying command c decodes to c, whatever was pending |
| IrDecoder.IrToCommand | src/irdecoder.c:18-39 | every code of the 70-entry table selects one of the 20 callback slots, and a code the table does not list selects slot 0 |
| IrDecoder.UnlistedSelectsSlotZero | src/irdecoder.c:18-39 | a code the table does not list selects slot 0, the same as key 0 |
| IrDecoder.ListedDistinct | src/irdecoder.c:19-38 | the listed keys select pairwise different slots |
| IrDecoder.OutOfTableReachable | src/irdecoder.c:53 | a decodable frame yields a code of 70 or more, which indexes past the 70-entry table |
| IrDecoder.Dispatch | src/irdecoder.c:50-59 | nothing when no command is pending; an explicit out-of-table outcome exactly for codes of 70 or more; otherwise the slot `ir_to_command[code]` decides: its callback is called with the slot's argument exactly when it is present, and the slot is reported as ignored otherwise |
| IrDecoder.ReverseBits | src/irdecoder.c:161-166 | the reversal loop computes `ReverseByte` |
| IrDecoder.Decoder.constructor | src/irdecoder.c:13-15 | no command pending, an empty capture, and zeroed callback slots |
| IrDecoder.Decoder.FallingEdge | src/irdecoder.c:119-123 | a count strictly between 200 and 1000 is stored while fewer than 32 are held; the index never exceeds 32 |
| IrDecoder.Decoder.FrameTimeout | src/irdecoder.c:134-168 | every capture slot and the index return to 0, and the pending command becomes `Decode` of the assembled word |
| IrDecoder.Decoder.AssembleWord | src/irdecoder.c:141-144 | the loop computes the frame word from the captured pulses |
| IrDecoder.Decoder.ClearCapture | src/irdecoder.c:146-149 | every capture slot and the index return to 0 |
| IrDecoder.Decoder.Process | src/irdecoder.c:50-59 | runs `Dispatch` on the pending code, records the call if any, and always clears the pending code |
| IrDecoder.Decoder.SetCommands | src/irdecoder.c:43-48 | copies exactly the first `count` entries, in order, and leaves the other slots unchanged |
| Fifo.ByteFifo.Write | src/cli.c:543-546 | appends the byte and succeeds exactly when the buffer is not full |
| Fifo.ByteFifo.Read | src/cli.c:511-512 | removes and yields the oldest byte, and fails only when empty |
| Fifo.ByteFifo.Delete | src/cli.c:175 | removes the most recently written byte, and fails only when empty |
| Fifo.ByteFifo.Flush | src/cli.c:544 | always leaves the buffer empty |
| Fifo.FifoOrder | src/cli.c:541-548 | any bytes written into a buffer with room for them all are read back in the order written |

## Left out

- Peripheral set-up and tear-down are not modelled: `cli_init` register writes, `cli_deinit`, `led_init` and `led_deinit` register writes, `irdecoder_init`, `irdecoder_deinit`, and `src/bt.c`. The model keeps only the state these leave behind.
- The ring-buffer library and `RING_BUFFER_SIZE` are not part of this model. `Fifo.ByteFifo` is an abstract bounded FIFO. Its capacity is a constructor argument, and its contracts are the ones the console relies on.
- `sn_send_data` is not modelled. It is an SPI busy-wait and latch pulse, whose timeouts can silently drop a frame. Each frame is appended to `LedState.sent` instead.
- Handler output through `cli_printline` and `cli_print` is not modelled, e.g. "Changing pattern to: Wave" or "Speed not in bounds (1 - 5)". It is display text; the state changes are modelled.
- Interrupt concurrency is not modelled. The USART, TIM14, EXTI and TIM16 interrupts are sequential steps: `Console.Receive`, `LedState.Update`, `Decoder.FallingEdge`, `Decoder.FrameTimeout`. The atomicity of ring-buffer indices is out of scope.
- Timer peripheral handling is not modelled. Timer readings are method arguments. The rising-edge counter restart and the timer enable bits are not modelled.
- Memory reads (`M32`) are a function argument of the memory-dump methods.
- `jump_to_bootloader`, the restart handler and `main`'s endless loop are control transfer and are not modelled.
- `led_toggle_verbosity` and `led_set_message_cb` are not part of this model; they appear only as handler identities.
- `utils_strings_match` is not part of this model and is taken to be `cli_strings_match`.
- Display-only output is not modelled: the help texts, the terminal escape strings, the start-up banner, `cli_print_number`'s padding, and the framed layout of `cli_dump_bin_from_address`. `MemdumpBin` yields the 32 digits the table shows.
- Console.Console.SubmitLine: a handler invocation is recorded as an event, and its effect is not run inside the console model. The LED handlers' effects are the `LedState` methods; the dump handlers' results are `MemdumpHex` and `MemdumpBin`.
- CliFormat.MemdumpHex / CliFormat.MemdumpBin: the argument is a string. Typing "memdump" or "memdumpbin" alone passes a null `args` (`Commands.Args` yields no argument for a count of 1), and src/cli.c:307 and src/cli.c:319 then read `args[0]` and `args[1]` through that null pointer. This dereference is not modelled.
- Led.LedState.TogglePattern: the argument is a string. The null pointer passed when "pattern" is typed without an argument, which the C code dereferences, is not modelled. The same holds for `SetPattern` and `SpeedSet`.
- The `default` branch of `led_update`'s switch ("Invalid pattern") is not modelled, because the pattern is a closed enumeration and cannot reach it.
- The stray store into `tokens[3]`, past the end of the token array, is recorded only as a flag (`stray`). What it overwrites is not modelled.
- Characters are Dafny `char` values, not bytes. No property depends on the difference.
