/**
 * The infrared receiver (src/irdecoder.c). Pulse widths captured on falling
 * edges become 32 frame bits in the NEC layout (address, inverted address,
 * command, inverted command). A frame timeout decodes them into a pending
 * command code, and the main loop's `irdecoder_process` maps that code
 * through `ir_to_command` to a callback slot. Timer readings are inputs; the
 * edge and timeout interrupts are sequential steps.
 */
module IrDecoder {
  import opened Machine
  import opened Commands

  /** `ADDRESS`: the address byte a frame must carry, as the decoder extracts it. */
  const Address: bv32 := 0x20
  /** The pending-command value meaning "none". */
  const NoCommand: uint8 := 0xFF
  /** The number of pulse widths in a frame. */
  const FrameBits: nat := 32

  // The remote's key codes (`ir_command`).
  const KP0: nat := 0x10
  const KP1: nat := 0x11
  const KP2: nat := 0x12
  const KP3: nat := 0x13
  const KP4: nat := 0x14
  const KP5: nat := 0x15
  const KP6: nat := 0x16
  const KP7: nat := 0x17
  const KP8: nat := 0x18
  const KP9: nat := 0x19
  const VolumeUp: nat := 0x2
  const VolumeDown: nat := 0x3
  const ChannelUp: nat := 0x0
  const ChannelDown: nat := 0x1
  const PadLeft: nat := 0x7
  const PadRight: nat := 0x6
  const PadUp: nat := 0x40
  const PadDown: nat := 0x41
  const PadOk: nat := 0x44
  const Power: nat := 0x8

  /** The slots `ir_to_command` lists explicitly; every other code of the table holds 0. */
  const Listed: map<nat, uint8> := map[
    KP0 := 0, KP1 := 1, KP2 := 2, KP3 := 3, KP4 := 4,
    KP5 := 5, KP6 := 6, KP7 := 7, KP8 := 8, KP9 := 9,
    Power := 10, ChannelUp := 11, ChannelDown := 12, VolumeUp := 13, VolumeDown := 14,
    PadLeft := 15, PadRight := 16, PadUp := 17, PadDown := 18, PadOk := 19
  ]

  /** The size of `ir_to_command`. */
  const IrTableSize: nat := 70
  /** The size of the decoder's callback array. */
  const CallbackSlots: nat := 20

  /** `ir_to_command`: key code to callback slot. */
  function IrToCommand(code: nat): (slot: uint8)
    requires code < IrTableSize
    ensures slot < CallbackSlots
    ensures code !in Listed ==> slot == 0
  {
    if code in Listed then Listed[code] else 0
  }

  /** A `command_callback_t`: an id, an argument (null is `None`) and a callback (null is `None`). */
  datatype Callback = Callback(id: nat, arg: Option<string>, command: Option<AppHandler>)

  /** What a call of `irdecoder_process` does with the pending code. */
  datatype Outcome =
    | NoPending            // nothing pending
    | OutOfTable(code: nat) // a code of 70 or more indexes past `ir_to_command`
    | Ignored(slot: nat)   // the slot's callback is null
    | Called(call: Call)   // the slot's callback ran with the slot's argument

  // ---------------------------------------------------------------------------
  // Frame assembly and decoding

  /** A pulse of 500 timer ticks or more is a 1 bit, a shorter one a 0 bit. */
  function PulseBit(width: uint32): (b: bv32)
    ensures b == 0 || b == 1
    ensures b == 1 <==> width >= 500
  {
    if width < 500 then 0 else 1
  }

  /** `msg` after the first `n` rounds of the assembly loop: pulse i lands on bit 31 - i. */
  function WordPrefix(t: seq<uint32>, n: nat): bv32
    requires |t| == FrameBits && n <= FrameBits
  {
    if n == 0 then 0 else WordPrefix(t, n - 1) | AtPosition(PulseBit(t[n - 1]), n - 1)
  }

  /** Bit b moved to where pulse i belongs in the word: bit 31 - i. */
  function AtPosition(b: bv32, i: nat): bv32
    requires i < FrameBits
  {
    b << (31 - i)
  }

  /** The 32-bit word the timeout handler assembles from a full capture. */
  function FrameWord(t: seq<uint32>): bv32
    requires |t| == FrameBits
  {
    WordPrefix(t, FrameBits)
  }

  /** The byte that pulses o to o + 7 spell when the first of them is the most significant bit. */
  function MsbFirst(t: seq<uint32>, o: nat): (b: bv32)
    requires o + 8 <= |t|
    ensures b < 0x100
  {
    (PulseBit(t[o]) << 7) | (PulseBit(t[o + 1]) << 6) | (PulseBit(t[o + 2]) << 5) | (PulseBit(t[o + 3]) << 4) |
    (PulseBit(t[o + 4]) << 3) | (PulseBit(t[o + 5]) << 2) | (PulseBit(t[o + 6]) << 1) | PulseBit(t[o + 7])
  }

  /** The byte that pulses o to o + 7 spell when the first of them is the least significant bit. */
  function LsbFirst(t: seq<uint32>, o: nat): bv8
    requires o + 8 <= |t|
  {
    ReadBit(t, o) | (ReadBit(t, o + 1) << 1) | (ReadBit(t, o + 2) << 2) | (ReadBit(t, o + 3) << 3) |
    (ReadBit(t, o + 4) << 4) | (ReadBit(t, o + 5) << 5) | (ReadBit(t, o + 6) << 6) | (ReadBit(t, o + 7) << 7)
  }

  /** The bit pulse i stands for, as a byte-wide value. */
  function ReadBit(t: seq<uint32>, i: nat): bv8
    requires i < |t|
  {
    PulseBit(t[i]) as bv8
  }

  /** The byte reversal of the command loop, after its first `n` rounds. */
  function RevPrefix(x: bv8, n: nat): bv8
    requires n <= 8
  {
    if n == 0 then 0
    else RevPrefix(x, n - 1) | (if x & (1 << (n - 1)) != 0 then 1 << (7 - (n - 1)) else 0)
  }

  /** The command byte with its bit order reversed, as the timeout handler computes it. */
  function ReverseByte(x: bv8): bv8
  {
    RevPrefix(x, 8)
  }

  /** Bit i of x moved to bit 7 - i: the mirror image of a byte, written out bit by bit. */
  function Mirror(x: bv8): bv8
  {
    ((x & 1) << 7) | ((x & 2) << 5) | ((x & 4) << 3) | ((x & 8) << 1) |
    ((x & 16) >> 1) | ((x & 32) >> 3) | ((x & 64) >> 5) | ((x & 128) >> 7)
  }

  /** The four bytes of a frame word, as the timeout handler extracts them. */
  function AddrOf(msg: bv32): bv32 { (msg >> 24) & 0xFF }
  function AddrInvOf(msg: bv32): bv32 { (msg >> 16) & 0xFF }
  function CmndOf(msg: bv32): bv32 { (msg >> 8) & 0xFF }
  function CmndInvOf(msg: bv32): bv32 { msg & 0xFF }

  /** Both complement checks of the timeout handler. */
  predicate Complements(msg: bv32)
  {
    (AddrOf(msg) ^ AddrInvOf(msg)) == 0xFF && (CmndOf(msg) ^ CmndInvOf(msg)) == 0xFF
  }

  /**
   * The pending command after a frame: none for a foreign address, the
   * reversed command byte when both complement checks pass, and otherwise
   * whatever was pending before.
   */
  function Decode(msg: bv32, previous: uint8): (c: uint8)
    ensures AddrOf(msg) != Address ==> c == NoCommand
    ensures AddrOf(msg) == Address && !Complements(msg) ==> c == previous
  {
    if AddrOf(msg) != Address then NoCommand
    else if Complements(msg) then ReverseByte(CmndOf(msg) as bv8) as int
    else previous
  }

  /** One round of the assembly loop. */
  lemma Unfold(t: seq<uint32>, i: nat)
    requires |t| == FrameBits && i < FrameBits
    ensures WordPrefix(t, i + 1) == WordPrefix(t, i) | AtPosition(PulseBit(t[i]), i)
  {
  }

  /** Rounds 1 to 8 of the assembly loop put pulses 0 to 7 in the top byte. */
  lemma AddressRounds(t: seq<uint32>)
    requires |t| == FrameBits
    ensures WordPrefix(t, 8) == MsbFirst(t, 0) << 24
  {
    Unfold(t, 0); Unfold(t, 1); Unfold(t, 2); Unfold(t, 3);
    Unfold(t, 4); Unfold(t, 5); Unfold(t, 6); Unfold(t, 7);
  }

  /** Rounds 9 to 16 put pulses 8 to 15 in the second byte. */
  lemma AddressInverseRounds(t: seq<uint32>)
    requires |t| == FrameBits
    ensures WordPrefix(t, 16) == WordPrefix(t, 8) | (MsbFirst(t, 8) << 16)
  {
    Unfold(t, 8); Unfold(t, 9); Unfold(t, 10); Unfold(t, 11);
    Unfold(t, 12); Unfold(t, 13); Unfold(t, 14); Unfold(t, 15);
  }

  /** Rounds 17 to 24 put pulses 16 to 23 in the third byte. */
  lemma CommandRounds(t: seq<uint32>)
    requires |t| == FrameBits
    ensures WordPrefix(t, 24) == WordPrefix(t, 16) | (MsbFirst(t, 16) << 8)
  {
    Unfold(t, 16); Unfold(t, 17); Unfold(t, 18); Unfold(t, 19);
    Unfold(t, 20); Unfold(t, 21); Unfold(t, 22); Unfold(t, 23);
  }

  /** Rounds 25 to 32 put pulses 24 to 31 in the low byte. */
  lemma CommandInverseRounds(t: seq<uint32>)
    requires |t| == FrameBits
    ensures WordPrefix(t, 32) == WordPrefix(t, 24) | MsbFirst(t, 24)
  {
    Unfold(t, 24); Unfold(t, 25); Unfold(t, 26); Unfold(t, 27);
    Unfold(t, 28); Unfold(t, 29); Unfold(t, 30); Unfold(t, 31);
  }

  /** Four bytes packed into a word come back out of the handler's shifts and masks. */
  lemma Unpack(m0: bv32, m1: bv32, m2: bv32, m3: bv32)
    requires m0 < 0x100 && m1 < 0x100 && m2 < 0x100 && m3 < 0x100
    ensures var w := (m0 << 24) | (m1 << 16) | (m2 << 8) | m3;
      AddrOf(w) == m0 && AddrInvOf(w) == m1 && CmndOf(w) == m2 && CmndInvOf(w) == m3
  {
  }

  /**
   * The four fields the handler extracts are pulses 0-7, 8-15, 16-23 and
   * 24-31, each read with its first pulse as the most significant bit.
   */
  lemma {:induction false} FrameFields(t: seq<uint32>)
    requires |t| == FrameBits
    ensures AddrOf(FrameWord(t)) == MsbFirst(t, 0) && AddrInvOf(FrameWord(t)) == MsbFirst(t, 8)
    ensures CmndOf(FrameWord(t)) == MsbFirst(t, 16) && CmndInvOf(FrameWord(t)) == MsbFirst(t, 24)
  {
    AddressRounds(t);
    AddressInverseRounds(t);
    CommandRounds(t);
    CommandInverseRounds(t);
    Unpack(MsbFirst(t, 0), MsbFirst(t, 8), MsbFirst(t, 16), MsbFirst(t, 24));
  }

  /** The reversal loop's result is the mirror image of the byte. */
  lemma ReverseIsMirror(x: bv8)
    ensures ReverseByte(x) == Mirror(x)
  {
    assert RevPrefix(x, 1) == (if x & 1 != 0 then 0x80 else 0);
    assert RevPrefix(x, 2) == RevPrefix(x, 1) | (if x & 2 != 0 then 0x40 else 0);
    assert RevPrefix(x, 3) == RevPrefix(x, 2) | (if x & 4 != 0 then 0x20 else 0);
    assert RevPrefix(x, 4) == RevPrefix(x, 3) | (if x & 8 != 0 then 0x10 else 0);
    assert RevPrefix(x, 5) == RevPrefix(x, 4) | (if x & 16 != 0 then 8 else 0);
    assert RevPrefix(x, 6) == RevPrefix(x, 5) | (if x & 32 != 0 then 4 else 0);
    assert RevPrefix(x, 7) == RevPrefix(x, 6) | (if x & 64 != 0 then 2 else 0);
  }

  /** Reversing the bit order twice gives the byte back. */
  lemma ReverseInvolution(x: bv8)
    ensures ReverseByte(ReverseByte(x)) == x
  {
    ReverseIsMirror(x);
    ReverseIsMirror(ReverseByte(x));
  }

  /** Reversal commutes with complement, so a byte and its complement stay complementary. */
  lemma ReverseComplement(x: bv8)
    ensures ReverseByte(x) ^ ReverseByte(!x) == 0xFF
  {
    ReverseIsMirror(x);
    ReverseIsMirror(!x);
  }

  /** The mirror of the most-significant-first reading is the least-significant-first reading. */
  lemma MirrorReading(t: seq<uint32>, o: nat)
    requires o + 8 <= |t|
    ensures Mirror(MsbFirst(t, o) as bv8) == LsbFirst(t, o)
  {
  }

  /**
   * A frame that passes both checks leaves as the pending command the byte
   * spelled by pulses 16 to 23, first pulse least significant: the command
   * byte in the order the remote sends it.
   */
  lemma {:induction false} CommandFromPulses(t: seq<uint32>, previous: uint8)
    requires |t| == FrameBits
    requires AddrOf(FrameWord(t)) == Address && Complements(FrameWord(t))
    ensures Decode(FrameWord(t), previous) == LsbFirst(t, 16) as int
  {
    FrameFields(t);
    ReverseIsMirror(MsbFirst(t, 16) as bv8);
    MirrorReading(t, 16);
  }

  /** The address check passes exactly when pulses 0 to 7, first pulse most significant, spell 0x20. */
  lemma {:induction false} AddressFromPulses(t: seq<uint32>)
    requires |t| == FrameBits
    ensures AddrOf(FrameWord(t)) == Address <==> MsbFirst(t, 0) == 0x20
  {
    FrameFields(t);
  }

  /** A byte read in one bit order is the mirror image of the same byte read in the other. */
  lemma MirrorBack(m: bv32, b: bv8)
    requires m < 0x100 && Mirror(m as bv8) == b
    ensures m == Mirror(b) as bv32 && Mirror(b) == m as bv8
  {
  }

  // ---------------------------------------------------------------------------
  // A frame as the remote sends it

  /** The four bytes of an NEC frame in sending order: address, its complement, command, its complement. */
  function FrameByte(a: bv8, c: bv8, k: nat): bv8
  {
    if k == 0 then a else if k == 1 then !a else if k == 2 then c else !c
  }

  /** Bit i of an NEC frame for address a and command c: each byte goes out least significant bit first. */
  function NecBit(a: bv8, c: bv8, i: nat): bv8
    requires i < FrameBits
  {
    BitOf(FrameByte(a, c, i / 8), i % 8)
  }

  /** Bit j of a byte. */
  function BitOf(x: bv8, j: nat): (b: bv8)
    requires j < 8
    ensures b == 0 || b == 1
  {
    (x >> j) & 1
  }

  /** Eight bits, least significant first, make up the byte they are the bits of. */
  lemma FromBits(x: bv8)
    ensures BitOf(x, 0) | (BitOf(x, 1) << 1) | (BitOf(x, 2) << 2) | (BitOf(x, 3) << 3) |
            (BitOf(x, 4) << 4) | (BitOf(x, 5) << 5) | (BitOf(x, 6) << 6) | (BitOf(x, 7) << 7) == x
  {
  }

  /** The pulse width for bit i of a frame: 300 ticks for a 0 bit, 700 for a 1 bit. */
  function Pulse(a: bv8, c: bv8, i: nat): uint32
    requires i < FrameBits
  {
    if NecBit(a, c, i) == 1 then 700 else 300
  }

  /** The pulse widths a remote sends for address a and command c. */
  function NecTimes(a: bv8, c: bv8): (t: seq<uint32>)
    ensures |t| == FrameBits
  {
    seq(FrameBits, i requires 0 <= i < FrameBits => Pulse(a, c, i))
  }

  /** The decoder reads pulse 8k + j of a sent frame as bit j of byte k, the bit the remote sent. */
  lemma SentBit(a: bv8, c: bv8, k: nat, j: nat)
    requires k < 4 && j < 8
    ensures ReadBit(NecTimes(a, c), 8 * k + j) == BitOf(FrameByte(a, c, k), j)
  {
    assert (8 * k + j) / 8 == k && (8 * k + j) % 8 == j;
  }

  /** Byte k of a sent frame, read least significant bit first, is the byte the remote sent. */
  lemma SentByte(a: bv8, c: bv8, k: nat)
    requires k < 4
    ensures LsbFirst(NecTimes(a, c), 8 * k) == FrameByte(a, c, k)
  {
    var t := NecTimes(a, c);
    var x := FrameByte(a, c, k);
    var o := 8 * k;
    assert ReadBit(t, o) == BitOf(x, 0) by { SentBit(a, c, k, 0); }
    SentBit(a, c, k, 1); SentBit(a, c, k, 2); SentBit(a, c, k, 3);
    SentBit(a, c, k, 4); SentBit(a, c, k, 5); SentBit(a, c, k, 6); SentBit(a, c, k, 7);
    FromBits(x);
  }

  /**
   * Round trip: a frame from a remote at address 0x04 (which the decoder reads
   * as `ADDRESS` 0x20, the mirror image) carrying command c decodes to c,
   * whatever was pending before.
   */
  lemma {:induction false} NecRoundTrip(c: bv8, previous: uint8)
    ensures Decode(FrameWord(NecTimes(0x04, c)), previous) == c as int
  {
    var t := NecTimes(0x04, c);
    FrameFields(t);
    SentByte(0x04, c, 0); SentByte(0x04, c, 1); SentByte(0x04, c, 2); SentByte(0x04, c, 3);
    MirrorReading(t, 0); MirrorReading(t, 8); MirrorReading(t, 16); MirrorReading(t, 24);
    ReverseIsMirror(MsbFirst(t, 16) as bv8);
    MirrorBack(MsbFirst(t, 0), 0x04);
    MirrorBack(MsbFirst(t, 8), !0x04);
    MirrorBack(MsbFirst(t, 16), c);
    MirrorBack(MsbFirst(t, 24), !c);
  }

  // ---------------------------------------------------------------------------
  // Table properties

  /** A key code the table does not list selects slot 0, the same slot as key 0. */
  lemma UnlistedSelectsSlotZero(code: nat)
    requires code < IrTableSize && code !in Listed
    ensures IrToCommand(code) == IrToCommand(KP0)
  {
  }

  /** The listed keys select pairwise different slots. */
  lemma ListedDistinct(x: nat, y: nat)
    requires x in Listed && y in Listed && x != y
    ensures x < IrTableSize && y < IrTableSize && IrToCommand(x) != IrToCommand(y)
  {
  }

  /** A remote key whose code is 70 or more is decodable, so the lookup past the table is reachable. */
  lemma OutOfTableReachable()
    ensures Decode(FrameWord(NecTimes(0x04, 0x80)), NoCommand) >= IrTableSize
  {
    NecRoundTrip(0x80, NoCommand);
  }

  /** What `irdecoder_process` does with a pending code and a callback table. */
  function Dispatch(pending: uint8, table: seq<Callback>): (o: Outcome)
    requires |table| == CallbackSlots
    ensures o.NoPending? <==> pending == NoCommand
    ensures o.OutOfTable? <==> pending != NoCommand && pending >= IrTableSize
    ensures o.Called? ==> exists slot :: 0 <= slot < CallbackSlots && table[slot].command.Some? &&
                            o.call == Call(App(table[slot].command.value), table[slot].arg)
    ensures pending != NoCommand && pending < IrTableSize ==>
              var slot := IrToCommand(pending);
              (o.Called? <==> table[slot].command.Some?) &&
              (o.Called? ==> o.call == Call(App(table[slot].command.value), table[slot].arg)) &&
              (!o.Called? ==> o == Ignored(slot))
  {
    if pending == NoCommand then NoPending
    else if pending >= IrTableSize then OutOfTable(pending)
    else if table[IrToCommand(pending)].command.Some? then
      Called(Call(App(table[IrToCommand(pending)].command.value), table[IrToCommand(pending)].arg))
    else Ignored(IrToCommand(pending))
  }

  /** The reversal loop of the timeout handler: bit i of the command byte becomes bit 7 - i. */
  method ReverseBits(cmnd: bv8) returns (reversed: bv8)
    ensures reversed == ReverseByte(cmnd)
  {
    reversed := 0;
    for i := 0 to 8
      invariant reversed == RevPrefix(cmnd, i)
    {
      if cmnd & (1 << i) != 0 {
        reversed := reversed | (1 << (7 - i));
      }
    }
  }

  // ---------------------------------------------------------------------------
  // The decoder's state

  class Decoder {
    /** `command`: the pending key code, `NoCommand` when none. */
    var command: uint8
    /** `bit_times`: captured pulse widths. */
    const bitTimes: array<uint32>
    /** `bit_time_index`: the next capture slot. */
    var bitTimeIndex: nat
    /** `ir_commands`: the callback table installed by `SetCommands`. */
    const irCommands: array<Callback>
    /** The callbacks run so far, in order. */
    var calls: seq<Call>

    ghost predicate Valid()
      reads this
    {
      bitTimes.Length == FrameBits && irCommands.Length == CallbackSlots && bitTimeIndex <= FrameBits
    }

    /** The zero-initialised statics. */
    constructor ()
      ensures Valid() && fresh(bitTimes) && fresh(irCommands)
      ensures command == NoCommand && bitTimeIndex == 0 && calls == []
      ensures bitTimes[..] == seq(FrameBits, _ => 0)
      ensures irCommands[..] == seq(CallbackSlots, _ => Callback(0, None, None))
    {
      command := NoCommand;
      bitTimes := new uint32[FrameBits](_ => 0);
      bitTimeIndex := 0;
      irCommands := new Callback[CallbackSlots](_ => Callback(0, None, None));
      calls := [];
    }

    /** The falling-edge capture: a count strictly between 200 and 1000 is stored while slots remain. */
    method FallingEdge(count: uint32)
      requires Valid()
      modifies this, bitTimes
      ensures Valid()
      ensures var taken := 200 < count < 1000 && old(bitTimeIndex) < FrameBits;
        bitTimeIndex == (if taken then old(bitTimeIndex) + 1 else old(bitTimeIndex)) &&
        bitTimes[..] == (if taken then old(bitTimes[..])[old(bitTimeIndex) := count] else old(bitTimes[..]))
      ensures command == old(command) && calls == old(calls)
    {
      if count > 200 && count < 1000 && bitTimeIndex < FrameBits {
        bitTimes[bitTimeIndex] := count;
        bitTimeIndex := bitTimeIndex + 1;
      }
    }

    /**
     * The frame timeout: assembles the word, clears every capture slot and the
     * index, then decodes the word into the pending command.
     */
    method FrameTimeout()
      requires Valid()
      modifies this, bitTimes
      ensures Valid()
      ensures bitTimes[..] == seq(FrameBits, _ => 0) && bitTimeIndex == 0
      ensures command == Decode(FrameWord(old(bitTimes[..])), old(command))
      ensures calls == old(calls)
    {
      var msg := AssembleWord();
      ClearCapture();
      var addr := (msg >> 24) & 0xFF;
      if addr != Address {
        command := NoCommand;
        return;
      }
      var addrInv := (msg >> 16) & 0xFF;
      var cmnd := (msg >> 8) & 0xFF;
      var cmndInv := msg & 0xFF;
      if (addr ^ addrInv) == 0xFF && (cmnd ^ cmndInv) == 0xFF {
        var reversed := ReverseBits(cmnd as bv8);
        command := reversed as int;
      }
    }

    /** The assembly loop of the timeout handler: pulse i sets bit 31 - i when it is 500 ticks or more. */
    method AssembleWord() returns (msg: bv32)
      requires Valid()
      ensures msg == FrameWord(bitTimes[..])
    {
      ghost var t := bitTimes[..];
      msg := 0;
      for i := 0 to FrameBits
        invariant msg == WordPrefix(t, i)
      {
        Unfold(t, i);
        assert bitTimes[i] == t[i];
        msg := msg | AtPosition(PulseBit(bitTimes[i]), i);
      }
    }

    /** The clearing loop of the timeout handler: every capture slot and the index back to 0. */
    method ClearCapture()
      requires Valid()
      modifies this, bitTimes
      ensures Valid()
      ensures bitTimes[..] == seq(FrameBits, _ => 0) && bitTimeIndex == 0
      ensures command == old(command) && calls == old(calls)
    {
      for i := 0 to FrameBits
        invariant bitTimes[..i] == seq(i, _ => 0)
        invariant command == old(command) && calls == old(calls)
      {
        bitTimes[i] := 0;
        assert bitTimes[..i + 1] == bitTimes[..i] + [0];
      }
      assert bitTimes[..] == bitTimes[..FrameBits];
      bitTimeIndex := 0;
    }

    /** `irdecoder_process`: runs the pending code's callback, if any, and clears the pending code. */
    method Process() returns (o: Outcome)
      requires Valid()
      modifies this
      ensures Valid() && command == NoCommand
      ensures o == Dispatch(old(command), irCommands[..])
      ensures calls == if o.Called? then old(calls) + [o.call] else old(calls)
      ensures bitTimeIndex == old(bitTimeIndex)
    {
      if command == NoCommand {
        return NoPending;
      }
      if command >= IrTableSize {
        o := OutOfTable(command);
      } else {
        var slot := IrToCommand(command) as nat;
        var entry := irCommands[slot];
        if entry.command.Some? {
          o := Called(Call(App(entry.command.value), entry.arg));
          calls := calls + [o.call];
        } else {
          o := Ignored(slot);
        }
      }
      command := NoCommand;
    }

    /** `irdecoder_set_commands`: copies the first `count` entries, in order, into the 20 slots. */
    method SetCommands(commands: seq<Callback>, count: uint8)
      requires Valid() && count <= |commands| && count <= CallbackSlots
      modifies irCommands
      ensures irCommands[..count] == commands[..count]
      ensures irCommands[count..] == old(irCommands[count..])
    {
      for i := 0 to count
        invariant irCommands[..i] == commands[..i]
        invariant irCommands[count..] == old(irCommands[count..])
      {
        irCommands[i] := commands[i];
      }
    }
  }
}
