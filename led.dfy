/**
 * The LED animation of `led.c`: one `led_state` record (active, tick, count,
 * pattern, speed) that a one-millisecond timer advances with `led_update`
 * and that the command handlers edit. Every frame written to the shift
 * register (`sn_send_data`) is appended to a log instead.
 *
 * The record's value is a `Snapshot`; the specification of the timer step is
 * the pure function `Updated` with `Emitted`, and the class `LedState` is the
 * record the firmware mutates, its methods proved against those functions.
 */
module Led {
  import opened Machine
  import CliText

  /** `led_pattern_t`, in the order of its values 0 to 3. */
  datatype Pattern = Binary | Wave | Alternating | Bounce

  /** `led_speed_t`: the rungs of the speed ladder, slowest first. */
  datatype Speed = Slower | Slow | Normal | Fast | Faster

  /** The frame period of a speed, in timer ticks (milliseconds). */
  function Period(s: Speed): (ms: nat)
    ensures 62 <= ms <= 1000
  {
    match s
    case Slower => 1000
    case Slow => 500
    case Normal => 250
    case Fast => 125
    case Faster => 62
  }

  /** A speed's position on the ladder, 1 (slowest) to 5 (fastest). */
  function Rung(s: Speed): (n: nat)
    ensures 1 <= n <= 5
  {
    match s
    case Slower => 1
    case Slow => 2
    case Normal => 3
    case Fast => 4
    case Faster => 5
  }

  /** Higher rungs are strictly faster, so the rung determines the speed. */
  lemma PeriodFallsWithRung(a: Speed, b: Speed)
    ensures Rung(a) < Rung(b) <==> Period(a) > Period(b)
    ensures Rung(a) == Rung(b) <==> a == b
  {
  }

  /** `LED_BOUNCE_RESET`: nine passes over the 28-frame bounce table. */
  const BounceReset: nat := 252

  /** `wave_pattern`. */
  const WaveTable: seq<uint16> := [0x0707, 0x0E0E, 0x1C1C, 0x3838, 0x7070, 0xE0E0, 0xC1C1, 0x8383]

  /** `bounce_pattern`: a pair of lit LEDs travelling to the top and back. */
  const BounceTable: seq<uint16> := [
    0x3, 0x6, 0xC, 0x18, 0x30, 0x60, 0xC0, 0x180, 0x300,
    0x600, 0xC00, 0x1800, 0x3000, 0x6000, 0xC000, 0x6000,
    0x3000, 0x1800, 0xC00, 0x600, 0x300, 0x180, 0xC0,
    0x60, 0x30, 0x18, 0xC, 0x6
  ]

  /**
   * The frame `led_binary`, `led_wave`, `led_alternating` and `led_bounce`
   * send for a pattern and the frame counter; every table index is in bounds.
   */
  function Frame(p: Pattern, count: nat): (f: uint16)
    requires count < U16
    ensures p == Binary ==> f == count
    ensures p == Wave ==> f == WaveTable[count % 8]
    ensures p == Alternating ==> (f == 0xF0F0 <==> count % 2 == 1) && (f == 0x0F0F <==> count % 2 == 0)
    ensures p == Bounce ==> f == BounceTable[count % 28]
  {
    match p
    case Binary => count
    case Wave => WaveTable[count % 8]
    case Alternating => if count % 2 == 1 then 0xF0F0 else 0x0F0F
    case Bounce => BounceTable[count % 28]
  }

  /** Alternating frames light the two halves of each byte in turn: consecutive frames are complements. */
  lemma AlternatingComplements(count: nat)
    requires count + 1 < U16
    ensures Frame(Alternating, count) + Frame(Alternating, count + 1) == 0xFFFF
  {
  }

  /** The bounce table runs up and back down: the frame `i` steps after the bottom equals the one `i` steps before it. */
  lemma BounceMirrored(i: nat)
    requires 0 < i < 28
    ensures BounceTable[i] == BounceTable[28 - i]
  {
  }

  /** The value of `led_state`. */
  datatype Snapshot = Snapshot(active: bool, tick: nat, count: nat, pattern: Pattern, speed: Speed)

  /**
   * The invariant of `led_state`: the countdown lies between 1 and the period,
   * the counter fits its `uint16_t`, and in bounce mode it stays below the reset.
   */
  predicate Inv(s: Snapshot)
  {
    1 <= s.tick <= Period(s.speed) && s.count < U16 && (s.pattern == Bounce ==> s.count < BounceReset)
  }

  /** The counter after a frame: a `uint16_t` increment, cut back to 0 at the bounce reset. */
  function NextCount(p: Pattern, count: nat): (c: nat)
    ensures c < U16
  {
    if p == Bounce && count + 1 >= BounceReset then 0 else (count + 1) % U16
  }

  /**
   * `led_update`: nothing while inactive; otherwise the countdown drops by one,
   * and when it reaches 0 it restarts at the period and the counter advances.
   */
  function Updated(s: Snapshot): (r: Snapshot)
    requires Inv(s)
    ensures Inv(r)
    ensures !s.active ==> r == s
    ensures r.active == s.active && r.pattern == s.pattern && r.speed == s.speed
    ensures s.active && s.tick > 1 ==> r.tick == s.tick - 1 && r.count == s.count
    ensures s.active && s.tick == 1 ==> r.tick == Period(s.speed) && r.count == NextCount(s.pattern, s.count)
  {
    if !s.active then s
    else if s.tick > 1 then s.(tick := s.tick - 1)
    else s.(tick := Period(s.speed), count := NextCount(s.pattern, s.count))
  }

  /** The frames one `led_update` sends: one exactly when the countdown runs out. */
  function Emitted(s: Snapshot): (e: seq<uint16>)
    requires Inv(s)
    ensures |e| <= 1
    ensures |e| == 1 <==> s.active && s.tick == 1
  {
    if s.active && s.tick == 1 then [Frame(s.pattern, s.count)] else []
  }

  /** The state after `n` timer ticks. */
  function Run(s: Snapshot, n: nat): (r: Snapshot)
    requires Inv(s)
    ensures Inv(r)
    decreases n
  {
    if n == 0 then s else Run(Updated(s), n - 1)
  }

  /** The frames sent during `n` timer ticks. */
  function Frames(s: Snapshot, n: nat): seq<uint16>
    requires Inv(s)
    decreases n
  {
    if n == 0 then [] else Emitted(s) + Frames(Updated(s), n - 1)
  }

  /** An inactive animation never changes and never sends a frame. */
  lemma {:induction false} InactiveFrozen(s: Snapshot, n: nat)
    requires Inv(s) && !s.active
    ensures Run(s, n) == s && Frames(s, n) == []
    decreases n
  {
    if n > 0 {
      InactiveFrozen(Updated(s), n - 1);
    }
  }

  /** Fewer ticks than the countdown only count it down, silently. */
  lemma {:induction false} Quiet(s: Snapshot, n: nat)
    requires Inv(s) && s.active && n < s.tick
    ensures Run(s, n) == s.(tick := s.tick - n) && Frames(s, n) == []
    decreases n
  {
    if n > 0 {
      Quiet(Updated(s), n - 1);
    }
  }

  /**
   * The countdown's worth of ticks sends exactly the current frame, then the
   * counter has advanced and a full period starts.
   */
  lemma {:induction false} OneFramePerCountdown(s: Snapshot)
    requires Inv(s) && s.active
    ensures Frames(s, s.tick) == [Frame(s.pattern, s.count)]
    ensures Run(s, s.tick) == s.(tick := Period(s.speed), count := NextCount(s.pattern, s.count))
    decreases s.tick
  {
    if s.tick > 1 {
      OneFramePerCountdown(Updated(s));
    }
  }

  /**
   * The bounce frame index steps by one around the 28-frame table on every
   * frame, the reset at 252 included: 251 sits at index 27 and 0 at index 0.
   */
  lemma BounceIndexSteps(count: nat)
    requires count < BounceReset
    ensures NextCount(Bounce, count) % 28 == (count % 28 + 1) % 28
  {
    if count + 1 < BounceReset {
      assert NextCount(Bounce, count) == count + 1;
    }
  }

  /**
   * Without the reset the `uint16_t` counter would wrap from 65535 (index 15)
   * to 0 (index 0), breaking the step; the wave and alternating indices divide
   * 65536 and need no reset.
   */
  lemma WrapOnlyBreaksBounce(count: nat)
    requires count < U16
    ensures NextCount(Wave, count) % 8 == (count % 8 + 1) % 8
    ensures NextCount(Alternating, count) % 2 != count % 2
    ensures (U16 - 1) % 28 == 15 && ((U16 - 1) % 28 + 1) % 28 != (U16 % U16) % 28
  {
    if count + 1 < U16 {
      assert NextCount(Wave, count) == count + 1;
    }
  }

  // ---------------------------------------------------------------------------
  // Patterns

  /** The next pattern in the cycle Binary, Wave, Alternating, Bounce. */
  function NextPattern(p: Pattern): Pattern
  {
    match p
    case Binary => Wave
    case Wave => Alternating
    case Alternating => Bounce
    case Bounce => Binary
  }

  /** The previous pattern in the cycle. */
  function PrevPattern(p: Pattern): Pattern
  {
    match p
    case Binary => Bounce
    case Wave => Binary
    case Alternating => Wave
    case Bounce => Alternating
  }

  /** Stepping forwards and back (or back and forwards) restores the pattern. */
  lemma StepsInverse(p: Pattern)
    ensures PrevPattern(NextPattern(p)) == p && NextPattern(PrevPattern(p)) == p
  {
  }

  /** Four forward steps visit every pattern and return to the start. */
  lemma CycleOfFour(p: Pattern)
    ensures NextPattern(NextPattern(NextPattern(NextPattern(p)))) == p
    ensures {p, NextPattern(p), NextPattern(NextPattern(p)), NextPattern(NextPattern(NextPattern(p)))} ==
            {Binary, Wave, Alternating, Bounce}
  {
  }

  /** The pattern `led_toggle_pattern` moves to: back when the argument starts with '-', otherwise forwards. */
  function Toggled(p: Pattern, args: string): (q: Pattern)
    ensures q != p
    ensures |args| > 0 && args[0] == '-' ==> NextPattern(q) == p
    ensures !(|args| > 0 && args[0] == '-') ==> PrevPattern(q) == p
  {
    if |args| > 0 && args[0] == '-' then PrevPattern(p) else NextPattern(p)
  }

  /** The name `led_set_pattern` accepts for a pattern. */
  function Name(p: Pattern): string
  {
    match p
    case Binary => "binary"
    case Wave => "wave"
    case Alternating => "alternating"
    case Bounce => "bounce"
  }

  /** The pattern a `led_set_pattern` argument names, if any. */
  function Named(args: string): (r: Option<Pattern>)
    ensures r.Some? ==> Name(r.value) == args
    ensures r.None? ==> forall p: Pattern :: Name(p) != args
  {
    if args == "wave" then Some(Wave)
    else if args == "alternating" then Some(Alternating)
    else if args == "bounce" then Some(Bounce)
    else if args == "binary" then Some(Binary)
    else None
  }

  /** Each pattern's name selects that pattern. */
  lemma NamesRoundTrip(p: Pattern)
    ensures Named(Name(p)) == Some(p) && IsCString(Name(p))
  {
  }

  // ---------------------------------------------------------------------------
  // Speeds

  /** `led_speed_increase`: one rung faster, staying at the fastest. */
  function Increased(s: Speed): (r: Speed)
    ensures Rung(r) == if s == Faster then 5 else Rung(s) + 1
  {
    match s
    case Slower => Slow
    case Slow => Normal
    case Normal => Fast
    case Fast => Faster
    case Faster => Faster
  }

  /** `led_speed_decrease`: one rung slower, staying at the slowest. */
  function Decreased(s: Speed): (r: Speed)
    ensures Rung(r) == if s == Slower then 1 else Rung(s) - 1
  {
    match s
    case Slower => Slower
    case Slow => Slower
    case Normal => Slow
    case Fast => Normal
    case Faster => Fast
  }

  /** Away from the ends of the ladder, speeding up and slowing down undo each other. */
  lemma {:induction false} SpeedStepsInverse(s: Speed)
    ensures s != Faster ==> Decreased(Increased(s)) == s
    ensures s != Slower ==> Increased(Decreased(s)) == s
  {
    if s != Faster {
      PeriodFallsWithRung(Decreased(Increased(s)), s);
    }
    if s != Slower {
      PeriodFallsWithRung(Increased(Decreased(s)), s);
    }
  }

  /**
   * The speed `led_speed_set` selects for a parsed number: rung `n` for 1 to 5,
   * none for 0 (no case of the switch) and none, rejected, above 5.
   */
  function SpeedSetting(n: nat): (r: Option<Speed>)
    ensures r.Some? <==> 1 <= n <= 5
    ensures r.Some? ==> Rung(r.value) == n
  {
    if n == 1 then Some(Slower)
    else if n == 2 then Some(Slow)
    else if n == 3 then Some(Normal)
    else if n == 4 then Some(Fast)
    else if n == 5 then Some(Faster)
    else None
  }

  /** The countdown after `led_refresh_speed`: cut down to the period when it exceeds it. */
  function Refreshed(tick: nat, s: Speed): (t: nat)
    requires tick >= 1
    ensures 1 <= t <= Period(s) && t <= tick
    ensures tick <= Period(s) ==> t == tick
    ensures tick > Period(s) ==> t == Period(s)
  {
    if tick > Period(s) then Period(s) else tick
  }

  // ---------------------------------------------------------------------------
  // The state record

  class LedState {
    var active: bool
    var tick: nat
    var count: nat
    var pattern: Pattern
    var speed: Speed
    /** The frames sent to the shift register so far, oldest first. */
    var sent: seq<uint16>

    function Value(): Snapshot
      reads this
    {
      Snapshot(active, tick, count, pattern, speed)
    }

    ghost predicate Valid()
      reads this
    {
      Inv(Value())
    }

    /** The record after `led_init`: `led_state_reset`, then `led_reset`. */
    constructor ()
      ensures Valid()
      ensures Value() == Snapshot(true, 1, 0, Binary, Slow) && sent == [0]
    {
      active, count, pattern, speed := true, 0, Binary, Slow;
      tick := 1;
      sent := [0];
    }

    /** `led_update`, run by the one-millisecond timer interrupt. */
    method Update()
      requires Valid()
      modifies this
      ensures Valid()
      ensures Value() == Updated(old(Value()))
      ensures sent == old(sent) + Emitted(old(Value()))
    {
      if !active {
        return;
      }
      tick := tick - 1;
      if tick > 0 {
        return;
      }
      tick := Period(speed);
      sent := sent + [Frame(pattern, count)];
      count := NextCount(pattern, count);
    }

    /** `led_reset`: the countdown restarts at 1 and a blank frame is sent. */
    method Reset()
      modifies this
      ensures tick == 1 && sent == old(sent) + [0]
      ensures active == old(active) && count == old(count) && pattern == old(pattern) && speed == old(speed)
    {
      tick := 1;
      sent := sent + [0];
    }

    /** `led_state_reset`: binary pattern at the slow speed, counter 0, running. */
    method StateReset()
      modifies this
      ensures Valid()
      ensures Value() == Snapshot(true, Period(Slow), 0, Binary, Slow) && sent == old(sent)
    {
      pattern := Binary;
      speed := Slow;
      tick := Period(speed);
      count := 0;
      active := true;
    }

    /** `led_toggle_pattern`: reset, counter 0, and one step along the pattern cycle. */
    method TogglePattern(args: string)
      requires Valid()
      modifies this
      ensures Valid()
      ensures pattern == Toggled(old(pattern), args)
      ensures tick == 1 && count == 0 && sent == old(sent) + [0]
      ensures active == old(active) && speed == old(speed)
    {
      Reset();
      count := 0;
      var back := At(args, 0) == '-';
      pattern := if back then PrevPattern(pattern) else NextPattern(pattern);
    }

    /**
     * `led_set_pattern`: switches to the named pattern, with a reset and counter
     * 0, only when the argument names a pattern other than the current one.
     */
    method SetPattern(args: string)
      requires Valid() && IsCString(args)
      modifies this
      ensures Valid()
      ensures var target := Named(args);
        if target.Some? && target.value != old(pattern) then
          pattern == target.value && tick == 1 && count == 0 && sent == old(sent) + [0] &&
          active == old(active) && speed == old(speed)
        else
          Value() == old(Value()) && sent == old(sent)
    {
      var target: Pattern;
      var wave := CliText.StringsMatch(args, "wave");
      var alternating := CliText.StringsMatch(args, "alternating");
      var bounce := CliText.StringsMatch(args, "bounce");
      var binary := CliText.StringsMatch(args, "binary");
      if wave && pattern != Wave {
        target := Wave;
      } else if alternating && pattern != Alternating {
        target := Alternating;
      } else if bounce && pattern != Bounce {
        target := Bounce;
      } else if binary && pattern != Binary {
        target := Binary;
      } else {
        return;
      }
      pattern := target;
      Reset();
      count := 0;
    }

    /** `led_refresh_speed`: restores the countdown bound after a speed change. */
    method RefreshSpeed()
      requires 1 <= tick && count < U16 && (pattern == Bounce ==> count < BounceReset)
      modifies this
      ensures Valid()
      ensures tick == Refreshed(old(tick), speed)
      ensures active == old(active) && count == old(count) && pattern == old(pattern) && speed == old(speed)
      ensures sent == old(sent)
    {
      if tick > Period(speed) {
        tick := Period(speed);
      }
    }

    /** `led_speed_increase`: one rung faster, or nothing at the fastest. */
    method SpeedIncrease()
      requires Valid()
      modifies this
      ensures Valid()
      ensures speed == Increased(old(speed)) && tick == Refreshed(old(tick), speed)
      ensures active == old(active) && count == old(count) && pattern == old(pattern) && sent == old(sent)
    {
      if speed == Faster {
        return;
      }
      speed := Increased(speed);
      RefreshSpeed();
    }

    /** `led_speed_decrease`: one rung slower, or nothing at the slowest. */
    method SpeedDecrease()
      requires Valid()
      modifies this
      ensures Valid()
      ensures speed == Decreased(old(speed)) && tick == Refreshed(old(tick), speed)
      ensures active == old(active) && count == old(count) && pattern == old(pattern) && sent == old(sent)
    {
      if speed == Slower {
        return;
      }
      speed := Decreased(speed);
      RefreshSpeed();
    }

    /**
     * `led_speed_set`: parses the argument with `cli_string_to_number`; rungs 1
     * to 5 select a speed, anything else leaves the record as it was.
     */
    method SpeedSet(args: string)
      requires Valid() && IsCString(args) && |args| < 256
      modifies this
      ensures Valid()
      ensures var setting := SpeedSetting(CliText.DecimalValue(args) % U32);
        if setting.Some? then speed == setting.value && tick == Refreshed(old(tick), speed)
        else speed == old(speed) && tick == old(tick)
      ensures active == old(active) && count == old(count) && pattern == old(pattern) && sent == old(sent)
    {
      var n := CliText.StringToNumber(args);
      if n > 5 {
        return;
      }
      if n == 1 {
        speed := Slower;
      } else if n == 2 {
        speed := Slow;
      } else if n == 3 {
        speed := Normal;
      } else if n == 4 {
        speed := Fast;
      } else if n == 5 {
        speed := Faster;
      }
      RefreshSpeed();
    }

    /** `led_stop`: halts the animation and blanks the LEDs. */
    method Stop()
      requires Valid()
      modifies this
      ensures Valid()
      ensures !active && tick == 1 && sent == old(sent) + [0]
      ensures count == old(count) && pattern == old(pattern) && speed == old(speed)
    {
      active := false;
      Reset();
    }

    /** `led_start`: resumes the animation where it stopped. */
    method Start()
      requires Valid()
      modifies this
      ensures Valid()
      ensures Value() == old(Value()).(active := true) && sent == old(sent)
    {
      active := true;
    }

    /** `led_toggle`: stops a running animation, starts a stopped one. */
    method Toggle()
      requires Valid()
      modifies this
      ensures Valid()
      ensures active == !old(active)
      ensures old(active) ==> tick == 1 && sent == old(sent) + [0]
      ensures !old(active) ==> tick == old(tick) && sent == old(sent)
      ensures count == old(count) && pattern == old(pattern) && speed == old(speed)
    {
      if active {
        Stop();
      } else {
        Start();
      }
    }
  }
}
