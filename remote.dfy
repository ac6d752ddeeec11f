/**
 * The transmitter itself: the PORTC register that drives the IR LED and the
 * trace of what the LED did, with send_pulse, send_command and the body of
 * the pin-change interrupt handler as methods that update them.
 */
module Remote {
  import opened Bits
  import opened Carrier
  import opened Nec
  import opened Buttons

  /** The PC5 bit of PORTC. */
  const LED_MASK: bv8 := 1 << LED_PIN

  /** PORTC after PC5 is set: the LED is on and every other bit is kept. */
  function LedSet(port: bv8): (p: bv8)
    ensures p & LED_MASK == LED_MASK
    ensures p & !LED_MASK == port & !LED_MASK
  {
    port | LED_MASK
  }

  /** PORTC after PC5 is cleared: the LED is off and every other bit is kept. */
  function LedCleared(port: bv8): (p: bv8)
    ensures p & LED_MASK == 0
    ensures p & !LED_MASK == port & !LED_MASK
  {
    port & !LED_MASK
  }

  /** Clearing PC5 twice, or after setting it, is clearing it once. */
  lemma LedClearedAbsorbs(port: bv8)
    ensures LedCleared(LedCleared(port)) == LedCleared(port)
    ensures LedCleared(LedSet(port)) == LedCleared(port)
  {
  }

  /** The trace after the leader burst and the leader space. */
  lemma SentLeader(earlier: seq<Event>, w: nat)
    ensures earlier + Burst(Cycles(LEADER_MARK_US)) + [Wait(LEADER_SPACE_US)] == earlier + Render(Prefix(w, 0))
  {
    PrefixRenderStart(w);
    AppendAssoc(earlier, Burst(Cycles(LEADER_MARK_US)), [Wait(LEADER_SPACE_US)]);
  }

  /** The trace after the mark and the space of data bit n. */
  lemma SentBit(earlier: seq<Event>, w: nat, n: nat)
    ensures earlier + Render(Prefix(w, n)) + Burst(Cycles(BIT_MARK_US)) + [Wait(Gap(Bit(w, n)))] ==
      earlier + Render(Prefix(w, n + 1))
  {
    var before := Render(Prefix(w, n));
    var mark := Burst(Cycles(BIT_MARK_US));
    PrefixRenderStep(w, n);
    AppendAssoc(earlier, before, mark);
    AppendAssoc(earlier, before + mark, [Wait(Gap(Bit(w, n)))]);
  }

  /** The trace after the stop burst. */
  lemma SentStop(earlier: seq<Event>, w: nat)
    ensures earlier + Render(Prefix(w, FRAME_BITS)) + Burst(Cycles(STOP_MARK_US)) == earlier + Render(Transmission(w))
  {
    TransmissionRenderEnd(w);
    AppendAssoc(earlier, Render(Prefix(w, FRAME_BITS)), Burst(Cycles(STOP_MARK_US)));
  }

  class Transmitter {
    /** PORTC; only its PC5 bit is ever written. */
    var port: bv8
    /** Every write to PC5 and every delay so far, oldest first. */
    var trace: seq<Event>

    constructor (initial: bv8)
      ensures port == initial && trace == []
    {
      port := initial;
      trace := [];
    }

    /** PC5 is low: the LED is off. */
    predicate LedOff()
      reads this
    {
      port & LED_MASK == 0
    }

    /** _delay_us: the pin keeps its level for us microseconds. */
    method Delay(us: int)
      modifies this
      ensures port == old(port)
      ensures trace == old(trace) + [Wait(us)]
    {
      trace := trace + [Wait(us)];
    }

    /**
     * send_pulse: one carrier cycle (PC5 high, 10 us, PC5 low, 16 us) per
     * 26 us of the requested duration, rounded up. A duration of 0 or less
     * does nothing; otherwise PC5 ends low and no other PORTC bit changes.
     */
    method SendPulse(duration: int16)
      modifies this
      ensures trace == old(trace) + Burst(Cycles(duration as int))
      ensures duration <= 0 ==> port == old(port)
      ensures duration > 0 ==> port == LedCleared(old(port)) && LedOff()
    {
      var remaining := duration;
      ghost var n: nat := 0;
      while remaining > 0
        invariant remaining as int == duration as int - CYCLE_US * n
        invariant n > 0 ==> remaining as int > -CYCLE_US
        invariant trace == old(trace) + Burst(n)
        invariant port == if n == 0 then old(port) else LedCleared(old(port))
      {
        BurstExtend(old(trace), n);
        LedClearedAbsorbs(port);
        port := LedSet(port);              // PORTC |= 1 << PC5
        trace := trace + [High];
        Delay(ON_US);
        port := LedCleared(port);          // PORTC &= ~(1 << PC5)
        trace := trace + [Low];
        Delay(OFF_US);
        remaining := remaining - CYCLE_US as int16;
        n := n + 1;
      }
      if duration > 0 {
        CyclesUnique(duration as int, n);
      }
    }

    /**
     * send_command: assembles the frame word, then sends the leader, the 32
     * data bits least significant first, and the stop burst.
     */
    method SendCommand(command: uint8)
      modifies this
      ensures trace == old(trace) + Render(Transmission(Frame(command)))
      ensures port == LedCleared(old(port)) && LedOff()
    {
      var data: int32 := REMOTE_ID as int32;
      data := data * 0x100;                       // data << 8
      data := data + command as int32;
      data := data * 0x1_0000;                    // data << 16
      data := data + APPLE_IDENTIFIER as int32;
      ghost var frame: nat := Frame(command);
      assert data as int == frame;

      LedClearedAbsorbs(port);
      SendPulse(9000);                            // LEADER_MARK_US
      Delay(4500);                                // LEADER_SPACE_US
      assert trace == old(trace) + Render(Prefix(frame, 0)) by {
        SentLeader(old(trace), frame);
      }

      var count: int16 := 0;
      while count < 32                            // FRAME_BITS
        invariant 0 <= count as int <= FRAME_BITS
        invariant data >= 0 && data as int == Shr(frame, count as nat)
        invariant trace == old(trace) + Render(Prefix(frame, count as nat))
        invariant port == LedCleared(old(port))
      {
        ghost var bit := Bit(frame, count as nat);
        ghost var before := trace;
        SendPulse(560);                           // BIT_MARK_US
        if data % 2 == 1 {                        // data & 0b1
          Delay(565);                             // ONE_SPACE_US
        } else {
          Delay(1690);                            // ZERO_SPACE_US
        }
        assert trace == old(trace) + Render(Prefix(frame, count as nat + 1)) by {
          assert trace == before + Burst(Cycles(BIT_MARK_US)) + [Wait(Gap(bit))];
          SentBit(old(trace), frame, count as nat);
        }
        data := data / 2;                         // data >> 1
        count := count + 1;
      }
      assert data == 0 by {
        FrameShiftedOut(command);
      }

      SendPulse(560);                             // STOP_MARK_US
      assert trace == old(trace) + Render(Transmission(frame)) by {
        SentStop(old(trace), frame);
      }
    }

    /**
     * The pin-change interrupt handler without its interrupt masking: at
     * most one command per call, that of the first pressed button in the
     * order menu, play, right, left, up, down; nothing when none is pressed.
     */
    method OnPinChange(pins: bv8)
      modifies this
      ensures Select(pins).None? ==> trace == old(trace) && port == old(port)
      ensures Select(pins).Some? ==>
        trace == old(trace) + Render(Transmission(Frame(Select(pins).value))) &&
        port == LedCleared(old(port))
    {
      SelectChain(pins);
      if Pressed(pins, MENU_PIN) {
        SendCommand(MENU_COMMAND);
      } else if Pressed(pins, PLAY_PIN) {
        SendCommand(PLAY_COMMAND);
      } else if Pressed(pins, RIGHT_PIN) {
        SendCommand(RIGHT_COMMAND);
      } else if Pressed(pins, LEFT_PIN) {
        SendCommand(LEFT_COMMAND);
      } else if Pressed(pins, UP_PIN) {
        SendCommand(UP_COMMAND);
      } else if Pressed(pins, DOWN_PIN) {
        SendCommand(DOWN_COMMAND);
      }
    }
  }
}
