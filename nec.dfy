/**
 * The NEC frame the Apple remote transmits: the 32-bit word built from the
 * remote id, the command byte and the Apple identifier, the marks and
 * spaces send_command requests for it, the pin trace those become, and a
 * receiver that reads the trace back into the word.
 */
module Nec {
  import opened Bits
  import opened Carrier

  /** A value, or none: what a receiver returns when a trace does not read back. */
  datatype Option<T> = None | Some(value: T)

  /** Device identifier, sent in bits 0-15 (0b0111100000010001). */
  const APPLE_IDENTIFIER: nat := 0x7811
  /** Remote identifier, sent in bits 24-31. */
  const REMOTE_ID: nat := 1

  /** The six button commands, sent in bits 16-23. */
  const MENU_COMMAND: uint8 := 0xFC   // 0b11111100
  const PLAY_COMMAND: uint8 := 0xFA   // 0b11111010
  const RIGHT_COMMAND: uint8 := 0xF9  // 0b11111001
  const LEFT_COMMAND: uint8 := 0xF6   // 0b11110110
  const UP_COMMAND: uint8 := 0xF5     // 0b11110101
  const DOWN_COMMAND: uint8 := 0xF3   // 0b11110011

  /** NEC timings in microseconds. */
  const LEADER_MARK_US: int := 9000
  const LEADER_SPACE_US: int := 4500
  const BIT_MARK_US: int := 560
  const ONE_SPACE_US: int := 565
  const ZERO_SPACE_US: int := 1690
  const STOP_MARK_US: int := 560
  /** Number of data bits in a frame. */
  const FRAME_BITS: nat := 32

  /**
   * The frame word for a command: REMOTE_ID shifted left by 8, plus the
   * command, shifted left by 16, plus APPLE_IDENTIFIER. The fields do not
   * overlap, so each one reads back unchanged.
   */
  function Frame(command: uint8): (w: nat)
    ensures w < 0x200_0000
    ensures w % 0x1_0000 == APPLE_IDENTIFIER
    ensures (w / 0x1_0000) % 0x100 == command as int
    ensures w / 0x100_0000 == REMOTE_ID
  {
    (REMOTE_ID * 0x100 + command as int) * 0x1_0000 + APPLE_IDENTIFIER
  }

  /** A frame word fits in 32 bits: after 32 right shifts nothing is left of it. */
  lemma {:induction false} FrameShiftedOut(command: uint8)
    ensures Shr(Frame(command), FRAME_BITS) == 0
  {
    Pow2Values();
    ShrBelowPow(Frame(command), FRAME_BITS);
  }

  /** The command byte of a frame word: bits 16-23. */
  function CommandOf(w: nat): uint8
  {
    ((w / 0x1_0000) % 0x100) as uint8
  }

  /** Extracting bits 16-23 of the frame gives back the command. */
  lemma CommandOfFrame(command: uint8)
    ensures CommandOf(Frame(command)) == command
  {
  }

  /**
   * Bit by bit, the frame is the Apple identifier in bits 0-15, the command
   * in bits 16-23 and the remote id in bits 24-31; this is the word
   * (1 << 24) | (command << 16) | APPLE_IDENTIFIER.
   */
  lemma FrameBits(command: uint8, k: nat)
    requires k < FRAME_BITS
    ensures Bit(Frame(command), k) ==
      if k < 16 then Bit(APPLE_IDENTIFIER, k)
      else if k < 24 then Bit(command as nat, k - 16)
      else Bit(REMOTE_ID, k - 24)
  {
    Pow2Values();
    var high := REMOTE_ID * Pow2(8) + command as nat;
    assert Frame(command) == high * Pow2(16) + APPLE_IDENTIFIER;
    BitOfPlaced(high, APPLE_IDENTIFIER, 16, k);
    if k >= 16 {
      BitOfPlaced(REMOTE_ID, command as nat, 8, k - 16);
    }
  }

  /** What send_command asks for: a carrier burst or a silent delay. */
  datatype Symbol =
    | Mark(us: int)   // send_pulse(us)
    | Space(us: int)  // _delay_us(us) with the LED off

  /** The pin trace of one symbol. */
  function RenderSymbol(s: Symbol): seq<Event>
  {
    match s
    case Mark(us) => Burst(Cycles(us))
    case Space(us) => [Wait(us)]
  }

  /** The pin trace of a sequence of symbols. */
  function Render(syms: seq<Symbol>): seq<Event>
  {
    if syms == [] then [] else RenderSymbol(syms[0]) + Render(syms[1..])
  }

  /** Rendering distributes over concatenation. */
  lemma {:induction false} RenderAppend(a: seq<Symbol>, b: seq<Symbol>)
    ensures Render(a + b) == Render(a) + Render(b)
  {
    if a != [] {
      assert (a + b)[0] == a[0] && (a + b)[1..] == a[1..] + b;
      RenderAppend(a[1..], b);
      assert Render(a + b) == RenderSymbol(a[0]) + (Render(a[1..]) + Render(b));
    } else {
      assert a + b == b;
    }
  }

  /** The space after a data bit. */
  function Gap(bit: nat): int
  {
    if bit == 1 then ONE_SPACE_US else ZERO_SPACE_US
  }

  /** The marks and spaces of the first n data bits of w, least significant first. */
  function DataSymbols(w: nat, n: nat): (syms: seq<Symbol>)
    ensures |syms| == 2 * n
  {
    if n == 0 then []
    else DataSymbols(w, n - 1) + [Mark(BIT_MARK_US), Space(Gap(Bit(w, n - 1)))]
  }

  /** A whole transmission of the frame word w. */
  function Transmission(w: nat): seq<Symbol>
  {
    [Mark(LEADER_MARK_US), Space(LEADER_SPACE_US)] + DataSymbols(w, FRAME_BITS) + [Mark(STOP_MARK_US)]
  }

  /** What has been sent once the leader and the first n data bits are out. */
  function Prefix(w: nat, n: nat): seq<Symbol>
  {
    [Mark(LEADER_MARK_US), Space(LEADER_SPACE_US)] + DataSymbols(w, n)
  }

  /** The trace before any data bit: the leader burst and the leader space. */
  lemma PrefixRenderStart(w: nat)
    ensures Render(Prefix(w, 0)) == Burst(Cycles(LEADER_MARK_US)) + [Wait(LEADER_SPACE_US)]
  {
    assert Prefix(w, 0) == [Mark(LEADER_MARK_US), Space(LEADER_SPACE_US)];
    RenderPair(Mark(LEADER_MARK_US), Space(LEADER_SPACE_US));
  }

  /** Sending data bit n adds a 560 us burst and the space that encodes bit n of w. */
  lemma PrefixRenderStep(w: nat, n: nat)
    ensures Render(Prefix(w, n + 1)) ==
      Render(Prefix(w, n)) + Burst(Cycles(BIT_MARK_US)) + [Wait(Gap(Bit(w, n)))]
  {
    var bit := [Mark(BIT_MARK_US), Space(Gap(Bit(w, n)))];
    assert Prefix(w, n + 1) == Prefix(w, n) + bit;
    RenderAppend(Prefix(w, n), bit);
    RenderPair(bit[0], bit[1]);
  }

  /** A transmission is the 32-bit prefix followed by the stop burst. */
  lemma TransmissionRenderEnd(w: nat)
    ensures Render(Transmission(w)) == Render(Prefix(w, FRAME_BITS)) + Burst(Cycles(STOP_MARK_US))
  {
    assert Transmission(w) == Prefix(w, FRAME_BITS) + [Mark(STOP_MARK_US)];
    RenderAppend(Prefix(w, FRAME_BITS), [Mark(STOP_MARK_US)]);
    RenderSingle(Mark(STOP_MARK_US));
  }

  /** The k-th data burst is a 560 us mark followed by 565 us for a 1 and 1690 us for a 0. */
  lemma {:induction false} DataSymbolsAt(w: nat, n: nat, k: nat)
    requires k < n
    ensures DataSymbols(w, n)[2 * k] == Mark(BIT_MARK_US)
    ensures DataSymbols(w, n)[2 * k + 1] == Space(if Bit(w, k) == 1 then ONE_SPACE_US else ZERO_SPACE_US)
  {
    if k < n - 1 {
      DataSymbolsAt(w, n - 1, k);
    }
  }

  /** Peeling off the first data bit leaves the remaining bits of w >> 1. */
  lemma {:induction false} DataSymbolsCons(w: nat, n: nat)
    requires n > 0
    ensures DataSymbols(w, n) == [Mark(BIT_MARK_US), Space(Gap(w % 2))] + DataSymbols(w / 2, n - 1)
  {
    var head := [Mark(BIT_MARK_US), Space(Gap(w % 2))];
    if n > 1 {
      var last := [Mark(BIT_MARK_US), Space(Gap(Bit(w, n - 1)))];
      DataSymbolsCons(w, n - 1);
      BitOfHalf(w, n - 2);
      assert DataSymbols(w / 2, n - 1) == DataSymbols(w / 2, n - 2) + last;
      AppendAssoc(head, DataSymbols(w / 2, n - 2), last);
    } else {
      assert DataSymbols(w, 1) == [] + head;
      assert [] + head == head + [];
    }
  }

  /**
   * The shape of a transmission: leader mark and space, then for each bit k
   * a 560 us mark and the space that encodes bit k, then the stop mark.
   */
  lemma TransmissionShape(w: nat)
    ensures |Transmission(w)| == 2 * FRAME_BITS + 3
    ensures Transmission(w)[0] == Mark(LEADER_MARK_US)
    ensures Transmission(w)[1] == Space(LEADER_SPACE_US)
    ensures forall k :: 0 <= k < FRAME_BITS ==>
      Transmission(w)[2 * k + 2] == Mark(BIT_MARK_US) &&
      Transmission(w)[2 * k + 3] == Space(if Bit(w, k) == 1 then ONE_SPACE_US else ZERO_SPACE_US)
    ensures Transmission(w)[2 * FRAME_BITS + 2] == Mark(STOP_MARK_US)
  {
    forall k | 0 <= k < FRAME_BITS
      ensures Transmission(w)[2 * k + 2] == Mark(BIT_MARK_US)
      ensures Transmission(w)[2 * k + 3] == Space(if Bit(w, k) == 1 then ONE_SPACE_US else ZERO_SPACE_US)
    {
      DataSymbolsAt(w, FRAME_BITS, k);
    }
  }

  /** The number of carrier bursts among the symbols. */
  function MarkCount(syms: seq<Symbol>): nat
  {
    if syms == [] then 0 else (if syms[0].Mark? then 1 else 0) + MarkCount(syms[1..])
  }

  lemma {:induction false} MarkCountAppend(a: seq<Symbol>, b: seq<Symbol>)
    ensures MarkCount(a + b) == MarkCount(a) + MarkCount(b)
  {
    if a != [] {
      assert (a + b)[0] == a[0] && (a + b)[1..] == a[1..] + b;
      MarkCountAppend(a[1..], b);
    } else {
      assert a + b == b;
    }
  }

  /** n data bits hold n carrier bursts. */
  lemma {:induction false} DataMarkCount(w: nat, n: nat)
    ensures MarkCount(DataSymbols(w, n)) == n
  {
    if n > 0 {
      var pair := [Mark(BIT_MARK_US), Space(Gap(Bit(w, n - 1)))];
      DataMarkCount(w, n - 1);
      MarkCountAppend(DataSymbols(w, n - 1), pair);
      assert pair[1..][1..] == [];
      assert MarkCount(pair[1..]) == 0;
    }
  }

  /** Every transmission holds exactly 34 carrier bursts: leader, 32 data bits, stop. */
  lemma TransmissionMarkCount(w: nat)
    ensures MarkCount(Transmission(w)) == FRAME_BITS + 2
  {
    var lead := [Mark(LEADER_MARK_US), Space(LEADER_SPACE_US)];
    DataMarkCount(w, FRAME_BITS);
    MarkCountAppend(lead, DataSymbols(w, FRAME_BITS));
    MarkCountAppend(lead + DataSymbols(w, FRAME_BITS), [Mark(STOP_MARK_US)]);
  }

  /**
   * The pin trace of the first n data bits of w, read from the front: the
   * 560 us burst and the space of bit 0, then the bits of w >> 1.
   */
  function DataEvents(w: nat, n: nat): seq<Event>
  {
    if n == 0 then [] else Burst(Cycles(BIT_MARK_US)) + ([Wait(Gap(w % 2))] + DataEvents(w / 2, n - 1))
  }

  /** The rendering of n data bits starts with the mark and the space of bit 0. */
  lemma RenderDataCons(w: nat, n: nat)
    requires n > 0
    ensures Render(DataSymbols(w, n)) ==
      Burst(Cycles(BIT_MARK_US)) + ([Wait(Gap(w % 2))] + Render(DataSymbols(w / 2, n - 1)))
  {
    var head := [Mark(BIT_MARK_US), Space(Gap(w % 2))];
    DataSymbolsCons(w, n);
    RenderAppend(head, DataSymbols(w / 2, n - 1));
    RenderPair(head[0], head[1]);
    AppendAssoc(Burst(Cycles(BIT_MARK_US)), [Wait(Gap(w % 2))], Render(DataSymbols(w / 2, n - 1)));
  }

  /** Read from the front, the rendering of the data symbols is DataEvents. */
  lemma {:induction false} DataEventsRender(w: nat, n: nat)
    ensures DataEvents(w, n) == Render(DataSymbols(w, n))
  {
    if n > 0 {
      DataEventsRender(w / 2, n - 1);
      RenderDataCons(w, n);
    } else {
      assert DataSymbols(w, 0) == [];
    }
  }

  /** The number of 1 bits among the first n bits of w. */
  function Ones(w: nat, n: nat): (c: nat)
    ensures c <= n
  {
    if n == 0 then 0 else w % 2 + Ones(w / 2, n - 1)
  }

  /** The data bits of w last 572 us of carrier each, plus 565 us per 1 and 1690 us per 0. */
  lemma {:induction false} DataDuration(w: nat, n: nat)
    ensures Duration(DataEvents(w, n)) ==
      572 * n + 565 * Ones(w, n) + 1690 * (n - Ones(w, n))
  {
    if n > 0 {
      var mark := Burst(Cycles(BIT_MARK_US));
      var space := [Wait(Gap(w % 2))];
      var others := DataEvents(w / 2, n - 1);
      assert Duration(mark + (space + others)) == 572 + Gap(w % 2) + Duration(others) by {
        DurationAppend(mark, space + others);
        DurationAppend(space, others);
        assert Cycles(BIT_MARK_US) == 22;
        BurstDuration(22);
        assert space[1..] == [];
      }
      DataDuration(w / 2, n - 1);
    }
  }

  /**
   * A transmission of w takes 32398 us of leader and marks plus 565 us per
   * 1 bit and 1690 us per 0 bit, so between 50478 us and 86478 us.
   */
  lemma TransmissionDuration(w: nat)
    ensures Duration(Render(Transmission(w))) ==
      32398 + 565 * Ones(w, FRAME_BITS) + 1690 * (FRAME_BITS - Ones(w, FRAME_BITS))
    ensures 50478 <= Duration(Render(Transmission(w))) <= 86478
  {
    var lead := Burst(Cycles(LEADER_MARK_US));
    var space := [Wait(LEADER_SPACE_US)];
    var data := DataEvents(w, FRAME_BITS);
    var stop := Burst(Cycles(STOP_MARK_US));
    TransmissionRender(w);
    assert Cycles(LEADER_MARK_US) == 347 && Cycles(STOP_MARK_US) == 22;
    BurstDuration(347);
    BurstDuration(22);
    assert Duration(lead) == 9022 && Duration(stop) == 572;
    assert Duration(space) == LEADER_SPACE_US;
    DataDuration(w, FRAME_BITS);
    DurationAppend(data, stop);
    DurationAppend(space, data + stop);
    DurationAppend(lead, space + (data + stop));
  }

  // ---------------------------------------------------------------------
  // Reading a pin trace back into a frame word.
  // ---------------------------------------------------------------------

  /** The bit a space encodes: 565 us is a 1, 1690 us a 0, anything else no bit. */
  function GapBit(us: int): (b: Option<nat>)
    ensures b.Some? <==> us == ONE_SPACE_US || us == ZERO_SPACE_US
    ensures b.Some? ==> b.value <= 1 && Gap(b.value) == us
  {
    if us == ONE_SPACE_US then Some(1)
    else if us == ZERO_SPACE_US then Some(0)
    else None
  }

  /**
   * Reads n data bits, least significant first, each a burst of as many
   * cycles as a 560 us mark and a space; gives their value and what follows.
   */
  function DecodeBits(t: seq<Event>, n: nat): Option<(nat, seq<Event>)>
    decreases n
  {
    if n == 0 then Some((0, t))
    else
      var (cycles, rest) := ReadMark(t);
      if cycles != Cycles(BIT_MARK_US) || rest == [] || !rest[0].Wait? then None
      else match GapBit(rest[0].us)
        case None => None
        case Some(bit) =>
          match DecodeBits(rest[1..], n - 1)
          case None => None
          case Some((v, after)) => Some((bit + 2 * v, after))
  }

  /** Reads a whole transmission: leader, 32 data bits, stop burst and nothing else. */
  function Decode(t: seq<Event>): Option<nat>
  {
    var (cycles, rest) := ReadMark(t);
    if cycles != Cycles(LEADER_MARK_US) || rest == [] || rest[0] != Wait(LEADER_SPACE_US) then None
    else match DecodeBits(rest[1..], FRAME_BITS)
      case None => None
      case Some((w, after)) =>
        var (stop, tail) := ReadMark(after);
        if stop == Cycles(STOP_MARK_US) && tail == [] then Some(w) else None
  }

  /** Decoding the trace of n data bits gives back the low n bits of w. */
  lemma {:induction false} DecodeBitsRender(w: nat, n: nat, tail: seq<Event>)
    ensures DecodeBits(DataEvents(w, n) + tail, n) == Some((LowBits(w, n), tail))
  {
    if n > 0 {
      var others := DataEvents(w / 2, n - 1);
      assert DecodeBits(others + tail, n - 1) == Some((LowBits(w / 2, n - 1), tail)) by {
        DecodeBitsRender(w / 2, n - 1, tail);
      }
      var mark := Burst(Cycles(BIT_MARK_US));
      var rest := [Wait(Gap(w % 2))] + (others + tail);
      assert rest[0] == Wait(Gap(w % 2)) && rest[1..] == others + tail by {
        FirstOfCons(Wait(Gap(w % 2)), others + tail);
      }
      assert ReadMark(mark + rest) == (Cycles(BIT_MARK_US), rest) by {
        ReadMarkBurst(Cycles(BIT_MARK_US), rest);
      }
      assert DataEvents(w, n) + tail == mark + rest by {
        AppendAssoc(mark, [Wait(Gap(w % 2))] + others, tail);
        AppendAssoc([Wait(Gap(w % 2))], others, tail);
      }
      DecodeBitsStep(mark + rest, rest, n, w % 2, LowBits(w / 2, n - 1), tail);
    } else {
      assert DataEvents(w, 0) + tail == tail;
    }
  }

  /** DecodeBits accepts a mark, a space encoding a bit, and the remaining bits. */
  lemma DecodeBitsStep(t: seq<Event>, rest: seq<Event>, n: nat, bit: nat, v: nat, after: seq<Event>)
    requires n > 0 && bit <= 1
    requires ReadMark(t) == (Cycles(BIT_MARK_US), rest)
    requires rest != [] && rest[0] == Wait(Gap(bit))
    requires DecodeBits(rest[1..], n - 1) == Some((v, after))
    ensures DecodeBits(t, n) == Some((bit + 2 * v, after))
  {
  }

  /** Anything DecodeBits accepts is the trace of the bits it returns. */
  lemma {:induction false} DecodeBitsSound(t: seq<Event>, n: nat)
    requires DecodeBits(t, n).Some?
    ensures DecodeBits(t, n).value.0 < Pow2(n)
    ensures t == DataEvents(DecodeBits(t, n).value.0, n) + DecodeBits(t, n).value.1
    decreases n
  {
    if n > 0 {
      var (cycles, rest) := ReadMark(t);
      var bit := GapBit(rest[0].us).value;
      var more := rest[1..];
      var (v, after) := DecodeBits(more, n - 1).value;
      assert v < Pow2(n - 1) && more == DataEvents(v, n - 1) + after by {
        DecodeBitsSound(more, n - 1);
      }
      var w := bit + 2 * v;
      assert DecodeBits(t, n) == Some((w, after));
      assert w % 2 == bit && w / 2 == v;
      assert t == DataEvents(w, n) + after by {
        SplitFirst(rest);
        AppendAssoc([Wait(Gap(bit))], DataEvents(v, n - 1), after);
        AppendAssoc(Burst(cycles), [Wait(Gap(bit))] + DataEvents(v, n - 1), after);
      }
    } else {
      assert t == [] + t;
    }
  }

  /** The leader and stop parts of a transmission's trace. */
  lemma TransmissionRender(w: nat)
    ensures Render(Transmission(w)) ==
      Burst(Cycles(LEADER_MARK_US)) + ([Wait(LEADER_SPACE_US)] +
      (DataEvents(w, FRAME_BITS) + Burst(Cycles(STOP_MARK_US))))
  {
    var lead := [Mark(LEADER_MARK_US), Space(LEADER_SPACE_US)];
    var data := DataSymbols(w, FRAME_BITS);
    var stop := [Mark(STOP_MARK_US)];
    assert Render(Transmission(w)) ==
      Burst(Cycles(LEADER_MARK_US)) + ([Wait(LEADER_SPACE_US)] + (Render(data) + Burst(Cycles(STOP_MARK_US)))) by {
      RenderAppend(lead + data, stop);
      RenderAppend(lead, data);
      RenderPair(Mark(LEADER_MARK_US), Space(LEADER_SPACE_US));
      RenderSingle(Mark(STOP_MARK_US));
    }
    DataEventsRender(w, FRAME_BITS);
  }

  lemma RenderSingle(s: Symbol)
    ensures Render([s]) == RenderSymbol(s)
  {
    assert [s][1..] == [];
  }

  lemma RenderPair(s: Symbol, u: Symbol)
    ensures Render([s, u]) == RenderSymbol(s) + RenderSymbol(u)
  {
    assert [s, u][1..] == [u];
    RenderSingle(u);
  }

  /**
   * Round trip: a receiver that reads the leader, then 32 spaces as bits
   * (565 us -> 1, 1690 us -> 0, least significant first), then the stop
   * burst, rebuilds exactly the 32-bit word that was sent.
   */
  lemma RoundTrip(w: nat)
    requires w < Pow2(FRAME_BITS)
    ensures Decode(Render(Transmission(w))) == Some(w)
  {
    TransmissionRender(w);
    DecodeEvents(w);
  }

  /** The receiver reads a word that fits in 32 bits back from its trace. */
  lemma DecodeEvents(w: nat)
    requires w < Pow2(FRAME_BITS)
    ensures Decode(Burst(Cycles(LEADER_MARK_US)) + ([Wait(LEADER_SPACE_US)] +
      (DataEvents(w, FRAME_BITS) + Burst(Cycles(STOP_MARK_US))))) == Some(w)
  {
    var lead := Burst(Cycles(LEADER_MARK_US));
    var stop := Burst(Cycles(STOP_MARK_US));
    var data := DataEvents(w, FRAME_BITS);
    assert DecodeBits(data + stop, FRAME_BITS) == Some((w, stop)) by {
      DecodeBitsRender(w, FRAME_BITS, stop);
      LowBitsOfSmall(w, FRAME_BITS);
    }
    assert ReadMark(stop) == (Cycles(STOP_MARK_US), []) by {
      ReadMarkBurst(Cycles(STOP_MARK_US), []);
      AppendNil(stop);
    }
    var afterLeader := [Wait(LEADER_SPACE_US)] + (data + stop);
    assert afterLeader[0] == Wait(LEADER_SPACE_US) && afterLeader[1..] == data + stop by {
      FirstOfCons(Wait(LEADER_SPACE_US), data + stop);
    }
    assert ReadMark(lead + afterLeader) == (Cycles(LEADER_MARK_US), afterLeader) by {
      ReadMarkBurst(Cycles(LEADER_MARK_US), afterLeader);
    }
    DecodeFrom(lead + afterLeader, afterLeader, w, stop);
  }

  /** Decode accepts a trace whose leader, data bits and stop burst each read correctly. */
  lemma DecodeFrom(t: seq<Event>, rest: seq<Event>, w: nat, after: seq<Event>)
    requires ReadMark(t) == (Cycles(LEADER_MARK_US), rest)
    requires rest != [] && rest[0] == Wait(LEADER_SPACE_US)
    requires DecodeBits(rest[1..], FRAME_BITS) == Some((w, after))
    requires ReadMark(after) == (Cycles(STOP_MARK_US), [])
    ensures Decode(t) == Some(w)
  {
  }

  /** The receiver accepts nothing but transmissions: what it reads is what was sent. */
  lemma DecodeSound(t: seq<Event>)
    requires Decode(t).Some?
    ensures Decode(t).value < Pow2(FRAME_BITS)
    ensures t == Render(Transmission(Decode(t).value))
  {
    var (cycles, rest) := ReadMark(t);
    assert cycles == Cycles(LEADER_MARK_US) && rest != [] && rest[0] == Wait(LEADER_SPACE_US);
    var data := rest[1..];
    var bits := DecodeBits(data, FRAME_BITS);
    assert bits.Some?;
    var (w, after) := bits.value;
    var (stop, tail) := ReadMark(after);
    assert stop == Cycles(STOP_MARK_US) && tail == [];
    assert Decode(t) == Some(w);
    assert w < Pow2(FRAME_BITS) && data == DataEvents(w, FRAME_BITS) + after by {
      DecodeBitsSound(data, FRAME_BITS);
    }
    assert after == Burst(Cycles(STOP_MARK_US)) by {
      AppendNil(Burst(stop));
    }
    assert rest == [Wait(LEADER_SPACE_US)] + data by {
      SplitFirst(rest);
    }
    assert t == Render(Transmission(w)) by {
      TransmissionRender(w);
    }
  }

  lemma CommandRoundTrip(command: uint8)
    ensures Decode(Render(Transmission(Frame(command)))) == Some(Frame(command))
    ensures CommandOf(Decode(Render(Transmission(Frame(command)))).value) == command
  {
    Pow2Values();
    RoundTrip(Frame(command));
  }
}
