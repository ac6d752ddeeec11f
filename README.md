# Apple Remote IR transmitter, modelled in Dafny

`avr_apple_remote.c` turns an AVR microcontroller into an Apple Remote. A
pin-change interrupt samples six buttons on PORTB. The first pressed button,
in a fixed order, is sent as a 32-bit NEC infrared frame on the LED wired to
PC5 of PORTC, over a 38 kHz carrier. This project models that transmitter
and proves what it sends.

- `bits.dfy` (module `Bits`) holds the C integer widths as newtypes:
  `int16` for avr-gcc's `int`, `int32` for `long` and `uint8` for `uint8_t`.
  It also views shifts and masks as arithmetic: `x << k` is `x * 2^k`,
  `x >> k` is `Shr(x, k)` and `(x >> k) & 1` is `Bit(x, k)`.
- `carrier.dfy` (module `Carrier`) holds the pin trace, a sequence of
  `High` (a write setting PC5), `Low` (a write clearing PC5) and `Wait(us)`
  (a delay) events.
  - A carrier cycle is `High, Wait(10), Low, Wait(16)`.
  - `Burst(n)` is n cycles, and `Cycles(d)` is the number of cycles
    `send_pulse(d)` emits.
  - `ReadMark` is a receiver's view of a burst: it counts whole cycles.
  - `Duration` is the time a trace takes.
- `nec.dfy` (module `Nec`) holds the NEC frame.
  - It defines the constants of `avr_apple_remote.c:33-40`, which agree with
    `avr_apple_remote.h:11-18`, and the timings of `send_command`.
  - `Frame(command)` is the assembled word.
  - `Transmission(w)` is the sequence of marks (`send_pulse`) and spaces
    (`_delay_us`) that `send_command` asks for.
  - `Render` turns those into the pin trace.
  - `DataEvents` is the same trace of the data bits, read from the front.
  - `Decode` is a receiver that rebuilds the word from a trace.
- `buttons.dfy` (module `Buttons`) holds the button pins, the priority
  order of the interrupt handler and `Select`, the command one interrupt
  sends for a snapshot of PINB.
- `remote.dfy` (module `Remote`) holds the class `Transmitter`.
  - Its fields are `port`, which is PORTC, and `trace`, every write to PC5
    and every delay, in order.
  - `SendPulse`, `SendCommand` and `OnPinChange` are imperative methods with
    the loops of `send_pulse`, `send_command` and the interrupt body. They
    are proved against the functions above.

The model follows the code where its comment says otherwise: the comment of
`send_pulse` gives 13 µs on and 13 µs off per carrier cycle, while the code
waits 10 µs with the LED on and 16 µs with it off.

A 1 bit is sent as a 560 µs mark and a 565 µs space, and a 0 bit as a
560 µs mark and a 1690 µs space. The code and its comment agree on this,
although standard NEC uses the long space for a 1; the model follows the
code.

The 9000 µs leader and the 560 µs marks are whole carrier cycles, so they
last 9022 µs and 572 µs. A frame therefore lasts 32398 µs plus 565 µs per
1 bit and 1690 µs per 0 bit: between 50478 µs and 86478 µs.

## Model

| member | source | states |
|---|---|---|
| `Carrier.Burst` | avr_apple_remote.c:45-59 | the output of the send_pulse loop for n iterations: n cycles of PC5 high, 10 us, PC5 low, 16 us (cycle by cycle in `Carrier.BurstAt`) |
| `Carrier.Cycles` | avr_apple_remote.c:45-58 | no cycle for a duration d <= 0; otherwise the count n with d <= 26 n < d + 26, i.e. ceil(d / 26) |
| `Carrier.CyclesUnique` | avr_apple_remote.c:45-58 | any whole number of 26 us cycles that covers d with less than one cycle to spare is `Cycles(d)` |
| `Carrier.BurstAt` | avr_apple_remote.c:47-56 | every cycle k of a burst is exactly PC5 high, 10 us, PC5 low, 16 us |
| `Carrier.BurstExtend` | avr_apple_remote.c:45-59 | one more loop iteration appends exactly one more cycle to the burst |
| `Carrier.BurstDuration` | avr_apple_remote.c:50-58 | a burst of n cycles lasts 26 n us |
| `Carrier.PulseDuration` | avr_apple_remote.c:45-58 | `send_pulse(d)` takes no time for d <= 0; otherwise it takes at least d and less than d + 26 us |
| `Carrier.ReadMark` | avr_apple_remote.c:42-60 | a receiver splits a trace into a leading run of whole carrier cycles and a rest that does not start with a cycle |
| `Carrier.ReadMarkBurst` | avr_apple_remote.c:42-60 | a burst of n cycles reads back as exactly n cycles, whatever non-cycle trace follows it |
| `Carrier.BurstPrefixUnique` | avr_apple_remote.c:42-60 | a trace splits in only one way into a burst and a rest that does not start with a cycle |
| `Carrier.DurationAppend` | avr_apple_remote.c:50-56 | the time of two traces in sequence is the sum of their times |
| `Remote.LedSet` | avr_apple_remote.c:47 | setting PC5 in PORTC makes PC5 high and keeps every other bit of PORTC |
| `Remote.LedCleared` | avr_apple_remote.c:53 | clearing PC5 in PORTC makes PC5 low and keeps every other bit of PORTC |
| `Remote.LedClearedAbsorbs` | avr_apple_remote.c:47-53 | clearing PC5 after setting it, or twice, leaves PORTC as one clear does, so every cycle ends in the same port value |
| `Remote.Transmitter.Delay` | avr_apple_remote.c:50 | `_delay_us(us)` appends `Wait(us)` to the trace and leaves PORTC alone |
| `Remote.Transmitter.SendPulse` | avr_apple_remote.c:42-60 | the trace grows by exactly `Burst(Cycles(d))`; for d <= 0 PORTC is untouched, otherwise PC5 ends low and every other bit is as before |
| `Remote.SentLeader` | avr_apple_remote.c:98-99 | the leader burst and leader space are the trace of the transmission before any data bit |
| `Remote.SentBit` | avr_apple_remote.c:104-110 | one data-loop iteration extends the trace of the first count bits to that of the first count + 1 bits |
| `Remote.SentStop` | avr_apple_remote.c:117 | the stop burst after the 32 data bits completes the trace of the whole transmission |
| `Remote.Transmitter.SendCommand` | avr_apple_remote.c:90-118 | the `long` assembly never overflows; the loop runs 32 times with `data == frame >> count`; the trace grows by exactly the rendering of `Transmission(Frame(command))`; PC5 ends low and no other PORTC bit changes |
| `Remote.Transmitter.OnPinChange` | avr_apple_remote.c:123-135 | at most one command is sent: `Select(pins)` if any, with the trace and port of that transmission; nothing at all when `Select(pins)` is none |
| `Nec.Frame` | avr_apple_remote.c:91-95 | the frame is below 2^25, its low 16 bits are the Apple identifier, bits 16-23 the command and the bits above the remote id |
| `Nec.FrameBits` | avr_apple_remote.c:91-95 | bit by bit the frame is the bitwise or of `1 << 24`, `command << 16` and `0b0111100000010001`: identifier in bits 0-15, command in 16-23, remote id in 24-31 |
| `Bits.BitOfPlaced` | avr_apple_remote.c:92-95 | adding a value below 2^j to `x << j` never carries: the low j bits are its bits and the higher ones those of x |
| `Nec.CommandOfFrame` | avr_apple_remote.c:91-95 | bits 16-23 of the frame are the command |
| `Nec.FrameShiftedOut` | avr_apple_remote.c:102-114 | after the 32 right shifts of the data loop nothing of the frame is left (`data == 0`) |
| `Nec.Gap` | avr_apple_remote.c:105-109 | the space after a data bit: 565 us for a 1 and 1690 us for a 0 |
| `Nec.RenderSymbol` | avr_apple_remote.c:98-117 | a mark `send_pulse(us)` becomes the burst of `Cycles(us)` carrier cycles, a space `_delay_us(us)` becomes one `Wait(us)` |
| `Nec.Render` | avr_apple_remote.c:97-117 | the pin trace of the marks and spaces in order, each rendered by `RenderSymbol` |
| `Nec.Transmission` | avr_apple_remote.c:97-117 | what send_command asks for: a 9000 us mark, a 4500 us space, the 32 data bits, a 560 us stop mark |
| `Nec.DataSymbols` | avr_apple_remote.c:103-114 | the data loop asks for two symbols per bit |
| `Nec.DataSymbolsAt` | avr_apple_remote.c:103-110 | the k-th data mark is 560 us and the space after it is 565 us when bit k of the word is 1 and 1690 us when it is 0, so bits go out least significant first |
| `Nec.DataSymbolsCons` | avr_apple_remote.c:103-113 | sending bit 0 and then the remaining bits of `data >> 1` is sending the bits of data |
| `Nec.PrefixRenderStart` | avr_apple_remote.c:98-99 | before the data loop the trace is the 9000 us leader burst and the 4500 us space |
| `Nec.PrefixRenderStep` | avr_apple_remote.c:104-110 | data bit n adds a 560 us burst and the space that encodes bit n |
| `Nec.TransmissionRenderEnd` | avr_apple_remote.c:117 | a transmission is the leader and data followed by the 560 us stop burst |
| `Nec.TransmissionShape` | avr_apple_remote.c:97-117 | a transmission is 67 symbols: leader mark and space, then a 560 us mark and the space that encodes bit k for each k < 32, then the stop mark |
| `Nec.TransmissionMarkCount` | avr_apple_remote.c:97-117 | every transmission holds exactly 34 carrier bursts, whatever the command |
| `Nec.RenderAppend` | avr_apple_remote.c:97-117 | the trace of symbols sent one after another is the concatenation of their traces |
| `Nec.DataEventsRender` | avr_apple_remote.c:103-114 | the trace of the data loop, read from the front, is each bit's burst and space followed by the trace of the bits of `data >> 1` |
| `Nec.TransmissionRender` | avr_apple_remote.c:97-117 | the trace of a transmission is the leader burst, the leader space, the data trace and the stop burst |
| `Nec.Ones` | avr_apple_remote.c:105-110 | the number of 1 bits among the first n bits is at most n |
| `Nec.DataDuration` | avr_apple_remote.c:104-110 | the data bits last 572 us of carrier each plus 565 us per 1 bit and 1690 us per 0 bit |
| `Nec.TransmissionDuration` | avr_apple_remote.c:97-117 | a whole transmission lasts 32398 us plus 565 us per 1 bit and 1690 us per 0 bit, between 50478 and 86478 us |
| `Nec.GapBit` | avr_apple_remote.c:105-110 | the receiver reads a 565 us space as 1, a 1690 us space as 0 and anything else as no bit, the inverse of the gap the loop sends |
| `Nec.DecodeBitsRender` | avr_apple_remote.c:103-114 | reading the trace of n data bits of a word gives back its low n bits and leaves what follows untouched |
| `Nec.DecodeBitsSound` | avr_apple_remote.c:103-114 | whatever the bit reader accepts is exactly the trace of the value it returns, a value below 2^n |
| `Nec.DecodeEvents` | avr_apple_remote.c:97-117 | the receiver reads a 32-bit word back from its leader, data and stop trace |
| `Nec.RoundTrip` | avr_apple_remote.c:91-117 | decoding the trace of the transmission of any word below 2^32 gives back that word |
| `Nec.DecodeSound` | avr_apple_remote.c:97-117 | any trace the receiver accepts is exactly the trace of the transmission of the word it returns, and that word is below 2^32 |
| `Nec.CommandRoundTrip` | avr_apple_remote.c:91-117 | decoding the transmission of any command gives back its frame, and bits 16-23 of that give back the command |
| `Buttons.Pressed` | avr_apple_remote.c:123-133 | a button is pressed when its pin reads 0 in the PINB snapshot, the test `!(BUTTON_PIN & (1 << pin))` |
| `Buttons.Priority` | avr_apple_remote.c:123-134 | the handler's order of tests: menu on PB0, play on PB5, right on PB2, left on PB1, up on PB3, down on PB4, each with its command |
| `Buttons.Select` | avr_apple_remote.c:123-135 | the command of the first pressed button in `Priority`, or none when no button is pressed (stated in `Buttons.SelectSpec`) |
| `Buttons.FirstPressed` | avr_apple_remote.c:123-135 | the first pressed button at or after a position in the handler's order, with no pressed button before it |
| `Buttons.SelectSpec` | avr_apple_remote.c:123-135 | no command exactly when all six button pins read 1; otherwise the command of a pressed button with no pressed button ahead of it |
| `Buttons.SelectPrefersEarlier` | avr_apple_remote.c:123-135 | whenever a button is pressed a command is sent, and a pressed button's command is sent exactly when no earlier button is pressed |
| `Buttons.PriorityCommandsDistinct` | avr_apple_remote.c:16-40 | the six buttons use six different pins (lines 16-21) and six different commands (lines 35-40) |
| `Buttons.SelectChain` | avr_apple_remote.c:123-135 | the handler's if-else chain, menu, play, right, left, up, down, computes `Select` |

## Left out

- `main` (avr_apple_remote.c:62-82) is not modelled. It only sets up the registers and enables interrupts, then idles forever.
- `cli()` and `sei()` around the interrupt body are not modelled. That is interrupt masking; one `OnPinChange` call runs to completion.
- The accuracy of `_delay_us` and `F_CPU` is not modelled. A delay is a `Wait(us)` event of the requested length, and pin writes take no time.
- `Remote.Transmitter.OnPinChange` reads PINB once, as its parameter `pins`. The C code rereads the register in every test of the chain, so a button that changes state during the chain is not modelled.
- `example/avr_apple_remote.c` and `example/avr_apple_remote_application.c` are not part of this model. Their interrupt handlers call wrapper functions whose bodies are not available. The only logic they hold is the priority chain modelled from avr_apple_remote.c.
- The function prototypes of `avr_apple_remote.h` are not part of this model. Its constants are those of avr_apple_remote.c:33-40.
- The 38 kHz carrier is not modelled as a frequency. It is the 26 µs cycle the code performs.
