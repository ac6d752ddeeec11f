/**
 * The infrared LED as the outside world sees it: a trace of the writes to
 * PC5 and the busy-wait delays, and the 38 kHz carrier that send_pulse emits.
 */
module Carrier {

  /** One observable step of the transmitter. */
  datatype Event =
    | High          // PORTC |= 1 << PC5: PC5 is written high (it may already be)
    | Low           // PORTC &= ~(1 << PC5): PC5 is written low (it may already be)
    | Wait(us: int) // _delay_us(us): the pin holds its level for us microseconds

  /** The LED output pin, PC5, within PORTC. */
  const LED_PIN: nat := 5

  /** Microseconds the LED is on, then off, in one carrier cycle. */
  const ON_US: int := 10
  const OFF_US: int := 16
  /** Length of one carrier cycle, the amount send_pulse subtracts per iteration. */
  const CYCLE_US: int := 26

  /** One carrier cycle as send_pulse performs it. */
  const Cycle: seq<Event> := [High, Wait(ON_US), Low, Wait(OFF_US)]

  /** n carrier cycles back to back. */
  function Burst(n: nat): (t: seq<Event>)
  {
    seq(4 * n, i requires 0 <= i < 4 * n => Cycle[i % 4])
  }

  /**
   * The number of carrier cycles send_pulse emits for a requested duration:
   * none for d <= 0, otherwise d/26 rounded up.
   */
  function Cycles(d: int): (n: nat)
    ensures d <= 0 ==> n == 0
    ensures d > 0 ==> d <= CYCLE_US * n < d + CYCLE_US
  {
    if d <= 0 then 0 else (d + CYCLE_US - 1) / CYCLE_US
  }

  /** Cycles(d) is the only count of whole cycles that covers d with less than one cycle to spare. */
  lemma CyclesUnique(d: int, n: nat)
    requires d > 0 && d <= CYCLE_US * n < d + CYCLE_US
    ensures n == Cycles(d)
  {
  }

  /** Cycle k of a carrier burst is exactly High, 10 us, Low, 16 us. */
  lemma BurstAt(n: nat, k: nat)
    requires k < n
    ensures Burst(n)[4 * k..4 * k + 4] == Cycle
  {
  }

  /** One more cycle at the end of a burst. */
  lemma BurstSnoc(n: nat)
    ensures Burst(n + 1) == Burst(n) + Cycle
  {
    assert forall i :: 4 * n <= i < 4 * n + 4 ==> i % 4 == i - 4 * n;
  }

  /** One more cycle at the start of a burst. */
  lemma BurstCons(n: nat)
    ensures Burst(n + 1) == Cycle + Burst(n)
  {
    assert forall i :: 4 <= i < 4 * n + 4 ==> i % 4 == (i - 4) % 4;
  }

  /** A trace ending in n cycles, followed by one more cycle event by event, ends in n + 1 cycles. */
  lemma BurstExtend(t: seq<Event>, n: nat)
    ensures t + Burst(n) + [High] + [Wait(ON_US)] + [Low] + [Wait(OFF_US)] == t + Burst(n + 1)
  {
    BurstSnoc(n);
    assert [High] + [Wait(ON_US)] + [Low] + [Wait(OFF_US)] == Cycle;
    AppendAssoc(t, Burst(n), Cycle);
  }

  /** Regrouping appended sequences. */
  lemma AppendAssoc<T>(a: seq<T>, b: seq<T>, c: seq<T>)
    ensures (a + b) + c == a + (b + c)
  {
  }

  /** A trace is its first event followed by the rest. */
  lemma SplitFirst(t: seq<Event>)
    requires t != []
    ensures t == [t[0]] + t[1..]
  {
  }

  /** The first event and the rest of a trace built from them. */
  lemma FirstOfCons(e: Event, t: seq<Event>)
    ensures ([e] + t)[0] == e && ([e] + t)[1..] == t
  {
  }

  /** Appending nothing. */
  lemma AppendNil(t: seq<Event>)
    ensures t + [] == t
  {
  }

  /** True when the trace begins with a full carrier cycle. */
  predicate StartsWithCycle(t: seq<Event>)
  {
    |t| >= 4 && t[0] == High && t[1] == Wait(ON_US) && t[2] == Low && t[3] == Wait(OFF_US)
  }

  /**
   * What a receiver sees of a mark: the number of whole carrier cycles at the
   * head of the trace, and the trace that follows them.
   */
  function ReadMark(t: seq<Event>): (r: (nat, seq<Event>))
    ensures t == Burst(r.0) + r.1
    ensures !StartsWithCycle(r.1)
    decreases |t|
  {
    if StartsWithCycle(t) then
      var (k, rest) := ReadMark(t[4..]);
      BurstCons(k);
      assert t == Cycle + t[4..];
      (k + 1, rest)
    else
      (0, t)
  }

  /** A burst of n cycles reads back as n cycles whatever follows it, unless that is another cycle. */
  lemma {:induction false} ReadMarkBurst(n: nat, rest: seq<Event>)
    requires !StartsWithCycle(rest)
    ensures ReadMark(Burst(n) + rest) == (n, rest)
  {
    var r := ReadMark(Burst(n) + rest);
    BurstPrefixUnique(n, r.0, rest, r.1);
  }

  /** Two ways of splitting a trace into a carrier burst and a non-cycle rest agree. */
  lemma {:induction false} BurstPrefixUnique(n: nat, m: nat, a: seq<Event>, b: seq<Event>)
    requires Burst(n) + a == Burst(m) + b
    requires !StartsWithCycle(a) && !StartsWithCycle(b)
    ensures n == m && a == b
  {
    var s := Burst(n) + a;
    if n > 0 && m > 0 {
      BurstCons(n - 1);
      BurstCons(m - 1);
      assert s[4..] == Burst(n - 1) + a;
      assert s[4..] == Burst(m - 1) + b;
      BurstPrefixUnique(n - 1, m - 1, a, b);
    } else if n > 0 {
      BurstStartsWithCycle(n, a);
    } else if m > 0 {
      assert Burst(n) + a == a;
      BurstStartsWithCycle(m, b);
    } else {
      assert Burst(n) + a == a && Burst(m) + b == b;
    }
  }

  /** A non-empty burst starts with a full cycle, whatever follows it. */
  lemma BurstStartsWithCycle(n: nat, rest: seq<Event>)
    requires n > 0
    ensures StartsWithCycle(Burst(n) + rest)
  {
    BurstCons(n - 1);
    assert Burst(n) + rest == Cycle + (Burst(n - 1) + rest);
  }

  /** Microseconds a trace takes: the sum of its delays (pin writes take no time here). */
  function Duration(t: seq<Event>): int
  {
    if t == [] then 0 else (if t[0].Wait? then t[0].us else 0) + Duration(t[1..])
  }

  lemma {:induction false} DurationAppend(a: seq<Event>, b: seq<Event>)
    ensures Duration(a + b) == Duration(a) + Duration(b)
  {
    if a != [] {
      assert (a + b)[0] == a[0] && (a + b)[1..] == a[1..] + b;
      DurationAppend(a[1..], b);
    } else {
      assert a + b == b;
    }
  }

  /** A burst of n cycles lasts 26 * n microseconds. */
  lemma {:induction false} BurstDuration(n: nat)
    ensures Duration(Burst(n)) == CYCLE_US * n
  {
    if n > 0 {
      BurstDuration(n - 1);
      BurstSnoc(n - 1);
      DurationAppend(Burst(n - 1), Cycle);
      CycleDuration();
    } else {
      assert Burst(n) == [];
    }
  }

  /** One carrier cycle lasts 10 + 16 = 26 microseconds. */
  lemma CycleDuration()
    ensures Duration(Cycle) == CYCLE_US
  {
    var off := [Wait(OFF_US)];
    var low := [Low] + off;
    var on := [Wait(ON_US)] + low;
    assert off[1..] == [] && low[1..] == off && on[1..] == low && Cycle[1..] == on;
    assert Duration(off) == OFF_US;
    assert Duration(low) == OFF_US;
    assert Duration(on) == CYCLE_US;
  }

  /**
   * send_pulse(d) keeps the LED busy for 26 * ceil(d / 26) microseconds: at
   * least d, and less than one cycle more.
   */
  lemma PulseDuration(d: int)
    ensures d <= 0 ==> Duration(Burst(Cycles(d))) == 0
    ensures d > 0 ==> d <= Duration(Burst(Cycles(d))) < d + CYCLE_US
  {
    BurstDuration(Cycles(d));
  }
}
