/** The debounced toggle of the green LED. The button on SW_PIN raises an
    interrupt on every falling edge; the handler reads the time since boot in
    microseconds, keeps its low 32 bits, and accepts the press only when more
    than 350 ms have passed (in wrapped 32-bit arithmetic) since the last
    accepted press. An accepted press records its timestamp and inverts the
    GREEN_PIN output; a rejected press changes nothing. */
module Debounce {
  import opened Unsigned

  /** The push-button input line. */
  const SwPin: nat := 22

  /** The LED output line the handler toggles. */
  const GreenPin: nat := 11

  /** The debounce window: 350 ms, in microseconds. */
  const WindowUs: U32 := 350000

  /** What the handler keeps between interrupts: the 32-bit timestamp of the
      last accepted press, and the level driven on the `GreenPin` output
      (`true` is high). */
  datatype State = State(lastTime: U32, green: bool)

  /** Power-on state: `last_time` starts at zero and `gpio_init` leaves the
      GREEN_PIN output low. */
  const Boot: State := State(0, false)

  /** The unsigned 32-bit interval `now - last_time` the handler compares. */
  function Elapsed(s: State, now: U32): U32 {
    Sub(now, s.lastTime)
  }

  /** The handler's acceptance test. */
  predicate Accepts(s: State, now: U32) {
    Elapsed(s, now) > WindowUs
  }

  /** One run of the interrupt handler at `bootUs` microseconds after boot.
      Acceptance is stated here on the untruncated arithmetic: the time is
      reduced to its low 32 bits, and the press is accepted exactly when the
      gap to `lastTime`, counted forward around the 32-bit circle, exceeds
      the window. An accepted press stores the reduced time and inverts the
      LED; otherwise the state is returned untouched. */
  function Handle(s: State, bootUs: U64): (r: State)
    ensures
      var now := bootUs % U32Modulus;
      var gap := if now >= s.lastTime then now - s.lastTime
                 else now + U32Modulus - s.lastTime;
      if gap > 350000 then r.lastTime == now && r.green == !s.green
      else r == s
  {
    var now := Truncate(bootUs);
    if Accepts(s, now) then State(now, !s.green) else s
  }

  /** The handler changes the state if and only if it accepts the press, and
      every change is an LED toggle. */
  lemma HandleChangesIffAccepted(s: State, bootUs: U64)
    ensures Handle(s, bootUs) != s <==> Accepts(s, Truncate(bootUs))
    ensures Handle(s, bootUs) != s <==> Handle(s, bootUs).green != s.green
  {
  }

  /** A press no later than `WindowUs` microseconds (forward, 32-bit) after
      the last accepted one is rejected, including a press at exactly the
      window: the comparison is strict. */
  lemma WithinWindowRejected(s: State, bootUs: U64)
    requires Sub(Truncate(bootUs), s.lastTime) <= WindowUs
    ensures Handle(s, bootUs) == s
  {
  }

  /** During the first 350 ms after power-on every press is rejected: the
      zero-initialised `last_time` acts as an accepted press at boot. */
  lemma BootWindowRejected(bootUs: U64)
    requires bootUs <= 350000
    ensures Handle(Boot, bootUs) == Boot
  {
  }

  /** The first press after the boot window is accepted and lights the LED. */
  lemma FirstPressAfterBootAccepted(bootUs: U64)
    requires 350000 < bootUs < U32Modulus
    ensures Handle(Boot, bootUs) == State(bootUs, true)
  {
  }

  /** A time numerically smaller than `lastTime` can still be a later press:
      once the 32-bit clock has wrapped, the forward gap is the reading plus
      2^32 minus `lastTime`, and the press is accepted when that exceeds the
      window. */
  lemma WrappedTimeAccepted(s: State, bootUs: U64)
    requires Truncate(bootUs) < s.lastTime
    requires Truncate(bootUs) + U32Modulus - s.lastTime > WindowUs
    ensures Handle(s, bootUs) == State(Truncate(bootUs), !s.green)
  {
  }

  /** Measured on the real 64-bit clock, for presses less than 2^32 us
      (about 71.6 minutes) after the press that set `lastTime`, the handler
      accepts exactly when more than 350 ms have really passed. */
  lemma RealGapDecides(s: State, t1: U64, t2: U64)
    requires s.lastTime == Truncate(t1)
    requires t1 <= t2 < t1 + U32Modulus
    ensures Handle(s, t2) != s <==> t2 - t1 > WindowUs
  {
    SubOfTruncated(t1, t2);
  }

  /** Because only the low 32 bits are kept, a press that comes a whole
      multiple of 2^32 us (plus at most 350 ms) after the last accepted one
      is rejected as a bounce, however long the real pause was. */
  lemma AliasedPressRejected(s: State, t1: U64, k: nat, d: nat)
    requires s.lastTime == Truncate(t1)
    requires k >= 1 && d <= WindowUs
    requires t1 + k * U32Modulus + d < U64Modulus
    ensures Handle(s, t1 + k * U32Modulus + d) == s
  {
    var t2 := t1 + k * U32Modulus + d;
    SubOfTruncated(t1, t2);
    DivModUnique(t2 - t1, k, d);
  }

  /** The two edge directions a GPIO line can report. */
  datatype Edge = Falling | Rising

  /** A GPIO edge on some line at some time since boot. */
  datatype GpioEvent = GpioEvent(pin: nat, edge: Edge, bootUs: U64)

  /** The interrupt is enabled only for falling edges of SW_PIN, so the
      handler runs for those events and for no other. */
  predicate RunsHandler(e: GpioEvent) {
    e.pin == SwPin && e.edge == Falling
  }

  /** The effect of one GPIO edge on the handler's state. */
  function OnGpio(s: State, e: GpioEvent): (r: State)
    ensures r != s ==> e.pin == SwPin && e.edge == Falling && r.green != s.green
    ensures e.pin == SwPin && e.edge == Falling ==> r == Handle(s, e.bootUs)
  {
    if RunsHandler(e) then Handle(s, e.bootUs) else s
  }
}
