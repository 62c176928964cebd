/** Runs of the debounce handler over a sequence of button presses, and what
    such runs guarantee: the LED level is the initial level flipped once per
    accepted press, accepted presses are more than 350 ms apart in wrapped
    32-bit time, and GPIO edges other than falling edges of SW_PIN have no
    effect on the outcome. */
module Trace {
  import opened Unsigned
  import opened Debounce

  /** The state after the handler has run for each press in `times`, in order.
      The final `lastTime` is either the initial one or the 32-bit time of
      one of the presses. */
  function Run(s: State, times: seq<U64>): (r: State)
    ensures r.lastTime == s.lastTime || r.lastTime in TruncatedTimes(times)
    decreases |times|
  {
    if |times| == 0 then s
    else Handle(Run(s, times[..|times| - 1]), times[|times| - 1])
  }

  /** The 32-bit readings the handler sees for the presses in `times`. */
  function TruncatedTimes(times: seq<U64>): set<U32> {
    set t | t in times :: Truncate(t)
  }

  /** The 32-bit timestamps of the presses the handler accepted, in order.
      Each is the truncated time of one of the presses, and there are at
      most as many as there were presses. */
  function Accepted(s: State, times: seq<U64>): (a: seq<U32>)
    ensures |a| <= |times|
    ensures forall i :: 0 <= i < |a| ==> a[i] in TruncatedTimes(times)
    decreases |times|
  {
    if |times| == 0 then []
    else
      var before := Run(s, times[..|times| - 1]);
      var now := Truncate(times[|times| - 1]);
      var prefix := Accepted(s, times[..|times| - 1]);
      if Accepts(before, now) then prefix + [now] else prefix
  }

  /** The last press of a sequence is counted as accepted exactly when the
      handler changed the state on it. */
  lemma AcceptedIffChanged(s: State, times: seq<U64>)
    requires |times| > 0
    ensures
      var init := times[..|times| - 1];
      |Accepted(s, times)| == |Accepted(s, init)| + 1 <==> Run(s, times) != Run(s, init)
  {
  }

  /** True when `n` is odd. */
  predicate Odd(n: nat) {
    n % 2 == 1
  }

  /** The final LED level is the initial level inverted once for every
      accepted press, so it equals the initial level XOR the parity of the
      number of accepted presses. */
  lemma {:induction false} RunParity(s: State, times: seq<U64>)
    ensures Run(s, times).green == (s.green != Odd(|Accepted(s, times)|))
    decreases |times|
  {
    if |times| > 0 {
      RunParity(s, times[..|times| - 1]);
    }
  }

  /** The final `lastTime` is the timestamp of the last accepted press, or
      the initial one if no press was accepted. */
  lemma {:induction false} RunLastTime(s: State, times: seq<U64>)
    ensures
      var a := Accepted(s, times);
      Run(s, times).lastTime == if |a| == 0 then s.lastTime else a[|a| - 1]
    decreases |times|
  {
    if |times| > 0 {
      RunLastTime(s, times[..|times| - 1]);
    }
  }

  /** Every accepted press lies more than 350 ms, in wrapped 32-bit time,
      after the press accepted before it (for the first one: after the
      initial `lastTime`). */
  predicate WellSpaced(start: U32, a: seq<U32>) {
    && (|a| > 0 ==> Sub(a[0], start) > WindowUs)
    && (forall i :: 0 < i < |a| ==> Sub(a[i], a[i - 1]) > WindowUs)
  }

  /** Any two consecutive accepted presses are spaced by more than the
      debounce window. */
  lemma {:induction false} AcceptedSpacing(s: State, times: seq<U64>)
    ensures WellSpaced(s.lastTime, Accepted(s, times))
    decreases |times|
  {
    if |times| > 0 {
      var init := times[..|times| - 1];
      AcceptedSpacing(s, init);
      RunLastTime(s, init);
    }
  }

  /** From power-on, the LED is on exactly when an odd number of presses
      have been accepted, and `lastTime` is still zero if none has been. */
  lemma {:induction false} BootLedMatchesParity(times: seq<U64>)
    ensures Run(Boot, times).green <==> Odd(|Accepted(Boot, times)|)
    ensures |Accepted(Boot, times)| == 0 ==> Run(Boot, times).lastTime == 0
  {
    RunParity(Boot, times);
    RunLastTime(Boot, times);
  }

  /** Replays a sequence of presses through the handler one interrupt at a
      time, counting the presses it accepts. */
  method Replay(s: State, times: seq<U64>) returns (final: State, toggles: nat)
    ensures final == Run(s, times)
    ensures toggles == |Accepted(s, times)| && toggles <= |times|
    ensures final.green == (s.green != Odd(toggles))
  {
    final, toggles := s, 0;
    var i := 0;
    while i < |times|
      invariant 0 <= i <= |times|
      invariant final == Run(s, times[..i])
      invariant toggles == |Accepted(s, times[..i])|
    {
      assert times[..i + 1][..i] == times[..i];
      if Accepts(final, Truncate(times[i])) {
        toggles := toggles + 1;
      }
      final := Handle(final, times[i]);
      i := i + 1;
    }
    assert times[..i] == times;
    RunParity(s, times);
  }

  /** The state after a sequence of GPIO edges of any kind. The state can
      only change if a falling edge of SW_PIN occurred. */
  function Dispatch(s: State, events: seq<GpioEvent>): (r: State)
    ensures r != s ==> exists e :: e in events && RunsHandler(e)
    decreases |events|
  {
    if |events| == 0 then s
    else OnGpio(Dispatch(s, events[..|events| - 1]), events[|events| - 1])
  }

  /** The times of the falling edges of SW_PIN among `events`. */
  function FallTimes(events: seq<GpioEvent>): set<U64> {
    set e | e in events && RunsHandler(e) :: e.bootUs
  }

  /** The times of the edges that reach the handler, in order. */
  function HandlerTimes(events: seq<GpioEvent>): (ts: seq<U64>)
    ensures |ts| <= |events|
    ensures forall i :: 0 <= i < |ts| ==> ts[i] in FallTimes(events)
    decreases |events|
  {
    if |events| == 0 then []
    else
      var e := events[|events| - 1];
      var prefix := HandlerTimes(events[..|events| - 1]);
      if RunsHandler(e) then prefix + [e.bootUs] else prefix
  }

  /** Edges other than falling edges of SW_PIN are invisible: running the
      whole edge sequence ends where running the handler on the SW_PIN
      falling edges alone ends. */
  lemma {:induction false} DispatchIgnoresOtherEdges(s: State, events: seq<GpioEvent>)
    ensures Dispatch(s, events) == Run(s, HandlerTimes(events))
    decreases |events|
  {
    if |events| > 0 {
      var init := events[..|events| - 1];
      var e := events[|events| - 1];
      DispatchIgnoresOtherEdges(s, init);
      if RunsHandler(e) {
        var ts := HandlerTimes(init) + [e.bootUs];
        assert ts[..|ts| - 1] == HandlerTimes(init);
      }
    }
  }
}
