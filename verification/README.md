# Debounced green-LED toggle (Tarefa1_ADC)

This project models the one piece of logic in the joystick/ADC demo firmware
`adc.c`: the interrupt handler `green_led_handler`. The handler is attached to
falling edges of the push-button line SW_PIN (GPIO 22). On each press it reads
the microseconds since boot and keeps the low 32 bits in a `uint32_t`. If the
unsigned 32-bit difference `current_time - last_time` exceeds 350000 µs
(350 ms), it stores the new time in `last_time` and inverts the GREEN_PIN
(GPIO 11) output. Otherwise the press is ignored as contact bounce.

The model has three modules:

- `Unsigned` (`unsigned.dfy`): `uint32_t`/`uint64_t` ranges, truncation of the
  64-bit clock to 32 bits, and wrapping subtraction.
- `Debounce` (`debounce.dfy`): the handler state (`lastTime`, `green`), the
  power-on state, one handler run (`Handle`), and how GPIO edges reach it.
- `Trace` (`trace.dfy`): sequences of presses. It covers the LED parity, the
  spacing of accepted presses, an iterative replay, and the fact that edges
  the interrupt is not enabled for are ignored.

The clock reading is a parameter (`bootUs`) rather than a call. The LED is a
boolean field of the state rather than a `gpio_get`/`gpio_put` pair.

The power-on state `Debounce.Boot` has `last_time` zero (adc.c:13) and the
LED low, since `gpio_init` and `gpio_set_dir` leave GREEN_PIN driven low
(adc.c:37-38).

## Model

| member | source | states |
|---|---|---|
| Unsigned.Truncate | adc.c:16 | Keeping the low 32 bits never increases a time, and leaves any time below 2^32 unchanged. |
| Unsigned.Sub | adc.c:19 | `uint32_t` subtraction is the mathematical difference when it is non-negative, and that difference plus 2^32 when it would be negative. |
| Unsigned.SubAddRoundTrip | adc.c:19 | Wrapping subtraction is the inverse of wrapping addition, in both directions. |
| Unsigned.TruncateShift | adc.c:16 | Adding any whole multiple of 2^32 µs to the clock does not change the value the handler sees. |
| Unsigned.SubOfTruncated | adc.c:16-19 | The wrapped difference of two truncated clock readings is the real elapsed time modulo 2^32. It equals the real elapsed time when that is below 2^32 µs. |
| Debounce.Handle | adc.c:15-22 | The clock is reduced modulo 2^32. A press is accepted exactly when its forward gap to `last_time` exceeds 350000 (a gap computed by cases, adding 2^32 when the reading is numerically smaller). On acceptance `last_time` becomes the reduced time and the LED is inverted. On rejection the state is unchanged. |
| Debounce.HandleChangesIffAccepted | adc.c:19-22 | The handler changes the state if and only if the 32-bit gap exceeds the window, and if and only if the LED level flips. |
| Debounce.WithinWindowRejected | adc.c:19 | A press whose 32-bit gap is at most 350000 µs is rejected, a gap of exactly 350000 included, and neither field changes. |
| Debounce.BootWindowRejected | adc.c:13-19 | From the power-on state (`last_time` = 0), every press in the first 350000 µs after boot is rejected. |
| Debounce.FirstPressAfterBootAccepted | adc.c:13-21 | From the power-on state, a press after 350000 µs and before the first 32-bit wrap is accepted, stores its time and turns the LED on. |
| Debounce.WrappedTimeAccepted | adc.c:16-21 | For any state, a reading numerically smaller than `last_time` is accepted when the wrapped forward gap (reading + 2^32 − `last_time`) exceeds 350000. It then stores the reading and inverts the LED. |
| Debounce.RealGapDecides | adc.c:16-19 | Within 2^32 µs of the press that set `last_time`, a press is accepted exactly when more than 350000 µs of real time have passed. |
| Debounce.AliasedPressRejected | adc.c:16-19 | A press a whole multiple of 2^32 µs plus at most 350000 µs after the last accepted one is rejected, however long the real pause. |
| Debounce.OnGpio | adc.c:46 | Only a falling edge of SW_PIN runs the handler. Any other GPIO edge leaves the state unchanged, and every change is an LED toggle. |
| Trace.Run | adc.c:46 | Running the handler once per press, in order, leaves `last_time` either unchanged or equal to the truncated time of one of the presses. |
| Trace.Accepted | adc.c:19-20 | A run accepts at most as many presses as it receives, and every accepted timestamp is the truncated time of one of the presses. |
| Trace.AcceptedIffChanged | adc.c:19-22 | A press is counted as accepted exactly when the handler changed the state on it. |
| Trace.BootLedMatchesParity | adc.c:37-38 | From power-on, with the LED low and `last_time` zero, the LED is on exactly when an odd number of presses have been accepted. `last_time` stays zero while none has been. |
| Trace.RunParity | adc.c:19-21 | After any sequence of presses, the LED level is the initial level XOR the parity of the number of accepted presses. |
| Trace.RunLastTime | adc.c:19-20 | After any sequence of presses, `last_time` holds the timestamp of the last accepted press, or its initial value if none was accepted. |
| Trace.AcceptedSpacing | adc.c:19-20 | The first accepted press is more than 350000 µs (wrapped) after the initial `last_time`. Each later accepted press is more than 350000 µs (wrapped) after the previous accepted one. |
| Trace.Replay | adc.c:15-22 | Running the handler once per interrupt ends in the same state as the recursive run. It counts exactly the accepted presses, and the LED level matches the parity of that count. |
| Trace.Dispatch | adc.c:46 | Over any sequence of GPIO edges, the state can change only if a falling edge of SW_PIN occurred. |
| Trace.HandlerTimes | adc.c:46 | The handler is run at most once per edge, and only at the times of falling edges of SW_PIN. |
| Trace.DispatchIgnoresOtherEdges | adc.c:46 | Running a mixed sequence of GPIO edges ends in the same state as running the handler on the SW_PIN falling edges alone. |

## Left out

- Peripheral set-up (`stdio_init_all`, `adc_init`, `adc_gpio_init`, `gpio_init`, `gpio_set_dir`, `gpio_pull_up`, adc.c:28-44). This is hardware configuration. Its one effect on the model, GREEN_PIN starting low, is the `green` field of `Debounce.Boot`.
- The main loop (adc.c:48-58): ADC channel selection, `adc_read`, `printf` and `sleep_ms(500)`. It is I/O only, and the values it reads are never used for any computation.
- Interrupt concurrency and the `volatile` qualifier on `last_time`. The handler is modelled as one atomic step over an immutable state. Nothing else in the program reads or writes `last_time` or GREEN_PIN, so there is nothing for it to race with. A `GpioEvent` stands for one delivery of the interrupt, and its `bootUs` is the clock reading taken inside the handler. How the chip latches and coalesces several edges that arrive before the interrupt is acknowledged into one handler call is interrupt-controller behaviour that is not modelled.
- The SDK clock `to_us_since_boot(get_absolute_time())`. It is a parameter of `Debounce.Handle`: any `uint64_t` microsecond count.
- BLUE_PIN and RED_PIN (adc.c:10-11, 40-44). They are set up as outputs, which leaves them low, and never changed after set-up.
- The joystick readings (adc.c:49-53). adc.c reads both axes but computes nothing from them.
