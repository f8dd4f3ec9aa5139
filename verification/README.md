# telescope-host-esp32 in Dafny

A functional model of the control logic of an ESP32 telescope mount. Each
subsystem is a Dafny module holding an immutable state record and pure
transition functions. Every hardware side effect of the C code becomes part
of the returned value: GPIO levels, LEDC duty and frequency, timer start and
stop, the motor callback, and the encoder callbacks.

| module | file | what it models |
|---|---|---|
| `Options`, `CInt`, `Bytes` | `bytes.dfy` | `Option`. C integer ranges. C's `round`, the `(int)` cast and the truncating `%`. Big-endian unsigned and two's-complement encodings, and the low-bytes store through a narrower pointer. |
| `RotaryEncoder` | `rencoder.dfy` | The quadrature counter of `main/rencoder.c`. The interrupt returns its callback invocations, in order, each with the encoder state the callee can observe. |
| `MountEncoder` | `mount_encoder.dfy` | The backlash compensator of `main/mount_encoder.c`, as one machine parametrised by the backlash `b`, composed with the counter. Also the tracker's init and `set_angles`. |
| `Slew` | `slew.dfy` | The slew planner of `main/slew.c`: `getRaDiff` (as the source's two-loop method, and as a reference function), the timer tick with its back-off, `slew_to_coordinates` and `abort_slew`. |
| `Focuser` | `focuser.dfy` | The focuser stepper of `main/focuser.c`: the move, the timer tick, abort and the half-step phase table. |
| `AxisDrive` | `mount.dfy` | The axis drive of `main/mount.c`: direction, stop/run and notification of a rate; the time ratio, its persistence and its fallback at init. |
| `Telescope` | `telescope.dfy` | The command side of the older revision in `main/telescope.c`: datagram decoding, the speed clamp, execution, rate composition, `updateStepper` and the 18-byte acknowledgement. |
| `Protocol` | `protocol.dfy` | The 32-byte status broadcast: the header's offset/width table, a full-record encoder and decoder, and the 14-byte setter of `main/protocol.c`. |

Several values are parameters because they come from build configuration or
from headers that are not part of this model:

- `day` is `DAY_MILLIS` (positive, and twice it fits `int32_t`);
- `maxSteps` is `MAX_STEPS` and `intervalMicros` is `STEP_INTERVAL_MICROSECONDS`;
- `b` is `CONFIG_RA_BACKLASH_PULSES` or `CONFIG_DEC_BACKLASH_PULSES`;
- `AxisConfig` holds the `CONFIG_*_REVERSE` flag and the `RA_FREQ`/`DEC_FREQ` factor;
- `raSteps`/`decSteps` are the step products of the older revision.

Angles, positions and speeds are `int`, and a precondition states the C range
wherever the source depends on it. Doubles are exact `real`s. The C
conversions `round`, `(int)` and `%` are written out explicitly in `CInt`.
Bytes are the `byte` newtype (0..255).

Where the code and its documentation differ, the model follows the code:

- A reversal `k` pulses into a backlash clear completes after `k` pulses in the new direction, not after `b` plus the remainder (`MountEncoder.ReversalMidClear`).
- A focuser move of 5 steps from rest takes 6 timer ticks: five steps, then one tick that finds the target reached and stops (`Focuser.MoveFiveFromRest`).
- The RA difference of the slew planner is `current - target`, while the DEC difference is `target - current` (`Slew.NearWrapExample`).

## Model

| member | source | states |
|---|---|---|
| RotaryEncoder.Start | main/rencoder.c:48-57 | A started encoder counts from zero, forward, enabled, and keeps whether each callback was supplied. |
| RotaryEncoder.Interrupt | main/rencoder.c:23-46 | A paused encoder ignores the edge and calls nothing. The direction is resampled from B only on a rising edge of A. Every working edge moves the count one unit in the new direction. A direction call comes first, if and only if the sampled direction differs and that callback exists, and it sees the old state. A count call comes last, if and only if that callback exists. Only count and direction change. |
| RotaryEncoder.CountCallSeesOldCount | main/rencoder.c:41-44 | The count callback receives the new count and the unit step while the stored count is still the old one. |
| RotaryEncoder.PauseResume | main/rencoder.c:84-94 | A paused encoder ignores any edge. Resuming restores exactly the encoder that was paused. Value and direction survive a pause. |
| RotaryEncoder.ClearKeepsDirection | main/rencoder.c:88-90 | Clearing zeroes the count and keeps direction and enable, so the next edge counts from zero in the resampled direction. |
| RotaryEncoder.EdgesOnBCount | main/rencoder.c:32-44 | `n` edges on B move a working counter by exactly `n` units in its direction and never change the direction. |
| MountEncoder.OnDirection | main/mount_encoder.c:70-97 | Actual pulses never change on a reversal. From rest, it starts clearing toward the new direction, anchored at the raw count. A reversal to the direction already being cleared changes nothing. A mid-clear reversal re-bases the anchor so that the new threshold is the interrupted clear's anchor. |
| MountEncoder.OnPulse | main/mount_encoder.c:99-115 | When not clearing, actual pulses move by the unit step. While clearing, nothing changes until the raw count reaches the threshold. Clearing ends exactly then, and actual pulses catch up by the overshoot. The anchor is never changed. |
| MountEncoder.ProgressRun | main/mount_encoder.c:99-115 | Along any run of non-reversing edges, the counter and the compensator stay on the clearing schedule: held for `b` pulses, then one for one. |
| MountEncoder.ReversalFromRest | main/mount_encoder.c:70-115 | From rest, a reversal followed by `n` pulses in all moves the raw count by `n` and the actual count by `max(0, n - b)`, both toward the new direction. The clear is over exactly when `n >= b`. |
| MountEncoder.ReversalMidClear | main/mount_encoder.c:74-88 | A reversal `k < b` pulses into a clear is finished after exactly `k` pulses in the new direction. Further pulses count one for one, and the partial clear is neither lost nor counted twice. |
| MountEncoder.InitTracker | main/mount_encoder.c:30-43 | After init, both encoders are started with both callbacks, neither axis is clearing, actual and raw counts are zero, the reset angles are zero, and the epoch is now. |
| MountEncoder.SetAngles | main/mount_encoder.c:179-187 | Both actual counters become zero and the reset angles and epoch are recorded. Encoders, clearing flags and anchors are untouched. A time ratio of at least 1 never enlarges the RA angle. |
| MountEncoder.AxesIndependent | main/mount_encoder.c:117-162 | An interrupt of one axis never disturbs the other axis, and interrupts of the two axes commute. |
| Slew.ShortestRaDiff | main/slew.c:40-53 | The RA difference lies in (-day/2, day/2] and is congruent to `current - target` modulo the day. |
| Slew.ShortestRaDiffUnique | main/slew.c:47-52 | Exactly one value has both properties, so they define the RA difference. |
| Slew.GetRaDiff | main/slew.c:40-53 | The source's two loops, with every intermediate value within `int32_t`, compute the reference difference. An exact half-circle tie yields +day/2. |
| Slew.ShortestRaDiffTie | main/slew.c:52 | The difference is +day/2 if and only if `current - target` is exactly half a day modulo the day; -day/2 never occurs. |
| Slew.NearerCopyIsShortest | main/slew.c:49-52 | Of the two copies of the target bracketing the reading, the nearer one (the lower on a tie) gives the reference difference. |
| Slew.BackOff | main/slew.c:91-106 | Interval and speed stay on their halving ladders and never grow. On exit, the estimate covers four intervals or both floors are reached. Estimate times speed is invariant. Nothing changes when four intervals are already covered. The result is the state after the first number of passes of the loop body that leaves the estimate covering four intervals or both floors reached. |
| Slew.FirstSettledStep | main/slew.c:91-106 | If a state is the first settled one after a pass from an unsettled state, it is the first settled one from that state. |
| Slew.SettledWithinFour | main/slew.c:91-106 | Four passes of the loop body always settle, so a first settled state exists. |
| Slew.BackOffExample | main/slew.c:91-106 | From an estimate of 100 ms at interval 1000 and speed 16, the back-off ends at (800, 125, 2). |
| Slew.BackOffLoop | main/slew.c:91-106 | The source's `while` loop with `break` terminates with the same result as the reference back-off, and its exit condition holds. |
| Slew.Apportion | main/slew.c:81-90 | Each axis gets the peak speed times its signed difference over the larger difference. The larger axis therefore runs at full speed, with the sign of its difference. |
| Slew.Drive | main/slew.c:81-111 | A moving tick drives the rates of `Apportion` at the backed-off speed; the larger difference is at least the 1000 tolerance, so no divisor is zero. The timer is re-armed at the new interval. The target is kept, and speed and interval never grow. Estimate, interval and speed are the back-off of the larger difference divided by the current speed, and no other field changes. |
| Slew.TickTerminal | main/slew.c:76-80 | With both differences under tolerance, slewing stops, the motor gets (0, 0), the timer is not re-armed and nothing else changes; repeating the tick changes nothing. |
| Slew.TickMoves | main/slew.c:55-112 | Otherwise, the tick drives both axes proportionally to their differences, re-arms the timer, keeps the invariant and never raises speed or interval. |
| Slew.TicksOnlySlowDown | main/slew.c:91-106 | Any tick keeps speed and interval on their ladders and never raises either. It keeps the target, and it stops the slew exactly when both differences are within tolerance. |
| Slew.SlewTo | main/slew.c:133-143 | A slew records start and target and establishes the invariant. It is still slewing afterwards if and only if the target is out of tolerance. Within tolerance it stops both axes, starts no timer, and keeps speed 16 and interval 1000 ms. Otherwise the first tick backs off from speed 16 and 1000 ms, drives both axes in proportion to their differences and arms the timer at the new interval. |
| Slew.SlewToForgets | main/slew.c:133-143 | A slew's result does not depend on the speed, interval or slewing flag it starts from. A slew that moves does not depend on the old estimate either. |
| Slew.Abort | main/slew.c:127-131 | From any state, abort zeroes the motor, stops the timer, clears `slewing` and keeps everything else. |
| Slew.NearWrapExample | main/slew.c:49-52 | From RA 0 to a target 100 short of a full day, the difference is +100: the short way round, in the `current - target` convention. |
| Focuser.PhaseTableIsHalfStepping | main/focuser.c:13-22 | Cyclically adjacent rows, including row 7 and row 0, differ on exactly one line. Even rows energise one coil and odd rows two. |
| Focuser.PhaseIndex | main/focuser.c:51 | The corrected row index always lies in 0..7 and is congruent to the step modulo 8. |
| Focuser.PhaseIndexAsWritten | main/focuser.c:51 | The source's index, with C's `%`, lies in 0..7 for a non-negative step and in -7..0 for a negative one. It is congruent to the step modulo 8; for a negative step off a multiple of 8 it is the wrapped row less 8, so no row of the table. |
| Focuser.PhaseIndexSteps | main/focuser.c:51 | One step forward moves one row forward in the table, cyclically, and one step back moves one row back. The written index agrees with the corrected one on non-negative steps. |
| Focuser.Init | main/focuser.c:57-67 | Init puts the focuser at zero with target zero, not moving, all lines low and the timer stopped. |
| Focuser.Clamp | main/focuser.c:82-86 | The clamp keeps values inside the bound and saturates values outside it at the nearer end. |
| Focuser.Move | main/focuser.c:81-89 | The new target always lies within the travel. A move that fits is taken exactly. Otherwise the target moves in the commanded direction, no further than commanded, and saturates: a request beyond `maxSteps` either way counts as `maxSteps`, and a target that would pass an end of the travel stops at that end. The focuser is marked moving, the periodic timer is started, and position and lines are kept. |
| Focuser.Tick | main/focuser.c:37-55 | Away from the target, a tick moves exactly one unit closer and energises the table row of the new position. That row is the wrapped one; for a non-negative position it is the row the source's own index picks. At the target, it releases all lines, stops moving and stops the timer without moving. |
| Focuser.Abort | main/focuser.c:95-99 | Abort sets the target to the position, stops moving and stops the timer, leaving the lines as they were. |
| Focuser.AbortThenTick | main/focuser.c:42-48 | A tick delivered after an abort only releases the coils; the focuser does not move. |
| Focuser.BoundedPreserved | main/focuser.c:81-86 | Move, tick, abort and init keep both position and target within the travel. |
| Focuser.TickChangesOneCoil | main/focuser.c:37-55 | From a state whose lines show its row, a moving tick changes exactly one line and again shows the row of the new position. |
| Focuser.TicksApproach | main/focuser.c:38-41 | Each of the first `k <= distance` ticks takes one step toward the unchanged target and keeps the timer running. |
| Focuser.TicksToStop | main/focuser.c:37-49 | A move completes after exactly distance + 1 ticks: the target is reached after `distance` ticks, and the next tick stops and releases. |
| Focuser.MoveSaturates | main/focuser.c:81-89 | With a travel of 3: moving 5 from rest stops at 3; moving 9 from -3 counts as 3 and reaches 0; moving -9 from 2 reaches -1; moving 1 from 7 comes back to 3. |
| Focuser.MoveNearest | main/focuser.c:82-86 | The new target is the point of the travel nearest to the old target plus the limited move. |
| Focuser.MoveFiveFromRest | main/focuser.c:81-89 | Moving 5 from rest reaches position 5 (row 5) after five ticks, and stops at the sixth. |
| Focuser.NegativeIndexReachable | main/focuser.c:51 | Moving -1 from rest and ticking once reaches step -1, where the written index is -1; the corrected index is row 7. |
| AxisDrive.DirectionLevel | main/mount.c:160-174 | The direction line is high if and only if the rate is non-negative, exclusive-or the reverse flag. |
| AxisDrive.Apply | main/mount.c:157-193 | The axis stops if and only if the magnitude is under the minimum or the rounded frequency is zero; it then has duty 0, the enable line high and a notification of 0. Otherwise it runs at half duty with the rounded frequency, and the notification carries the rate's sign. The stored value is the magnitude, clamped to the maximum only when running. |
| AxisDrive.StoredRateLosesSign | main/mount.c:157-193 | A rate and its negation leave the same non-negative value in the getters and the same frequency; the direction lines differ. |
| AxisDrive.ClampAfterFrequency | main/mount.c:176-187 | Above the maximum rate, the stored value is the maximum while the emitted frequency is at least that of the maximum: the clamp never limits the frequency. |
| AxisDrive.ClampExample | main/mount.c:176-192 | At 60 cycles per day (ratio 1, factor 1), the driver runs at 60 Hz while the getter reports 30. |
| AxisDrive.Init | main/mount.c:78-105 | Init zeroes both rates. The ratio is the stored integer over one million after a successful read, and 1 after not-found, a read error or an open error. |
| AxisDrive.SetRa | main/mount.c:157-193 | Setting RA drives the RA output of `Apply` under the current ratio and leaves DEC and the ratio alone. |
| AxisDrive.SetDec | main/mount.c:195-231 | Setting DEC drives the DEC output of `Apply` under the current ratio and leaves RA and the ratio alone. |
| AxisDrive.PersistedMillionths | main/mount.c:140 | The persisted integer is the ratio in millionths truncated: never above, and less than one below. |
| AxisDrive.SetTimeRatio | main/mount.c:131-151 | The ratio is set first. Both stored rates are then re-applied under the new ratio, and the truncated millionths are written. |
| AxisDrive.ReapplyDrivesForward | main/mount.c:131-134 | After a negative rate, changing the time ratio re-drives that axis in the positive direction with a non-negative notification. |
| AxisDrive.RatioPersistRoundTrip | main/mount.c:131-151 | A ratio persisted and read back at init is the original truncated to millionths: never larger, and smaller by less than 10^-6. |
| Telescope.InitialValid | main/telescope.c:116-118 | The initial globals are a valid state, and both axes start disabled. |
| Telescope.ClampSpeed | main/telescope.c:253-257 | The result is zero or a magnitude in range. It changes a speed if and only if the speed is outside that set. Speeds saturate at ±450000, and the dead zone (-150, 150] maps to 0. |
| Telescope.ClampSpeedIdempotent | main/telescope.c:253-257 | Clamping twice is clamping once. +150 is cut to zero while -150 is kept. |
| Telescope.ExpectedLength | main/telescope.c:237-314 | Exactly the opcodes 0..6 have a required length. |
| Telescope.Decode | main/telescope.c:235-317 | A datagram decodes if and only if its length is the one its opcode requires. Decoded arguments fit their wire types. |
| Telescope.DecodeEncode | main/telescope.c:251-252 | Decoding the encoding of a command gives the command back: big-endian 32-bit speeds, an `int8_t` tracking flag, and a direction byte with a big-endian `short` length. |
| Telescope.EncodeDecode | main/telescope.c:235-317 | Every datagram that decodes is the encoding of its decoded command. |
| Telescope.TimeoutMicros | main/telescope.c:284 | The pulse timeout is the length in microseconds. A negative length wraps modulo 2^64 into the timer's unsigned argument. |
| Telescope.Execute | main/telescope.c:237-310 | A command changes only the field it names, with speeds clamped. A pulse is refused, with nothing changed, if and only if one is in progress; an accepted pulse stores the direction and asks for a timer of its length. Every accepted command except ping recomputes the steppers. A ping changes nothing. Valid states stay valid. |
| Telescope.ParseCommand | main/telescope.c:235-317 | A wrong length or an unknown opcode is refused and changes nothing. The command is accepted if and only if it decodes and is not a pulse during a pulse. Valid states stay valid. |
| Telescope.ParseEncoded | main/telescope.c:235-317 | Sending the encoding of a command executes that command. |
| Telescope.PulseGuidingFinished | main/telescope.c:213-218 | Finishing a pulse resets guiding to none and changes nothing else. |
| Telescope.Dispatch | main/telescope.c:273-286 | The command is executed as by `Execute`. The pulse timer is armed afterwards if and only if it was before or a pulse was accepted; an accepted pulse starts its own timeout if and only if the timer was idle. |
| Telescope.Expire | main/telescope.c:213-218 | The timer's expiry clears the guiding direction, changes nothing else and leaves the timer idle. |
| Telescope.ZeroDirectionPulseNotGuarded | main/telescope.c:275-284 | From the initial state a pulse of direction 0 for 1000 ms is accepted and arms a 10^6 µs timer with guiding still none; a north pulse of 10 ms sent next is accepted and guides north, and no timer is started for it. |
| Telescope.DispatchGuarded | main/telescope.c:273-286 | A pulse is refused, with nothing changed, while a direction is stored or the timer is armed; other commands are dispatched as written. Every accepted pulse starts a timer with its own timeout, and a stored direction always has an armed timer to clear it. |
| Telescope.GuardedAgrees | main/telescope.c:273-286 | Where no timer is armed without a stored direction, the guarded dispatch is the written one. |
| Telescope.PulseRoundTrip | main/telescope.c:273-286 | An accepted pulse followed by its expiry restores the prior state, and a second pulse during the first is refused. |
| Telescope.Rates | main/telescope.c:121-141 | RA is `raSpeed/15000`, plus or minus the RA guide speed for west or east, plus 1 when tracking. DEC is `decSpeed/15000`, plus or minus the DEC guide speed for north or south. |
| Telescope.UnknownDirectionBlocks | main/telescope.c:124-137 | A pulse in a direction above 4 adds no rate, yet it is accepted and blocks further pulses. |
| Telescope.StepperAxis | main/telescope.c:143-163 | The direction follows the sign. The axis stops if and only if the magnitude is under 0.01 or the truncated frequency is zero. Otherwise it runs at half duty with that frequency. There is no notification. |
| Telescope.UpdateStepper | main/telescope.c:120-187 | Each axis turns forward if and only if its composed rate is not negative. It is disabled, at zero duty, if and only if the rate's magnitude is under 0.01 or the truncated step frequency is zero; otherwise it runs at half duty at that frequency, RA over the sidereal day and DEC over the solar day. Neither notifies. |
| Telescope.AxesUseOwnFields | main/telescope.c:120-187 | DEC ignores tracking and the RA speeds, and RA ignores the DEC speeds. A north or south pulse leaves RA as without guiding, an east or west pulse DEC. |
| Telescope.TrackingDrivesRaOnly | main/telescope.c:139-141 | Tracking leaves the DEC output unchanged and raises the RA rate by exactly one cycle. |
| Telescope.AckLayout | main/telescope.c:189-203 | Byte 0 is tracking and byte 1 the guiding direction. Bytes 2..5, 6..9, 10..13 and 14..17 are the four speeds, big-endian. |
| Telescope.AckRoundTrip | main/telescope.c:189-206 | Reading the 18-byte acknowledgement back field by field gives the state it reports. |
| Telescope.Receive | main/telescope.c:355-365 | An empty datagram is skipped. Any other is parsed and answered with an 18-byte acknowledgement that reads back as the resulting state, which stays valid. The result is the parse of the datagram against the current state, and the answer is that state's acknowledgement. |
| Protocol.LayoutShape | main/include/protocol.h:6-18 | The header's twelve fields are contiguous from 0, end at `BROADCAST_SIZE` = 32, and each has a positive width. |
| Protocol.FieldsDisjoint | main/include/protocol.h:6-17 | Any two distinct fields are disjoint, and every field lies within the record. |
| Protocol.FieldsCover | main/include/protocol.h:6-18 | Every byte of the 32-byte record belongs to some field. |
| Protocol.ImplementedIsPrefix | main/protocol.c:4-16 | The implementation's IP, port, RA and DEC fields sit at the header's offsets and widths. Together they fill exactly the 14 bytes it reports. |
| Protocol.RecordSize | main/include/protocol.h:18-22 | An encoded status is `BROADCAST_SIZE` bytes long. |
| Protocol.FieldAtOffset | main/include/protocol.h:6-17 | Each field of an encoded status sits at its header offset, with its width. |
| Protocol.ReadFieldBack | main/include/protocol.h:6-17 | Each field read back from the record, signed or unsigned as its accessor's type, gives its value. |
| Protocol.StatusRoundTrip | main/include/protocol.h:24-38 | Decoding an encoded status gives the status back. |
| Protocol.SetBroadcastFields | main/protocol.c:9-21 | Bytes 0..3 are the big-endian IP, 4..5 the port, and 6..9 and 10..13 RA and DEC, which read back as signed 32-bit values. Bytes from 14 on are untouched, and the reported size is 14. |
| Protocol.SetterMatchesLayout | main/protocol.c:17-20 | On any buffer, the setter's first 14 bytes equal those of the full record with the same four values, and the rest of the buffer is kept. |
| Bytes.DecodeEncodeUnsigned | main/protocol.c:17-18 | Reading an unsigned big-endian encoding gives the value back. |
| Bytes.EncodeDecodeUnsigned | main/protocol.c:17-18 | Every byte string is the unsigned encoding of what it reads as. |
| Bytes.DecodeEncodeSigned | main/protocol.c:19-20 | Reading a two's-complement big-endian encoding gives the signed value back. |
| Bytes.EncodeDecodeSigned | main/telescope.c:251-252 | Every non-empty byte string is the two's-complement encoding of what it reads as. |
| Bytes.LowBytesUnsigned | main/include/protocol.h:6-7 | Storing a value that fits through a pointer of its width gives its unsigned encoding. |
| Bytes.LowBytesShift | main/include/protocol.h:6-17 | What a store through an `n`-byte pointer leaves depends only on the value modulo 256^n. |
| Bytes.LowBytesSigned | main/include/protocol.h:8-9 | Storing a signed value that fits through a pointer of its width gives its two's-complement encoding. |
| CInt.Trunc | main/mount.c:140 | The `(int)` cast truncates toward zero: within one below a non-negative value and within one above a negative one. |
| CInt.Round | main/mount.c:177 | `round` gives the nearest integer, with halves away from zero. |
| CInt.CRem | main/focuser.c:51 | C's `%` by a positive divisor lies in [0, b) for a non-negative dividend and in (-b, 0] for a negative one. It differs from the dividend by a multiple of the divisor: Dafny's remainder, less the divisor for a negative dividend that is not a multiple, and 0 for a multiple. |

## Left out

- Integer width of the counters: the encoder count, the anchors and the actual pulses are unbounded. In C they are `int32_t`, and overflowing them (after 2^31 pulses) is undefined behaviour.
- Slew.Tick: the DEC difference `decTargetMillis - current` is not checked against `int32_t`. Declinations in milli-units are far below 2^31.
- Floating point: doubles are exact reals. IEEE rounding of the rate, ratio and angle arithmetic is not modelled.
- `get_ra_angle_millis` and `get_dec_angle_millis`: floating-point conversions from pulses and wall-clock time; the clock is an input the model does not have.
- `get_slew_progress`, `dist` and the `distance`/`progress` globals of the slew planner: `sqrt` on doubles, used only for logging and progress display.
- `focuser_get_movement_nanos_per_step` and `focuser_get_max_steps`: build-configuration constants, which are parameters here.
- Non-volatile storage I/O (`nvs_open`, `nvs_get_i32`, `nvs_set_i32`): only its outcome enters `AxisDrive.Init`, and only the written integer leaves `AxisDrive.SetTimeRatio`.
- GPIO and interrupt registration, the interrupt queue and the pin-to-encoder table of `main/rencoder.c`: hardware setup. `rencoder_stop` is setup too.
- Wi-Fi, the socket setup, `sendto`, the event handlers and `app_main`: network and boot plumbing. `Telescope.Receive` models one pass of the receive loop only.
- Concurrency between the encoder interrupt, the timers and the command path: each callback is a sequential step.
- The sky-to-mechanical declination transform and open-loop frequency integration: they are only declared in headers, and their implementations are not part of this model.
- `DAY_MILLIS`, `SIDEREAL_DAY_MILLIS` and the backlash, gear and step constants come from headers or configuration that are not part of this model; they are parameters.
- `target->size` (main/protocol.c:16) writes a field that `broadcast_t` (main/include/protocol.h:20-22) does not have. `Protocol.SetBroadcastFields` returns the size instead, beside the 32-byte buffer.
- The header's thirteen-argument `set_broadcast_fields` has no implementation in these sources. Its record is modelled from the accessor table by `Protocol.EncodeStatus`.
- main/mount_encoder.c:32-33 passes a sixth argument (the reverse flag) to the five-argument `rencoder_start`. The model starts both encoders with both callbacks and no reversal.
- Telescope.Execute: reports the timeout a pulse asks for, not whether the timer starts. On an armed timer `esp_timer_start_once` fails and the source ignores that; `Telescope.Dispatch` models it.
- `esp_timer_start_periodic` on a focuser timer that is already running returns an error and leaves the timer as it was. `Focuser.Move` shows the timer as running at the given interval either way.
- The two revisions (`main/telescope.c` against `main/mount.c` and `main/mount_encoder.c`) are modelled separately. Their frequencies are not compared, because their step constants are independent parameters.

## Findings

| source | as written | input that shows it | evidently intended | confidence | as-written member | corrected member |
|---|---|---|---|---|---|---|
| main/focuser.c:51 | `focuser_step_config[focuser_step % 8]` with C's truncating `%`, which is negative for a negative step | From init, `focuser_move(-1)` and then one timer tick: the step becomes -1, and the row index is -1, a read before the table | The index wraps to row 7, so the half-step sequence continues through zero | not executed | Focuser.NegativeIndexReachable | Focuser.PhaseIndexSteps, Focuser.Tick |
| main/telescope.c:275-284 | The only guard against a pulse during a pulse is `if (pulseGuiding)`, but direction 0 is stored as "none" while `esp_timer_start_once` still arms the timer; a later `esp_timer_start_once` on the armed timer fails, and its result is ignored | From start, pulse direction 0 for 1000 ms, then pulse north for 10 ms: the second is accepted and guides north, but no 10 ms timer starts, so it lasts until the first timer expires | A pulse is refused while the pulse timer is armed, so every accepted pulse ends after its own length | not executed | Telescope.ZeroDirectionPulseNotGuarded | Telescope.DispatchGuarded |
