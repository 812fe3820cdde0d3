# SandOS: a verified model of the firmware's logic

SandOS is the firmware of a two-core robot controller. Core 0 runs a WebAssembly guest, the ESP-NOW radio
and a router; Core 1 runs the 500 Hz balance loop. This project models the parts that carry logic and
proves what they promise:

- **Over-the-air update.** The CRC-32 (`crc.dfy`) is the mathematical CRC: a polynomial remainder, equal to
  the table form of section 8 of RFC 1952, affine, and blind to no burst of up to 32 bits. On it stands the
  OTA session machine (`ota.dfy`), the frame handler that drives it (`espnow.dfy`), reassembly in any order
  and the meaning of the byte counter (`reassembly.dfy`), and the second copy of the machine in the host
  test double (`mock_ota.dfy`).
- **The motor path.** Guest call, bounded queue, router with a 50 ms dead-man's switch, shared atomics and
  the Core 1 tick are one machine of atomic steps (`motor_path.dfy`). Its theorems hold of every
  interleaving, and time may pass between any two steps. `motors.dfy` and `motor_tasks.dfy` have the same code as classes and methods, each proved to
  be its steps run without interruption. `pid.dfy` is the controller; `mock_motors.dfy` the double's motors.
- **Telemetry.** Serializer, records and tagged packet (`codec.dfy`), the transmitted frame and the guest's
  own encoder (`telemetry.dfy`), and the lossy channel with its sequence numbers (`telemetry_channel.dfy`).
- **Inference, audio and status.** The histogram kernel and its result cell (`inference.dfy`), the copies
  into guest memory (`audio.dfy`), and the records the guest reads (`status.dfy`).

Code that updates state is a class here as it is there, with `modifies` clauses and loops where the source
has them. Each method is proved to take the fields where a function of the old fields says, and the promises
are lemmas about those functions over whole runs: `After(es, n)` is the state after the first `n` events.
What each operation does is stated once more without the functions its body is written with: over the bytes of
a frame, the list of events so far, or plain ranges and products (the rows `CommandsInOrder`, `RecordsOfTicks`,
`OutputInRuns`, `Inference.Run` and their like).

Machine integers are integers with their wrap-around written out. A `u32` CRC register is held as its
thirty-two bits, lowest first, so `^`, `&`, `>>` and `!` are operations on bit sequences. Frames, elapsed
time, the voltage flag, pitch and uptime are inputs of steps. Channels are bounded queues.

## Where the code and its comments differ

The model follows the code. Each difference in the table has a lemma; three more, without one, follow it.

| Comment | Code | Lemma |
|---|---|---|
| core1/mod.rs:27-28: the guest cannot exceed the PWM clamps | every speed but 0 can exceed them, up to +-510 | `MotorPath.GuestKeepsClamps`, `MotorPath.GuestExceedsClamps` |
| router.rs:14-18: a hanging guest is stopped after 50 ms | the router shares the guest's core; the bound is 50 ms plus what the guest keeps it waiting, and no less | `MotorPath.PromiseExactly`, `MotorPath.HungGuest` |
| motors.rs:71: disabling zeroes the command atomically | two stores; one late store can land after both | `MotorPath.LateStoreLands`, `MotorPath.CommandAfterZeroing` |
| router.rs:71-76: the outputs follow fresh intents, in either mode | Distributed intents restart the timer and keep a stale local command alive; it is fresh exactly when the last intent was routed in SingleBoard mode | `MotorPath.CommandIsLatestIntent`, `MotorPath.StaleCommandSurvives` |
| core1/pid.rs:21-22: the integral is kept in [output_min / ki, output_max / ki] | it is kept within +-output_max / ki, the same range exactly when output_min == -output_max | `PidControl.LimitsAsDocumented` |
| core1/pid.rs:87: derivative on measurement | derivative on the error | `PidControl.DerivativeFollowsSetpoint` |
| core0/espnow.rs:239-240: the length byte counts what follows the header | it is one too large, so the protocol's own handler refuses the frame | `Telemetry.OwnFrameIsRefused`, `Telemetry.LengthByteIsOneTooLarge` |
| core0/espnow.rs:49-50: the link starts silent | it counts as alive for the first three seconds | `EspNow.LinkAliveMeaning` |
| core0/espnow.rs:88-90: the signal fires when a finalise succeeds | a refused finalise fires it again while a binary waits | `EspNow.SignalCondition`, `Reassembly.RefusedFinaliseFromBoot` |
| telemetry.rs:10-11: the oldest packet is dropped | the new one is | `TelemetryChannel.TelemetryTasks.PushTelemetry` |
| telemetry.rs:12 and abi/src/lib.rs:645-646: the queue lasts 320 ms | two records come every 10 ms, so it lasts 80 ticks, 160 ms | `TelemetryChannel.QueueLasts` |
| core0/espnow.rs:72-73: draining eight packets per iteration is ample | without radio traffic an iteration lasts up to 1000 ms, and what is not drained and does not fit is lost | `TelemetryChannel.TelemetryTasks.DrainIteration`, `TelemetryChannel.LostAtLeast` |
| inference.rs:141: the mean magnitude is at most 127 | it is 128 exactly when every sample is -128 | `Inference.MeanReaches128` |
| core0/abi.rs:366-368: inactive while the link is alive | once active, active for good | `Inference.ActiveIffEverRun`, `Inference.ActiveWhileLinkAlive` |
| core0/ota.rs:48: running count of bytes written, for progress | overlapping and repeated chunks count again, and only those mislead | `Reassembly.CounterInRuns`, `Reassembly.CounterCanMislead` |
| mock_host.rs:416: the double simulates the router's timeout | it stops one millisecond later, and records i32::MIN as it is | `MockMotors.TurnAgreement`, `MockMotors.Lockstep` |

Without a lemma: `get_ota_status` (core0/abi.rs:424-435) reads fields that nothing in the firmware writes, so
the guest always reads Idle and zeros; a full snapshot channel drops the fresh snapshot and not the old one
core0/abi.rs:393-395 means to drop; and core0/espnow.rs:72 speaks of a beacon interval of 1 ms that is 1000 ms.

## Model

| member | source | states |
|---|---|---|
| Crc.ComputeCrc32 | abi/src/lib.rs:887-898 | the double loop computes `Crc32` of every byte string |
| Crc.PolyIsGenerator | abi/src/lib.rs:894 | the constant 0xEDB88320 is the generator given by its exponents, read with the highest power lowest |
| Crc.GeneratorIsStandard | abi/src/lib.rs:879-880 | unreflected, the same generator is 0x04C11DB7 |
| Crc.CrcIsPolynomialRemainder | abi/src/lib.rs:887-898 | for every message the checksum bits are the complemented remainder, by schoolbook division over GF(2), of the preset message times x^32 |
| Crc.RemainderExactly | abi/src/lib.rs:887-898 | that long division is division with remainder: a polynomial is quotient times generator plus remainder for exactly one quotient and one remainder of their sizes |
| Crc.CrcIsTableDriven | abi/src/lib.rs:879-880 | for every message the bit-serial checksum equals the table-driven one of RFC 1952, as its zlib compatibility demands |
| Crc.CrcIsAffine | abi/src/lib.rs:887-898 | the checksum of the exclusive or of any three messages of one length is the exclusive or of their checksums |
| Crc.BurstDetected | abi/src/lib.rs:887-898 | two different messages that differ only within 32 consecutive bits, at any alignment and of any length, have different checksums |
| Crc.FourByteBurstDetected | abi/src/lib.rs:887-898 | the same for differences inside four consecutive bytes |
| Crc.Burst33Undetected | abi/src/lib.rs:887-898 | the bound is sharp: adding the 33-bit generator anywhere in a bit string leaves every register as it was |
| Crc.Burst33Missed | abi/src/lib.rs:887-898 | in messages: every message has, at every alignment, a different one that differs within 33 bits only and has the same checksum |
| Crc.MissedExactly | abi/src/lib.rs:887-898 | two messages of one length have the same checksum exactly when the generator divides their difference times x^32 |
| Ota.OtaReceiver.ReadyBinary | firmware/src/core0/ota.rs:85-91 | a binary is shown exactly in the Ready state, and it is the buffer |
| Ota.OtaReceiver.HandleBegin | firmware/src/core0/ota.rs:102-124 | new fields and result of a begin: a zeroed buffer of the declared size, or Failed; no other outcome |
| Ota.OtaReceiver.HandleChunk | firmware/src/core0/ota.rs:132-150 | new fields and result of a chunk, every buffer index in range for all offsets up to u32::MAX |
| Ota.OtaReceiver.HandleFinalize | firmware/src/core0/ota.rs:158-174 | Ready exactly when the payload carries the checksum of the whole buffer, else Failed |
| Ota.OtaReceiver.HandleCommand | firmware/src/core0/ota.rs:180-187 | dispatch by command id, other ids untouched |
| Ota.OtaReceiver.TakeVerifiedBinary | firmware/src/core0/ota.rs:211-223 | hands out the buffer exactly in Ready and leaves an empty Idle receiver; Swapping is not visible after it |
| Ota.OtaReceiver.Reset | firmware/src/core0/ota.rs:226-233 | a Failed session is cleared, any other left alone |
| Ota.After | firmware/src/core0/ota.rs:41-52 | in every run the buffer has the declared size, at most 512 KiB, and the state between calls is never Swapping |
| Ota.ReadyStep | firmware/src/core0/ota.rs:166-173 | Ready is entered only by an accepted finalise, and no event that stays in it changes the buffer |
| Ota.ReadyIsVerified | firmware/src/core0/ota.rs:158-174 | whenever a run is in Ready, some earlier finalise matched the checksum of this very buffer, held since with no begin accepted |
| Ota.HandOverIsVerified | firmware/src/core0/ota.rs:203-223 | whatever a run hands over is verified in that sense |
| Ota.BufferIsLastWrites | firmware/src/core0/ota.rs:116-149 | in every run each buffer byte is the last accepted write covering it since the last begin, or zero; all accepted writes are in range; the counter is their total length mod 2^32 |
| Ota.SwapsCounted | firmware/src/core0/ota.rs:211-223 | in every run the swap counter is the number of binaries handed over, mod 2^32 |
| EspNow.EspNowTask.HandleFrame | firmware/src/core0/espnow.rs:159-206 | new radio state of a frame; over its bytes: exactly the frames with the magic and a length that fits move the radio timestamp, and exactly those of them for the Wasm engine that find fewer than eight waiting are queued, as id and first 64 payload bytes |
| EspNow.EspNowTask.TakeCommand | firmware/src/core0/wasm_vm.rs:155 | the Wasm task's receive takes the front of the command queue |
| EspNow.CommandsInOrder | firmware/src/core0/espnow.rs:200-205 | in every run the commands received by the Wasm task followed by those waiting are, in order, exactly those of the frames for it that found fewer than eight waiting, each with its id and first 64 payload bytes |
| EspNow.SignalCondition | firmware/src/core0/espnow.rs:189-197 | the swap signal fires exactly on a well-formed finalise that is accepted or finds a verified binary waiting |
| EspNow.RadioRunsOta | firmware/src/core0/espnow.rs:189-198 | in every run of frames, swaps and resets, the receiver runs exactly the commands of the valid OTA frames |
| EspNow.SignalIsVerified | firmware/src/core0/espnow.rs:190-197 | in every run, a signal announces the length of a verified binary |
| EspNow.LinkAliveMeaning | firmware/src/core0/espnow.rs:59-62 | with frames in time order, the link is alive exactly when a valid frame came less than 3 s ago or the uptime is below 3 s |
| Reassembly.AnyOrderReassembles | firmware/src/core0/ota.rs:102-174 | any list of true slices covering a binary of 1 to 512 KiB, in any order, overlapping or repeated, with heartbeats, Wasm commands, malformed frames and empty chunks in between, received from any state, ends in Ready with that binary and its length signalled |
| Reassembly.TransferOutcome | firmware/src/core0/espnow.rs:159-198 | without coverage, and with any such traffic in between, the buffer is right where covered and zero elsewhere, and the checksum alone decides between Ready and Failed |
| Reassembly.AcceptedExactly | firmware/src/core0/ota.rs:158-174 | such a transfer ends in Ready exactly when the generator divides the difference between buffer and binary times x^32 |
| Reassembly.MissingBurstIsRefused | firmware/src/core0/ota.rs:166-173 | a transfer missing nonzero bytes only within four consecutive ones fails |
| Reassembly.RefusedFinaliseSignals | firmware/src/core0/espnow.rs:189-197 | after every such transfer a second finalise, whatever its checksum, is refused and signals the binary again |
| Reassembly.RefusedFinaliseFromBoot | firmware/src/core0/espnow.rs:189-197 | for every binary that fits a chunk, a radio run from boot that ends so |
| Reassembly.FramesGoOn | firmware/src/core0/espnow.rs:159-206 | handling a list of frames, as these transfers do, is going on with a radio run at any point of it |
| Reassembly.DamagedImageIsRefused | firmware/src/core0/ota.rs:166-173 | a staged image damaged only within 32 consecutive bits is refused when the sender's checksum arrives |
| Reassembly.CounterInRuns | firmware/src/core0/ota.rs:147-149 | in every run, until its sum wraps the counter is at least the number of distinct offsets written, and equals it exactly when no two chunks overlap; at the declared size it means a complete buffer exactly then; without overlaps it never wraps, and is at the declared size exactly when no byte is missing |
| Reassembly.DisjointExactly | firmware/src/core0/ota.rs:147-149 | the lengths of nonempty writes add up to the number of offsets written exactly when no two overlap |
| Reassembly.CounterCanMislead | firmware/src/core0/ota.rs:148 | every run of a begin and one chunk repeated until its lengths add up to the size ends with a full counter and bytes missing |
| MockOta.MockHost.OtaBegin | host-tests/src/mock_host.rs:486-500 | new fields and status of a begin |
| MockOta.MockHost.OtaReceiveChunk | host-tests/src/mock_host.rs:510-524 | new fields and status of a chunk; refusals change nothing |
| MockOta.MockHost.OtaFinalize | host-tests/src/mock_host.rs:533-544 | new fields and status of a finalise |
| MockOta.MockHost.HotSwapWasm | host-tests/src/mock_host.rs:559-584 | the verified buffer becomes the active binary, exactly in Ready |
| MockOta.StepAgreement | host-tests/src/mock_host.rs:486-584 | from agreement, a command keeps it exactly when it is no refused begin, out-of-range chunk or short payload that fails the firmware's session |
| MockOta.Lockstep | host-tests/src/mock_host.rs:486-584 | in every run both machines agree after every command up to the first diverging one, and disagree after that one |
| MockOta.BeginResynchronises | host-tests/src/mock_host.rs:486-500 | from any two states, a begin of a good size brings agreement exactly when the swap counts are equal |
| MockOta.Resync | host-tests/src/mock_host.rs:486-500 | after any divergence the next good begin restores agreement if no swap came between |
| MockOta.SameHandOver | host-tests/src/mock_host.rs:559-584 | from agreement the firmware hands over exactly the binary the double installs |
| Motors.PackRoundTrip | firmware/src/motors.rs:48-62 | packing two i16 speeds in a word loses nothing, negative ones included |
| Motors.UnpackRoundTrip | firmware/src/motors.rs:59-64 | every word is the packing of what it unpacks to |
| Motors.PackLayout | firmware/src/motors.rs:48-50 | the left speed is in the high half of the word, the right one in the low half |
| Motors.MotorBridge.StoreMotorCommand | firmware/src/motors.rs:44-51 | stores the packed pair exactly when enabled |
| Motors.MotorBridge.LoadMotorCommand | firmware/src/motors.rs:59-64 | returns the two halves of the command |
| Motors.MotorBridge.SetMotorEnabled | firmware/src/motors.rs:73-79 | sets the flag, and zeroes the command when disabling, if nothing interferes |
| MotorPath.AcceptedSpeeds | firmware/src/core0/abi.rs:270-276 | of one argument: its magnitude passes exactly from -255 to 255 and for i32::MIN, which becomes speed 0 |
| MotorPath.AcceptedExactly | firmware/src/core0/abi.rs:270-272 | a call is accepted exactly when each of its two arguments is within +-255 or i32::MIN, whatever their signs |
| MotorPath.CallIsPublished | firmware/src/core0/abi.rs:269-282 | in every run, what a call publishes is the speeds of its own arguments in their order, i32::MIN as 0, and it does so exactly when fewer than eight wait; a call with any argument out of range publishes nothing |
| MotorPath.AnySpeedsArrive | firmware/src/core0/abi.rs:269-282 | for every pair of speeds in the range, a run from boot in SingleBoard mode in which a call with them ends as the packed command |
| MotorPath.TickBalance | firmware/src/core1/mod.rs:101-105 | the balance of a tick from its pitch in millidegrees: the whole part of 10 times the error, half the integral and 50 times the change of the error, within +-255 |
| MotorPath.FirstTickBalance | firmware/src/core1/mod.rs:101-105 | the first tick answers a pitch of p millidegrees with the whole part of -0.060001 p, at most 255 either way |
| MotorPath.StepKeepsInv | firmware/src/router.rs:86-148 | every atomic step of either core, and time passing at any moment, keeps speed ranges, PID bound, queue accounting, the router's idle time, the origin of the command and shutdown facts |
| MotorPath.DeadMansSwitch | firmware/src/router.rs:86-112 | in every interleaving, with time passing between any steps, a nonzero command with the motors enabled is backed by an intent received, and published, at most 50 ms ago plus the milliseconds since then in which the router was kept from a step it had to take |
| MotorPath.PromiseExactly | firmware/src/router.rs:12-18 | a bound on the age of the driving command holds of all runs with at most so many late milliseconds exactly when it is at least 50 more: 50 ms exactly when the router is never late |
| MotorPath.HungGuest | firmware/src/core0/wasm_vm.rs:157-159 | for every time, a run from boot in which a guest drives the motors, then keeps the router from running, and the command of then still drives them |
| MotorPath.TimeoutZeroes | firmware/src/router.rs:98-101 | in every run, a timeout whose store has landed leaves the command zero until an intent is routed in SingleBoard mode, whatever happens between its three steps |
| MotorPath.RefusedTimeout | firmware/src/motors.rs:44-51 | in every run, a check that finds the flag down is followed by no store at all: the command is what it was, and zero from Core 1's own zeroing on |
| MotorPath.QuietUntilRouted | firmware/src/router.rs:117-123 | from then on the command stays zero until an intent is routed in SingleBoard mode |
| MotorPath.DistributedRestartsTimer | firmware/src/router.rs:124-146 | in every run, after a Distributed intent the command in force stays as it is for 50 ms at least, unless the motors are disabled or an intent is routed to them |
| MotorPath.CommandOrigin | firmware/src/router.rs:117-123 | in every run, a command that drives the motors of a waiting router is that of the last intent routed in SingleBoard mode |
| MotorPath.CommandIsLatestIntent | firmware/src/router.rs:117-148 | in every run, a command that drives the motors of a waiting router is the latest intent received exactly when the last one routed found SingleBoard mode, or happens to have its speeds |
| MotorPath.StaleCommandSurvives | firmware/src/router.rs:124-146 | for every n, a run with a punctual router whose command from boot is still in force after n Distributed intents 40 ms apart |
| MotorPath.IntentsInOrder | firmware/src/message_bus.rs:37-81 | in every interleaving, accepted intents are those routed followed by those queued, in order, and at most eight are queued |
| MotorPath.SpeedRange | firmware/src/core1/mod.rs:101-120 | in every interleaving queued speeds and command are within +-255, and each tick's output is the plain sum within +-510: neither saturation nor the i16 clamp engages |
| MotorPath.GuestKeepsClamps | firmware/src/core1/mod.rs:101-120 | for all accepted arguments, their command keeps every balance output within +-255 exactly when both are 0 or i32::MIN |
| MotorPath.GuestExceedsClamps | firmware/src/core1/mod.rs:101-120 | for all other accepted arguments, a run from boot in which that call's command drives a motor beyond +-255; with full speeds, to +-510 |
| MotorPath.DisabledForGood | firmware/src/motors.rs:73-79 | no step raises the enable flag once it is down |
| MotorPath.OutputsAreZero | firmware/src/core1/mod.rs:95-137 | in every interleaving every tick that ends after the flag went down outputs zero |
| MotorPath.AtMostOneLateStore | firmware/src/motors.rs:44-51 | after the flag went down the router stores at most once, and only if that store was already past its check |
| MotorPath.ZeroForGood | firmware/src/motors.rs:44-51 | disabled, command zero and nothing in flight is a state that lasts |
| MotorPath.ShutdownRestsPid | firmware/src/core1/mod.rs:95-98 | in every run, from the shutdown's second store on the controller is at rest and the flag down |
| MotorPath.ShutdownHolds | firmware/src/core1/mod.rs:95-98 | the command is zero for good after the shutdown's second store if nothing was in flight, else after that of the next critical tick once the late store has landed |
| MotorPath.CommandAfterZeroing | firmware/src/motors.rs:73-79 | exactly what the command is between two such stores: what the store in flight leaves if it has landed, else zero |
| MotorPath.LateStoreLands | firmware/src/motors.rs:44-51 | a run that ends its shutdown tick disabled with a nonzero command |
| MotorTasks.MotorTasks.SetMotorSpeed | firmware/src/core0/abi.rs:269-282 | status and queue of the guest call over the plain range: refused as invalid exactly when an argument is outside +-255 and not i32::MIN, queued exactly on OK; and its uninterrupted steps |
| MotorTasks.MotorTasks.RouterTurn | firmware/src/router.rs:87-111 | one turn of the router's loop, as its uninterrupted steps, and whether it runs the fallback inference |
| MotorTasks.MotorTasks.RouteIntent | firmware/src/router.rs:117-148 | the command is the packed intent in SingleBoard mode with motors enabled, else unchanged |
| MotorTasks.MotorTasks.Tick | firmware/src/core1/mod.rs:84-137 | one Core 1 tick: new shared state, new PID state and duty cycles, as its uninterrupted steps |
| MotorTasks.RouterRuns | firmware/src/router.rs:86-148 | from any invariant state at rest, the router's steps can all be taken and end where the turn ends |
| MotorTasks.TickRuns | firmware/src/core1/mod.rs:95-137 | likewise for the steps of a tick |
| MotorTasks.RunToIsRun | firmware/src/router.rs:86-148 | steps that can be taken one after the other from an invariant state are a run, so that the results about runs hold of these bodies |
| MotorTasks.DutiesAreTickOutput | firmware/src/core1/mod.rs:101-137 | the duty cycles of a tick are the output of the last of its steps |
| PidControl.PidController.Update | firmware/src/core1/pid.rs:77-97 | new integral and previous error, and as output the control law of them between the output limits, for every setpoint, measurement and time step on which the clamps do not panic |
| PidControl.PidController.Reset | firmware/src/core1/pid.rs:104-107 | integral and previous error become zero |
| PidControl.OutputIsLaw | firmware/src/core1/pid.rs:87-96 | the output of an update is kp times the error, plus ki times the new integral, plus kd times the change of the error over the time step, between the output limits |
| PidControl.OutputInRuns | firmware/src/core1/pid.rs:77-97 | in every run from rest it is that law of the errors fed in: the sum of error times dt since the last reset, limited after each update, and the last two errors |
| PidControl.PlainLaw | firmware/src/core1/pid.rs:77-97 | while neither limit engages it is the law with the plain sum |
| PidControl.IntegralIsBounded | firmware/src/core1/pid.rs:80-85 | in every run of updates and resets from rest, the integral stays within output_max / ki |
| PidControl.LimitsAsDocumented | firmware/src/core1/pid.rs:21-22 | the code's limits on the integral are the documented ones exactly when the output limits are opposite |
| PidControl.DriftNeverGrows | firmware/src/core1/pid.rs:80-85 | two controllers with different integrals fed the same inputs never move apart |
| PidControl.ConstantErrorClosedForm | firmware/src/core1/pid.rs:80-85 | n updates with one error integrate to the single clamp of the unclamped sum, however often the limit was hit |
| PidControl.RecoveryExactly | firmware/src/core1/pid.rs:80-85 | under a constant error the integral has crossed zero after exactly those numbers of updates whose total reaches it |
| PidControl.RecoveryIsBounded | firmware/src/core1/pid.rs:80-85 | after any history ceil(output_max / (ki * abs(error) * dt)) updates with an opposing error suffice |
| PidControl.UpdatesNeeded | firmware/src/core1/pid.rs:83-84 | that ceiling is the least number of steps reaching the limit |
| PidControl.DerivativeFollowsSetpoint | firmware/src/core1/pid.rs:87-93 | the derivative is that of the measurement alone exactly when the setpoint did not move |
| PidControl.ResetForgets | firmware/src/core1/pid.rs:99-107 | after a reset anywhere in a run, the rest is that of a controller at rest |
| MockMotors.MockMotorHost.SetMotorSpeed | host-tests/src/mock_host.rs:330-359 | new fields, watchdog count included, and status of a speed call, over the plain range; refused exactly as in the firmware |
| MockMotors.MockMotorHost.CheckDeadMansSwitch | host-tests/src/mock_host.rs:417-423 | zeroes the speeds exactly when the last intent is more than 50 ms old |
| MockMotors.LogStaysInRange | host-tests/src/mock_host.rs:330-359 | in every run logged and distributed intents are within +-255, and recorded speeds too unless they are i32::MIN |
| MockMotors.SpeedsMatchIntent | host-tests/src/mock_host.rs:331-350 | recorded speeds equal the logged intent, and are in range, exactly when no argument is i32::MIN |
| MockMotors.StoppedUntilCommanded | host-tests/src/mock_host.rs:417-423 | in every run, after an expired check the speeds stay zero until an accepted SingleBoard call |
| MockMotors.TurnRuns | firmware/src/router.rs:86-148 | a call, a millisecond or a mode change of the comparison is a run of the firmware's atomic steps |
| MockMotors.TurnsAreOneRun | firmware/src/router.rs:86-148 | the firmware's side of any number of turns is one run of atomic steps |
| MockMotors.TurnAgreement | host-tests/src/mock_host.rs:330-423 | from equal speeds, a turn keeps the double's speeds equal to the firmware's command exactly when it is no SingleBoard call with i32::MIN and not the fiftieth millisecond of a drive without a call |
| MockMotors.BootPaired | host-tests/src/mock_host.rs:178-197 | at boot the two are in step |
| MockMotors.Lockstep | host-tests/src/mock_host.rs:330-423 | in every run the two have the same speeds after every turn up to the first such one, and not after it |
| MockMotors.TurnResynchronises | host-tests/src/mock_host.rs:330-423 | however they came to differ, an accepted SingleBoard call makes them equal exactly when no argument is i32::MIN, and any check past 50 ms does |
| Codec.CdrSerializer.Write | abi/src/lib.rs:350-400 | a write appends the little-endian bytes of its value if they fit, else changes nothing: one step of `WriteAll` |
| Codec.HoldsWhatSucceeded | abi/src/lib.rs:335-406 | for every capacity and write sequence the contents are the encodings of the writes that succeeded |
| Codec.AllSucceedIffTheyFit | abi/src/lib.rs:335-337 | all writes succeed exactly when their total size fits |
| Codec.FieldLayout | abi/src/lib.rs:350-400 | each value is written in its own width, least significant byte first, negative ones in two's complement |
| Codec.ImuToCdr | abi/src/lib.rs:470-486 | the eight writes and the copy put the record's encoding at the front of the slice, or nothing if it is too short |
| Codec.OdometryToCdr | abi/src/lib.rs:545-558 | the same for odometry |
| Codec.Serialize | abi/src/lib.rs:609-624 | type byte and encoding at the front of the slice, or nothing |
| Codec.ImuRoundTrip | abi/src/lib.rs:491-508 | every IMU record is decoded from its encoding, whatever follows it |
| Codec.OdometryRoundTrip | abi/src/lib.rs:563-577 | the same for odometry |
| Codec.ImuBytesRoundTrip | abi/src/lib.rs:453-508 | every 36 bytes decode, and encode back to themselves |
| Codec.OdometryBytesRoundTrip | abi/src/lib.rs:531-577 | every 20 bytes decode, and encode back to themselves |
| Codec.PacketRoundTrip | abi/src/lib.rs:631-638 | every tagged packet is decoded from its serialisation |
| Codec.DecodesExactly | abi/src/lib.rs:631-638 | bytes decode exactly when they begin with a known type and are long enough for its record |
| Codec.RecordLayout | abi/src/lib.rs:453-577 | every field of both records is at its offset, byte by byte, least significant first, negative values in two's complement |
| Telemetry.BuildFrame | firmware/src/core0/espnow.rs:223-249 | after the overlapping in-place shift the frame is header, type, length byte and the bare encoding |
| Telemetry.FrameLayout | firmware/src/core0/espnow.rs:223-249 | the frame is 5A 4E 30 25 or 5A 4E 31 15, in hexadecimal, and the encoding of the record |
| Telemetry.FrameDecodes | firmware/src/core0/espnow.rs:221-222 | decoding the body by the type byte in the header recovers every packet |
| Telemetry.OwnFrameIsRefused | firmware/src/core0/espnow.rs:178-182 | the frame handler ignores every such frame |
| Telemetry.LengthByteIsOneTooLarge | firmware/src/core0/espnow.rs:239-240 | with the length byte one less it would accept it and read exactly the body |
| Telemetry.GuestTelemetry.EmitImu | wasm-apps/src/lib.rs:335-368 | sends exactly below 28 waiting; the bytes handed over carry the old sequence number, the uptime in microseconds, 2000, pitch, roll and zeros, each at its offset; return code as in the guest |
| Telemetry.GuestTelemetry.EmitOdometry | wasm-apps/src/lib.rs:373-397 | the same for odometry, with both speeds zero |
| Telemetry.HostDecodesGuest | firmware/src/core0/abi.rs:300-344 | the host decodes such a buffer to that record |
| Telemetry.GuestBytesReachTheAir | firmware/src/core0/abi.rs:300-344 | the host decodes exactly the bytes of the right length, and the frame sent for them carries them unchanged |
| TelemetryChannel.TelemetryTasks.PushTelemetry | firmware/src/telemetry.rs:38-40 | the new packet is queued, or dropped when 32 wait |
| TelemetryChannel.TelemetryTasks.EmitTelemetry | firmware/src/core1/mod.rs:139-172 | a tick's telemetry, as its two steps without interruption; what its records say is `RecordsOfTicks` |
| TelemetryChannel.TelemetryTasks.DrainOne | firmware/src/core0/espnow.rs:120-127 | the radio takes the front of the queue |
| TelemetryChannel.TelemetryTasks.DrainIteration | firmware/src/core0/espnow.rs:120-127 | an iteration takes the first eight of the queue, or all of a shorter one |
| TelemetryChannel.Conservation | firmware/src/telemetry.rs:38-40 | in every run, guest pushes and drains between the two pushes of a tick included, accepted packets are those sent followed by those queued, in order, and every push is sent, queued or dropped |
| TelemetryChannel.ReceiverSeesDrops | firmware/src/core1/mod.rs:139-170 | in every such run and for each record type, Core 1's packets among those sent and queued are numbered by position plus earlier drops of its own, so their sequence gaps equal its drops |
| TelemetryChannel.RecordsOfTicks | firmware/src/core1/mod.rs:139-172 | in every run the k-th IMU record of Core 1 has the number k, the times, pitch and roll of the k-th emitting tick and zeros, the k-th odometry record its times and speeds, and there are no others |
| TelemetryChannel.PacketsTellTicks | firmware/src/core1/mod.rs:139-172 | of the packets of a kind sent and queued, the k-th tells in the same way of the emitting tick that many drops on |
| TelemetryChannel.GuestPacketsAsOffered | firmware/src/core0/abi.rs:300-344 | in every run the guest packets pushed are those it offered, in order |
| TelemetryChannel.TornTick | firmware/src/core1/mod.rs:157-169 | a run from boot in which a tick loses its IMU record and not its odometry record, to a drain between the two pushes |
| TelemetryChannel.QueueLasts | abi/src/lib.rs:643-648 | while nothing is drained and the guest is silent, nothing is dropped exactly up to 80 ticks |
| TelemetryChannel.LostAtLeast | firmware/src/core0/espnow.rs:120-127 | in every run, what neither the slots hold nor a drain takes is lost, of at least two records per emitting tick |
| TelemetryChannel.EmittingTicksClosedForm | firmware/src/core1/mod.rs:141-172 | the number of emitting ticks for any tick count, wraps of the counter included |
| TelemetryChannel.CountersAreCeil | firmware/src/core1/mod.rs:158-169 | the sequence counters are that number mod 2^32, the IMU one ahead inside an emitting tick; it is ceil(k / 5) until the tick counter wraps and one more on the next tick |
| Inference.Histogram | firmware/src/inference.rs:122-125 | the loop counts every byte value, and the counts sum to the number of samples |
| Inference.LastMaximum | firmware/src/inference.rs:126-131 | of equal maxima the last index wins |
| Inference.Run | firmware/src/inference.rs:112-145 | the result over the samples: the largest most frequent byte mod 8, and the rounded-down mean m of the first 1024 magnitudes as 100 from m = 127 on, below as 100 m / 127 rounded down; class below 8, no overflow |
| Inference.ResultIsAnswer | firmware/src/inference.rs:118-145 | the result the multiset determines is that answer for every order of the samples |
| Inference.OrderDoesNotMatter | firmware/src/inference.rs:123-142 | tensors whose first 1024 samples are reorderings of each other have one result |
| Inference.SumIsWeight | firmware/src/inference.rs:135-139 | the sum of magnitudes depends on the multiset only |
| Inference.MeanReaches128 | firmware/src/inference.rs:135-141 | the mean magnitude is 128 exactly when every sample is -128 |
| Inference.PackResultRoundTrip | abi/src/lib.rs:739-752 | the packed cell loses nothing |
| Inference.CellLayout | abi/src/lib.rs:737-743 | flag, class and confidence are at their documented bits |
| Inference.ActiveIffEverRun | firmware/src/router.rs:158-164 | in every run the stored result is active exactly when the kernel has run at least once |
| Inference.CellIsLastResult | firmware/src/router.rs:105-164 | in every run the cell reads as the kernel's answer for the snapshot used last, inactive before the first; a snapshot is used on each timeout 3 s after the last valid frame, in the order of those that found fewer than two waiting |
| Inference.ActiveWhileLinkAlive | firmware/src/router.rs:105-108 | for every snapshot, a run in which it is taken in the silence and that ends with the link alive and an active result |
| Audio.ValidRegionMeaning | abi/src/lib.rs:258-263 | for memories below 2^31 bytes and all i32 pairs, what passes is exactly a region inside the memory |
| Audio.AudioHost.ReadAudio | firmware/src/core0/abi.rs:211-220 | the popping loop moves the front of the buffer, in order, or refuses with no change |
| Audio.AudioHost.HostReadAudio | firmware/src/core0/wasm_vm.rs:329-356 | guest memory changes in the requested region only, by exactly the bytes popped; refusals change nothing; one step of the runs below |
| Audio.TextSlice | firmware/src/core0/wasm_vm.rs:261-281 | a slice is taken exactly for regions in range of at most 256 bytes, and is that region; the i32 addition does not overflow |
| Audio.HostGetPitchRoll | firmware/src/core0/wasm_vm.rs:360-387 | both slots are written or neither; roll wins where they overlap |
| Audio.SlotsHold | firmware/src/core0/wasm_vm.rs:360-387 | the slots then read as the two values, and no other byte changed |
| Audio.DeliveredIsPrefixOfFed | host-tests/src/mock_host.rs:283-299 | in every run the bytes delivered since the last start are a prefix of those fed, the rest is buffered |
| Audio.BufferIsUnread | host-tests/src/mock_host.rs:267-299 | by the events alone: in every run the buffer is what was fed since the last start and not yet read, and every read in range takes as much as it asked for or is left |
| Audio.ReadBringsNext | firmware/src/core0/wasm_vm.rs:329-356 | in every run a read brings the next bytes fed to its pointer and changes no other byte |
| Audio.OnlyRequestedBytesChange | firmware/src/core0/wasm_vm.rs:347-353 | in every run a memory byte outside all requested regions keeps its value |
| Status.StatusRoundTrip | abi/src/lib.rs:847-874 | every OTA status is decoded from its bytes |
| Status.StatusDecodesExactly | abi/src/lib.rs:862-874 | bytes decode exactly when there are sixteen and the first is 0 to 4 |
| Status.StatusLayout | abi/src/lib.rs:847-860 | state code, bytes received, size and swap count are the four words, in this order |
| Status.StatusBytesRoundTrip | abi/src/lib.rs:862-874 | bytes that decode encode back to themselves exactly when the state word is below 256 |
| Status.ResultRoundTrip | abi/src/lib.rs:710-733 | every inference result is decoded from its bytes |
| Status.ResultLayout | abi/src/lib.rs:710-718 | flag, class and confidence are the three words |
| Status.ResultBytesRoundTrip | abi/src/lib.rs:725-733 | bytes encode back to themselves exactly when no word is cut |

## Left out

- PidControl.PidController.Update: `f32` rounding, infinities and NaN; the arithmetic is over the reals.
- MotorPath.HungGuest: the hardware watchdog that core0/wasm_vm.rs:88-90 counts on, as no code configures or feeds it.
- MotorPath.StepKeepsInv: weak memory; each load and store of a shared word is one indivisible step in a single order.
- MotorPath.DisabledForGood: `set_motor_enabled(true)`, which nothing in the firmware calls; a step that raises the flag would void every shutdown result.
- MotorPath.CommandIsLatestIntent: nothing in the firmware calls `set_routing_mode`, `take_verified_binary`, `reset_failed` or `push_audio_for_inference` either; as public entry points they are steps all the same, so that no result depends on their staying unused.
- MotorPath.AcceptedSpeeds: debug builds, where `abs` of i32::MIN panics; release wrap-around is modelled, as for all counters.
- Codec.CdrSerializer.Write: the six typed writers are one method on a typed value, the slice writes one copy.
- Crc.ComputeCrc32: the inner eight-turn loop is a method of its own, `ShiftOut`.
- Inference.Run: `run_stub_inference` of the test double is the same code and is not modelled twice.
- TelemetryChannel.ReceiverSeesDrops: the guest's records of the same types, which count from 0 on their own; a receiver cannot tell the two series apart.
- Audio.DeliveredIsPrefixOfFed: the firmware's 8192-byte limit, as nothing in the firmware feeds the buffer yet; feeding is the double's.
- EspNow.SignalIsVerified: the Wasm task's taking of the swap signal; the field holds the last one sent.
- EspNow.CommandsInOrder: what the guest does with a command it received.
- The wasmi engine, the linker and the firmware's swap body, which reloads the built-in binary as a placeholder.
- Radio, Wi-Fi, timers, GPIO, heap, watchdog, boot and ULP reads: hardware, present as inputs of steps.
- Display, eye expressions, brightness, LED, log text and UTF-8 checks: no hard property.
- `simulate_imu` and the IMU cell: a stub and a single atomic.
