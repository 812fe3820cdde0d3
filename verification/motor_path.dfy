/**
 * The motor path across the two cores, as a machine of atomic steps.
 *
 * A guest call checks its arguments, loads the enable flag and publishes an intent (core0/abi.rs); the
 * router receives intents with a 50 ms timeout and stores commands, check first and store after
 * (router.rs, motors.rs); Core 1 polls the voltage flag, disables in two stores, and blends the command
 * with the PID output (core1/mod.rs). Every load and store of a shared word is a step of its own, and any
 * interleaving of the steps is a run. Time may pass between any two steps, however long the router is kept
 * from its next one; the milliseconds it is kept waiting are counted.
 */
module MotorPath {
  import opened Wrappers
  import opened Bytes
  import opened Motors
  import Pid = PidControl

  const DEAD_MANS_SWITCH_MS := 50
  const INTENT_QUEUE_DEPTH := 8
  const MAX_MOTOR_SPEED := 255
  const DT: real := 0.002

  datatype Intent = Intent(left: i16, right: i16)
  datatype RoutingMode = SingleBoard | Distributed

  function PackIntent(i: Intent): u32 { Pack(i.left, i.right) }

  /** Both speeds are zero: the packed word is. */
  predicate IsStop(i: Intent) { PackIntent(i) == 0 }

  datatype GuestPc = GuestIdle | GuestGate(intent: Intent) | GuestPublish(intent: Intent)

  datatype RouterPc =
    | Waiting
    | ReadMode(intent: Intent)
    | CheckEnabled(intent: Intent)
    | StoreCommand(intent: Intent)

  datatype CorePc =
    | TickStart
    | ZeroCommand(pitch: i32)
    | CheckMotor(pitch: i32)
    | LoadCommand(balance: int)

  /** A moment: the time, and the milliseconds until then in which the router was kept from a step. */
  datatype Moment = Moment(at: nat, late: nat)

  datatype State = State(
    // Shared between the cores.
    command: u32, enabled: bool,
    // Core 0.
    mode: RoutingMode, queue: seq<Intent>, guest: GuestPc, router: RouterPc, waitStart: nat, clock: Moment,
    // Core 1.
    core: CorePc, pid: Pid.Pid,
    // History: the intents accepted by the queue and received from it, how many were received up to the
    // last one routed to the motors, when the queued ones and the last received one were published, and
    // when that one was received.
    accepted: seq<Intent>, routed: seq<Intent>, here: nat,
    stamps: seq<Moment>, published: Moment, received: Moment)

  /** The tuned controller, at rest. */
  predicate FreshPid(p: Pid.Pid) {
    && p.kp == 10.0 && p.ki == 0.5 && p.kd == 0.1 && p.outputMin == -255.0 && p.outputMax == 255.0
    && p.integral == 0.0 && p.prevError == 0.0
  }

  /** At boot, whenever that is: nothing published yet, the timer just started, the motors enabled and at rest. */
  ghost predicate Initial(s: State) {
    && s.command == 0 && s.enabled && s.mode == SingleBoard && s.queue == [] && s.guest == GuestIdle
    && s.router == Waiting && s.waitStart == s.clock.at && s.core == TickStart && FreshPid(s.pid)
    && s.accepted == [] && s.routed == [] && s.here == 0 && s.stamps == []
    && s.published == s.received == s.clock
  }

  datatype Action =
    | GuestCall(leftArg: i32, rightArg: i32)
    | GuestLoad
    | GuestSend
    | SetMode(mode: RoutingMode)
    | RouterReceive
    | RouterTimeout
    | RouterMode
    | RouterCheck
    | RouterStore
    | CoreBegin(critical: bool, pitchIn: i32)
    | CoreZero
    | CoreCheck
    | CoreLoad
    | Clock

  // ── Guest calls ───────────────────────────────────────────────────────────

  /** `i32::abs` in a release build: the magnitude of `i32::MIN` wraps to itself. */
  function WrappingAbs(v: i32): i32 { if v == -0x8000_0000 then v else if v < 0 then -v else v }

  predicate SpeedAccepted(left: i32, right: i32) {
    !(WrappingAbs(left) > MAX_MOTOR_SPEED || WrappingAbs(right) > MAX_MOTOR_SPEED)
  }

  /** Exactly what passes the range check: the range, and `i32::MIN`, which becomes speed 0. */
  lemma AcceptedSpeeds(v: i32)
    ensures WrappingAbs(v) <= MAX_MOTOR_SPEED <==> -MAX_MOTOR_SPEED <= v <= MAX_MOTOR_SPEED || v == -0x8000_0000
    ensures WrappingAbs(v) <= MAX_MOTOR_SPEED ==> TruncI16(v) == if v == -0x8000_0000 then 0 else v
  {}

  /** An argument pair is accepted exactly when each of the two is within +-255 or i32::MIN. */
  lemma AcceptedExactly(left: i32, right: i32)
    ensures SpeedAccepted(left, right) <==>
      (-255 <= left <= 255 || left == -0x8000_0000) && (-255 <= right <= 255 || right == -0x8000_0000)
  {}

  function IntentOf(left: i32, right: i32): Intent { Intent(TruncI16(left), TruncI16(right)) }

  // ── Core 1 arithmetic ─────────────────────────────────────────────────────

  /** `x as i32`: towards zero. */
  function TruncateToInt(x: real): int { if x >= 0.0 then x.Floor else -(-x).Floor }

  function SaturatingAddI32(a: int, b: int): int {
    if a + b > 0x7FFF_FFFF then 0x7FFF_FFFF else if a + b < -0x8000_0000 then -0x8000_0000 else a + b
  }

  function ClampI16(v: int): i16 { if v < -0x8000 then -0x8000 else if v > 0x7FFF then 0x7FFF else v }

  function Blend(balance: int, speed: i16): i16 { ClampI16(SaturatingAddI32(balance, speed)) }

  /** Both saturations together are one: the sum, brought into the range of an i16. */
  lemma BlendSaturates(balance: i32, speed: i16)
    ensures -0x8000 <= balance + speed <= 0x7FFF ==> Blend(balance, speed) == balance + speed
    ensures balance + speed > 0x7FFF ==> Blend(balance, speed) == 0x7FFF
    ensures balance + speed < -0x8000 ==> Blend(balance, speed) == -0x8000
  {}

  /** The duty cycles of a balance output and a stored command. */
  function Duties(balance: int, command: u32): (i16, i16) {
    var (left, right) := Unpack(command);
    (Blend(balance, left), Blend(balance, right))
  }

  /** The error of a pitch in millidegrees against the upright setpoint. */
  function PitchError(pitch: i32): real { 0.0 - (pitch as real) / 1000.0 }

  // ── Steps ─────────────────────────────────────────────────────────────────

  predicate Can(s: State, a: Action) {
    match a
    case GuestCall(_, _) => s.guest.GuestIdle?
    case GuestLoad => s.guest.GuestGate?
    case GuestSend => s.guest.GuestPublish?
    case SetMode(_) => true
    case RouterReceive => s.router.Waiting? && s.queue != []
    case RouterTimeout => s.router.Waiting? && s.queue == [] && s.clock.at >= s.waitStart + DEAD_MANS_SWITCH_MS
    case RouterMode => s.router.ReadMode?
    case RouterCheck => s.router.CheckEnabled?
    case RouterStore => s.router.StoreCommand?
    case CoreBegin(_, _) => s.core.TickStart?
    case CoreZero => s.core.ZeroCommand?
    case CoreCheck => s.core.CheckMotor?
    case CoreLoad => s.core.LoadCommand?
    case Clock => true
  }

  /** The router has a step to take: it is not waiting, or an intent is there, or its timer has run out. */
  predicate Due(s: State) { !s.router.Waiting? || s.queue != [] || s.clock.at >= s.waitStart + DEAD_MANS_SWITCH_MS }

  /** The PID clamps do not panic, and the history tells when each queued intent was published. */
  predicate Sound(s: State) { Pid.Usable(s.pid) && |s.stamps| == |s.queue| }

  /** The router goes back to its receive, and its timer starts again. */
  function Rewait(s: State): State { s.(router := Waiting, waitStart := s.clock.at) }

  function Next(s: State, a: Action): State
    requires Can(s, a) && Sound(s)
  {
    match a
    case GuestCall(l, r) =>
      if SpeedAccepted(l, r) then s.(guest := GuestGate(IntentOf(l, r))) else s
    case GuestLoad => s.(guest := if s.enabled then GuestPublish(s.guest.intent) else GuestIdle)
    case GuestSend =>
      if |s.queue| < INTENT_QUEUE_DEPTH then
        s.(guest := GuestIdle, queue := s.queue + [s.guest.intent],
           accepted := s.accepted + [s.guest.intent], stamps := s.stamps + [s.clock])
      else s.(guest := GuestIdle)
    case SetMode(mode) => s.(mode := mode)
    case RouterReceive =>
      s.(router := ReadMode(s.queue[0]), queue := s.queue[1..],
         routed := s.routed + [s.queue[0]], stamps := s.stamps[1..], published := s.stamps[0],
         received := s.clock)
    case RouterTimeout => s.(router := CheckEnabled(Intent(0, 0)))
    case RouterMode =>
      if s.mode == SingleBoard then s.(router := CheckEnabled(s.router.intent), here := |s.routed|) else Rewait(s)
    case RouterCheck => if s.enabled then s.(router := StoreCommand(s.router.intent)) else Rewait(s)
    case RouterStore => Rewait(s.(command := PackIntent(s.router.intent)))
    case CoreBegin(critical, pitch) =>
      if critical then s.(enabled := false, core := ZeroCommand(pitch)) else s.(core := CheckMotor(pitch))
    case CoreZero => s.(command := 0, pid := Pid.Fresh(s.pid), core := CheckMotor(s.core.pitch))
    case CoreCheck =>
      if s.enabled then
        var error := PitchError(s.core.pitch);
        s.(pid := Pid.Updated(s.pid, error, DT), core := LoadCommand(TruncateToInt(Pid.Output(s.pid, error, DT))))
      else s.(core := TickStart)
    case CoreLoad => s.(core := TickStart)
    case Clock => s.(clock := Moment(s.clock.at + 1, s.clock.late + if Due(s) then 1 else 0))
  }

  /** The duty cycles a step gives the motors, if it is the one that ends a tick. */
  function TickOutput(s: State, a: Action): Option<(i16, i16)>
    requires Can(s, a)
  {
    match a
    case CoreCheck => if s.enabled then None else Some((0, 0))
    case CoreLoad => Some(Duties(s.core.balance, s.command))
    case _ => None
  }

  // ── Invariant ─────────────────────────────────────────────────────────────

  predicate InRange(i: Intent) {
    -MAX_MOTOR_SPEED <= i.left <= MAX_MOTOR_SPEED && -MAX_MOTOR_SPEED <= i.right <= MAX_MOTOR_SPEED
  }

  predicate PairInRange(speeds: (i16, i16)) {
    -MAX_MOTOR_SPEED <= speeds.0 <= MAX_MOTOR_SPEED && -MAX_MOTOR_SPEED <= speeds.1 <= MAX_MOTOR_SPEED
  }

  predicate CommandInRange(command: u32) { PairInRange(Unpack(command)) }

  lemma PackInRange(i: Intent)
    requires InRange(i)
    ensures CommandInRange(PackIntent(i))
  {}

  lemma ZeroInRange()
    ensures CommandInRange(0)
  {}

  lemma BalanceInRange(p: Pid.Pid, error: real)
    requires Pid.Usable(p) && p.outputMin == -255.0 && p.outputMax == 255.0
    ensures -255 <= TruncateToInt(Pid.Output(p, error, DT)) <= 255
  {}

  ghost predicate SpeedsInRange(s: State) {
    && (!s.guest.GuestIdle? ==> InRange(s.guest.intent))
    && (!s.router.Waiting? ==> InRange(s.router.intent))
    && (forall i :: 0 <= i < |s.queue| ==> InRange(s.queue[i]))
    && CommandInRange(s.command)
    && (s.core.LoadCommand? ==> -255 <= s.core.balance <= 255)
  }

  ghost predicate PidInv(s: State) {
    && s.pid.outputMin == -255.0 && s.pid.outputMax == 255.0 && s.pid.ki == 0.5
    && Pid.Abs(s.pid.integral) <= 510.0 && Pid.Usable(s.pid)
  }

  ghost predicate QueueInv(s: State) {
    s.accepted == s.routed + s.queue && |s.queue| <= INTENT_QUEUE_DEPTH
  }

  predicate OnItsWay(pc: RouterPc) { pc.CheckEnabled? || pc.StoreCommand? }

  /** While the flag is down Core 1 is not about to use a command, and is in no tick that began with it up. */
  ghost predicate DisabledInv(s: State) {
    && (s.core.ZeroCommand? ==> !s.enabled)
    && (s.core.LoadCommand? ==> s.enabled)
  }

  /** How long ago a moment was, and for how many of those milliseconds the router was kept from a step. */
  function Age(now: Moment, m: Moment): int { now.at - m.at }
  function Late(now: Moment, m: Moment): int { now.late - m.late }

  /** The milliseconds since a moment in which the router had nothing to do. */
  function Idle(now: Moment, m: Moment): int { Age(now, m) - Late(now, m) }

  predicate InPast(now: Moment, m: Moment) { Age(now, m) >= 0 && Late(now, m) >= 0 }

  ghost predicate NeverIdleSince(stamps: seq<Moment>, now: Moment) {
    forall i :: 0 <= i < |stamps| ==> InPast(now, stamps[i]) && Idle(now, stamps[i]) == 0
  }

  /** The router is never idle while an intent waits in the queue or is on its way to the motors. */
  ghost predicate TimerInv(s: State) {
    && s.waitStart <= s.clock.at && |s.stamps| == |s.queue|
    && InPast(s.clock, s.received) && InPast(s.clock, s.published)
    && NeverIdleSince(s.stamps, s.clock)
    && Idle(s.clock, s.published) == Idle(s.clock, s.received)
    && (s.router.ReadMode? ==> Idle(s.clock, s.received) == 0)
    && (OnItsWay(s.router) ==> IsStop(s.router.intent) || Idle(s.clock, s.received) == 0)
  }

  /** The motors run on the stored command. */
  predicate Driven(s: State) { s.enabled && s.command != 0 }

  /** While the motors are driven the router has been idle for at most one timeout since the last receive. */
  ghost predicate AgeInv(s: State) {
    Driven(s) ==>
      && Idle(s.clock, s.received) <= DEAD_MANS_SWITCH_MS
      && (s.router.Waiting? ==> Idle(s.clock, s.received) <= s.clock.at - s.waitStart)
  }

  /** The command comes from the last intent routed to the motors; an intent not yet routed is the last received. */
  ghost predicate OriginInv(s: State) {
    && s.here <= |s.routed|
    && (s.router.ReadMode? ==> s.here < |s.routed| && s.router.intent == s.routed[|s.routed| - 1])
    && (OnItsWay(s.router) && !IsStop(s.router.intent) ==>
          s.here == |s.routed| > 0 && s.router.intent == s.routed[s.here - 1])
    && (Driven(s) && (s.router.Waiting? || s.router.ReadMode?) ==>
          s.here > 0 && s.command == PackIntent(s.routed[s.here - 1]))
  }

  ghost predicate Inv(s: State) {
    SpeedsInRange(s) && PidInv(s) && QueueInv(s) && DisabledInv(s) && TimerInv(s) && AgeInv(s) && OriginInv(s)
  }

  lemma BootInv(s: State)
    requires Initial(s)
    ensures Inv(s)
  {}

  lemma StepKeepsPid(s: State, a: Action)
    requires PidInv(s) && Sound(s) && Can(s, a)
    ensures PidInv(Next(s, a))
  {}

  lemma CallKeepsSpeeds(s: State, a: Action)
    requires SpeedsInRange(s) && Sound(s) && Can(s, a) && a.GuestCall?
    ensures SpeedsInRange(Next(s, a))
  {
    AcceptedSpeeds(a.leftArg);
    AcceptedSpeeds(a.rightArg);
  }

  lemma GuestKeepsSpeeds(s: State, a: Action)
    requires SpeedsInRange(s) && Sound(s) && Can(s, a) && (a.GuestLoad? || a.GuestSend? || a.SetMode? || a.Clock?)
    ensures SpeedsInRange(Next(s, a))
  {}

  lemma RouterKeepsSpeeds(s: State, a: Action)
    requires SpeedsInRange(s) && Sound(s) && Can(s, a)
    requires a.RouterReceive? || a.RouterTimeout? || a.RouterMode? || a.RouterCheck?
    ensures SpeedsInRange(Next(s, a))
  {}

  lemma StoreKeepsSpeeds(s: State, a: Action)
    requires SpeedsInRange(s) && Sound(s) && Can(s, a) && (a.RouterStore? || a.CoreZero?)
    ensures SpeedsInRange(Next(s, a))
  {
    ZeroInRange();
    if a.RouterStore? {
      PackInRange(s.router.intent);
    }
  }

  lemma CoreKeepsSpeeds(s: State, a: Action)
    requires SpeedsInRange(s) && PidInv(s) && Sound(s) && Can(s, a) && (a.CoreBegin? || a.CoreCheck? || a.CoreLoad?)
    ensures SpeedsInRange(Next(s, a))
  {
    if a.CoreCheck? {
      BalanceInRange(s.pid, PitchError(s.core.pitch));
    }
  }

  lemma StepKeepsSpeeds(s: State, a: Action)
    requires SpeedsInRange(s) && PidInv(s) && Sound(s) && Can(s, a)
    ensures SpeedsInRange(Next(s, a))
  {
    match a
    case GuestCall(_, _) => CallKeepsSpeeds(s, a);
    case RouterReceive | RouterTimeout | RouterMode | RouterCheck => RouterKeepsSpeeds(s, a);
    case RouterStore | CoreZero => StoreKeepsSpeeds(s, a);
    case CoreBegin(_, _) => CoreKeepsSpeeds(s, a);
    case CoreCheck | CoreLoad => CoreKeepsSpeeds(s, a);
    case GuestLoad | GuestSend | Clock => GuestKeepsSpeeds(s, a);
    case SetMode(_) => GuestKeepsSpeeds(s, a);
  }

  lemma StepKeepsQueue(s: State, a: Action)
    requires QueueInv(s) && Sound(s) && Can(s, a)
    ensures QueueInv(Next(s, a))
  {}

  lemma StepKeepsDisabled(s: State, a: Action)
    requires DisabledInv(s) && Sound(s) && Can(s, a)
    ensures DisabledInv(Next(s, a))
  {}

  lemma ClockKeepsTimer(s: State, a: Action)
    requires TimerInv(s) && Sound(s) && a.Clock?
    ensures TimerInv(Next(s, a))
  {}

  lemma SendKeepsTimer(s: State, a: Action)
    requires TimerInv(s) && Sound(s) && Can(s, a) && a.GuestSend?
    ensures TimerInv(Next(s, a))
  {}

  lemma ReceiveKeepsTimer(s: State, a: Action)
    requires TimerInv(s) && Sound(s) && Can(s, a) && a.RouterReceive?
    ensures TimerInv(Next(s, a))
  {}

  lemma RouterKeepsTimer(s: State, a: Action)
    requires TimerInv(s) && Sound(s) && Can(s, a)
    requires a.RouterTimeout? || a.RouterMode? || a.RouterCheck? || a.RouterStore?
    ensures TimerInv(Next(s, a))
  {}

  /** The steps that concern neither the router, the queue nor the clock. */
  predicate Aside(a: Action) {
    || a.GuestCall? || a.GuestLoad? || a.SetMode?
    || a.CoreBegin? || a.CoreZero? || a.CoreCheck? || a.CoreLoad?
  }

  lemma AsideKeepsTimer(s: State, a: Action)
    requires TimerInv(s) && Sound(s) && Can(s, a) && Aside(a)
    ensures TimerInv(Next(s, a))
  {}

  lemma StepKeepsTimer(s: State, a: Action)
    requires TimerInv(s) && Sound(s) && Can(s, a)
    ensures TimerInv(Next(s, a))
  {
    if Aside(a) {
      AsideKeepsTimer(s, a);
    } else if a.Clock? {
      ClockKeepsTimer(s, a);
    } else if a.GuestSend? {
      SendKeepsTimer(s, a);
    } else if a.RouterReceive? {
      ReceiveKeepsTimer(s, a);
    } else {
      RouterKeepsTimer(s, a);
    }
  }

  lemma AsideKeepsAge(s: State, a: Action)
    requires TimerInv(s) && AgeInv(s) && Sound(s) && Can(s, a) && (Aside(a) || a.GuestSend? || a.Clock?)
    ensures AgeInv(Next(s, a))
  {}

  lemma RouterKeepsAge(s: State, a: Action)
    requires TimerInv(s) && AgeInv(s) && Sound(s) && Can(s, a) && !Aside(a) && !a.GuestSend? && !a.Clock?
    ensures AgeInv(Next(s, a))
  {}

  lemma StepKeepsAge(s: State, a: Action)
    requires TimerInv(s) && AgeInv(s) && Sound(s) && Can(s, a)
    ensures AgeInv(Next(s, a))
  {
    if Aside(a) || a.GuestSend? || a.Clock? {
      AsideKeepsAge(s, a);
    } else {
      RouterKeepsAge(s, a);
    }
  }

  lemma CoreKeepsOrigin(s: State, a: Action)
    requires OriginInv(s) && Sound(s) && Can(s, a) && (a.CoreBegin? || a.CoreZero? || a.CoreCheck? || a.CoreLoad?)
    ensures OriginInv(Next(s, a))
  {}

  lemma GuestKeepsOrigin(s: State, a: Action)
    requires OriginInv(s) && Sound(s) && Can(s, a)
    requires a.GuestCall? || a.GuestLoad? || a.GuestSend? || a.SetMode? || a.Clock?
    ensures OriginInv(Next(s, a))
  {}

  lemma TurnKeepsOrigin(s: State, a: Action)
    requires OriginInv(s) && Sound(s) && Can(s, a) && (a.RouterReceive? || a.RouterTimeout? || a.RouterMode?)
    ensures OriginInv(Next(s, a))
  {}

  lemma StoreKeepsOrigin(s: State, a: Action)
    requires OriginInv(s) && Sound(s) && Can(s, a) && (a.RouterCheck? || a.RouterStore?)
    ensures OriginInv(Next(s, a))
  {}

  lemma StepKeepsOrigin(s: State, a: Action)
    requires OriginInv(s) && Sound(s) && Can(s, a)
    ensures OriginInv(Next(s, a))
  {
    if a.CoreBegin? || a.CoreZero? || a.CoreCheck? || a.CoreLoad? {
      CoreKeepsOrigin(s, a);
    } else if a.GuestCall? || a.GuestLoad? || a.GuestSend? || a.SetMode? || a.Clock? {
      GuestKeepsOrigin(s, a);
    } else if a.RouterCheck? || a.RouterStore? {
      StoreKeepsOrigin(s, a);
    } else {
      TurnKeepsOrigin(s, a);
    }
  }

  lemma StepKeepsInv(s: State, a: Action)
    requires Inv(s) && Can(s, a)
    ensures Inv(Next(s, a))
  {
    StepKeepsPid(s, a);
    StepKeepsSpeeds(s, a);
    StepKeepsQueue(s, a);
    StepKeepsDisabled(s, a);
    StepKeepsTimer(s, a);
    StepKeepsAge(s, a);
    StepKeepsOrigin(s, a);
  }

  // ── Runs ──────────────────────────────────────────────────────────────────

  /** `ss` are the states of a run and `acts` the steps between them. */
  ghost predicate IsRun(ss: seq<State>, acts: seq<Action>) {
    && |ss| == |acts| + 1
    && Inv(ss[0])
    && forall i :: 0 <= i < |acts| ==> StepAt(ss, acts, i)
  }

  ghost predicate StepAt(ss: seq<State>, acts: seq<Action>, i: nat)
    requires i < |acts| < |ss|
  {
    Follows(ss[i], acts[i], ss[i + 1])
  }

  ghost predicate Follows(s: State, a: Action, t: State) {
    Can(s, a) && Sound(s) && t == Next(s, a)
  }

  lemma {:induction false} RunKeepsInv(ss: seq<State>, acts: seq<Action>, n: nat)
    requires IsRun(ss, acts) && n < |ss|
    ensures Inv(ss[n])
  {
    if n > 0 {
      RunKeepsInv(ss, acts, n - 1);
      assert StepAt(ss, acts, n - 1);
      StepKeepsInv(ss[n - 1], acts[n - 1]);
    }
  }

  // ── The dead-man's switch ─────────────────────────────────────────────────

  /**
   * In every run, while a nonzero command drives the motors, the last received intent was received, and
   * published, at most 50 ms ago, not counting the milliseconds in which the router was kept from a step.
   */
  lemma DeadMansSwitch(ss: seq<State>, acts: seq<Action>, n: nat)
    requires IsRun(ss, acts) && n < |ss|
    ensures
      var s := ss[n];
      Driven(s) ==>
        && 0 <= Age(s.clock, s.received) <= DEAD_MANS_SWITCH_MS + Late(s.clock, s.received)
        && 0 <= Age(s.clock, s.published) <= DEAD_MANS_SWITCH_MS + Late(s.clock, s.published)
  {
    RunKeepsInv(ss, acts, n);
  }

  /** In every run, intents are routed in the order they were accepted, and at most eight wait. */
  lemma IntentsInOrder(ss: seq<State>, acts: seq<Action>, n: nat)
    requires IsRun(ss, acts) && n < |ss|
    ensures ss[n].accepted == ss[n].routed + ss[n].queue && |ss[n].queue| <= 8
  {
    RunKeepsInv(ss, acts, n);
  }

  /** The guest is still in the call it made at step `j`. */
  ghost predicate InCall(s: State, i: Intent) { s.guest == GuestGate(i) || s.guest == GuestPublish(i) }

  lemma {:induction false} CallGoesOn(ss: seq<State>, acts: seq<Action>, j: nat, k: nat, i: Intent)
    requires IsRun(ss, acts) && j < k < |ss| && acts[j].GuestCall? && i == IntentOf(acts[j].leftArg, acts[j].rightArg)
    requires forall h :: j < h < k ==> !acts[h].GuestCall? && !acts[h].GuestSend?
    ensures ss[k].guest == GuestIdle || InCall(ss[k], i)
    ensures !ss[k].guest.GuestIdle? ==> SpeedAccepted(acts[j].leftArg, acts[j].rightArg)
  {
    assert StepAt(ss, acts, k - 1);
    if k > j + 1 {
      assert !acts[k - 1].GuestCall? && !acts[k - 1].GuestSend?;
      CallGoesOn(ss, acts, j, k - 1, i);
    }
  }

  lemma SendAccepts(ss: seq<State>, acts: seq<Action>, k: nat)
    requires IsRun(ss, acts) && k < |acts| && acts[k].GuestSend?
    ensures ss[k].guest.GuestPublish?
    ensures ss[k + 1].accepted == ss[k].accepted + if |ss[k].queue| < 8 then [ss[k].guest.intent] else []
  {
    assert StepAt(ss, acts, k);
  }

  /** The speed an argument asks for: i32::MIN comes out as 0. */
  function AskedSpeed(v: i32): int { if v == -0x8000_0000 then 0 else v }

  /**
   * In every run, what a call publishes is the speeds of its own arguments, in their order, and it does so
   * exactly when fewer than eight intents wait; a call with any other argument publishes nothing.
   */
  lemma CallIsPublished(ss: seq<State>, acts: seq<Action>, j: nat, k: nat)
    requires IsRun(ss, acts) && j < k < |acts| && acts[j].GuestCall? && acts[k].GuestSend?
    requires forall h :: j < h < k ==> !acts[h].GuestCall? && !acts[h].GuestSend?
    ensures
      var (left, right) := (AskedSpeed(acts[j].leftArg), AskedSpeed(acts[j].rightArg));
      && -255 <= left <= 255 && -255 <= right <= 255
      && ss[k + 1].accepted == ss[k].accepted + if |ss[k].queue| < 8 then [Intent(left, right)] else []
  {
    var (left, right) := (acts[j].leftArg, acts[j].rightArg);
    CallGoesOn(ss, acts, j, k, IntentOf(left, right));
    SendAccepts(ss, acts, k);
    AcceptedSpeeds(left);
    AcceptedSpeeds(right);
  }

  /** The step that sends a received intent on its way to the motors. */
  predicate RoutesHere(s: State, a: Action) { a.RouterMode? && s.mode == SingleBoard }

  /** The command is zero and nothing but a zero is on its way. */
  ghost predicate Quiet(s: State) {
    s.command == 0 && (OnItsWay(s.router) ==> IsStop(s.router.intent))
  }

  /** What a step that does not route can do to the command and to what is on its way. */
  ghost predicate LeavesOrZeroes(s: State, a: Action, t: State) {
    && (t.command == s.command || t.command == 0 || (a.RouterStore? && t.command == Pending(s)))
    && (OnItsWay(t.router) ==>
          IsStop(t.router.intent) || (OnItsWay(s.router) && t.router.intent == s.router.intent))
  }

  lemma StepLeavesOrZeroes(s: State, a: Action)
    requires Can(s, a) && Sound(s) && !RoutesHere(s, a)
    ensures LeavesOrZeroes(s, a, Next(s, a))
  {}

  lemma RunLeavesOrZeroes(ss: seq<State>, acts: seq<Action>, k: nat)
    requires IsRun(ss, acts) && k < |acts| && !RoutesHere(ss[k], acts[k])
    ensures LeavesOrZeroes(ss[k], acts[k], ss[k + 1])
  {
    assert StepAt(ss, acts, k);
    StepLeavesOrZeroes(ss[k], acts[k]);
  }

  lemma QuietStep(s: State, a: Action, t: State)
    requires Quiet(s) && LeavesOrZeroes(s, a, t)
    ensures Quiet(t)
  {}

  /** From then on it stays zero until an intent is routed in SingleBoard mode. */
  lemma {:induction false} QuietUntilRouted(ss: seq<State>, acts: seq<Action>, m: nat, n: nat)
    requires IsRun(ss, acts) && m <= n < |ss| && Quiet(ss[m])
    requires forall k :: m <= k < n ==> !RoutesHere(ss[k], acts[k])
    ensures Quiet(ss[n])
  {
    if n > m {
      QuietUntilRouted(ss, acts, m, n - 1);
      RunLeavesOrZeroes(ss, acts, n - 1);
      QuietStep(ss[n - 1], acts[n - 1], ss[n]);
    }
  }

  /**
   * In every run: a timeout whose store has landed leaves the command zero, until an intent is routed to the
   * motors, whatever the other tasks do between its three steps and after them.
   */
  lemma TimeoutZeroes(ss: seq<State>, acts: seq<Action>, m: nat, j: nat, n: nat)
    requires IsRun(ss, acts) && m < j < n < |ss|
    requires acts[m].RouterTimeout? && acts[j].RouterStore?
    requires forall k :: m <= k < n ==> !RoutesHere(ss[k], acts[k])
    ensures Quiet(ss[n])
  {
    ZeroOnItsWay(ss, acts, m, j);
    assert StepAt(ss, acts, j);
    ZeroLands(ss[j], acts[j], ss[j + 1]);
    QuietUntilRouted(ss, acts, j + 1, n);
  }

  lemma ZeroLands(s: State, a: Action, t: State)
    requires Follows(s, a, t) && a.RouterStore? && IsStop(s.router.intent)
    ensures Quiet(t)
  {}

  lemma {:induction false} ZeroOnItsWay(ss: seq<State>, acts: seq<Action>, m: nat, n: nat)
    requires IsRun(ss, acts) && m < n < |ss| && acts[m].RouterTimeout?
    requires forall k :: m <= k < n ==> !RoutesHere(ss[k], acts[k])
    ensures OnItsWay(ss[n].router) ==> IsStop(ss[n].router.intent)
  {
    if n > m + 1 {
      ZeroOnItsWay(ss, acts, m, n - 1);
      RunLeavesOrZeroes(ss, acts, n - 1);
    } else {
      assert StepAt(ss, acts, m);
    }
  }

  /** Whether Core 1 zeroes the command between the steps `m` and `n`. */
  ghost predicate ZeroedBetween(acts: seq<Action>, m: nat, n: nat)
    requires m <= n <= |acts|
  {
    exists k :: m <= k < n && acts[k] == CoreZero
  }

  /**
   * If the flag went down before the check, the timeout stores nothing, nor does the router ever again: the
   * command is what it was, until Core 1's own zero.
   */
  lemma {:induction false} RefusedTimeout(ss: seq<State>, acts: seq<Action>, j: nat, n: nat)
    requires IsRun(ss, acts) && j < n < |ss| && acts[j].RouterCheck? && !ss[j].enabled
    ensures InFlight(ss[n]) == 0 && !ss[n].enabled
    ensures ss[n].command == if ZeroedBetween(acts, j, n) then 0 else ss[j].command
  {
    assert StepAt(ss, acts, n - 1);
    if n > j + 1 {
      RefusedTimeout(ss, acts, j, n - 1);
      assert ZeroedBetween(acts, j, n) <==> ZeroedBetween(acts, j, n - 1) || acts[n - 1] == CoreZero;
    } else {
      assert acts[j] != CoreZero;
      assert !ZeroedBetween(acts, j, n);
    }
  }

  /** The router waits, or has an intent in hand, with a timer that was started at `from` or later. */
  ghost predicate HoldsSince(s: State, from: nat) {
    !OnItsWay(s.router) && s.waitStart >= from
  }

  /**
   * A Distributed intent restarts the timer: in every run the stored command then drives the motors on,
   * unchanged, for 50 ms at least, unless the motors are disabled or an intent is routed to them.
   */
  lemma {:induction false} DistributedRestartsTimer(ss: seq<State>, acts: seq<Action>, m: nat, n: nat)
    requires IsRun(ss, acts) && m < n < |ss| && acts[m].RouterMode? && ss[m].mode == Distributed
    requires forall k :: m <= k < n ==> !RoutesHere(ss[k], acts[k])
    requires ss[n].enabled && ss[n].clock.at < ss[m].clock.at + DEAD_MANS_SWITCH_MS
    ensures ss[n].command == ss[m].command && HoldsSince(ss[n], ss[m].clock.at)
  {
    StepForward(ss, acts, n - 1);
    if n > m + 1 {
      DistributedRestartsTimer(ss, acts, m, n - 1);
      HoldStep(ss, acts, n - 1, ss[m].clock.at);
    } else {
      TimerRestarted(ss, acts, m);
    }
  }

  lemma StepForward(ss: seq<State>, acts: seq<Action>, k: nat)
    requires IsRun(ss, acts) && k < |acts|
    ensures ss[k].clock.at <= ss[k + 1].clock.at && (ss[k + 1].enabled ==> ss[k].enabled)
  {
    assert StepAt(ss, acts, k);
  }

  lemma TimerRestarted(ss: seq<State>, acts: seq<Action>, k: nat)
    requires IsRun(ss, acts) && k < |acts| && acts[k].RouterMode? && ss[k].mode == Distributed
    ensures ss[k + 1].command == ss[k].command && HoldsSince(ss[k + 1], ss[k].clock.at)
  {
    assert StepAt(ss, acts, k);
  }

  lemma HoldStep(ss: seq<State>, acts: seq<Action>, k: nat, from: nat)
    requires IsRun(ss, acts) && k < |acts| && !RoutesHere(ss[k], acts[k]) && HoldsSince(ss[k], from)
    requires ss[k + 1].enabled && ss[k + 1].clock.at < from + DEAD_MANS_SWITCH_MS
    ensures ss[k + 1].command == ss[k].command && HoldsSince(ss[k + 1], from)
  {
    RunKeepsInv(ss, acts, k);
    assert StepAt(ss, acts, k);
  }

  // ── Which intent the command comes from ───────────────────────────────────

  /** In every run, a command that drives the motors of a waiting router is the last intent routed to them. */
  lemma CommandOrigin(ss: seq<State>, acts: seq<Action>, n: nat)
    requires IsRun(ss, acts) && n < |ss| && Driven(ss[n]) && ss[n].router.Waiting?
    ensures 0 < ss[n].here <= |ss[n].routed| && ss[n].command == PackIntent(ss[n].routed[ss[n].here - 1])
  {
    RunKeepsInv(ss, acts, n);
  }

  lemma {:induction false} NothingReceived(ss: seq<State>, acts: seq<Action>, m: nat, n: nat)
    requires IsRun(ss, acts) && m <= n < |ss| && !ss[n].router.ReadMode?
    requires forall k :: m <= k < n ==> !acts[k].RouterMode?
    ensures ss[n].routed == ss[m].routed && ss[n].here == ss[m].here
  {
    if n > m {
      assert StepAt(ss, acts, n - 1) && !acts[n - 1].RouterMode?;
      NothingReceived(ss, acts, m, n - 1);
    }
  }

  lemma PackInjective(i: Intent, j: Intent)
    ensures PackIntent(i) == PackIntent(j) <==> i == j
  {
    PackRoundTrip(i.left, i.right);
    PackRoundTrip(j.left, j.right);
  }

  /**
   * That is the latest intent received exactly when the last one to be routed, at `k`, found the mode
   * SingleBoard; the two may have equal speeds all the same.
   */
  lemma CommandIsLatestIntent(ss: seq<State>, acts: seq<Action>, k: nat, n: nat)
    requires IsRun(ss, acts) && k < n < |ss| && Driven(ss[n]) && ss[n].router.Waiting?
    requires acts[k].RouterMode? && forall i :: k < i < n ==> !acts[i].RouterMode?
    ensures 0 < ss[n].here <= |ss[n].routed|
    ensures ss[n].here == |ss[n].routed| <==> ss[k].mode == SingleBoard
    ensures
      var latest := ss[n].routed[|ss[n].routed| - 1];
      ss[n].command == PackIntent(latest) <==>
        ss[k].mode == SingleBoard || ss[n].routed[ss[n].here - 1] == latest
  {
    CommandOrigin(ss, acts, n);
    RunKeepsInv(ss, acts, k);
    assert StepAt(ss, acts, k);
    NothingReceived(ss, acts, k + 1, n);
    PackInjective(ss[n].routed[ss[n].here - 1], ss[n].routed[|ss[n].routed| - 1]);
  }

  // ── Speed range, end to end ───────────────────────────────────────────────

  /**
   * In every run the queued speeds and the stored command are within +-255, and what a tick gives the
   * motors is the plain sum, within +-510: the saturating addition and the i16 clamp never engage.
   */
  lemma SpeedRange(ss: seq<State>, acts: seq<Action>, n: nat)
    requires IsRun(ss, acts) && n < |acts|
    ensures forall i :: 0 <= i < |ss[n].queue| ==> InRange(ss[n].queue[i])
    ensures CommandInRange(ss[n].command)
    ensures Can(ss[n], acts[n])
    ensures acts[n].CoreLoad? ==>
      var (left, right) := Unpack(ss[n].command);
      var balance := ss[n].core.balance;
      && TickOutput(ss[n], acts[n]) == Some((balance + left, balance + right))
      && -510 <= balance + left <= 510 && -510 <= balance + right <= 510
  {
    RunKeepsInv(ss, acts, n);
    assert StepAt(ss, acts, n);
  }

  /** What the PID output alone keeps: duty cycles within the PWM clamps, whatever the balance. */
  ghost predicate KeepsClamps(command: u32) {
    forall balance: int :: -255 <= balance <= 255 ==> PairInRange(Duties(balance, command))
  }

  /** The speeds that steer nothing. */
  predicate NoSpeed(v: i32) { v == 0 || v == -0x8000_0000 }

  /** Within the ranges neither saturation nor clamp changes the sum. */
  lemma PlainDuties(balance: int, i: Intent)
    requires -255 <= balance <= 255 && InRange(i)
    ensures Duties(balance, PackIntent(i)) == (balance + i.left, balance + i.right)
  {
    PackRoundTrip(i.left, i.right);
  }

  predicate NoSteering(i: Intent) { i.left == 0 && i.right == 0 }

  lemma KeepsClampsExactly(i: Intent)
    requires InRange(i)
    ensures KeepsClamps(PackIntent(i)) <==> NoSteering(i)
  {
    PlainDuties(255, i);
    PlainDuties(-255, i);
    if NoSteering(i) {
      forall balance: int | -255 <= balance <= 255
        ensures PairInRange(Duties(balance, PackIntent(i)))
      {
        PlainDuties(balance, i);
      }
    } else {
      assert !PairInRange(Duties(255, PackIntent(i))) || !PairInRange(Duties(-255, PackIntent(i)));
    }
  }

  lemma AcceptedIntent(left: i32, right: i32)
    requires SpeedAccepted(left, right)
    ensures InRange(IntentOf(left, right))
    ensures NoSteering(IntentOf(left, right)) <==> NoSpeed(left) && NoSpeed(right)
  {
    AcceptedSpeeds(left);
    AcceptedSpeeds(right);
  }

  /** The guest stays within the clamps exactly with speeds that steer nothing. */
  lemma GuestKeepsClamps(left: i32, right: i32)
    requires SpeedAccepted(left, right)
    ensures KeepsClamps(PackIntent(IntentOf(left, right))) <==> NoSpeed(left) && NoSpeed(right)
  {
    AcceptedIntent(left, right);
    KeepsClampsExactly(IntentOf(left, right));
  }

  // ── Shutdown ──────────────────────────────────────────────────────────────

  /** Once the enable flag is down it stays down: no step raises it. */
  lemma {:induction false} DisabledForGood(ss: seq<State>, acts: seq<Action>, m: nat, n: nat)
    requires IsRun(ss, acts) && m <= n < |ss| && !ss[m].enabled
    ensures !ss[n].enabled
  {
    if n > m {
      DisabledForGood(ss, acts, m, n - 1);
      assert StepAt(ss, acts, n - 1);
    }
  }

  /** In every interleaving, every tick that ends after the flag went down outputs zero on both motors. */
  lemma OutputsAreZero(ss: seq<State>, acts: seq<Action>, m: nat, n: nat)
    requires IsRun(ss, acts) && m <= n < |acts| && !ss[m].enabled
    ensures Can(ss[n], acts[n])
    ensures TickOutput(ss[n], acts[n]).Some? ==> TickOutput(ss[n], acts[n]) == Some((0, 0))
  {
    DisabledForGood(ss, acts, m, n);
    RunKeepsInv(ss, acts, n);
    assert StepAt(ss, acts, n);
  }

  /** How many of the steps from `m` to `n` store a command. */
  function Stores(acts: seq<Action>, m: nat, n: nat): nat
    requires m <= n <= |acts|
  {
    if m == n then 0 else Stores(acts, m, n - 1) + if acts[n - 1].RouterStore? then 1 else 0
  }

  function InFlight(s: State): nat { if s.router.StoreCommand? then 1 else 0 }

  /** After the flag went down, only a store that had already passed its check can still land: at most one. */
  lemma {:induction false} AtMostOneLateStore(ss: seq<State>, acts: seq<Action>, m: nat, n: nat)
    requires IsRun(ss, acts) && m <= n < |ss| && !ss[m].enabled
    ensures Stores(acts, m, n) + InFlight(ss[n]) == InFlight(ss[m])
  {
    if n > m {
      AtMostOneLateStore(ss, acts, m, n - 1);
      DisabledForGood(ss, acts, m, n - 1);
      assert StepAt(ss, acts, n - 1);
    }
  }

  /** Disabled, nothing in flight, command zero: for good. */
  lemma {:induction false} ZeroForGood(ss: seq<State>, acts: seq<Action>, m: nat, n: nat)
    requires IsRun(ss, acts) && m <= n < |ss|
    requires !ss[m].enabled && InFlight(ss[m]) == 0 && ss[m].command == 0
    ensures ss[n].command == 0 && InFlight(ss[n]) == 0
  {
    if n > m {
      ZeroForGood(ss, acts, m, n - 1);
      DisabledForGood(ss, acts, m, n - 1);
      assert StepAt(ss, acts, n - 1);
    }
  }

  /**
   * The shutdown guarantee. Core 1 has just stored ENABLED = 0 at `m`. If no store is in flight then, the
   * second store of the shutdown, at `k`, leaves the command zero for good. If one is, the second store of
   * any critical-voltage tick, at `k`, does so once that store has landed.
   */
  lemma ShutdownHolds(ss: seq<State>, acts: seq<Action>, m: nat, k: nat, n: nat)
    requires IsRun(ss, acts) && m <= k < n < |ss| && !ss[m].enabled
    requires acts[k] == CoreZero
    requires InFlight(ss[m]) == 0 || Stores(acts, m, k) == 1
    ensures ss[n].command == 0
  {
    AtMostOneLateStore(ss, acts, m, k);
    DisabledForGood(ss, acts, m, k);
    assert StepAt(ss, acts, k);
    ZeroForGood(ss, acts, k + 1, n);
  }

  /** In every run, from a shutdown's second store on the controller is at rest: nothing lets it run again. */
  lemma {:induction false} ShutdownRestsPid(ss: seq<State>, acts: seq<Action>, k: nat, n: nat)
    requires IsRun(ss, acts) && k < n < |ss| && acts[k].CoreZero?
    ensures ss[n].pid.integral == 0.0 && ss[n].pid.prevError == 0.0 && !ss[n].enabled
  {
    assert StepAt(ss, acts, n - 1);
    if n > k + 1 {
      ShutdownRestsPid(ss, acts, k, n - 1);
    } else {
      RunKeepsInv(ss, acts, k);
    }
  }

  /** The command a store in flight would leave; zero if there is none. */
  function Pending(s: State): u32 {
    if s.router.StoreCommand? then PackIntent(s.router.intent) else 0
  }

  /**
   * Disabling does not zero the command atomically. From its second store at `m` to the next one of its
   * kind, the command is what a store in flight at `m` leaves if it has landed by `n`, and zero otherwise.
   */
  lemma {:induction false} CommandAfterZeroing(ss: seq<State>, acts: seq<Action>, m: nat, n: nat)
    requires IsRun(ss, acts) && m <= n < |ss| && !ss[m].enabled && ss[m].command == 0
    requires forall k :: m <= k < n ==> acts[k] != CoreZero
    ensures ss[n].command == if Stores(acts, m, n) == 1 then Pending(ss[m]) else 0
    ensures Stores(acts, m, n) == 0 ==> Pending(ss[n]) == Pending(ss[m])
  {
    if n > m {
      CommandAfterZeroing(ss, acts, m, n - 1);
      DisabledForGood(ss, acts, m, n - 1);
      AtMostOneLateStore(ss, acts, m, n - 1);
      AtMostOneLateStore(ss, acts, m, n);
      assert acts[n - 1] != CoreZero;
      DisabledStep(ss, acts, n - 1);
    }
  }

  /** With the flag down only a store in flight changes the command, and nothing new goes in flight. */
  lemma DisabledStep(ss: seq<State>, acts: seq<Action>, k: nat)
    requires IsRun(ss, acts) && k < |acts| && !ss[k].enabled && acts[k] != CoreZero
    ensures ss[k + 1].command == if acts[k].RouterStore? then Pending(ss[k]) else ss[k].command
    ensures acts[k].RouterStore? ==> InFlight(ss[k]) == 1 && Pending(ss[k + 1]) == 0
    ensures !acts[k].RouterStore? ==> Pending(ss[k + 1]) == Pending(ss[k])
  {
    assert StepAt(ss, acts, k);
  }

  // ── Runs worth knowing ───────────────────────────────────────────────────

  datatype Run = Run(ss: seq<State>, acts: seq<Action>)

  ghost predicate Runs(r: Run) { IsRun(r.ss, r.acts) }

  ghost predicate FromBoot(r: Run) { Runs(r) && Initial(r.ss[0]) }

  function Last(r: Run): State
    requires r.ss != []
  {
    r.ss[|r.ss| - 1]
  }

  lemma Extend(r: Run, a: Action) returns (t: Run)
    requires Runs(r) && Can(Last(r), a)
    ensures Sound(Last(r))
    ensures t.acts == r.acts + [a] && |t.ss| == |r.ss| + 1 && t.ss[..|r.ss|] == r.ss
    ensures Runs(t) && t.ss[0] == r.ss[0] && Last(t) == Next(Last(r), a)
  {
    RunKeepsInv(r.ss, r.acts, |r.ss| - 1);
    t := Run(r.ss + [Next(Last(r), a)], r.acts + [a]);
    forall i | 0 <= i < |t.acts|
      ensures StepAt(t.ss, t.acts, i)
    {
      if i < |r.acts| {
        assert StepAt(r.ss, r.acts, i);
      }
    }
  }

  /** The state when a guest call has brought its intent to a router that was waiting for it. */
  function Received(s: State, i: Intent): State {
    s.(router := ReadMode(i), accepted := s.accepted + [i], routed := s.routed + [i],
       published := s.clock, received := s.clock)
  }

  /** A guest call that passes its checks. */
  lemma CallGuest(r: Run, left: i32, right: i32) returns (t: Run)
    requires Runs(r) && Last(r).guest == GuestIdle && Last(r).enabled && SpeedAccepted(left, right)
    ensures Runs(t) && t.ss[0] == r.ss[0] && |t.ss| >= |r.ss| && t.ss[..|r.ss|] == r.ss
    ensures t.acts == r.acts + [GuestCall(left, right), GuestLoad]
    ensures Last(t) == Last(r).(guest := GuestPublish(IntentOf(left, right)))
  {
    var r1 := Extend(r, GuestCall(left, right));
    t := Extend(r1, GuestLoad);
  }

  lemma PublishAndReceive(r: Run, i: Intent) returns (t: Run)
    requires Runs(r) && Last(r).guest == GuestPublish(i) && Last(r).router == Waiting && Last(r).queue == []
    ensures Runs(t) && t.ss[0] == r.ss[0] && |t.ss| >= |r.ss| && t.ss[..|r.ss|] == r.ss
    ensures t.acts == r.acts + [GuestSend, RouterReceive]
    ensures Last(t) == Received(Last(r).(guest := GuestIdle), i)
  {
    var s := Last(r);
    var r1 := Extend(r, GuestSend);
    t := Extend(r1, RouterReceive);
    assert s.stamps == [];
  }

  /** A guest call up to the router's receive. */
  lemma SendIntent(r: Run, left: i32, right: i32) returns (t: Run)
    requires Runs(r) && Last(r).guest == GuestIdle && Last(r).router == Waiting && Last(r).queue == []
    requires Last(r).enabled && SpeedAccepted(left, right)
    ensures Runs(t) && t.ss[0] == r.ss[0] && |t.ss| >= |r.ss| && t.ss[..|r.ss|] == r.ss
    ensures t.acts == r.acts + [GuestCall(left, right), GuestLoad, GuestSend, RouterReceive]
    ensures Last(t) == Received(Last(r), IntentOf(left, right))
  {
    var called := CallGuest(r, left, right);
    t := PublishAndReceive(called, IntentOf(left, right));
  }

  lemma BootRun(clock: Moment) returns (r: Run)
    ensures FromBoot(r) && Initial(Last(r)) && r.acts == []
  {
    var s := State(0, true, SingleBoard, [], GuestIdle, Waiting, clock.at, clock,
                   TickStart, Pid.Pid(10.0, 0.5, 0.1, 0.0, 0.0, -255.0, 255.0), [], [], 0, [], clock, clock);
    BootInv(s);
    r := Run([s], []);
  }

  /** A guest's intent, sent at boot, is about to be stored: the store has passed its check. */
  ghost predicate Armed(s: State, i: Intent) {
    && s.router == StoreCommand(i) && s.guest == GuestIdle && s.core == TickStart
    && s.command == 0 && s.enabled && s.mode == SingleBoard && s.queue == [] && s.stamps == []
    && s.waitStart == s.clock.at && s.received == s.clock
    && s.routed == [i] && s.here == 1
  }

  lemma PassCheck(r: Run, i: Intent) returns (t: Run)
    requires Runs(r) && Last(r).router == ReadMode(i) && Last(r).mode == SingleBoard && Last(r).enabled
    ensures Runs(t) && t.ss[0] == r.ss[0] && t.acts == r.acts + [RouterMode, RouterCheck]
    ensures Last(t) == Last(r).(router := StoreCommand(i), here := |Last(r).routed|)
  {
    var r1 := Extend(r, RouterMode);
    t := Extend(r1, RouterCheck);
  }

  lemma ArmStore(left: i32, right: i32) returns (r: Run)
    requires SpeedAccepted(left, right)
    ensures FromBoot(r) && Armed(Last(r), IntentOf(left, right)) && Clock !in r.acts
    ensures GuestCall(left, right) in r.acts && FreshPid(Last(r).pid)
  {
    var r0 := BootRun(Moment(0, 0));
    var r1 := SendIntent(r0, left, right);
    r := PassCheck(r1, IntentOf(left, right));
    assert r.acts[0] == GuestCall(left, right);
  }

  ghost predicate RoutesHereAt(r: Run, at: nat)
    requires |r.ss| == |r.acts| + 1
  {
    forall k :: 0 <= k < |r.acts| && RoutesHere(r.ss[k], r.acts[k]) ==> r.ss[k].clock.at == at
  }

  lemma {:induction false} TimeStands(r: Run, n: nat)
    requires Runs(r) && n < |r.ss| && Clock !in r.acts
    ensures r.ss[n].clock == r.ss[0].clock
  {
    if n > 0 {
      TimeStands(r, n - 1);
      assert StepAt(r.ss, r.acts, n - 1) && r.acts[n - 1] != Clock;
    }
  }

  lemma RoutedAtBoot(r: Run)
    requires Runs(r) && Clock !in r.acts
    ensures RoutesHereAt(r, r.ss[0].clock.at) && Last(r).clock == r.ss[0].clock
  {
    forall k | 0 <= k < |r.ss|
      ensures r.ss[k].clock == r.ss[0].clock
    {
      TimeStands(r, k);
    }
  }

  lemma NonzeroCommand()
    ensures Pack(100, 100) == 0x64_0064
  {}

  lemma Disable(r: Run) returns (t: Run)
    requires Runs(r) && Last(r).core == TickStart
    ensures Runs(t) && t.ss[0] == r.ss[0] && CoreZero in t.acts
    ensures !Last(t).enabled && Last(t).core.CheckMotor? && Last(t).router == Last(r).router
  {
    var r1 := Extend(r, CoreBegin(true, 0));
    t := Extend(r1, CoreZero);
    assert t.acts[|r1.acts|] == CoreZero;
  }

  lemma ShutdownFirst(r: Run, i: Intent) returns (t: Run)
    requires Runs(r) && Armed(Last(r), i)
    ensures Runs(t) && t.ss[0] == r.ss[0] && CoreZero in t.acts
    ensures !Last(t).enabled && Last(t).core == TickStart && Last(t).command == PackIntent(i)
  {
    var r1 := Disable(r);
    var r2 := Extend(r1, RouterStore);
    t := Extend(r2, CoreCheck);
  }

  /**
   * A store that passed its check before the shutdown lands after both stores of `set_motor_enabled(false)`:
   * the tick is over, the motors are disabled, and the command is not zero.
   */
  lemma LateStoreLands() returns (r: Run)
    ensures FromBoot(r) && Last(r).core == TickStart && CoreZero in r.acts
    ensures !Last(r).enabled && Last(r).command == Pack(100, 100) != 0
  {
    var r0 := ArmStore(100, 100);
    r := ShutdownFirst(r0, Intent(100, 100));
    NonzeroCommand();
  }

  // ── Time ──────────────────────────────────────────────────────────────────

  /** Of the next `ms` milliseconds, how many a waiting router with nothing to receive is late. */
  function Overtime(s: State, ms: nat): nat {
    var left := s.waitStart + DEAD_MANS_SWITCH_MS - s.clock.at;
    if left <= 0 then ms else if ms <= left then 0 else ms - left
  }

  lemma {:induction false} Wait(r: Run, ms: nat) returns (t: Run)
    requires Runs(r) && Last(r).router == Waiting && Last(r).queue == []
    ensures Runs(t) && t.ss[0] == r.ss[0] && |t.ss| == |r.ss| + ms && t.ss[..|r.ss|] == r.ss
    ensures |t.acts| == |r.acts| + ms && t.acts[..|r.acts|] == r.acts
    ensures forall k :: |r.acts| <= k < |t.acts| ==> t.acts[k] == Clock
    ensures Last(t) == Last(r).(clock := Moment(Last(r).clock.at + ms, Last(r).clock.late + Overtime(Last(r), ms)))
  {
    if ms == 0 {
      t := r;
    } else {
      var u := Wait(r, ms - 1);
      t := Extend(u, Clock);
    }
  }

  // ── The balance of a tick ─────────────────────────────────────────────────

  /** The gains of the firmware. */
  predicate Tuned(p: Pid.Pid) {
    p.kp == 10.0 && p.ki == 0.5 && p.kd == 0.1 && p.outputMin == -255.0 && p.outputMax == 255.0
  }

  /** In every run from boot the gains are those. */
  lemma {:induction false} StaysTuned(r: Run, n: nat)
    requires FromBoot(r) && n < |r.ss|
    ensures Tuned(r.ss[n].pid)
  {
    if n > 0 {
      StaysTuned(r, n - 1);
      assert StepAt(r.ss, r.acts, n - 1);
    }
  }

  /** `b` is `x` without its fraction. */
  predicate WholePart(x: real, b: int) {
    if x >= 0.0 then b as real <= x < (b + 1) as real && b >= 0 else (b - 1) as real < x <= b as real && b <= 0
  }

  lemma TruncatesToWhole(x: real)
    ensures WholePart(x, TruncateToInt(x))
  {}

  lemma WholePartIsUnique(x: real, a: int, b: int)
    requires WholePart(x, a) && WholePart(x, b)
    ensures a == b
  {}

  /**
   * The balance a tick computes from its pitch in millidegrees: the whole part of the control law of the
   * error -pitch/1000, two milliseconds after the last one, between -255 and 255.
   */
  lemma TickBalance(s: State, a: Action)
    requires Sound(s) && Can(s, a) && a.CoreCheck? && s.enabled && Tuned(s.pid)
    ensures
      var (t, error) := (Next(s, a), -(s.core.pitch as real) / 1000.0);
      && t.core.LoadCommand?
      && t.pid.integral == Pid.Limited(s.pid.integral + error / 500.0, -510.0, 510.0) && t.pid.prevError == error
      && WholePart(
           Pid.Limited(10.0 * error + 0.5 * t.pid.integral + 50.0 * (error - s.pid.prevError), -255.0, 255.0),
           t.core.balance)
  {
    var error := PitchError(s.core.pitch);
    Pid.OutputIsLaw(s.pid, error, DT);
    Pid.AddsProduct(s.pid.integral, error, DT);
    TruncatesToWhole(Pid.Output(s.pid, error, DT));
  }

  /** In thousandths: the first tick since boot answers a pitch of one millidegree with -0.060001. */
  function FirstBalance(pitch: int): int {
    if pitch >= 0 then -Capped(pitch * 60001 / 1_000_000) else Capped(-pitch * 60001 / 1_000_000)
  }

  function Capped(x: int): int { if x > 255 then 255 else x }

  lemma FirstTickBalance(s: State, a: Action)
    requires Sound(s) && Can(s, a) && a.CoreCheck? && s.enabled && FreshPid(s.pid)
    ensures Next(s, a).core == LoadCommand(FirstBalance(s.core.pitch))
  {
    TickBalance(s, a);
    FirstLaw(s.core.pitch, Next(s, a).core.balance);
  }

  lemma FirstLaw(pitch: int, balance: int)
    requires
      var error := -(pitch as real) / 1000.0;
      WholePart(
        Pid.Limited(10.0 * error + 0.5 * Pid.Limited(0.0 + error / 500.0, -510.0, 510.0) + 50.0 * (error - 0.0),
                    -255.0, 255.0),
        balance)
    ensures balance == FirstBalance(pitch)
  {
    var error := -(pitch as real) / 1000.0;
    var law := (-pitch * 60001) as real / 1_000_000.0;
    assert -255_000.0 <= error <= 255_000.0 ==> 10.0 * error + 0.5 * (error / 500.0) + 50.0 * error == law;
    WholeOfMillionths(-pitch * 60001, FirstBalance(pitch));
    WholePartIsUnique(Pid.Limited(law, -255.0, 255.0), balance, FirstBalance(pitch));
  }

  lemma WholeOfMillionths(n: int, b: int)
    requires b == if n <= 0 then -Capped(-n / 1_000_000) else Capped(n / 1_000_000)
    ensures WholePart(Pid.Limited(n as real / 1_000_000.0, -255.0, 255.0), b)
  {}

  // ── Speeds arrive ─────────────────────────────────────────────────────────

  lemma PlainIntent(left: i32, right: i32)
    requires -255 <= left <= 255 && -255 <= right <= 255
    ensures SpeedAccepted(left, right) && IntentOf(left, right) == Intent(left, right)
  {
    AcceptedSpeeds(left);
    AcceptedSpeeds(right);
  }

  lemma StoreNow(r: Run, i: Intent) returns (t: Run)
    requires Runs(r) && Armed(Last(r), i)
    ensures Runs(t) && t.ss[0] == r.ss[0] && t.acts == r.acts + [RouterStore]
    ensures Last(t).mode == SingleBoard && Last(t).enabled && Last(t).command == PackIntent(i)
  {
    t := Extend(r, RouterStore);
  }

  /** Any speeds in the range reach the motors: for each pair a run from boot in which its call is the command. */
  lemma AnySpeedsArrive(left: i16, right: i16) returns (r: Run)
    requires -255 <= left <= 255 && -255 <= right <= 255
    ensures FromBoot(r) && GuestCall(left, right) in r.acts
    ensures Last(r).mode == SingleBoard && Last(r).enabled && Last(r).command == Pack(left, right)
  {
    PlainIntent(left, right);
    var r0 := ArmStore(left, right);
    r := StoreNow(r0, Intent(left, right));
    var k :| 0 <= k < |r0.acts| && r0.acts[k] == GuestCall(left, right);
    assert r.acts[k] == r0.acts[k];
  }

  // ── Beyond the PWM clamps ─────────────────────────────────────────────────

  lemma SameSign(x: real, y: real)
    requires y >= 0.0
    ensures x >= 0.0 ==> Pid.Times(x, y) >= 0.0 && Pid.Times(y, x) >= 0.0
    ensures x <= 0.0 ==> Pid.Times(x, y) <= 0.0 && Pid.Times(y, x) <= 0.0
  {}

  lemma FirstTerms(pid: Pid.Pid, error: real)
    requires pid.integral == 0.0 && pid.prevError == 0.0 && Pid.Usable(pid) && Pid.Clamps(pid)
    ensures error >= 0.0 ==> Pid.Integrated(pid, error, DT) >= 0.0 && Pid.Derivative(pid, error, DT) >= 0.0
    ensures error <= 0.0 ==> Pid.Integrated(pid, error, DT) <= 0.0 && Pid.Derivative(pid, error, DT) <= 0.0
  {
    SameSign(error, DT);
  }

  lemma Saturates(p: real, i: real, d: real)
    ensures p >= 255.0 && i >= 0.0 && d >= 0.0 ==> Pid.Clamp(p + i + d, -255.0, 255.0) == 255.0
    ensures p <= -255.0 && i <= 0.0 && d <= 0.0 ==> Pid.Clamp(p + i + d, -255.0, 255.0) == -255.0
  {}

  lemma FirstOutput(pid: Pid.Pid, error: real)
    requires pid.integral == 0.0 && pid.prevError == 0.0 && Pid.Usable(pid) && Pid.Clamps(pid)
    requires pid.kp == 10.0 && pid.ki >= 0.0 && pid.kd >= 0.0 && pid.outputMin == -255.0 && pid.outputMax == 255.0
    ensures error >= 60.0 ==> Pid.Output(pid, error, DT) == 255.0
    ensures error <= -60.0 ==> Pid.Output(pid, error, DT) == -255.0
    ensures error == 0.0 ==> Pid.Output(pid, error, DT) == 0.0
  {
    var i, d := Pid.Integrated(pid, error, DT), Pid.Derivative(pid, error, DT);
    FirstTerms(pid, error);
    SameSign(i, pid.ki);
    SameSign(d, pid.kd);
    Saturates(Pid.Times(pid.kp, error), Pid.Times(pid.ki, i), Pid.Times(pid.kd, d));
  }

  /** The balance output the controller gives next for a pitch. */
  ghost predicate Answers(pid: Pid.Pid, pitch: i32, balance: int) {
    Pid.Usable(pid) &&
    forall error: real :: error == PitchError(pitch) ==> TruncateToInt(Pid.Output(pid, error, DT)) == balance
  }

  /** At boot a tilt of 60 degrees already asks for the full output. */
  lemma FirstAnswer(pid: Pid.Pid, pitch: i32)
    requires pid.integral == 0.0 && pid.prevError == 0.0 && Pid.Usable(pid) && Pid.Clamps(pid)
    requires pid.kp == 10.0 && pid.ki >= 0.0 && pid.kd >= 0.0 && pid.outputMin == -255.0 && pid.outputMax == 255.0
    ensures pitch <= -60000 ==> Answers(pid, pitch, 255)
    ensures pitch >= 60000 ==> Answers(pid, pitch, -255)
    ensures pitch == 0 ==> Answers(pid, pitch, 0)
  {
    FirstOutput(pid, PitchError(pitch));
  }

  /** The store about to land, and some time. */
  lemma StoreAndWait(r: Run, i: Intent, ms: nat) returns (t: Run)
    requires Runs(r) && Armed(Last(r), i)
    ensures Runs(t) && t.ss[0] == r.ss[0] && r.acts <= t.acts
    ensures Last(t).core == TickStart && Last(t).enabled && Last(t).command == PackIntent(i)
    ensures Last(t).pid == Last(r).pid && Age(Last(t).clock, Last(t).received) == ms
    ensures Late(Last(t).clock, Last(t).received) == if ms <= DEAD_MANS_SWITCH_MS then 0 else ms - DEAD_MANS_SWITCH_MS
  {
    var r1 := Extend(r, RouterStore);
    t := Wait(r1, ms);
  }

  /** Then a tick up to its load of the command. */
  lemma DriveOnce(r: Run, i: Intent, ms: nat, pitch: i32, balance: int) returns (t: Run)
    requires Runs(r) && Armed(Last(r), i) && Answers(Last(r).pid, pitch, balance)
    ensures Runs(t) && t.ss[0] == r.ss[0] && r.acts <= t.acts
    ensures Last(t).core == LoadCommand(balance) && Last(t).enabled && Last(t).command == PackIntent(i)
    ensures Age(Last(t).clock, Last(t).received) == ms
    ensures Late(Last(t).clock, Last(t).received) == if ms <= DEAD_MANS_SWITCH_MS then 0 else ms - DEAD_MANS_SWITCH_MS
  {
    var r1 := StoreAndWait(r, i, ms);
    var r2 := Extend(r1, CoreBegin(false, pitch));
    t := Extend(r2, CoreCheck);
  }

  /** The balance output that a steering intent pushes beyond the clamps. */
  function Extreme(i: Intent): int { if i.left > 0 || (i.left == 0 && i.right > 0) then 255 else -255 }

  lemma ExtremeOutput(s: State, i: Intent)
    requires s.core == LoadCommand(Extreme(i)) && s.command == PackIntent(i) && InRange(i)
    ensures TickOutput(s, CoreLoad) == Some((Extreme(i) + i.left, Extreme(i) + i.right))
  {
    PlainDuties(Extreme(i), i);
  }

  /**
   * With any other speeds it does exceed them: for each accepted pair there is a run from boot in which that
   * call's command drives a motor beyond +-255, up to +-510.
   */
  lemma GuestExceedsClamps(left: i32, right: i32) returns (r: Run)
    requires SpeedAccepted(left, right) && !(NoSpeed(left) && NoSpeed(right))
    ensures FromBoot(r) && GuestCall(left, right) in r.acts && Can(Last(r), CoreLoad)
    ensures TickOutput(Last(r), CoreLoad).Some? && !PairInRange(TickOutput(Last(r), CoreLoad).value)
    ensures left == right == MAX_MOTOR_SPEED ==> TickOutput(Last(r), CoreLoad) == Some((510, 510))
    ensures left == right == -MAX_MOTOR_SPEED ==> TickOutput(Last(r), CoreLoad) == Some((-510, -510))
  {
    AcceptedSpeeds(left);
    AcceptedSpeeds(right);
    var i := IntentOf(left, right);
    var pitch: i32 := if Extreme(i) > 0 then -60000 else 60000;
    var r0 := ArmStore(left, right);
    FirstAnswer(Last(r0).pid, pitch);
    r := DriveOnce(r0, i, 0, pitch, Extreme(i));
    ExtremeOutput(Last(r), i);
  }

  // ── The clock and the dead-man's switch ───────────────────────────────────

  /**
   * A guest that drives the motors and then hangs keeps the router, which shares its core, from running: for
   * every time, a run in which the command of time 0 still drives the motors then.
   */
  lemma HungGuest(ms: nat) returns (r: Run)
    ensures FromBoot(r) && Driven(Last(r)) && Age(Last(r).clock, Last(r).received) == ms
    ensures Late(Last(r).clock, Last(r).received) == if ms <= DEAD_MANS_SWITCH_MS then 0 else ms - DEAD_MANS_SWITCH_MS
    ensures Can(Last(r), CoreLoad) && TickOutput(Last(r), CoreLoad) == Some((100, 100))
  {
    NonzeroCommand();
    PackRoundTrip(100, 100);
    var r0 := ArmStore(100, 100);
    FirstAnswer(Last(r0).pid, 0);
    r := DriveOnce(r0, Intent(100, 100), ms, 0, 0);
  }

  /** With the router at most `late` ms late since its last receive, no driving command is older than `bound`. */
  ghost predicate Promised(late: nat, bound: nat) {
    forall r: Run :: FromBoot(r) ==> KeptBy(Last(r), late, bound)
  }

  predicate KeptBy(s: State, late: nat, bound: nat) {
    Driven(s) && Late(s.clock, s.received) <= late ==> Age(s.clock, s.received) <= bound
  }

  /** The dead-man's switch promises exactly 50 ms more than that; so 50 ms exactly when the router is never late. */
  lemma PromiseExactly(late: nat, bound: nat)
    ensures Promised(late, bound) <==> bound >= DEAD_MANS_SWITCH_MS + late
  {
    forall r: Run | FromBoot(r)
      ensures bound >= DEAD_MANS_SWITCH_MS + late ==> KeptBy(Last(r), late, bound)
    {
      DeadMansSwitch(r.ss, r.acts, |r.ss| - 1);
    }
    var r := HungGuest(DEAD_MANS_SWITCH_MS + late);
    assert KeptBy(Last(r), late, bound) <==> bound >= DEAD_MANS_SWITCH_MS + late;
  }

  // ── A stale command ───────────────────────────────────────────────────────

  /**
   * `rounds + 1` intents were received since boot, 40 ms apart, the router never late. Only the first was
   * routed to the motors, at boot, and the command is still its own.
   */
  ghost predicate Stale(r: Run, rounds: nat) {
    && FromBoot(r) && RoutesHereAt(r, r.ss[0].clock.at)
    && Last(r).clock == Moment(r.ss[0].clock.at + 40 * rounds, r.ss[0].clock.late)
    && Last(r).enabled && Last(r).command == Pack(100, 100)
    && Last(r).here == 1 && |Last(r).routed| == rounds + 1
    && IdleDistributed(Last(r))
  }

  predicate IdleDistributed(s: State) {
    && s.mode == Distributed && s.guest == GuestIdle && s.router == Waiting && s.queue == []
    && s.waitStart == s.clock.at
  }

  lemma StoreAndSwitch(r: Run, i: Intent) returns (t: Run)
    requires Runs(r) && Armed(Last(r), i)
    ensures Runs(t) && t.ss[0] == r.ss[0] && t.acts == r.acts + [RouterStore, SetMode(Distributed)]
    ensures IdleDistributed(Last(t)) && Last(t).enabled && Last(t).command == PackIntent(i)
    ensures Last(t).here == 1 && |Last(t).routed| == 1
  {
    var r1 := Extend(r, RouterStore);
    t := Extend(r1, SetMode(Distributed));
  }

  lemma StaleStart() returns (r: Run)
    ensures Stale(r, 0)
  {
    var r0 := ArmStore(100, 100);
    r := StoreAndSwitch(r0, Intent(100, 100));
    RoutedAtBoot(r);
  }

  /** Nothing is routed to the motors in the round that follows. */
  ghost predicate NoneHereSince(r: Run, n: nat)
    requires |r.ss| == |r.acts| + 1
  {
    forall k :: n <= k < |r.acts| ==> !RoutesHere(r.ss[k], r.acts[k])
  }

  lemma StillRoutedAt(r0: Run, r: Run, at: nat)
    requires Runs(r0) && Runs(r) && RoutesHereAt(r0, at) && NoneHereSince(r, |r0.acts|)
    requires r0.acts <= r.acts && r.ss[..|r0.ss|] == r0.ss
    ensures RoutesHereAt(r, at)
  {
    forall k | 0 <= k < |r.acts| && RoutesHere(r.ss[k], r.acts[k])
      ensures r.ss[k].clock.at == at
    {
      assert k < |r0.acts|;
      assert r.acts[k] == r0.acts[k] && r.ss[k] == r0.ss[k];
    }
  }

  /** Forty milliseconds and a guest call, up to the router's receive. */
  lemma NextIntent(r0: Run) returns (r: Run)
    requires Runs(r0) && IdleDistributed(Last(r0)) && Last(r0).enabled
    ensures Runs(r) && r.ss[0] == r0.ss[0] && r0.acts <= r.acts && r.ss[..|r0.ss|] == r0.ss
    ensures forall k :: |r0.acts| <= k < |r.acts| ==> !r.acts[k].RouterMode?
    ensures
      var later := Moment(Last(r0).clock.at + 40, Last(r0).clock.late);
      Last(r) == Received(Last(r0).(clock := later), Intent(100, 100))
  {
    var r1 := Wait(r0, 40);
    r := SendIntent(r1, 100, 100);
  }

  /** And its intent is found Distributed. */
  lemma DistributedRound(r0: Run) returns (r: Run)
    requires Runs(r0) && IdleDistributed(Last(r0)) && Last(r0).enabled
    ensures Runs(r) && r.ss[0] == r0.ss[0] && r0.acts <= r.acts && r.ss[..|r0.ss|] == r0.ss
    ensures NoneHereSince(r, |r0.acts|) && IdleDistributed(Last(r)) && Last(r).enabled
    ensures Last(r).clock == Moment(Last(r0).clock.at + 40, Last(r0).clock.late)
    ensures Last(r).command == Last(r0).command && Last(r).here == Last(r0).here
    ensures |Last(r).routed| == |Last(r0).routed| + 1
  {
    var r1 := NextIntent(r0);
    r := Extend(r1, RouterMode);
    assert r.ss[|r1.acts|] == Last(r1);
  }

  lemma StaleRound(r0: Run, rounds: nat) returns (r: Run)
    requires Stale(r0, rounds)
    ensures Stale(r, rounds + 1)
  {
    r := DistributedRound(r0);
    StillRoutedAt(r0, r, r0.ss[0].clock.at);
  }

  /**
   * Distributed intents keep a stale local command alive: a command stored at time 0 is still there after
   * any number of Distributed intents 40 ms apart, with the router never late.
   */
  lemma {:induction false} StaleCommandSurvives(rounds: nat) returns (r: Run)
    ensures Stale(r, rounds) && Driven(Last(r))
  {
    NonzeroCommand();
    if rounds == 0 {
      r := StaleStart();
    } else {
      var r0 := StaleCommandSurvives(rounds - 1);
      r := StaleRound(r0, rounds - 1);
    }
  }
}
