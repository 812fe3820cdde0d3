/**
 * The motor half of the software host in host-tests/src/mock_host.rs: one call that routes at once, and a
 * dead-man's check on demand, in place of the firmware's queue, router and timer.
 */
module MockMotors {
  import opened Wrappers
  import opened AbiStatus
  import opened Bytes
  import opened Motors
  import opened MotorPath
  import opened MotorTasks

  datatype MotorFields = MotorFields(
    left: i32, right: i32, enabled: bool, mode: RoutingMode, intentLog: seq<Intent>, distributed: seq<Intent>,
    uptimeMs: nat, lastIntentMs: nat, deadMansActive: bool, watchdogFeeds: u32)

  function NewMotors(): MotorFields { MotorFields(0, 0, true, SingleBoard, [], [], 0, 0, false, 0) }

  function SpeedStatus(m: MotorFields, left: i32, right: i32): i32 {
    if !SpeedAccepted(left, right) then ERR_INVALID_ARG else if !m.enabled then ERR_BUSY else OK
  }

  function SetSpeed(m: MotorFields, left: i32, right: i32): MotorFields {
    if SpeedStatus(m, left, right) != OK then m
    else
      var intent := IntentOf(left, right);
      var logged := m.(intentLog := m.intentLog + [intent], lastIntentMs := m.uptimeMs, deadMansActive := false,
                       watchdogFeeds := (m.watchdogFeeds + 1) % 0x1_0000_0000);
      if m.mode == SingleBoard then logged.(left := left, right := right)
      else logged.(distributed := m.distributed + [intent])
  }

  /** Strictly more than 50 ms; the router's timer fires at 50 ms sharp. */
  predicate Expired(m: MotorFields, now: nat) { now >= m.lastIntentMs && now - m.lastIntentMs > DEAD_MANS_SWITCH_MS }

  function Check(m: MotorFields, now: nat): MotorFields {
    if Expired(m, now) then m.(deadMansActive := true, left := 0, right := 0) else m
  }

  class MockMotorHost {
    var motorLeftSpeed: i32
    var motorRightSpeed: i32
    var motorsEnabled: bool
    var routingMode: RoutingMode
    var intentLog: seq<Intent>
    var distributedIntents: seq<Intent>
    var simulatedUptimeMs: nat
    var lastIntentMs: nat
    var deadMansActive: bool
    var watchdogFeedCount: u32

    ghost function Value(): MotorFields
      reads this
    {
      MotorFields(motorLeftSpeed, motorRightSpeed, motorsEnabled, routingMode, intentLog, distributedIntents,
                  simulatedUptimeMs, lastIntentMs, deadMansActive, watchdogFeedCount)
    }

    constructor ()
      ensures Value() == NewMotors()
    {
      motorLeftSpeed, motorRightSpeed, motorsEnabled, routingMode := 0, 0, true, SingleBoard;
      intentLog, distributedIntents, simulatedUptimeMs, lastIntentMs, deadMansActive := [], [], 0, 0, false;
      watchdogFeedCount := 0;
    }

    method SetMotorSpeed(left: i32, right: i32) returns (status: i32)
      modifies this
      ensures Value() == SetSpeed(old(Value()), left, right)
      ensures status == SpeedStatus(old(Value()), left, right)
      ensures status == ERR_INVALID_ARG <==>
        !((-255 <= left <= 255 || left == -0x8000_0000) && (-255 <= right <= 255 || right == -0x8000_0000))
      ensures status != ERR_INVALID_ARG ==> status == if motorsEnabled then OK else ERR_BUSY
      ensures status == OK ==>
        && intentLog == old(intentLog) + [Intent(AskedSpeed(left), AskedSpeed(right))]
        && lastIntentMs == simulatedUptimeMs == old(simulatedUptimeMs) && !deadMansActive
        && watchdogFeedCount == (old(watchdogFeedCount) + 1) % 0x1_0000_0000
        && (motorLeftSpeed, motorRightSpeed) ==
             (if routingMode == SingleBoard then (left, right) else old((motorLeftSpeed, motorRightSpeed)))
        && distributedIntents == old(distributedIntents) +
             if routingMode == SingleBoard then [] else intentLog[|intentLog| - 1..]
      ensures status != OK ==> unchanged(this)
      ensures unchanged(this`motorsEnabled, this`routingMode)
    {
      AcceptedExactly(left, right);
      AcceptedSpeeds(left);
      AcceptedSpeeds(right);
      if WrappingAbs(left) > MAX_MOTOR_SPEED || WrappingAbs(right) > MAX_MOTOR_SPEED {
        return ERR_INVALID_ARG;
      }
      if !motorsEnabled {
        return ERR_BUSY;
      }
      var intent := IntentOf(left, right);
      intentLog := intentLog + [intent];
      lastIntentMs := simulatedUptimeMs;
      deadMansActive := false;
      match routingMode {
        case SingleBoard => motorLeftSpeed, motorRightSpeed := left, right;
        case Distributed => distributedIntents := distributedIntents + [intent];
      }
      watchdogFeedCount := (watchdogFeedCount + 1) % 0x1_0000_0000;
      status := OK;
    }

    method CheckDeadMansSwitch(now: nat)
      modifies this
      ensures Value() == Check(old(Value()), now)
      ensures now - lastIntentMs > 50 ==> deadMansActive && motorLeftSpeed == motorRightSpeed == 0
      ensures now - lastIntentMs <= 50 ==> Value() == old(Value())
    {
      var gap := if now < lastIntentMs then 0 else now - lastIntentMs;
      if gap > DEAD_MANS_SWITCH_MS {
        deadMansActive := true;
        motorLeftSpeed, motorRightSpeed := 0, 0;
      }
    }
  }

  // ── Runs ──────────────────────────────────────────────────────────────────

  datatype Op =
    | Set(left: i32, right: i32)
    | CheckAt(now: nat)
    | Advance(ms: nat)
    | Mode(mode: RoutingMode)
    | Enable(on: bool)

  function Step(m: MotorFields, op: Op): MotorFields {
    match op
    case Set(left, right) => SetSpeed(m, left, right)
    case CheckAt(now) => Check(m, now)
    case Advance(ms) => m.(uptimeMs := m.uptimeMs + ms)
    case Mode(mode) => m.(mode := mode)
    case Enable(on) => m.(enabled := on)
  }

  function After(ops: seq<Op>, n: nat): MotorFields
    requires n <= |ops|
  {
    if n == 0 then NewMotors() else Step(After(ops, n - 1), ops[n - 1])
  }

  predicate SpeedInRange(v: i32) { -MAX_MOTOR_SPEED <= v <= MAX_MOTOR_SPEED }

  /** The one argument outside the range that the wrapping `abs` lets through. */
  predicate IsMinimum(v: i32) { v == -0x8000_0000 }

  /** In every run each logged intent is in range, and the mock's speeds are in range or the wrapped minimum. */
  ghost predicate LoggedInRange(m: MotorFields) {
    && (forall i :: 0 <= i < |m.intentLog| ==> InRange(m.intentLog[i]))
    && (forall i :: 0 <= i < |m.distributed| ==> InRange(m.distributed[i]))
    && (SpeedInRange(m.left) || IsMinimum(m.left)) && (SpeedInRange(m.right) || IsMinimum(m.right))
  }

  lemma CallStaysInRange(m: MotorFields, left: i32, right: i32)
    requires LoggedInRange(m)
    ensures LoggedInRange(SetSpeed(m, left, right))
  {
    AcceptedSpeeds(left);
    AcceptedSpeeds(right);
  }

  lemma StepStaysInRange(m: MotorFields, op: Op)
    requires LoggedInRange(m)
    ensures LoggedInRange(Step(m, op))
  {
    if op.Set? {
      CallStaysInRange(m, op.left, op.right);
    }
  }

  lemma {:induction false} LogStaysInRange(ops: seq<Op>, n: nat)
    requires n <= |ops|
    ensures LoggedInRange(After(ops, n))
  {
    if n > 0 {
      LogStaysInRange(ops, n - 1);
      StepStaysInRange(After(ops, n - 1), ops[n - 1]);
    }
  }

  /**
   * An accepted SingleBoard call leaves the speeds equal to the logged intent, and in range, exactly when
   * neither argument is `i32::MIN`: the firmware then drives with 0, the mock records the minimum itself.
   */
  lemma SpeedsMatchIntent(m: MotorFields, left: i32, right: i32)
    requires SpeedStatus(m, left, right) == OK && m.mode == SingleBoard
    ensures
      var t := SetSpeed(m, left, right);
      var intent := t.intentLog[|t.intentLog| - 1];
      && ((t.left == intent.left && t.right == intent.right) <==> !IsMinimum(left) && !IsMinimum(right))
      && ((SpeedInRange(t.left) && SpeedInRange(t.right)) <==> !IsMinimum(left) && !IsMinimum(right))
  {}

  predicate Writes(m: MotorFields, op: Op) {
    op.Set? && SpeedStatus(m, op.left, op.right) == OK && m.mode == SingleBoard
  }

  ghost predicate Stopped(m: MotorFields) { m.left == 0 && m.right == 0 }

  lemma StaysStopped(m: MotorFields, op: Op)
    requires Stopped(m) && !Writes(m, op)
    ensures Stopped(Step(m, op))
  {}

  /** In every run, once a check has found the last intent too old, the speeds stay zero until a SingleBoard call. */
  lemma {:induction false} StoppedUntilCommanded(ops: seq<Op>, k: nat, n: nat)
    requires k < n <= |ops| && ops[k].CheckAt? && Expired(After(ops, k), ops[k].now)
    requires forall j :: k < j < n ==> !Writes(After(ops, j), ops[j])
    ensures Stopped(After(ops, n))
  {
    if n > k + 1 {
      StoppedUntilCommanded(ops, k, n - 1);
      StaysStopped(After(ops, n - 1), ops[n - 1]);
    }
  }

  // ── Against the firmware ──────────────────────────────────────────────────

  /** A call, a millisecond at whose end the double is asked to check, or a change of mode. */
  datatype Turn = Drive(left: i32, right: i32) | Millisecond | Switch(mode: RoutingMode)

  predicate AtRest(s: State) { Sound(s) && Resting(s) && s.queue == [] }

  function Sent(s: State, i: Intent): State {
    s.(queue := s.queue + [i], accepted := s.accepted + [i], stamps := s.stamps + [s.clock])
  }

  /** A millisecond later. */
  function Later(s: State): State {
    s.(clock := Moment(s.clock.at + 1, s.clock.late + if Due(s) then 1 else 0))
  }

  /** The firmware's part, with a router that is never late. */
  function FirmwareTurn(s: State, t: Turn): (r: State)
    requires AtRest(s)
    ensures AtRest(r)
  {
    match t
    case Drive(left, right) =>
      if SpeedAccepted(left, right) && s.enabled then RouterResult(Sent(s, IntentOf(left, right))) else s
    case Millisecond => if Due(Later(s)) then RouterResult(Later(s)) else Later(s)
    case Switch(mode) => s.(mode := mode)
  }

  function TurnActions(s: State, t: Turn): seq<Action>
    requires AtRest(s)
  {
    match t
    case Drive(left, right) =>
      if !SpeedAccepted(left, right) then [GuestCall(left, right)]
      else if !s.enabled then [GuestCall(left, right), GuestLoad]
      else [GuestCall(left, right), GuestLoad, GuestSend] + RouterActions(Sent(s, IntentOf(left, right)))
    case Millisecond => [Clock] + if Due(Later(s)) then RouterActions(Later(s)) else []
    case Switch(mode) => [SetMode(mode)]
  }

  lemma {:induction false} ThenRun(s: State, first: seq<Action>, t: State, more: seq<Action>)
    requires RunTo(s, first) == Some(t)
    ensures RunTo(s, first + more) == RunTo(t, more)
    decreases |first|
  {
    if first == [] {
      assert first + more == more;
    } else {
      assert (first + more)[1..] == first[1..] + more;
      ThenRun(Next(s, first[0]), first[1..], t, more);
    }
  }

  lemma CallRuns(s: State, left: i32, right: i32)
    requires AtRest(s)
    ensures !SpeedAccepted(left, right) ==> RunTo(s, [GuestCall(left, right)]) == Some(s)
    ensures SpeedAccepted(left, right) && !s.enabled ==> RunTo(s, [GuestCall(left, right), GuestLoad]) == Some(s)
    ensures SpeedAccepted(left, right) && s.enabled ==>
      RunTo(s, [GuestCall(left, right), GuestLoad, GuestSend]) == Some(Sent(s, IntentOf(left, right)))
  {
    var call := GuestCall(left, right);
    OneStep(s, call);
    if SpeedAccepted(left, right) {
      ThenStep(s, [call], Next(s, call), GuestLoad);
      assert [call] + [GuestLoad] == [call, GuestLoad];
      if s.enabled {
        var loaded := Next(Next(s, call), GuestLoad);
        ThenStep(s, [call, GuestLoad], loaded, GuestSend);
        assert [call, GuestLoad] + [GuestSend] == [call, GuestLoad, GuestSend];
      }
    }
  }

  lemma SentInv(s: State, i: Intent)
    requires Inv(s) && AtRest(s) && InRange(i)
    ensures Inv(Sent(s, i))
  {}

  /** The turn is a run of the machine. */
  lemma TurnRuns(s: State, t: Turn)
    requires Inv(s) && AtRest(s)
    ensures RunTo(s, TurnActions(s, t)) == Some(FirmwareTurn(s, t))
  {
    match t
    case Drive(left, right) =>
      CallRuns(s, left, right);
      if SpeedAccepted(left, right) && s.enabled {
        var sent := Sent(s, IntentOf(left, right));
        AcceptedSpeeds(left);
        AcceptedSpeeds(right);
        SentInv(s, IntentOf(left, right));
        ThenRun(s, [GuestCall(left, right), GuestLoad, GuestSend], sent, RouterActions(sent));
        RouterRuns(sent);
      }
    case Millisecond =>
      OneStep(s, Clock);
      StepKeepsInv(s, Clock);
      if Due(Later(s)) {
        ThenRun(s, [Clock], Later(s), RouterActions(Later(s)));
        RouterRuns(Later(s));
      } else {
        assert [Clock] + [] == [Clock];
      }
    case Switch(mode) => OneStep(s, SetMode(mode));
  }

  /** The double's part: the check comes with every millisecond. */
  function MockTurn(m: MotorFields, t: Turn): MotorFields {
    match t
    case Drive(left, right) => SetSpeed(m, left, right)
    case Millisecond => Check(m.(uptimeMs := m.uptimeMs + 1), m.uptimeMs + 1)
    case Switch(mode) => m.(mode := mode)
  }

  /** The milliseconds since the double's last accepted call. */
  function Gap(m: MotorFields): int { m.uptimeMs - m.lastIntentMs }

  /** The two have had the same turns. */
  ghost predicate Paired(s: State, m: MotorFields) {
    && AtRest(s) && s.enabled && m.enabled && s.mode == m.mode && s.clock.at == m.uptimeMs
    && s.waitStart <= s.clock.at < s.waitStart + DEAD_MANS_SWITCH_MS && Gap(m) >= 0
    && (Gap(m) < DEAD_MANS_SWITCH_MS ==> s.waitStart == m.lastIntentMs)
    && (Gap(m) >= DEAD_MANS_SWITCH_MS ==> s.command == 0)
    && (Gap(m) > DEAD_MANS_SWITCH_MS ==> Stopped(m))
  }

  /** The double's speeds are the firmware's command. */
  predicate SameSpeeds(s: State, m: MotorFields) {
    Unpack(s.command).0 == m.left && Unpack(s.command).1 == m.right
  }

  lemma StoppedSpeeds(s: State, m: MotorFields)
    requires s.command == 0
    ensures SameSpeeds(s, m) <==> Stopped(m)
  {}

  lemma DrivenSpeeds(left: i32, right: i32)
    requires SpeedAccepted(left, right)
    ensures Unpack(PackIntent(IntentOf(left, right))) == (IntentOf(left, right).left, IntentOf(left, right).right)
    ensures IntentOf(left, right).left == left && IntentOf(left, right).right == right
      <==> !IsMinimum(left) && !IsMinimum(right)
  {
    AcceptedSpeeds(left);
    AcceptedSpeeds(right);
    PackRoundTrip(TruncI16(left), TruncI16(right));
  }

  lemma DriveKeepsPaired(s: State, m: MotorFields, left: i32, right: i32)
    requires Paired(s, m)
    ensures Paired(FirmwareTurn(s, Drive(left, right)), MockTurn(m, Drive(left, right)))
  {}

  /** What a millisecond does to a firmware whose router is never late. */
  ghost predicate Elapsed(s: State, r: State) {
    && AtRest(r) && r.enabled == s.enabled && r.mode == s.mode && r.clock.at == s.clock.at + 1
    && (r.clock.at < s.waitStart + DEAD_MANS_SWITCH_MS ==> r.command == s.command && r.waitStart == s.waitStart)
    && (r.clock.at >= s.waitStart + DEAD_MANS_SWITCH_MS ==> r.command == 0 && r.waitStart == r.clock.at)
  }

  lemma MillisecondElapses(s: State, t: Turn)
    requires AtRest(s) && s.enabled && t.Millisecond?
    ensures Elapsed(s, FirmwareTurn(s, t))
  {
    var later := Later(s);
    assert later.clock.at == s.clock.at + 1 && later.waitStart == s.waitStart;
    if Due(later) {
      TimeoutResult(later);
    }
  }

  lemma ElapsedKeepsPaired(s: State, m: MotorFields, r: State, t: Turn)
    requires Paired(s, m) && Elapsed(s, r) && t.Millisecond?
    ensures Paired(r, MockTurn(m, t))
  {}

  lemma TurnKeepsPaired(s: State, m: MotorFields, t: Turn)
    requires Paired(s, m)
    ensures Paired(FirmwareTurn(s, t), MockTurn(m, t))
  {
    match t
    case Drive(left, right) => DriveKeepsPaired(s, m, left, right);
    case Millisecond =>
      MillisecondElapses(s, t);
      ElapsedKeepsPaired(s, m, FirmwareTurn(s, t), t);
    case Switch(_) =>
  }

  lemma TimeoutResult(s: State)
    requires Sound(s) && s.queue == [] && s.enabled
    ensures RouterResult(s).command == 0 && RouterResult(s).waitStart == s.clock.at
    ensures RouterResult(s).enabled && RouterResult(s).mode == s.mode && RouterResult(s).clock == s.clock
  {}

  /**
   * The turns after which the two differ: a SingleBoard call with an i32::MIN, which the double records as it
   * is; and the fiftieth millisecond without a call, at which only the firmware stops.
   */
  predicate Differs(m: MotorFields, t: Turn) {
    match t
    case Drive(left, right) => Writes(m, Set(left, right)) && (IsMinimum(left) || IsMinimum(right))
    case Millisecond => Gap(m) + 1 == DEAD_MANS_SWITCH_MS && !(m.left == 0 && m.right == 0)
    case Switch(_) => false
  }

  lemma DriveAgreement(s: State, m: MotorFields, t: Turn)
    requires Paired(s, m) && SameSpeeds(s, m) && t.Drive?
    ensures SameSpeeds(FirmwareTurn(s, t), MockTurn(m, t)) <==> !Differs(m, t)
  {
    if SpeedAccepted(t.left, t.right) {
      DrivenSpeeds(t.left, t.right);
    }
  }

  lemma ElapsedAgreement(s: State, m: MotorFields, r: State, t: Turn)
    requires Paired(s, m) && SameSpeeds(s, m) && Elapsed(s, r) && t.Millisecond?
    ensures SameSpeeds(r, MockTurn(m, t)) <==> !Differs(m, t)
  {
    ElapsedKeepsPaired(s, m, r, t);
    if Gap(m) + 1 >= DEAD_MANS_SWITCH_MS {
      StoppedSpeeds(r, MockTurn(m, t));
    }
  }

  lemma TurnAgreement(s: State, m: MotorFields, t: Turn)
    requires Paired(s, m) && SameSpeeds(s, m)
    ensures SameSpeeds(FirmwareTurn(s, t), MockTurn(m, t)) <==> !Differs(m, t)
  {
    match t
    case Drive(_, _) => DriveAgreement(s, m, t);
    case Millisecond =>
      MillisecondElapses(s, t);
      ElapsedAgreement(s, m, FirmwareTurn(s, t), t);
    case Switch(_) =>
  }

  /** However they came to differ: an accepted SingleBoard call with no i32::MIN, or the next check past 50 ms. */
  lemma TurnResynchronises(s: State, m: MotorFields, t: Turn)
    requires Paired(s, m)
    ensures t.Drive? && Writes(m, Set(t.left, t.right)) ==>
      (SameSpeeds(FirmwareTurn(s, t), MockTurn(m, t)) <==> !IsMinimum(t.left) && !IsMinimum(t.right))
    ensures t.Millisecond? && Gap(m) >= DEAD_MANS_SWITCH_MS ==> SameSpeeds(FirmwareTurn(s, t), MockTurn(m, t))
  {
    if t.Drive? && SpeedAccepted(t.left, t.right) {
      DrivenSpeeds(t.left, t.right);
    } else if t.Millisecond? && Gap(m) >= DEAD_MANS_SWITCH_MS {
      TurnKeepsPaired(s, m, t);
      StoppedSpeeds(FirmwareTurn(s, t), MockTurn(m, t));
    }
  }

  function FirmwareAfter(s: State, ts: seq<Turn>, n: nat): (r: State)
    requires AtRest(s) && n <= |ts|
    ensures AtRest(r)
  {
    if n == 0 then s else FirmwareTurn(FirmwareAfter(s, ts, n - 1), ts[n - 1])
  }

  function MockAfter(m: MotorFields, ts: seq<Turn>, n: nat): MotorFields
    requires n <= |ts|
  {
    if n == 0 then m else MockTurn(MockAfter(m, ts, n - 1), ts[n - 1])
  }

  lemma TurnKeepsInv(s: State, t: Turn)
    requires Inv(s) && AtRest(s)
    ensures Inv(FirmwareTurn(s, t))
  {
    TurnRuns(s, t);
    RunToKeepsInv(s, TurnActions(s, t), FirmwareTurn(s, t));
  }

  function AllActions(s: State, ts: seq<Turn>, n: nat): seq<Action>
    requires AtRest(s) && n <= |ts|
  {
    if n == 0 then [] else AllActions(s, ts, n - 1) + TurnActions(FirmwareAfter(s, ts, n - 1), ts[n - 1])
  }

  lemma OneTurnOn(s: State, done: seq<Action>, before: State, t: Turn, acts: seq<Action>, after: State)
    requires Reaches(s, done, before) && Inv(before) && AtRest(before)
    requires acts == done + TurnActions(before, t) && after == FirmwareTurn(before, t)
    ensures Reaches(s, acts, after) && Inv(after)
  {
    TurnKeepsInv(before, t);
    TurnRuns(before, t);
    ThenRun(s, done, before, TurnActions(before, t));
  }

  ghost predicate Reaches(s: State, acts: seq<Action>, t: State) { RunTo(s, acts) == Some(t) }

  lemma ActionsOfOneMore(s: State, ts: seq<Turn>, n: nat)
    requires AtRest(s) && 0 < n <= |ts|
    ensures AllActions(s, ts, n) == AllActions(s, ts, n - 1) + TurnActions(FirmwareAfter(s, ts, n - 1), ts[n - 1])
    ensures FirmwareAfter(s, ts, n) == FirmwareTurn(FirmwareAfter(s, ts, n - 1), ts[n - 1])
  {}

  lemma NoTurns(s: State, acts: seq<Action>, t: State)
    requires Inv(s) && acts == [] && t == s
    ensures Reaches(s, acts, t) && Inv(t)
  {}

  lemma {:induction false} TurnsRun(s: State, ts: seq<Turn>, n: nat, acts: seq<Action>, t: State)
    requires Inv(s) && AtRest(s) && n <= |ts| && acts == AllActions(s, ts, n) && t == FirmwareAfter(s, ts, n)
    ensures Reaches(s, acts, t) && Inv(t)
    decreases n
  {
    if n > 0 {
      var before, done := FirmwareAfter(s, ts, n - 1), AllActions(s, ts, n - 1);
      TurnsRun(s, ts, n - 1, done, before);
      ActionsOfOneMore(s, ts, n);
      OneTurnOn(s, done, before, ts[n - 1], acts, t);
    } else {
      NoTurns(s, acts, t);
    }
  }

  /** The firmware's side of any number of turns is one run of atomic steps. */
  lemma TurnsAreOneRun(s: State, ts: seq<Turn>, n: nat) returns (ss: seq<State>)
    requires Inv(s) && AtRest(s) && n <= |ts|
    ensures IsRun(ss, AllActions(s, ts, n)) && ss[0] == s && ss[|ss| - 1] == FirmwareAfter(s, ts, n)
  {
    TurnsRun(s, ts, n, AllActions(s, ts, n), FirmwareAfter(s, ts, n));
    ss := RunToIsRun(s, AllActions(s, ts, n), FirmwareAfter(s, ts, n));
  }

  lemma InitialAtRest(s: State)
    requires Initial(s)
    ensures AtRest(s) && s.enabled && s.mode == SingleBoard && s.command == 0 && s.waitStart == s.clock.at
  {}

  lemma PairedAtStart(s: State, m: MotorFields)
    requires AtRest(s) && s.enabled && s.mode == m.mode && s.command == 0 && s.waitStart == s.clock.at
    requires m.enabled && m.uptimeMs == s.clock.at && m.lastIntentMs == s.clock.at && Stopped(m)
    ensures InStep(s, m)
  {
    StoppedSpeeds(s, m);
  }

  lemma BootPaired(s: State)
    requires Initial(s) && s.clock.at == 0
    ensures InStep(s, NewMotors())
  {
    InitialAtRest(s);
    PairedAtStart(s, NewMotors());
  }

  ghost predicate InStep(s: State, m: MotorFields) { Paired(s, m) && SameSpeeds(s, m) }

  lemma StepsTogether(s: State, m: MotorFields, t: Turn)
    requires InStep(s, m)
    ensures InStep(FirmwareTurn(s, t), MockTurn(m, t)) <==> !Differs(m, t)
  {
    TurnKeepsPaired(s, m, t);
    TurnAgreement(s, m, t);
  }

  ghost predicate InStepAfter(s: State, m: MotorFields, ts: seq<Turn>, n: nat)
    requires AtRest(s) && n <= |ts|
  {
    InStep(FirmwareAfter(s, ts, n), MockAfter(m, ts, n))
  }

  ghost predicate DiffersAt(m: MotorFields, ts: seq<Turn>, n: nat)
    requires n < |ts|
  {
    Differs(MockAfter(m, ts, n), ts[n])
  }

  /** In every run both have the same speeds after every turn up to the first that makes them differ, not after it. */
  lemma {:induction false} Lockstep(s: State, m: MotorFields, ts: seq<Turn>, n: nat)
    requires AtRest(s) && InStep(s, m) && n <= |ts|
    requires forall k :: 0 <= k < n ==> !DiffersAt(m, ts, k)
    ensures InStepAfter(s, m, ts, n)
    ensures n < |ts| ==> (InStepAfter(s, m, ts, n + 1) <==> !DiffersAt(m, ts, n))
  {
    if n > 0 {
      Lockstep(s, m, ts, n - 1);
      assert !DiffersAt(m, ts, n - 1);
    }
    if n < |ts| {
      StepsTogether(FirmwareAfter(s, ts, n), MockAfter(m, ts, n), ts[n]);
    }
  }
}
