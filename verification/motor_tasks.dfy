/**
 * The motor tasks as the firmware writes them: the guest call (core0/abi.rs), one turn of the router's loop
 * (router.rs), and one Core 1 tick (core1/mod.rs). Each is proved to be its steps of `MotorPath`, run
 * without interruption, so that what is proved there of every interleaving holds of these bodies.
 */
module MotorTasks {
  import opened Wrappers
  import opened AbiStatus
  import opened Bytes
  import opened Motors
  import opened MotorPath
  import opened EspNow
  import Pid = PidControl

  /** The state after the steps, if each can be taken. */
  function RunTo(s: State, acts: seq<Action>): Option<State>
    decreases |acts|
  {
    if acts == [] then Some(s)
    else if Can(s, acts[0]) && Sound(s) then RunTo(Next(s, acts[0]), acts[1..])
    else None
  }

  lemma OneStep(s: State, a: Action)
    requires Can(s, a) && Sound(s)
    ensures RunTo(s, [a]) == Some(Next(s, a))
  {}

  lemma {:induction false} ThenStep(s: State, acts: seq<Action>, t: State, a: Action)
    requires RunTo(s, acts) == Some(t) && Can(t, a) && Sound(t)
    ensures RunTo(s, acts + [a]) == Some(Next(t, a))
    decreases |acts|
  {
    if acts == [] {
      assert acts + [a] == [a];
      OneStep(s, a);
    } else {
      assert (acts + [a])[1..] == acts[1..] + [a];
      ThenStep(Next(s, acts[0]), acts[1..], t, a);
    }
  }

  lemma ShiftedStep(s: State, a: Action, rest: seq<State>, acts: seq<Action>, i: nat)
    requires |rest| == |acts| + 1 && i < |acts| && StepAt(rest, acts, i)
    ensures StepAt([s] + rest, [a] + acts, i + 1)
  {
    var ss, all := [s] + rest, [a] + acts;
    assert ss[i + 1] == rest[i] && ss[i + 2] == rest[i + 1] && all[i + 1] == acts[i];
  }

  lemma FirstStep(ss: seq<State>, acts: seq<Action>)
    requires |ss| == |acts| + 1 > 1 && Follows(ss[0], acts[0], ss[1])
    ensures StepAt(ss, acts, 0)
  {}

  lemma RunFromHere(s: State, a: Action, rest: seq<State>, acts: seq<Action>)
    requires Inv(s) && IsRun(rest, acts) && Follows(s, a, rest[0])
    ensures IsRun([s] + rest, [a] + acts)
  {
    var ss, all := [s] + rest, [a] + acts;
    assert ss[0] == s && ss[1] == rest[0] && all[0] == a;
    forall i | 0 <= i < |all|
      ensures StepAt(ss, all, i)
    {
      if i > 0 {
        ShiftedStep(s, a, rest, acts, i - 1);
      } else {
        FirstStep(ss, all);
      }
    }
  }

  /** Such steps are a run in the sense of `MotorPath`: what is proved there of every run holds of them. */
  lemma {:induction false} RunToIsRun(s: State, acts: seq<Action>, t: State) returns (ss: seq<State>)
    requires Inv(s) && RunTo(s, acts) == Some(t)
    ensures IsRun(ss, acts) && ss[0] == s && ss[|acts|] == t
    decreases |acts|
  {
    if acts == [] {
      ss := [s];
    } else {
      StepKeepsInv(s, acts[0]);
      var rest := RunToIsRun(Next(s, acts[0]), acts[1..], t);
      RunFromHere(s, acts[0], rest, acts[1..]);
      ss := [s] + rest;
      assert [acts[0]] + acts[1..] == acts;
    }
  }

  lemma RunToKeepsInv(s: State, acts: seq<Action>, t: State)
    requires Inv(s) && RunTo(s, acts) == Some(t)
    ensures Inv(t)
  {
    var ss := RunToIsRun(s, acts, t);
    RunKeepsInv(ss, acts, |acts|);
  }

  // ── Uninterrupted turns ───────────────────────────────────────────────────

  /** Nobody is in the middle of anything. */
  predicate Resting(s: State) { s.guest == GuestIdle && s.router == Waiting && s.core == TickStart }

  /** What a turn of the router's loop does from where it waits. */
  function RouterActions(s: State): seq<Action> {
    if s.queue == [] then
      if s.enabled then [RouterTimeout, RouterCheck, RouterStore] else [RouterTimeout, RouterCheck]
    else if s.mode == Distributed then [RouterReceive, RouterMode]
    else if s.enabled then [RouterReceive, RouterMode, RouterCheck, RouterStore]
    else [RouterReceive, RouterMode, RouterCheck]
  }

  /** And where it leaves the state. */
  function RouterResult(s: State): State
    requires Sound(s)
  {
    var stored := if s.queue == [] then 0 else PackIntent(s.queue[0]);
    var stores := s.enabled && (s.queue == [] || s.mode == SingleBoard);
    var t := if s.queue == [] then s else Dequeued(s);
    t.(waitStart := s.clock.at, command := if stores then stored else s.command)
  }

  /** What the check and the store of `i` make of a state. */
  function Stored(s: State, i: Intent): State {
    s.(router := Waiting, waitStart := s.clock.at, command := if s.enabled then PackIntent(i) else s.command)
  }

  function StoreActions(enabled: bool): seq<Action> {
    if enabled then [RouterCheck, RouterStore] else [RouterCheck]
  }

  lemma CheckAndStore(s: State, acts: seq<Action>, t: State, i: Intent)
    requires RunTo(s, acts) == Some(t) && Sound(t) && t.router == CheckEnabled(i)
    ensures RunTo(s, acts + StoreActions(t.enabled)) == Some(Stored(t, i))
  {
    ThenStep(s, acts, t, RouterCheck);
    if t.enabled {
      var checked := Next(t, RouterCheck);
      ThenStep(s, acts + [RouterCheck], checked, RouterStore);
      assert acts + [RouterCheck] + [RouterStore] == acts + [RouterCheck, RouterStore];
    }
  }

  lemma TimeoutRuns(s: State)
    requires Sound(s) && Resting(s) && s.queue == [] && s.clock.at >= s.waitStart + DEAD_MANS_SWITCH_MS
    ensures RunTo(s, RouterActions(s)) == Some(RouterResult(s))
  {
    OneStep(s, RouterTimeout);
    CheckAndStore(s, [RouterTimeout], Next(s, RouterTimeout), Intent(0, 0));
    assert [RouterTimeout] + StoreActions(s.enabled) == RouterActions(s);
  }

  /** The front of the queue taken, and its mode looked up. */
  function Dequeued(s: State): State
    requires Sound(s) && s.queue != []
  {
    s.(queue := s.queue[1..], routed := s.routed + [s.queue[0]], stamps := s.stamps[1..],
       here := if s.mode == SingleBoard then |s.routed| + 1 else s.here,
       published := s.stamps[0], received := s.clock)
  }

  lemma IntentTaken(s: State)
    requires Sound(s) && Resting(s) && s.queue != []
    ensures RunTo(s, [RouterReceive, RouterMode]) ==
      Some(if s.mode == SingleBoard then Dequeued(s).(router := CheckEnabled(s.queue[0]))
           else Dequeued(s).(waitStart := s.clock.at))
  {
    OneStep(s, RouterReceive);
    ThenStep(s, [RouterReceive], Next(s, RouterReceive), RouterMode);
    assert [RouterReceive] + [RouterMode] == [RouterReceive, RouterMode];
  }

  lemma IntentRuns(s: State)
    requires Sound(s) && Resting(s) && s.queue != []
    ensures RunTo(s, RouterActions(s)) == Some(RouterResult(s))
  {
    IntentTaken(s);
    if s.mode == SingleBoard {
      var first := [RouterReceive, RouterMode];
      CheckAndStore(s, first, Dequeued(s).(router := CheckEnabled(s.queue[0])), s.queue[0]);
      assert first + StoreActions(s.enabled) == RouterActions(s);
    }
  }

  lemma RouterRuns(s: State)
    requires Inv(s) && Resting(s) && (s.queue != [] || s.clock.at >= s.waitStart + DEAD_MANS_SWITCH_MS)
    ensures RunTo(s, RouterActions(s)) == Some(RouterResult(s))
  {
    if s.queue == [] {
      TimeoutRuns(s);
    } else {
      IntentRuns(s);
    }
  }

  function TickActions(s: State, critical: bool, pitch: i32): seq<Action> {
    if critical then [CoreBegin(true, pitch), CoreZero, CoreCheck]
    else if s.enabled then [CoreBegin(false, pitch), CoreCheck, CoreLoad]
    else [CoreBegin(false, pitch), CoreCheck]
  }

  function TickResult(s: State, critical: bool, pitch: i32): State
    requires Pid.Usable(s.pid)
  {
    if critical then s.(enabled := false, command := 0, pid := Pid.Fresh(s.pid))
    else if s.enabled then s.(pid := Pid.Updated(s.pid, PitchError(pitch), DT))
    else s
  }

  lemma CriticalTickRuns(s: State, pitch: i32)
    requires Sound(s) && Resting(s)
    ensures RunTo(s, TickActions(s, true, pitch)) == Some(TickResult(s, true, pitch))
  {
    var begin := CoreBegin(true, pitch);
    var acts, t := [begin], Next(s, begin);
    OneStep(s, begin);
    ThenStep(s, acts, t, CoreZero);
    acts, t := acts + [CoreZero], Next(t, CoreZero);
    ThenStep(s, acts, t, CoreCheck);
    acts, t := acts + [CoreCheck], Next(t, CoreCheck);
    assert acts == TickActions(s, true, pitch) && t == TickResult(s, true, pitch);
  }

  lemma OrdinaryTickRuns(s: State, pitch: i32)
    requires Sound(s) && Resting(s)
    ensures RunTo(s, TickActions(s, false, pitch)) == Some(TickResult(s, false, pitch))
  {
    var begin := CoreBegin(false, pitch);
    var acts, t := [begin], Next(s, begin);
    OneStep(s, begin);
    ThenStep(s, acts, t, CoreCheck);
    acts, t := acts + [CoreCheck], Next(t, CoreCheck);
    if s.enabled {
      ThenStep(s, acts, t, CoreLoad);
      acts, t := acts + [CoreLoad], Next(t, CoreLoad);
    }
    assert acts == TickActions(s, false, pitch) && t == TickResult(s, false, pitch);
  }

  lemma TickRuns(s: State, critical: bool, pitch: i32)
    requires Inv(s) && Resting(s)
    ensures RunTo(s, TickActions(s, critical, pitch)) == Some(TickResult(s, critical, pitch))
  {
    if critical {
      CriticalTickRuns(s, pitch);
    } else {
      OrdinaryTickRuns(s, pitch);
    }
  }

  /** The duty cycles of a tick: the blend of PID output and command, or zero when disabled. */
  function TickDuties(s: State, critical: bool, pitch: i32): (i16, i16)
    requires Pid.Usable(s.pid)
  {
    if critical || !s.enabled then (0, 0)
    else Duties(TruncateToInt(Pid.Output(s.pid, PitchError(pitch), DT)), s.command)
  }

  /** They are the output of the machine's last step. */
  lemma DutiesAreTickOutput(s: State, critical: bool, pitch: i32, t: State)
    requires Inv(s) && Resting(s)
    requires t == Next(s, CoreBegin(critical, pitch))
    ensures Pid.Usable(t.pid)
    ensures critical ==>
      && Can(t, CoreZero)
      && TickOutput(Next(t, CoreZero), CoreCheck) == Some(TickDuties(s, critical, pitch))
    ensures !critical && !s.enabled ==>
      && Can(t, CoreCheck)
      && TickOutput(t, CoreCheck) == Some(TickDuties(s, critical, pitch))
    ensures !critical && s.enabled ==>
      && Can(t, CoreCheck) && Can(Next(t, CoreCheck), CoreLoad)
      && TickOutput(Next(t, CoreCheck), CoreLoad) == Some(TickDuties(s, critical, pitch))
  {}

  class MotorTasks {
    const bridge: MotorBridge
    const pid: Pid.PidController
    var mode: RoutingMode
    var queue: seq<Intent>
    // The clock, and the history the steps record.
    var waitStart: nat
    var clock: Moment
    ghost var accepted: seq<Intent>
    ghost var routed: seq<Intent>
    ghost var here: nat
    ghost var stamps: seq<Moment>
    ghost var published: Moment
    ghost var received: Moment

    /** The state of the machine between calls: nobody in the middle of anything. */
    ghost function Value(): State
      reads this, bridge, pid
    {
      State(bridge.command, bridge.enabled, mode, queue, GuestIdle, Waiting, waitStart, clock,
            TickStart, pid.Value(), accepted, routed, here, stamps, published, received)
    }

    constructor ()
      ensures Initial(Value()) && fresh(bridge) && fresh(pid)
    {
      bridge := new MotorBridge();
      pid := new Pid.PidController(10.0, 0.5, 0.1, -255.0, 255.0);
      mode, queue, waitStart, clock := SingleBoard, [], 0, Moment(0, 0);
      accepted, routed, here := [], [], 0;
      stamps, published, received := [], Moment(0, 0), Moment(0, 0);
    }

    /** `AbiHost::set_motor_speed`. */
    method SetMotorSpeed(left: i32, right: i32) returns (status: i32)
      requires Inv(Value())
      modifies this
      ensures status == ERR_INVALID_ARG <==>
        !((-255 <= left <= 255 || left == -0x8000_0000) && (-255 <= right <= 255 || right == -0x8000_0000))
      ensures status == OK <==>
        SpeedAccepted(left, right) && bridge.enabled && |old(queue)| < 8
      ensures queue == old(queue) + if status == OK then [Intent(AskedSpeed(left), AskedSpeed(right))] else []
      ensures status == OK || status == ERR_INVALID_ARG || status == ERR_BUSY
      ensures RunTo(old(Value()),
        [GuestCall(left, right)] + if !SpeedAccepted(left, right) then []
                                   else if bridge.enabled then [GuestLoad, GuestSend] else [GuestLoad]) == Some(Value())
    {
      ghost var s := Value();
      AcceptedExactly(left, right);
      AcceptedSpeeds(left);
      AcceptedSpeeds(right);
      OneStep(s, GuestCall(left, right));
      if WrappingAbs(left) > MAX_MOTOR_SPEED || WrappingAbs(right) > MAX_MOTOR_SPEED {
        return ERR_INVALID_ARG;
      }
      ghost var called := Next(s, GuestCall(left, right));
      ThenStep(s, [GuestCall(left, right)], called, GuestLoad);
      assert [GuestCall(left, right)] + [GuestLoad] == [GuestCall(left, right), GuestLoad];
      if !bridge.enabled {
        return ERR_BUSY;
      }
      ThenStep(s, [GuestCall(left, right), GuestLoad], Next(called, GuestLoad), GuestSend);
      assert [GuestCall(left, right), GuestLoad] + [GuestSend] == [GuestCall(left, right)] + [GuestLoad, GuestSend];
      var intent := IntentOf(left, right);
      if |queue| < INTENT_QUEUE_DEPTH {
        queue := queue + [intent];
        accepted, stamps := accepted + [intent], stamps + [clock];
        status := OK;
      } else {
        status := ERR_BUSY;
      }
    }

    /**
     * One turn of `router_task`'s loop: an intent is there, or the timer has run out. Whether the fallback
     * inference runs depends on the time of the last valid frame.
     */
    method RouterTurn(lastRxMs: u64) returns (fallback: bool)
      requires Inv(Value()) && (queue != [] || clock.at >= waitStart + DEAD_MANS_SWITCH_MS)
      modifies this, bridge
      ensures Value() == RouterResult(old(Value()))
      ensures RunTo(old(Value()), RouterActions(old(Value()))) == Some(Value())
      ensures fallback == (old(queue) == [] && !LinkAliveAt(lastRxMs, clock.at))
    {
      ghost var s := Value();
      fallback := false;
      if queue != [] {
        TakeIntent();
      } else {
        fallback := HandleTimeout(lastRxMs);
      }
      waitStart := clock.at;
      assert Value() == RouterResult(s);
      RouterRuns(s);
    }

    /** The arm of a received intent. */
    method TakeIntent()
      requires Sound(Value()) && queue != []
      modifies this, bridge
      ensures Value() == RouterResult(old(Value())).(waitStart := old(waitStart))
    {
      var intent := queue[0];
      queue := queue[1..];
      routed, here := routed + [intent], if mode == SingleBoard then |routed| + 1 else here;
      stamps, published, received := stamps[1..], stamps[0], clock;
      RouteIntent(intent);
    }

    /** The arm of a timeout. */
    method HandleTimeout(lastRxMs: u64) returns (fallback: bool)
      modifies bridge
      ensures bridge.enabled == old(bridge.enabled)
      ensures bridge.command == if bridge.enabled then 0 else old(bridge.command)
      ensures fallback == !LinkAliveAt(lastRxMs, clock.at)
    {
      var _ := bridge.StoreMotorCommand(0, 0);
      fallback := !LinkAliveAt(lastRxMs, clock.at);
    }

    method RouteIntent(intent: Intent)
      modifies bridge
      ensures bridge.enabled == old(bridge.enabled)
      ensures bridge.command ==
        if mode == SingleBoard && old(bridge.enabled) then PackIntent(intent) else old(bridge.command)
    {
      match mode {
        case SingleBoard => var _ := bridge.StoreMotorCommand(intent.left, intent.right);
        case Distributed =>
      }
    }

    /** One tick of `realtime_task`, up to its telemetry: the duty cycles for a voltage flag and a pitch. */
    method Tick(critical: bool, pitch: i32) returns (left: i16, right: i16)
      requires Inv(Value())
      modifies bridge, pid
      ensures Value() == TickResult(old(Value()), critical, pitch)
      ensures RunTo(old(Value()), TickActions(old(Value()), critical, pitch)) == Some(Value())
      ensures (left, right) == TickDuties(old(Value()), critical, pitch)
    {
      TickRuns(Value(), critical, pitch);
      if critical {
        bridge.SetMotorEnabled(false);
        pid.Reset();
      }
      if bridge.enabled {
        var pitchDeg := (pitch as real) / 1000.0;
        var output := pid.Update(0.0, pitchDeg, DT);
        var balance := TruncateToInt(output);
        var cmdLeft, cmdRight := bridge.LoadMotorCommand();
        left := ClampI16(SaturatingAddI32(balance, cmdLeft));
        right := ClampI16(SaturatingAddI32(balance, cmdRight));
      } else {
        left, right := 0, 0;
      }
    }
  }
}
