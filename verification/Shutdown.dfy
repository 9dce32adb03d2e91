/** Result emission in the guest's init: the workspace command's result races with the
    power-off result, and both pass through one coordinator lock.

    Emitters are calls of emitCommandResult; the power handler is the one goroutine that
    runs handlePowerSignal. Steps inside the lock are separate, so a message is really
    sent between taking the lock and releasing it. A send on port zero does nothing, and
    any other send may be lost. */
module Shutdown {

  datatype Message = Message(powerOff: bool, afterStop: bool)

  /** One emitCommandResult call; `afterStop` says its workload exited after being told to stop. */
  datatype Emission = Asked(afterStop: bool) | Locked(afterStop: bool) | Sending(afterStop: bool) | Done(sent: bool)

  datatype Handler = Idle | Loaded(port: nat) | Holding(port: nat) | Flagged(port: nat) | Sent | Signalled | Halted

  datatype Workload = NotStarted | Started | Tracked | Exited(afterStop: bool)

  datatype Holder = Nobody | Emitter(e: nat) | PowerHandler

  datatype State = State(
    lock: Holder,
    poweringOff: bool,
    resultPort: nat,
    emissions: map<nat, Emission>,
    handler: Handler,
    workload: Workload,
    stopped: bool,        // the stop signal reached the tracked workload
    received: seq<Message>)

  const INITIAL: State := State(Nobody, false, 0, map[], Idle, NotStarted, false, [])

  datatype Step =
    | StorePort(port: nat)
    | StartWorkload | TrackWorkload | ExitWorkload | RestartWorkload
    | Ask(e: nat, workloadExit: bool) | Lock(e: nat) | Check(e: nat) | Send(e: nat, port: nat, delivered: bool)
    | PowerSignal | HandlerLock | HandlerFlag | HandlerSend(delivered: bool) | SignalWorkload | Halt

  predicate Enabled(s: State, a: Step) {
    && s.handler != Halted
    && match a
       case StorePort(_) => true
       case StartWorkload => s.workload == NotStarted
       case TrackWorkload => s.workload == Started
       case ExitWorkload => s.workload.Started? || s.workload.Tracked?
       case RestartWorkload => s.workload.Exited?
       case Ask(e, workloadExit) => e !in s.emissions && (workloadExit ==> s.workload.Exited?)
       case Lock(e) => s.lock == Nobody && e in s.emissions && s.emissions[e].Asked?
       case Check(e) => e in s.emissions && s.emissions[e].Locked?
       case Send(e, _, _) => e in s.emissions && s.emissions[e].Sending?
       case PowerSignal => s.handler == Idle
       case HandlerLock => s.handler.Loaded? && s.lock == Nobody
       case HandlerFlag => s.handler.Holding?
       case HandlerSend(_) => s.handler.Flagged?
       case SignalWorkload => s.handler == Sent
       case Halt => s.handler == Signalled
  }

  /** What sendResult does: nothing on port zero, and otherwise a message that may be lost. */
  function Deliver(received: seq<Message>, port: nat, m: Message, delivered: bool): seq<Message> {
    if port != 0 && delivered then received + [m] else received
  }

  function Apply(s: State, a: Step): State
    requires Enabled(s, a)
  {
    match a
    case StorePort(port) => s.(resultPort := port)
    case StartWorkload => s.(workload := Started)
    case TrackWorkload => s.(workload := Tracked)
    case ExitWorkload => s.(workload := Exited(s.stopped))
    case RestartWorkload => s.(workload := NotStarted, stopped := false)
    case Ask(e, workloadExit) =>
      s.(emissions := s.emissions[e := Asked(workloadExit && s.workload.afterStop)])
    case Lock(e) => s.(lock := Emitter(e), emissions := s.emissions[e := Locked(s.emissions[e].afterStop)])
    case Check(e) =>
      if s.poweringOff then s.(lock := Nobody, emissions := s.emissions[e := Done(false)])
      else s.(emissions := s.emissions[e := Sending(s.emissions[e].afterStop)])
    case Send(e, port, delivered) =>
      s.(lock := Nobody, emissions := s.emissions[e := Done(true)],
         received := Deliver(s.received, port, Message(false, s.emissions[e].afterStop), delivered))
    case PowerSignal => s.(handler := Loaded(s.resultPort))
    case HandlerLock => s.(lock := PowerHandler, handler := Holding(s.handler.port))
    case HandlerFlag => s.(poweringOff := true, handler := Flagged(s.handler.port))
    case HandlerSend(delivered) =>
      s.(lock := Nobody, handler := Sent,
         received := Deliver(s.received, s.handler.port, Message(true, false), delivered))
    case SignalWorkload => s.(handler := Signalled, stopped := s.workload.Tracked?)
    case Halt => s.(handler := Halted)
  }

  predicate IsRun(s: State, run: seq<Step>)
    decreases |run|
  {
    run == [] || (Enabled(s, run[0]) && IsRun(Apply(s, run[0]), run[1..]))
  }

  function After(s: State, run: seq<Step>): State
    requires IsRun(s, run)
    decreases |run|
  {
    if run == [] then s else After(Apply(s, run[0]), run[1..])
  }

  // ---- The invariant ------------------------------------------------------

  predicate Inside(x: Emission) { x.Locked? || x.Sending? }

  predicate PastFlag(h: Handler) { h.Flagged? || h.Sent? || h.Signalled? || h.Halted? }

  predicate PastSend(h: Handler) { h.Sent? || h.Signalled? || h.Halted? }

  ghost predicate Inv(s: State) {
    // the lock is held by whoever is inside, and by nobody else
    && (forall e :: e in s.emissions && Inside(s.emissions[e]) ==> s.lock == Emitter(e))
    && ((s.handler.Holding? || s.handler.Flagged?) ==> s.lock == PowerHandler)
    && (s.lock == PowerHandler ==> s.handler.Holding? || s.handler.Flagged?)
    // the flag is set exactly from the handler's flag step on, and then nobody is sending
    && (s.poweringOff <==> PastFlag(s.handler))
    && (s.poweringOff ==> forall e :: e in s.emissions ==> !s.emissions[e].Sending?)
    // nothing exits after a stop that has not been sent, and stopping comes after the flag
    && (s.stopped ==> s.poweringOff)
    && (s.workload.Exited? && s.workload.afterStop ==> s.poweringOff)
    && (forall e :: e in s.emissions && !s.emissions[e].Done? && s.emissions[e].afterStop ==> s.poweringOff)
    // what the host has: power-off only last, and nothing from a stopped workload
    && (forall i :: 0 <= i < |s.received| && s.received[i].powerOff ==> i == |s.received| - 1 && PastSend(s.handler))
    && (forall i :: 0 <= i < |s.received| ==> !s.received[i].afterStop)
  }

  lemma {:induction false} StepPreserves(s: State, a: Step)
    requires Inv(s) && Enabled(s, a)
    ensures Inv(Apply(s, a))
    ensures PastSend(s.handler) ==> PastSend(Apply(s, a).handler) && Apply(s, a).received == s.received
    ensures s.poweringOff ==>
      || Apply(s, a).received == s.received
      || (a.HandlerSend? && Apply(s, a).received == s.received + [Message(true, false)])
  {
  }

  /** Power-off wins in every interleaving: if the host ever has a power-off result it
      is the last message, and no message stems from a workload exit after the stop. */
  lemma {:induction false} PowerOffWins(s: State, run: seq<Step>)
    requires Inv(s) && IsRun(s, run)
    ensures Inv(After(s, run))
    decreases |run|
  {
    if run != [] {
      StepPreserves(s, run[0]);
      PowerOffWins(Apply(s, run[0]), run[1..]);
    }
  }

  /** A power-off result is the last message. */
  ghost predicate PowerOffLast(received: seq<Message>) {
    forall i :: 0 <= i < |received| && received[i].powerOff ==> i == |received| - 1
  }

  /** No message stems from a workload exit after the stop signal. */
  ghost predicate NoneAfterStop(received: seq<Message>) {
    forall i :: 0 <= i < |received| ==> !received[i].afterStop
  }

  lemma {:induction false} EveryRun(run: seq<Step>)
    requires IsRun(INITIAL, run)
    ensures PowerOffLast(After(INITIAL, run).received) && NoneAfterStop(After(INITIAL, run).received)
  {
    PowerOffWins(INITIAL, run);
  }

  /** Once the power-off emission is over, whatever it sent, the host gets nothing more. */
  lemma {:induction false} NothingAfterPowerOff(s: State, run: seq<Step>)
    requires Inv(s) && PastSend(s.handler) && IsRun(s, run)
    ensures After(s, run).received == s.received
    decreases |run|
  {
    if run != [] {
      StepPreserves(s, run[0]);
      NothingAfterPowerOff(Apply(s, run[0]), run[1..]);
    }
  }

  /** A power-off result that was delivered on a real port is the host's last word in
      every continuation; on port zero, as before the config is read, none is sent. */
  lemma {:induction false} PowerOffIsLast(s: State, delivered: bool, run: seq<Step>)
    requires Inv(s) && Enabled(s, HandlerSend(delivered)) && IsRun(Apply(s, HandlerSend(delivered)), run)
    ensures var received := After(Apply(s, HandlerSend(delivered)), run).received;
      received == if s.handler.port != 0 && delivered then s.received + [Message(true, false)] else s.received
  {
    StepPreserves(s, HandlerSend(delivered));
    NothingAfterPowerOff(Apply(s, HandlerSend(delivered)), run);
  }

  // ---- When a command result is sent --------------------------------------

  lemma {:induction false} RunSnoc(s: State, run: seq<Step>, a: Step)
    requires IsRun(s, run + [a])
    ensures IsRun(s, run) && Enabled(After(s, run), a) && After(s, run + [a]) == Apply(After(s, run), a)
    decreases |run|
  {
    if run == [] {
      assert run + [a] == [a] && [a][1..] == [];
    } else {
      assert (run + [a])[1..] == run[1..] + [a] && (run + [a])[0] == run[0];
      RunSnoc(Apply(s, run[0]), run[1..], a);
    }
  }

  /** The emission looked at the flag before the power handler had set it. */
  ghost predicate CheckedBeforeFlag(run: seq<Step>, e: nat) {
    exists i :: 0 <= i < |run| && run[i] == Check(e) && HandlerFlag !in run[..i]
  }

  ghost predicate CheckedAfterFlag(run: seq<Step>, e: nat) {
    exists i :: 0 <= i < |run| && run[i] == Check(e) && HandlerFlag in run[..i]
  }

  lemma {:induction false} CheckedSnoc(run: seq<Step>, a: Step, e: nat)
    ensures CheckedBeforeFlag(run + [a], e) <==> CheckedBeforeFlag(run, e) || (a == Check(e) && HandlerFlag !in run)
    ensures CheckedAfterFlag(run + [a], e) <==> CheckedAfterFlag(run, e) || (a == Check(e) && HandlerFlag in run)
  {
    var all := run + [a];
    assert all[..|run|] == run && all[|run|] == a;
    forall i | 0 <= i < |run| ensures all[i] == run[i] && all[..i] == run[..i] {
    }
  }

  /** What the emission is about to do or has done, read off a state. */
  predicate Sends(s: State, e: nat) {
    e in s.emissions && (s.emissions[e].Sending? || s.emissions[e] == Done(true))
  }

  predicate Suppressed(s: State, e: nat) {
    e in s.emissions && s.emissions[e] == Done(false)
  }

  lemma {:induction false} FlagStep(s: State, a: Step, e: nat)
    requires Enabled(s, a)
    ensures Apply(s, a).poweringOff <==> s.poweringOff || a == HandlerFlag
    ensures Sends(Apply(s, a), e) <==> Sends(s, e) || (a == Check(e) && !s.poweringOff)
    ensures Suppressed(Apply(s, a), e) <==> Suppressed(s, e) || (a == Check(e) && s.poweringOff)
  {
  }

  /** In every run the command's result is sent exactly when its emission took the lock and
      looked at the flag before the power handler set it, and is suppressed exactly when it
      looked after. */
  lemma {:induction false} CommandResultIff(run: seq<Step>, e: nat)
    requires IsRun(INITIAL, run)
    ensures After(INITIAL, run).poweringOff <==> HandlerFlag in run
    ensures Sends(After(INITIAL, run), e) <==> CheckedBeforeFlag(run, e)
    ensures Suppressed(After(INITIAL, run), e) <==> CheckedAfterFlag(run, e)
    decreases |run|
  {
    if run != [] {
      var init, a := run[..|run| - 1], run[|run| - 1];
      assert run == init + [a];
      RunSnoc(INITIAL, init, a);
      CommandResultIff(init, e);
      CheckedSnoc(init, a, e);
      FlagStep(After(INITIAL, init), a, e);
    }
  }

  // ---- When the power-off result is sent ----------------------------------

  /** The port last stored before the power signal, or zero. */
  function SignalPort(run: seq<Step>): nat {
    if run == [] then 0
    else
      var init, a := run[..|run| - 1], run[|run| - 1];
      if a.StorePort? && PowerSignal !in init then a.port else SignalPort(init)
  }

  predicate HasPort(h: Handler) { h.Loaded? || h.Holding? || h.Flagged? }

  /** What the handler has of the port, and what the host has of the power-off. */
  ghost predicate PortInv(s: State, run: seq<Step>) {
    && (s.handler == Idle <==> PowerSignal !in run)
    && (s.handler == Idle ==> s.resultPort == SignalPort(run))
    && (HasPort(s.handler) ==> s.handler.port == SignalPort(run))
    && (HandlerSend(true) in run ==> PastSend(s.handler))
    && (EndsPoweredOff(s.received) <==> HandlerSend(true) in run && SignalPort(run) != 0)
  }

  predicate EndsPoweredOff(received: seq<Message>) { received != [] && received[|received| - 1].powerOff }

  lemma {:induction false} PortSnoc(run: seq<Step>, a: Step)
    ensures SignalPort(run + [a]) == if a.StorePort? && PowerSignal !in run then a.port else SignalPort(run)
    ensures PowerSignal in run + [a] <==> PowerSignal in run || a == PowerSignal
    ensures HandlerSend(true) in run + [a] <==> HandlerSend(true) in run || a == HandlerSend(true)
  {
    assert (run + [a])[..|run|] == run;
  }

  lemma {:induction false} PortStep(s: State, run: seq<Step>, a: Step)
    requires Inv(s) && PortInv(s, run) && Enabled(s, a)
    ensures PortInv(Apply(s, a), run + [a])
  {
    PortSnoc(run, a);
    StepPreserves(s, a);
  }

  lemma {:induction false} PortKnown(run: seq<Step>)
    requires IsRun(INITIAL, run)
    ensures PortInv(After(INITIAL, run), run)
    decreases |run|
  {
    if run != [] {
      var init, a := run[..|run| - 1], run[|run| - 1];
      assert run == init + [a];
      RunSnoc(INITIAL, init, a);
      PortKnown(init);
      PowerOffWins(INITIAL, init);
      PortStep(After(INITIAL, init), init, a);
    }
  }

  /** In every run the host's last message is the power-off result exactly when its send was
      delivered and the port last stored before the power signal was not zero. */
  lemma {:induction false} PowerOffDeliveredIff(run: seq<Step>)
    requires IsRun(INITIAL, run)
    ensures var received := After(INITIAL, run).received;
      received != [] && received[|received| - 1].powerOff <==> HandlerSend(true) in run && SignalPort(run) != 0
  {
    PortKnown(run);
  }

  // ---- The coordinator object ---------------------------------------------

  datatype Result = Result(exitCode: int, exitedAt: string, poweredOff: bool)

  class ShutdownCoordinator {
    var poweringOff: bool
    var received: seq<Result>  // what reached the host

    constructor ()
      ensures Valid() && !poweringOff && received == []
    {
      poweringOff, received := false, [];
    }

    /** Only an intentional power-off puts a power-off result on the wire, and no
        command result follows one. */
    ghost predicate Valid()
      reads this
    {
      && (forall i, j :: 0 <= i < j < |received| && received[i].poweredOff ==> received[j].poweredOff)
      && (!poweringOff ==> forall i :: 0 <= i < |received| ==> !received[i].poweredOff)
    }

    method SendResult(port: nat, res: Result)
      modifies `received
      ensures received == if port == 0 then old(received) else old(received) + [res]
    {
      if port != 0 {
        received := received + [res];
      }
    }

    method EmitCommandResult(port: nat, res: Result) returns (sent: bool)
      requires Valid() && !res.poweredOff
      modifies `received
      ensures Valid() && (sent <==> !poweringOff)
      ensures received == if sent && port != 0 then old(received) + [res] else old(received)
    {
      if poweringOff {
        return false;
      }
      SendResult(port, res);
      sent := true;
    }

    method EmitPowerOffResult(port: nat, res: Result, now: string)
      requires Valid()
      modifies this
      ensures Valid() && poweringOff
      ensures var sent := Result(res.exitCode, if res.exitedAt == "" then now else res.exitedAt, true);
        received == if port == 0 then old(received) else old(received) + [sent]
    {
      poweringOff := true;
      var r := res.(poweredOff := true);
      if r.exitedAt == "" {
        r := r.(exitedAt := now);
      }
      SendResult(port, r);
    }
  }

  /** The workload a stop signal would go to, and its `done` channel. Channels are
      numbered by creation; closing one twice would crash init. */
  class ActiveWorkload {
    var pid: nat
    var done: int            // the current channel, or -1
    var created: nat
    var closed: set<int>

    constructor ()
      ensures Valid() && done == -1 && closed == {}
    {
      pid, done, created, closed := 0, -1, 0, {};
    }

    ghost predicate Valid()
      reads this
    {
      && -1 <= done < created
      && (forall c :: c in closed ==> 0 <= c < created)
      && done !in closed
    }

    method Track(process: nat) returns (handle: nat)
      requires Valid()
      modifies this
      ensures Valid() && handle == old(created) && created == old(created) + 1
      ensures pid == process && done == handle && closed == old(closed)
    {
      handle := created;
      created := created + 1;
      pid, done := process, handle;
    }

    /** The closure trackActiveWorkload returns. It clears the workload and closes its
        channel only if no later workload has taken over, so whenever and however often
        it runs, no channel is closed twice and no other workload is cleared. */
    method Untrack(handle: nat)
      requires Valid() && handle < created
      modifies this
      ensures Valid() && created == old(created)
      ensures old(done) == handle ==> done == -1 && closed == old(closed) + {handle} && handle !in old(closed)
      ensures old(done) != handle ==> done == old(done) && pid == old(pid) && closed == old(closed)
    {
      if done == handle {
        pid, done := 0, -1;
        closed := closed + {handle};
      }
    }
  }
}
