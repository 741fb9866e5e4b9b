/**
  The supervisor as a state machine: the goroutine run against one caller of
  Start, Stop and UpdateConfig. Each action is one section under the lock, one
  look at a context, or one channel operation; they may interleave in any order.
  Calls are serialised, and Stop waits until done is closed.
*/
module Supervisor {
  import opened Wrappers
  import opened Tunnel

  /** Where a run stands. */
  datatype Phase =
    | Top          // about to look at the context before a call of runOnce
    | InOnce       // inside runOnce
    | AfterOnce    // about to look at the context after it
    | Failed       // about to count the failure
    | Sleeping     // waiting for the timer or the context
    | Leaving      // saw the context cancelled, about to set Stopped
    | Deferred     // about to run the deferred section
    | Dead

  /** What follows a Stop inside UpdateConfig. */
  datatype Next = Return | SwitchOff(token: string) | Restart

  datatype Caller =
    | Idle
    | Asked(cancel: nat, done: Option<nat>, next: Next)  // Stop has read the fields
    | Waiting(closing: nat, next: Next)                    // Stop has cancelled and waits
    | Halted(next: Next)                                 // Stop has returned inside UpdateConfig

  /** runs, cancelled and closes are indexed by run number. */
  datatype World = World(
    fields: Fields,
    runs: seq<Phase>,
    cancelled: set<nat>,
    closes: seq<nat>,
    panicked: bool,
    caller: Caller
  )

  datatype Action =
    | CallStart(found: bool, now: int)
    | CallStop
    | CallUpdate(cfg: Config)
    | Cancel                             // the caller invokes the cancel function it read
    | SeeClosed                          // done is closed: Stop returns
    | Finish(found: bool, now: int)      // the rest of UpdateConfig after its Stop
    | ParentCancelled(run: nat)          // the context Start was given is cancelled
    | LookTop(run: nat)
    | Event(run: nat, ev: LogEvent)
    | OnceEnds(run: nat)
    | LookAfter(run: nat)
    | CountFailure(run: nat, err: Option<string>)
    | TimerFires(run: nat)
    | SleepCancelled(run: nat)
    | SetStopped(run: nat)
    | RunDeferred(run: nat)

  predicate At(w: World, run: nat, p: Phase) {
    run < |w.runs| && w.runs[run] == p
  }

  function Move(w: World, run: nat, p: Phase): World
    requires run < |w.runs|
  {
    w.(runs := w.runs[run := p])
  }

  function DoStart(w: World, found: bool, now: int): World {
    var f := Started(w.fields, |w.runs|, found, now);
    if Launches(w.fields, found)
    then w.(fields := f, runs := w.runs + [Top], closes := w.closes + [0], caller := Idle)
    else w.(fields := f, caller := Idle)
  }

  /** Stop reads the fields; with nothing to cancel it returns at once. */
  function DoStop(w: World, next: Next): World {
    if w.fields.cancel.None? then w.(caller := if next == Return then Idle else Halted(next))
    else w.(caller := Asked(w.fields.cancel.value, w.fields.done, next))
  }

  /** UpdateConfig stores the configuration and decides whether to stop or restart. */
  function DoUpdate(w: World, cfg: Config): World {
    var old_ := w.fields.cfg;
    var u := w.(fields := Configured(w.fields, cfg));
    if !cfg.enabled || cfg.token == "" then DoStop(u, SwitchOff(cfg.token))
    else if cfg.token != old_.token || old_.token == "" || !old_.enabled then DoStop(u, Restart)
    else u
  }

  /** close(m.done); m.cancel = nil; m.done = nil. Closing nil or a closed channel panics. */
  function DoDeferred(w: World, run: nat): World
    requires run < |w.runs|
  {
    var u := Move(w, run, Dead).(fields := Forgotten(w.fields));
    match w.fields.done
    case Some(d) =>
      if d < |w.closes| then u.(closes := w.closes[d := w.closes[d] + 1], panicked := w.panicked || w.closes[d] > 0)
      else u.(panicked := true)
    case None => u.(panicked := true)
  }

  /** The world after an action, if it can happen. */
  function Step(w: World, a: Action): Option<World> {
    match a
    case CallStart(found, now) => if w.caller == Idle then Some(DoStart(w, found, now)) else None
    case CallStop => if w.caller == Idle then Some(DoStop(w, Return)) else None
    case CallUpdate(cfg) => if w.caller == Idle then Some(DoUpdate(w, cfg)) else None
    case Cancel =>
      if w.caller.Asked? then
        var u := w.(cancelled := w.cancelled + {w.caller.cancel});
        Some(match w.caller.done
             case Some(d) => u.(caller := Waiting(d, w.caller.next))
             case None => u.(caller := if w.caller.next == Return then Idle else Halted(w.caller.next)))
      else None
    case SeeClosed =>
      if w.caller.Waiting? && w.caller.closing < |w.closes| && w.closes[w.caller.closing] > 0
      then Some(w.(caller := if w.caller.next == Return then Idle else Halted(w.caller.next))) else None
    case Finish(found, now) =>
      if !w.caller.Halted? then None
      else (match w.caller.next
            case SwitchOff(token) => Some(w.(fields := SwitchedOff(w.fields, token), caller := Idle))
            case Restart => Some(DoStart(w.(fields := Forgotten(w.fields)), found, now))
            case Return => None)
    case ParentCancelled(run) => if run < |w.runs| then Some(w.(cancelled := w.cancelled + {run})) else None
    case LookTop(run) =>
      if At(w, run, Top) then Some(Move(w, run, if run in w.cancelled then Leaving else InOnce)) else None
    case Event(run, ev) => if At(w, run, InOnce) then Some(w.(fields := Observed(w.fields, ev))) else None
    case OnceEnds(run) => if At(w, run, InOnce) then Some(Move(w, run, AfterOnce)) else None
    case LookAfter(run) =>
      if At(w, run, AfterOnce) then Some(Move(w, run, if run in w.cancelled then Leaving else Failed)) else None
    case CountFailure(run, err) =>
      if At(w, run, Failed)
      then Some(Move(w, run, if GivesUp(w.fields) then Deferred else Sleeping).(fields := Failing(w.fields, err)))
      else None
    case TimerFires(run) => if At(w, run, Sleeping) then Some(Move(w, run, Top)) else None
    case SleepCancelled(run) =>
      if At(w, run, Sleeping) && run in w.cancelled then Some(Move(w, run, Leaving)) else None
    case SetStopped(run) =>
      if At(w, run, Leaving)
      then Some(Move(w, run, Deferred).(fields := w.fields.(status := Plain(Stopped)))) else None
    case RunDeferred(run) => if At(w, run, Deferred) then Some(DoDeferred(w, run)) else None
  }

  function Initial(cfg: Config): World {
    World(Fields(WithPath(cfg), Plain(if cfg.token == "" then Disabled else Stopped), None, None, 0),
          [], {}, [], false, Idle)
  }

  /** The world after a list of actions, if each can happen in turn. */
  function Trace(w: World, actions: seq<Action>): Option<World>
    decreases |actions|
  {
    if actions == [] then Some(w)
    else match Step(w, actions[0])
      case None => None
      case Some(u) => Trace(u, actions[1..])
  }

  // ----- the invariant -----

  predicate Live(w: World, run: nat) {
    run < |w.runs| && w.runs[run] != Dead
  }

  ghost predicate NoneLive(w: World) {
    forall run: nat :: !Live(w, run)
  }

  /** At most one run is live; cancel and done name it, and are set exactly while it lives. */
  ghost predicate FieldsMatch(w: World) {
    && w.fields.cancel == w.fields.done
    && (forall run: nat :: Live(w, run) <==> w.fields.cancel == Some(run))
  }

  /** A channel is closed once, when its run is dead, and not before; nothing panicked. */
  ghost predicate ClosesMatch(w: World) {
    && |w.closes| == |w.runs| && !w.panicked
    && forall run: nat :: run < |w.runs| ==> w.closes[run] == if w.runs[run] == Dead then 1 else 0
  }

  /** What the caller holds on to is the live run or one that is over. */
  ghost predicate CallerMatches(w: World) {
    match w.caller
    case Idle => true
    case Asked(c, d, _) => d == Some(c) && c < |w.runs| && (forall run: nat :: Live(w, run) ==> run == c)
    case Waiting(d, _) => d < |w.runs| && d in w.cancelled && (forall run: nat :: Live(w, run) ==> run == d)
    case Halted(next) => NoneLive(w) && next != Return
  }

  /** What the status may say while a run is live, and while none is. */
  predicate StatusFits(f: Fields, p: Phase) {
    match p
    case Dead => f.status.state in {Disabled, Stopped, Error}
    case Deferred => f.status.state in {Stopped, Error}
    case _ => f.status.state in {Connecting, Connected, Reconnecting} && f.failureCount < MAX_FAILURES
  }

  ghost predicate StatusMatches(w: World) {
    && (forall run: nat :: Live(w, run) ==> StatusFits(w.fields, w.runs[run]))
    && (w.fields.cancel.None? ==> StatusFits(w.fields, Dead))
  }

  ghost predicate Inv(w: World) {
    FieldsMatch(w) && ClosesMatch(w) && CallerMatches(w) && StatusMatches(w)
  }

  lemma InitialInv(cfg: Config)
    ensures Inv(Initial(cfg))
    ensures Initial(cfg).runs == [] && Initial(cfg).caller == Idle
    ensures Initial(cfg).fields.status.state == if cfg.token == "" then Disabled else Stopped
  {
  }

  /** Actions of the caller. */
  predicate IsCall(a: Action) {
    a.CallStart? || a.CallStop? || a.CallUpdate? || a.Cancel? || a.SeeClosed? || a.Finish?
  }

  lemma StartKeepsInv(w: World, found: bool, now: int)
    requires FieldsMatch(w) && ClosesMatch(w) && StatusMatches(w)
    ensures Inv(DoStart(w, found, now))
  {
    var u := DoStart(w, found, now);
    if Launches(w.fields, found) {
      assert forall run: nat :: Live(u, run) <==> Live(w, run) || run == |w.runs|;
    } else {
      assert forall run: nat :: Live(u, run) <==> Live(w, run);
    }
  }

  lemma StopKeepsInv(w: World, next: Next)
    requires FieldsMatch(w) && ClosesMatch(w) && StatusMatches(w)
    ensures Inv(DoStop(w, next))
  {
    assert forall run: nat :: Live(DoStop(w, next), run) <==> Live(w, run);
    if w.fields.cancel.Some? { assert Live(w, w.fields.cancel.value); }
  }

  lemma UpdateKeepsInv(w: World, cfg: Config)
    requires Inv(w) && w.caller == Idle
    ensures Inv(DoUpdate(w, cfg))
  {
    var u := w.(fields := Configured(w.fields, cfg));
    assert forall run: nat :: Live(u, run) <==> Live(w, run);
    StopKeepsInv(u, SwitchOff(cfg.token));
    StopKeepsInv(u, Restart);
  }

  lemma CallKeepsInv(w: World, a: Action)
    requires Inv(w) && IsCall(a) && Step(w, a).Some?
    ensures Inv(Step(w, a).value)
  {
    hide DoStart, DoStop, DoUpdate;
    var u := Step(w, a).value;
    match a
    case CallStart(found, now) => StartKeepsInv(w, found, now);
    case CallStop => StopKeepsInv(w, Return);
    case CallUpdate(cfg) => UpdateKeepsInv(w, cfg);
    case Cancel => assert forall run: nat :: Live(u, run) <==> Live(w, run);
    case SeeClosed => assert forall run: nat :: Live(u, run) <==> Live(w, run);
    case Finish(found, now) => FinishKeepsInv(w, found, now);
  }

  lemma FinishKeepsInv(w: World, found: bool, now: int)
    requires Inv(w) && Step(w, Finish(found, now)).Some?
    ensures Inv(Step(w, Finish(found, now)).value)
  {
    hide DoStart;
    assert w.fields.cancel.None? by { if w.fields.cancel.Some? { assert Live(w, w.fields.cancel.value); } }
    var f := w.(fields := Forgotten(w.fields));
    assert forall run: nat :: Live(f, run) <==> Live(w, run);
    if w.caller.next == Restart {
      StartKeepsInv(f, found, now);
    } else {
      assert forall run: nat :: Live(Step(w, Finish(found, now)).value, run) <==> Live(w, run);
    }
  }

  lemma DeferredKeepsInv(w: World, run: nat)
    requires Inv(w) && At(w, run, Deferred)
    ensures Inv(DoDeferred(w, run))
  {
    assert Live(w, run);
    assert forall r: nat :: Live(DoDeferred(w, run), r) <==> Live(w, r) && r != run;
  }

  lemma RunKeepsInv(w: World, a: Action)
    requires Inv(w) && !IsCall(a) && Step(w, a).Some?
    ensures Inv(Step(w, a).value)
  {
    hide DoDeferred, Observed, Failing;
    var u := Step(w, a).value;
    if a.RunDeferred? {
      DeferredKeepsInv(w, a.run);
    } else {
      KeepsHandles(w, a);
      KeepsStatus(w, a);
      assert forall run: nat :: Live(u, run) <==> Live(w, run);
    }
  }

  /** A live run's own actions keep its status in step with its phase. */
  lemma KeepsStatus(w: World, a: Action)
    requires FieldsMatch(w) && StatusMatches(w) && !IsCall(a) && !a.RunDeferred? && Step(w, a).Some?
    ensures StatusMatches(Step(w, a).value)
  {
    var u := Step(w, a).value;
    assert !a.ParentCancelled? ==> Live(w, a.run);
    forall run: nat | Live(u, run) ensures StatusFits(u.fields, u.runs[run]) {
      assert Live(w, run);
    }
  }

  /** No action of a run other than its deferred section touches the two handles. */
  lemma KeepsHandles(w: World, a: Action)
    requires !IsCall(a) && !a.RunDeferred? && Step(w, a).Some?
    ensures Step(w, a).value.fields.cancel == w.fields.cancel && Step(w, a).value.fields.done == w.fields.done
    ensures Step(w, a).value.closes == w.closes && Step(w, a).value.caller == w.caller
    ensures Step(w, a).value.panicked == w.panicked && w.cancelled <= Step(w, a).value.cancelled
    ensures |Step(w, a).value.runs| == |w.runs|
    ensures forall run: nat :: run < |w.runs| ==> (Step(w, a).value.runs[run] == Dead <==> w.runs[run] == Dead)
  {
  }

  lemma StepKeepsInv(w: World, a: Action)
    requires Inv(w) && Step(w, a).Some?
    ensures Inv(Step(w, a).value)
  {
    hide Inv, Step;
    if IsCall(a) { CallKeepsInv(w, a); } else { RunKeepsInv(w, a); }
  }

  /** The invariant holds after every interleaving. */
  lemma {:induction false} TraceKeepsInv(w: World, actions: seq<Action>)
    requires Inv(w) && Trace(w, actions).Some?
    ensures Inv(Trace(w, actions).value)
    decreases |actions|
  {
    hide Inv, Step;
    if actions != [] {
      StepKeepsInv(w, actions[0]);
      TraceKeepsInv(Step(w, actions[0]).value, actions[1..]);
    }
  }

  /**
    Single supervisor: in every world reachable from a new manager at most one run is
    live, cancel is set exactly while it lives, every done channel is closed exactly
    once, when its run ends, and no close ever hits nil or a closed channel.
  */
  lemma SingleSupervisor(cfg: Config, actions: seq<Action>)
    requires Trace(Initial(cfg), actions).Some?
    ensures var w := Trace(Initial(cfg), actions).value;
            && (forall r: nat, s: nat :: Live(w, r) && Live(w, s) ==> r == s)
            && (w.fields.cancel.Some? <==> exists r: nat :: Live(w, r))
            && |w.closes| == |w.runs|
            && (forall r: nat :: r < |w.runs| ==> w.closes[r] == if Live(w, r) then 0 else 1)
            && !w.panicked
            && (w.fields.status.state in {Connecting, Connected, Reconnecting} ==> w.fields.cancel.Some?)
            && (w.fields.status.state == Disabled ==> w.fields.cancel.None?)
  {
    InitialInv(cfg);
    TraceKeepsInv(Initial(cfg), actions);
    var w := Trace(Initial(cfg), actions).value;
    assert forall r: nat :: r < |w.runs| ==> (w.runs[r] == Dead <==> !Live(w, r));
    if w.fields.cancel.Some? { assert Live(w, w.fields.cancel.value); }
  }

  // ----- no late step -----

  /** With no live run, nothing but the caller can act on the fields. */
  lemma QuietStep(w: World, a: Action)
    requires NoneLive(w) && !IsCall(a) && Step(w, a).Some?
    ensures Step(w, a).value.fields == w.fields && NoneLive(Step(w, a).value)
  {
    assert !a.ParentCancelled? ==> Live(w, a.run);
    assert forall r: nat :: Live(Step(w, a).value, r) <==> Live(w, r);
  }

  lemma {:induction false} QuietTrace(w: World, actions: seq<Action>)
    requires NoneLive(w) && Trace(w, actions).Some? && forall i :: 0 <= i < |actions| ==> !IsCall(actions[i])
    ensures Trace(w, actions).value.fields == w.fields
    decreases |actions|
  {
    hide NoneLive, Step;
    if actions != [] {
      QuietStep(w, actions[0]);
      QuietTrace(Step(w, actions[0]).value, actions[1..]);
    }
  }

  /**
    Once UpdateConfig has switched the tunnel off, no late action of a run changes the
    status: until the next call it stays Disabled (no token) or Stopped.
  */
  lemma SwitchedOffStays(cfg: Config, before: seq<Action>, found: bool, now: int, token: string, after: seq<Action>)
    requires Trace(Initial(cfg), before).Some?
    requires Trace(Initial(cfg), before).value.caller == Halted(SwitchOff(token))
    requires Trace(Initial(cfg), before + [Finish(found, now)] + after).Some?
    requires forall i :: 0 <= i < |after| ==> !IsCall(after[i])
    ensures Trace(Initial(cfg), before + [Finish(found, now)] + after).value.fields.status
         == Plain(if token == "" then Disabled else Stopped)
  {
    hide Step, Trace, Inv, NoneLive, Initial, Plain;
    var w, finish := Trace(Initial(cfg), before).value, Finish(found, now);
    InitialInv(cfg);
    TraceKeepsInv(Initial(cfg), before);
    SwitchOffStep(w, found, now, token);
    assert before + [finish] + after == before + ([finish] + after);
    TraceAppend(Initial(cfg), before, [finish] + after);
    TraceOne(w, finish, after);
    QuietTrace(Step(w, finish).value, after);
  }

  lemma TraceOne(w: World, a: Action, rest: seq<Action>)
    requires Step(w, a).Some?
    ensures Trace(w, [a] + rest) == Trace(Step(w, a).value, rest)
  {
    hide Step;
    assert ([a] + rest)[1..] == rest;
  }

  lemma SwitchOffStep(w: World, found: bool, now: int, token: string)
    requires Inv(w) && w.caller == Halted(SwitchOff(token))
    ensures Step(w, Finish(found, now)).Some?
    ensures var u := Step(w, Finish(found, now)).value;
            NoneLive(u) && u.fields.status == Plain(if token == "" then Disabled else Stopped)
  {
    var u := Step(w, Finish(found, now)).value;
    assert forall r: nat :: Live(u, r) <==> Live(w, r);
  }

  lemma {:induction false} TraceAppend(w: World, a: seq<Action>, b: seq<Action>)
    requires Trace(w, a).Some?
    ensures Trace(w, a + b) == Trace(Trace(w, a).value, b)
    decreases |a|
  {
    hide Step;
    if a == [] {
      assert a + b == b;
    } else {
      assert (a + b)[1..] == a[1..] + b;
      TraceAppend(Step(w, a[0]).value, a[1..], b);
    }
  }

  // ----- what a call of the manager comes to -----

  /** No new call begins; the rest of one that is under way may. */
  predicate NoNewCall(actions: seq<Action>) {
    forall i :: 0 <= i < |actions| ==>
      !actions[i].CallStart? && !actions[i].CallStop? && !actions[i].CallUpdate?
  }

  /** UpdateConfig is on its way to switching the tunnel off, or has done so and is back. */
  ghost predicate Disabling(w: World, token: string) {
    if w.caller == Idle
    then NoneLive(w) && w.fields.cancel.None? && w.fields.done.None?
         && w.fields.status.state == if token == "" then Disabled else Stopped
    else !w.caller.Idle? && w.caller.next == SwitchOff(token)
  }

  lemma DisablingStep(w: World, a: Action, token: string)
    requires Inv(w) && Disabling(w, token) && NoNewCall([a]) && Step(w, a).Some?
    ensures Disabling(Step(w, a).value, token)
  {
    assert [a][0] == a;
    var u := Step(w, a).value;
    if w.caller == Idle {
      QuietStep(w, a);
      assert !a.ParentCancelled? ==> Live(w, a.run);
    } else if a.Finish? {
      SwitchOffStep(w, a.found, a.now, token);
    }
  }

  lemma {:induction false} DisablingTrace(w: World, actions: seq<Action>, token: string)
    requires Inv(w) && Disabling(w, token) && NoNewCall(actions) && Trace(w, actions).Some?
    ensures Disabling(Trace(w, actions).value, token)
    decreases |actions|
  {
    hide Inv, Step, Disabling;
    if actions != [] {
      assert NoNewCall([actions[0]]) && NoNewCall(actions[1..]);
      DisablingStep(w, actions[0], token);
      StepKeepsInv(w, actions[0]);
      DisablingTrace(Step(w, actions[0]).value, actions[1..], token);
    }
  }

  /**
    UpdateConfig with a configuration that is disabled or has no token stops the tunnel:
    whenever the call is over, and as long as no other begins, no run is live, neither
    handle is set, and the status is Disabled without a token and Stopped with one.
  */
  lemma DisablingStops(cfg0: Config, before: seq<Action>, cfg: Config, after: seq<Action>)
    requires Trace(Initial(cfg0), before).Some? && Trace(Initial(cfg0), before).value.caller == Idle
    requires !cfg.enabled || cfg.token == ""
    requires Trace(Initial(cfg0), before + [CallUpdate(cfg)] + after).Some? && NoNewCall(after)
    ensures var w := Trace(Initial(cfg0), before + [CallUpdate(cfg)] + after).value;
            w.caller == Idle ==>
              && (forall run: nat :: run < |w.runs| ==> w.runs[run] == Dead)
              && w.fields.cancel.None? && w.fields.done.None?
              && w.fields.status.state == if cfg.token == "" then Disabled else Stopped
  {
    hide Step, Trace, Inv;
    var w := CallAfter(cfg0, before, CallUpdate(cfg), after);
    UpdateDisables(w, cfg);
    StepKeepsInv(w, CallUpdate(cfg));
    DisablingTrace(Step(w, CallUpdate(cfg)).value, after, cfg.token);
    NoneLiveIsDead(Trace(Initial(cfg0), before + [CallUpdate(cfg)] + after).value);
  }

  lemma UpdateDisables(w: World, cfg: Config)
    requires Inv(w) && w.caller == Idle && (!cfg.enabled || cfg.token == "")
    ensures Step(w, CallUpdate(cfg)).Some? && Disabling(Step(w, CallUpdate(cfg)).value, cfg.token)
  {
  }

  lemma NoneLiveIsDead(w: World)
    ensures NoneLive(w) ==> forall run: nat :: run < |w.runs| ==> w.runs[run] == Dead
  {
    if NoneLive(w) {
      forall run: nat | run < |w.runs| ensures w.runs[run] == Dead { assert !Live(w, run); }
    }
  }

  /** The world in which a call is made, and how the trace goes on from it. */
  lemma CallAfter(cfg0: Config, before: seq<Action>, call: Action, after: seq<Action>) returns (w: World)
    requires Trace(Initial(cfg0), before).Some? && Trace(Initial(cfg0), before + [call] + after).Some?
    ensures w == Trace(Initial(cfg0), before).value && Inv(w) && Step(w, call).Some?
    ensures Trace(Initial(cfg0), before + [call] + after) == Trace(Step(w, call).value, after)
  {
    hide Step, Inv;
    w := Trace(Initial(cfg0), before).value;
    InitialInv(cfg0);
    TraceKeepsInv(Initial(cfg0), before);
    assert before + [call] + after == before + ([call] + after);
    TraceAppend(Initial(cfg0), before, [call] + after);
    CallHappens(w, call, after);
  }

  lemma CallHappens(w: World, a: Action, rest: seq<Action>)
    requires Trace(w, [a] + rest).Some?
    ensures Step(w, a).Some? && Trace(w, [a] + rest) == Trace(Step(w, a).value, rest)
  {
    hide Step;
    assert ([a] + rest)[0] == a && ([a] + rest)[1..] == rest;
  }

  /** UpdateConfig is on its way to a restart, with n runs so far, or is back and the first n of them are over. */
  ghost predicate Restarting(w: World, n: nat, cfg: Config, finished: Option<bool>) {
    && w.fields.cfg.token == cfg.token && w.fields.cfg.enabled == cfg.enabled && n <= |w.runs|
    && if w.caller == Idle
       then finished.Some? && (forall run: nat :: run < n ==> w.runs[run] == Dead)
            && |w.runs| == n + if finished.value then 1 else 0
       else finished.None? && w.caller.next == Restart && |w.runs| == n
  }

  /** Whether the rest of a call is among some actions, and whether it found the program. */
  function Finished(actions: seq<Action>, sofar: Option<bool>): Option<bool> {
    if actions == [] then sofar
    else Finished(actions[1..], if actions[0].Finish? then Some(actions[0].found) else sofar)
  }

  lemma RestartingStep(w: World, a: Action, n: nat, cfg: Config, finished: Option<bool>)
    requires Inv(w) && Restarting(w, n, cfg, finished) && NoNewCall([a]) && Step(w, a).Some?
    requires cfg.token != ""
    ensures Restarting(Step(w, a).value, n, cfg, if a.Finish? then Some(a.found) else finished)
  {
    assert [a][0] == a;
    if a.Finish? {
      FinishRestarts(w, a.found, a.now);
    } else if !a.ParentCancelled? && !IsCall(a) && !a.RunDeferred? {
      KeepsHandles(w, a);
      OwnActionKeepsConfig(w, a);
    }
  }

  lemma OwnActionKeepsConfig(w: World, a: Action)
    requires !IsCall(a) && Step(w, a).Some?
    ensures Step(w, a).value.fields.cfg == w.fields.cfg && Step(w, a).value.caller == w.caller
  {
  }

  lemma FinishRestarts(w: World, found: bool, now: int)
    requires Inv(w) && w.caller == Halted(Restart) && w.fields.cfg.token != ""
    ensures var u := Step(w, Finish(found, now)).value;
            && u.caller == Idle && u.fields.cfg == w.fields.cfg
            && (forall run: nat :: run < |w.runs| ==> u.runs[run] == Dead)
            && |u.runs| == |w.runs| + if found then 1 else 0
  {
    NoneLiveIsDead(w);
  }

  lemma {:induction false} RestartingTrace(w: World, actions: seq<Action>, n: nat, cfg: Config, finished: Option<bool>)
    requires Inv(w) && Restarting(w, n, cfg, finished) && NoNewCall(actions) && Trace(w, actions).Some?
    requires cfg.token != ""
    ensures Restarting(Trace(w, actions).value, n, cfg, Finished(actions, finished))
    decreases |actions|
  {
    hide Inv, Step, Restarting;
    if actions != [] {
      assert NoNewCall([actions[0]]) && NoNewCall(actions[1..]);
      RestartingStep(w, actions[0], n, cfg, finished);
      StepKeepsInv(w, actions[0]);
      RestartingTrace(Step(w, actions[0]).value, actions[1..], n, cfg,
                      if actions[0].Finish? then Some(actions[0].found) else finished);
    }
  }

  /**
    UpdateConfig with a token that is new, or after a configuration without one or
    disabled, restarts the tunnel: while the call goes on no run is added; when it is
    over the earlier runs are over, and one new run was launched if the program was found.
  */
  lemma NewTokenRestarts(cfg0: Config, before: seq<Action>, cfg: Config, after: seq<Action>)
    requires Trace(Initial(cfg0), before).Some? && Trace(Initial(cfg0), before).value.caller == Idle
    requires cfg.enabled && cfg.token != ""
    requires var old_ := Trace(Initial(cfg0), before).value.fields.cfg;
             cfg.token != old_.token || old_.token == "" || !old_.enabled
    requires Trace(Initial(cfg0), before + [CallUpdate(cfg)] + after).Some? && NoNewCall(after)
    ensures var v := Trace(Initial(cfg0), before).value;
            var w := Trace(Initial(cfg0), before + [CallUpdate(cfg)] + after).value;
            && w.fields.cfg.token == cfg.token && w.fields.cfg.enabled
            && |v.runs| <= |w.runs|
            && (w.caller != Idle ==> |w.runs| == |v.runs|)
            && (w.caller == Idle ==>
                  && (forall run: nat :: run < |v.runs| ==> w.runs[run] == Dead)
                  && Finished(after, None).Some?
                  && |w.runs| == |v.runs| + if Finished(after, None) == Some(true) then 1 else 0)
  {
    hide Step, Trace, Inv;
    var v := CallAfter(cfg0, before, CallUpdate(cfg), after);
    UpdateRestarts(v, cfg);
    StepKeepsInv(v, CallUpdate(cfg));
    RestartingTrace(Step(v, CallUpdate(cfg)).value, after, |v.runs|, cfg, None);
  }

  lemma UpdateRestarts(w: World, cfg: Config)
    requires Inv(w) && w.caller == Idle && cfg.enabled && cfg.token != ""
    requires cfg.token != w.fields.cfg.token || w.fields.cfg.token == "" || !w.fields.cfg.enabled
    ensures Step(w, CallUpdate(cfg)).Some? && Restarting(Step(w, CallUpdate(cfg)).value, |w.runs|, cfg, None)
  {
  }

  /** In the remaining case, the same token on an enabled configuration, only the configuration changes. */
  lemma SameTokenGoesOn(w: World, cfg: Config)
    requires w.caller == Idle && cfg.enabled && cfg.token != ""
    requires cfg.token == w.fields.cfg.token && w.fields.cfg.enabled
    ensures Step(w, CallUpdate(cfg)) == Some(w.(fields := w.fields.(cfg :=
              if cfg.cloudflaredPath == "" then cfg.(cloudflaredPath := "cloudflared") else cfg)))
  {
  }

  /** Stop is on its way, or is back and nothing runs. */
  ghost predicate Stopping(w: World) {
    if w.caller == Idle then NoneLive(w) && w.fields.cancel.None? && w.fields.done.None?
    else w.caller.next == Return
  }

  lemma StoppingStep(w: World, a: Action)
    requires Inv(w) && Stopping(w) && NoNewCall([a]) && Step(w, a).Some?
    ensures Stopping(Step(w, a).value)
  {
    assert [a][0] == a;
    if w.caller == Idle {
      QuietStep(w, a);
      assert !a.ParentCancelled? ==> Live(w, a.run);
    } else if a.SeeClosed? {
      ClosedMeansOver(w);
      assert forall run: nat :: Live(Step(w, a).value, run) <==> Live(w, run);
    } else {
      StillStopping(w, a);
    }
  }

  lemma StillStopping(w: World, a: Action)
    requires Inv(w) && Stopping(w) && w.caller != Idle && NoNewCall([a]) && Step(w, a).Some? && !a.SeeClosed?
    ensures Step(w, a).value.caller != Idle && Step(w, a).value.caller.next == Return
  {
    assert [a][0] == a;
  }

  /** When Stop sees its channel closed, the run it waited for is over. */
  lemma ClosedMeansOver(w: World)
    requires Inv(w) && Step(w, SeeClosed).Some?
    ensures NoneLive(w) && w.fields.cancel.None? && w.fields.done.None?
  {
    var d := w.caller.closing;
    assert w.runs[d] == Dead;
    NoneLiveNoHandle(w);
  }

  lemma NoneLiveNoHandle(w: World)
    requires FieldsMatch(w)
    ensures NoneLive(w) ==> w.fields.cancel.None? && w.fields.done.None?
  {
    if w.fields.cancel.Some? { assert Live(w, w.fields.cancel.value); }
  }

  lemma {:induction false} StoppingTrace(w: World, actions: seq<Action>)
    requires Inv(w) && Stopping(w) && NoNewCall(actions) && Trace(w, actions).Some?
    ensures Stopping(Trace(w, actions).value)
    decreases |actions|
  {
    hide Inv, Step, Stopping;
    if actions != [] {
      assert NoNewCall([actions[0]]) && NoNewCall(actions[1..]);
      StoppingStep(w, actions[0]);
      StepKeepsInv(w, actions[0]);
      StoppingTrace(Step(w, actions[0]).value, actions[1..]);
    }
  }

  /** When Stop is over, and as long as no other call begins, no run is live and neither handle is set. */
  lemma StopStops(cfg0: Config, before: seq<Action>, after: seq<Action>)
    requires Trace(Initial(cfg0), before).Some? && Trace(Initial(cfg0), before).value.caller == Idle
    requires Trace(Initial(cfg0), before + [CallStop] + after).Some? && NoNewCall(after)
    ensures var w := Trace(Initial(cfg0), before + [CallStop] + after).value;
            w.caller == Idle ==>
              (forall run: nat :: run < |w.runs| ==> w.runs[run] == Dead)
              && w.fields.cancel.None? && w.fields.done.None?
  {
    hide Step, Trace, Inv;
    var w := CallAfter(cfg0, before, CallStop, after);
    StopBegins(w);
    StepKeepsInv(w, CallStop);
    StoppingTrace(Step(w, CallStop).value, after);
    NoneLiveIsDead(Trace(Initial(cfg0), before + [CallStop] + after).value);
  }

  lemma StopBegins(w: World)
    requires Inv(w) && w.caller == Idle
    ensures Step(w, CallStop).Some? && Stopping(Step(w, CallStop).value)
  {
  }

  /**
    Start launches a run exactly if none is live, there is a token and the program is
    found: it is Connecting, with no failures counted. With a run nothing changes; else
    the status says Disabled or Error.
  */
  lemma StartLaunches(w: World, found: bool, now: int)
    requires Inv(w) && w.caller == Idle
    ensures Step(w, CallStart(found, now)).Some?
    ensures var u := Step(w, CallStart(found, now)).value;
            && u.caller == Idle && u.fields.cfg == w.fields.cfg
            && ((exists run: nat :: Live(w, run)) ==> u == w)
            && ((forall run: nat :: !Live(w, run)) ==>
                  if w.fields.cfg.token != "" && found
                  then u.runs == w.runs + [Top] && u.fields.status == Status(Connecting, "", "", Some(now))
                       && u.fields.failureCount == 0 && u.fields.cancel == Some(|w.runs|)
                  else u.runs == w.runs && u.fields.cancel.None?
                       && u.fields.status.state == if w.fields.cfg.token == "" then Disabled else Error)
  {
    if w.fields.cancel.Some? { assert Live(w, w.fields.cancel.value); }
  }

  // ----- what Connected means -----

  /** The last log event of a run among some actions. */
  function LastEvent(actions: seq<Action>, sofar: Option<Action>): Option<Action> {
    if actions == [] then sofar
    else LastEvent(actions[1..], if actions[0].Event? then Some(actions[0]) else sofar)
  }

  ghost predicate ConnectedFits(w: World, last: Option<Action>) {
    w.fields.status.state == Connected ==>
      last.Some? && last.value.Event? && last.value.ev.Up? && w.fields.cancel == Some(last.value.run)
  }

  lemma ConnectedStep(w: World, a: Action, last: Option<Action>)
    requires Inv(w) && ConnectedFits(w, last) && Step(w, a).Some?
    ensures ConnectedFits(Step(w, a).value, if a.Event? then Some(a) else last)
  {
    if IsCall(a) { CallConnects(w, a, last); } else { RunConnects(w, a, last); }
  }

  lemma CallConnects(w: World, a: Action, last: Option<Action>)
    requires Inv(w) && ConnectedFits(w, last) && Step(w, a).Some? && IsCall(a)
    ensures ConnectedFits(Step(w, a).value, last)
  {
    assert w.fields.cancel.Some? ==> Live(w, w.fields.cancel.value);
  }

  lemma RunConnects(w: World, a: Action, last: Option<Action>)
    requires Inv(w) && ConnectedFits(w, last) && Step(w, a).Some? && !IsCall(a)
    ensures ConnectedFits(Step(w, a).value, if a.Event? then Some(a) else last)
  {
    assert !a.ParentCancelled? ==> Live(w, a.run);
  }

  lemma {:induction false} ConnectedTrace(w: World, actions: seq<Action>, last: Option<Action>)
    requires Inv(w) && ConnectedFits(w, last) && Trace(w, actions).Some?
    ensures ConnectedFits(Trace(w, actions).value, LastEvent(actions, last))
    decreases |actions|
  {
    hide Inv, Step, ConnectedFits;
    if actions != [] {
      ConnectedStep(w, actions[0], last);
      StepKeepsInv(w, actions[0]);
      ConnectedTrace(Step(w, actions[0]).value, actions[1..], if actions[0].Event? then Some(actions[0]) else last);
    }
  }

  /** In every reachable world the status says Connected only if the last log event was a connection of the live run. */
  lemma ConnectedMeansConnected(cfg: Config, actions: seq<Action>)
    requires Trace(Initial(cfg), actions).Some?
    requires Trace(Initial(cfg), actions).value.fields.status.state == Connected
    ensures var w, last := Trace(Initial(cfg), actions).value, LastEvent(actions, None);
            last.Some? && last.value.Event? && last.value.ev.Up? && Live(w, last.value.run)
  {
    hide Step;
    InitialInv(cfg);
    ConnectedTrace(Initial(cfg), actions, None);
    TraceKeepsInv(Initial(cfg), actions);
  }

  // ----- Stop gets its answer -----

  /** How many own actions a cancelled run can still take, log events aside. */
  function Rank(p: Phase): (n: nat)
    ensures n <= 5
  {
    match p
    case Failed => 5
    case Sleeping => 4
    case InOnce => 4
    case AfterOnce => 3
    case Top => 3
    case Leaving => 2
    case Deferred => 1
    case Dead => 0
  }

  /** While Stop waits, the run it cancelled is the live one, and each of its own actions brings it nearer its end. */
  lemma WaitedRunWindsDown(w: World, a: Action)
    requires Inv(w) && w.caller.Waiting? && !IsCall(a) && Step(w, a).Some?
    ensures var d := w.caller.closing;
            && d < |w.runs| && Rank(Step(w, a).value.runs[d]) <= Rank(w.runs[d])
            && (!a.ParentCancelled? && !a.Event? ==> a.run == d && Rank(Step(w, a).value.runs[d]) < Rank(w.runs[d]))
  {
    hide Observed, Failing, Inv;
    var d := w.caller.closing;
    WaitedRun(w, a);
  }

  lemma WaitedRun(w: World, a: Action)
    requires Inv(w) && w.caller.Waiting? && !IsCall(a) && Step(w, a).Some?
    ensures w.caller.closing < |w.runs| && w.caller.closing in w.cancelled
    ensures !a.ParentCancelled? ==> a.run == w.caller.closing
  {
    if !a.ParentCancelled? { assert Live(w, a.run); }
  }

  /** The actions of a list that are neither log events nor the cancelling of some other context. */
  function OwnSteps(actions: seq<Action>): nat {
    if actions == [] then 0
    else (if actions[0].Event? || actions[0].ParentCancelled? then 0 else 1) + OwnSteps(actions[1..])
  }

  /**
    While Stop waits, a run takes at most five actions of its own, however they
    interleave with log events; as many as its rank goes down.
  */
  lemma {:induction false} WaitIsBounded(w: World, actions: seq<Action>)
    requires Inv(w) && w.caller.Waiting? && Trace(w, actions).Some?
    requires forall i :: 0 <= i < |actions| ==> !IsCall(actions[i])
    ensures var u, d := Trace(w, actions).value, w.caller.closing;
            && u.caller == w.caller && d < |w.runs| && d < |u.runs|
            && OwnSteps(actions) + Rank(u.runs[d]) <= Rank(w.runs[d]) <= 5
    decreases |actions|
  {
    hide Inv, Step, Rank;
    if actions == [] {
      WaitedFor(w);
    } else {
      var a, d := actions[0], w.caller.closing;
      var u := Step(w, a).value;
      WaitedRunWindsDown(w, a);
      StepKeepsInv(w, a);
      CallerWaits(w, a);
      WaitIsBounded(u, actions[1..]);
    }
  }

  lemma WaitedFor(w: World)
    requires Inv(w) && w.caller.Waiting?
    ensures w.caller.closing < |w.runs|
  {
  }

  lemma CallerWaits(w: World, a: Action)
    requires Inv(w) && w.caller.Waiting? && !IsCall(a) && Step(w, a).Some?
    ensures Step(w, a).value.caller == w.caller && |Step(w, a).value.runs| == |w.runs|
  {
    hide Inv, Observed, Failing;
  }

  /** A live waited-for run always has an action to take, and once it is dead Stop returns. */
  lemma WaitNeverSticks(w: World)
    requires Inv(w) && w.caller.Waiting?
    ensures (exists a :: !IsCall(a) && !a.ParentCancelled? && Step(w, a).Some?) || Step(w, SeeClosed).Some?
  {
    var d := w.caller.closing;
    var a := match w.runs[d]
      case Top => LookTop(d)
      case InOnce => OnceEnds(d)
      case AfterOnce => LookAfter(d)
      case Failed => CountFailure(d, None)
      case Sleeping => SleepCancelled(d)
      case Leaving => SetStopped(d)
      case Deferred => RunDeferred(d)
      case Dead => SeeClosed;
    assert Step(w, a).Some?;
  }
}
