/** The cloudflared supervisor: the manager's fields and the sections that change them under its lock. */
module Tunnel {
  import opened Wrappers

  datatype TunnelState = Disabled | Stopped | Connecting | Connected | Reconnecting | Error

  datatype Status = Status(state: TunnelState, subdomain: string, error: string, startedAt: Option<int>)

  datatype Config = Config(token: string, enabled: bool, localURL: string, cloudflaredPath: string)

  /** A line of cloudflared's log that matters: a registered connection, or a lost one. */
  datatype LogEvent = Up(hostname: string) | Down

  const MAX_FAILURES := 10
  const MAX_BACKOFF := 60

  /** The fields under the lock. A run is known by its number; cancel and done are that run's. */
  datatype Fields = Fields(cfg: Config, status: Status, cancel: Option<nat>, done: Option<nat>, failureCount: nat)

  function Plain(s: TunnelState): Status { Status(s, "", "", None) }

  function Failed(error: string): Status { Status(Error, "", error, None) }

  function WithPath(cfg: Config): Config {
    if cfg.cloudflaredPath == "" then cfg.(cloudflaredPath := "cloudflared") else cfg
  }

  // ----- the sections on values -----

  /** Start launches a run: none is recorded, there is a token, and the program was found. */
  predicate Launches(f: Fields, found: bool) {
    f.cancel.None? && f.cfg.token != "" && found
  }

  function Started(f: Fields, run: nat, found: bool, now: int): Fields {
    if f.cancel.Some? then f
    else if f.cfg.token == "" then f.(status := Plain(Disabled))
    else if !found then f.(status := Failed("cloudflared not found in PATH"))
    else f.(failureCount := 0, cancel := Some(run), done := Some(run),
            status := Status(Connecting, "", "", Some(now)))
  }

  function Configured(f: Fields, cfg: Config): Fields { f.(cfg := WithPath(cfg)) }

  function Forgotten(f: Fields): Fields { f.(cancel := None, done := None) }

  function SwitchedOff(f: Fields, token: string): Fields {
    Forgotten(f).(status := Plain(if token == "" then Disabled else Stopped))
  }

  function Observed(f: Fields, ev: LogEvent): Fields {
    match ev
    case Up(hostname) =>
      f.(failureCount := 0,
         status := Status(Connected, if hostname != "" then hostname else f.status.subdomain, "", f.status.startedAt))
    case Down => f.(status := Status(Reconnecting, f.status.subdomain, "", f.status.startedAt))
  }

  predicate GivesUp(f: Fields) { f.failureCount + 1 >= MAX_FAILURES }

  function Failing(f: Fields, err: Option<string>): Fields {
    if GivesUp(f)
    then f.(failureCount := f.failureCount + 1,
            status := Failed(if err.Some? then err.value else "too many consecutive failures"))
    else f.(failureCount := f.failureCount + 1, status := Plain(Reconnecting))
  }

  // ----- the manager -----

  class Manager {
    var cfg: Config
    var status: Status
    var cancel: Option<nat>
    var done: Option<nat>
    var failureCount: nat

    constructor (cfg: Config)
      ensures View() == Fields(WithPath(cfg), Plain(if cfg.token == "" then Disabled else Stopped), None, None, 0)
    {
      this.cfg := if cfg.cloudflaredPath == "" then cfg.(cloudflaredPath := "cloudflared") else cfg;
      this.status := if cfg.token == "" then Plain(Disabled) else Plain(Stopped);
      cancel, done, failureCount := None, None, 0;
    }

    function View(): Fields
      reads this
    {
      Fields(cfg, status, cancel, done, failureCount)
    }

    /** The locked part of Start; the answer says whether a run is launched under the given number. */
    method StartLocked(run: nat, found: bool, now: int) returns (launched: bool)
      modifies this
      ensures View() == Started(old(View()), run, found, now) && launched == Launches(old(View()), found)
    {
      if cancel.Some? {
        return false;
      }
      if cfg.token == "" {
        status := Plain(Disabled);
        return false;
      }
      if !found {
        status := Failed("cloudflared not found in PATH");
        return false;
      }
      failureCount := 0;
      cancel := Some(run);
      done := Some(run);
      status := Status(Connecting, "", "", Some(now));
      return true;
    }

    method SetConfig(cfg: Config) returns (old_: Config)
      modifies `cfg
      ensures old_ == old(this.cfg) && View() == Configured(old(View()), cfg)
    {
      old_ := this.cfg;
      this.cfg := cfg;
      if this.cfg.cloudflaredPath == "" {
        this.cfg := this.cfg.(cloudflaredPath := "cloudflared");
      }
    }

    method SwitchOff(token: string)
      modifies `status, `cancel, `done
      ensures View() == SwitchedOff(old(View()), token)
    {
      if token == "" {
        status := Plain(Disabled);
      } else {
        status := Plain(Stopped);
      }
      cancel := None;
      done := None;
    }

    method Forget()
      modifies `cancel, `done
      ensures View() == Forgotten(old(View()))
    {
      cancel := None;
      done := None;
    }

    method Observe(ev: LogEvent)
      modifies `status, `failureCount
      ensures View() == Observed(old(View()), ev)
    {
      match ev {
        case Up(hostname) =>
          var s := Status(Connected, "", "", status.startedAt);
          if hostname != "" {
            s := s.(subdomain := hostname);
          } else if status.subdomain != "" {
            s := s.(subdomain := status.subdomain);
          }
          failureCount := 0;
          status := s;
        case Down =>
          status := Status(Reconnecting, status.subdomain, "", status.startedAt);
      }
    }

    method Fail(err: Option<string>) returns (givesUp: bool)
      modifies `status, `failureCount
      ensures View() == Failing(old(View()), err) && givesUp == GivesUp(old(View()))
    {
      failureCount := failureCount + 1;
      if failureCount >= MAX_FAILURES {
        var errMsg := "too many consecutive failures";
        if err.Some? {
          errMsg := err.value;
        }
        status := Failed(errMsg);
        return true;
      }
      status := Plain(Reconnecting);
      return false;
    }

    method SetStopped()
      modifies `status
      ensures View() == old(View()).(status := Plain(Stopped))
    {
      status := Plain(Stopped);
    }

    /** run with its deferred section, when nobody else touches the manager meanwhile. */
    method Run(onces: nat -> (seq<LogEvent>, Option<string>), ctxDone: nat -> bool, ghost quiet: nat)
      returns (calls: nat, sleeps: seq<int>, stopped: bool)
      requires failureCount == 0
      requires forall i: nat :: i >= quiet ==> !HasUp(onces(i).0)
      modifies `status, `failureCount, `cancel, `done
      ensures cancel.None? && done.None? && calls <= quiet + 10
      ensures forall i :: 0 <= i < |sleeps| ==> sleeps[i] == Backoff(i)
      ensures !stopped ==> FirstRowOfFailures(onces, calls) && |sleeps| == calls - 1 && status.state == Error
      ensures stopped ==> status == Plain(Stopped)
    {
      hide Backoff, HasUp, FirstRowOfFailures;
      calls, sleeps, stopped := RunLoop(onces, ctxDone, quiet);
      Forget();
    }

    /** The loop of run. onces holds the log events and the error of each runOnce call; ctxDone says at which
        looks at the context it is cancelled; from call number quiet on nothing connects any more. */
    method RunLoop(onces: nat -> (seq<LogEvent>, Option<string>), ctxDone: nat -> bool, ghost quiet: nat)
      returns (calls: nat, sleeps: seq<int>, stopped: bool)
      requires failureCount == 0
      requires forall i: nat :: i >= quiet ==> !HasUp(onces(i).0)
      modifies `status, `failureCount
      ensures forall i :: 0 <= i < |sleeps| ==> sleeps[i] == Backoff(i)
      ensures stopped ==> status == Plain(Stopped)
      ensures !stopped ==> FirstRowOfFailures(onces, calls) && |sleeps| == calls - 1
      ensures !stopped ==> status.state == Error && failureCount == 10
      ensures calls <= quiet + 10 && |sleeps| <= calls
      ensures stopped ==> exists i: nat :: i <= 3 * |sleeps| + 2 && ctxDone(i)
      ensures !stopped ==> forall i: nat :: i < 3 * calls - 1 ==> !ctxDone(i)
    {
      hide Streak, Backoff, HasUp, Plain, RowOfFailures, FirstRowOfFailures, ObservedAll;
      FirstStreak(onces);
      calls, sleeps, stopped := 0, [], false;
      var looks: nat := 0;
      var backoff := 1;
      while true
        invariant calls == |sleeps| && looks == 3 * calls
        invariant backoff == Backoff(calls)
        invariant forall i :: 0 <= i < |sleeps| ==> sleeps[i] == Backoff(i)
        invariant failureCount == Streak(onces, calls) && failureCount < MAX_FAILURES
        invariant forall c: nat :: c <= calls ==> Streak(onces, c) < MAX_FAILURES
        invariant forall i: nat :: i < looks ==> !ctxDone(i)
        decreases if quiet > calls then quiet - calls else 0, MAX_FAILURES - failureCount
      {
        if ctxDone(looks) {
          SetStopped();
          stopped := true;
          StreakBound(onces, quiet, calls);
          return;
        }
        looks := looks + 1;
        var (events, err) := onces(calls);
        RunOnce(events);
        NextStreak(onces, calls);
        StreakBound(onces, quiet, calls);
        calls := calls + 1;
        if ctxDone(looks) {
          SetStopped();
          stopped := true;
          return;
        }
        looks := looks + 1;
        var givesUp := Fail(err);
        if givesUp {
          StreakMeansFailures(onces, calls);
          return;
        }
        // The timer and the context may both be ready; ctxDone(looks) says that the context was taken.
        if ctxDone(looks) {
          SetStopped();
          stopped := true;
          return;
        }
        looks := looks + 1;
        NextBackoff(|sleeps|);
        sleeps := sleeps + [backoff];
        backoff := backoff * 2;
        if backoff > MAX_BACKOFF {
          backoff := MAX_BACKOFF;
        }
      }
    }

    /** The event loop of runOnce. */
    method RunOnce(events: seq<LogEvent>)
      modifies `status, `failureCount
      ensures View() == ObservedAll(old(View()), events)
      ensures failureCount == if HasUp(events) then 0 else old(failureCount)
    {
      hide HasUp, Observed;
      for i := 0 to |events|
        invariant View() == ObservedAll(old(View()), events[..i])
      {
        assert events[..i + 1][..i] == events[..i];
        Observe(events[i]);
      }
      assert events[..|events|] == events;
      StatusRemembers(old(View()), events);
    }
  }

  // ----- what the status remembers -----

  /** The fields after the log events of one process. */
  function ObservedAll(f: Fields, events: seq<LogEvent>): Fields {
    if events == [] then f else Observed(ObservedAll(f, events[..|events| - 1]), events[|events| - 1])
  }

  /** The last host name announced, or the one known before. */
  function LastHostname(known: string, events: seq<LogEvent>): string {
    if events == [] then known
    else
      var n := |events| - 1;
      if events[n].Up? && events[n].hostname != "" then events[n].hostname else LastHostname(known, events[..n])
  }

  /**
    While one process runs the status keeps the start time and the last host name
    announced, through lost and regained connections, and says whether the last
    event was a connection.
  */
  lemma {:induction false} StatusRemembers(f: Fields, events: seq<LogEvent>)
    ensures var g := ObservedAll(f, events);
            && g.status.startedAt == f.status.startedAt
            && g.status.subdomain == LastHostname(f.status.subdomain, events)
            && (events != [] ==> g.status.state == if events[|events| - 1].Up? then Connected else Reconnecting)
            && g.failureCount == (if HasUp(events) then 0 else f.failureCount)
            && g.cancel == f.cancel && g.done == f.done && g.cfg == f.cfg
  {
    if events != [] {
      var n := |events| - 1;
      StatusRemembers(f, events[..n]);
      assert HasUp(events) <==> HasUp(events[..n]) || events[n].Up? by { HasUpSplits(events); }
    }
  }

  lemma HasUpSplits(events: seq<LogEvent>)
    requires events != []
    ensures HasUp(events) <==> HasUp(events[..|events| - 1]) || events[|events| - 1].Up?
  {
    var n := |events| - 1;
    if HasUp(events[..n]) {
      var i :| 0 <= i < n && events[..n][i].Up?;
      assert events[i].Up?;
    }
    if HasUp(events) && !events[n].Up? {
      var i :| 0 <= i < |events| && events[i].Up?;
      assert events[..n][i].Up?;
    }
  }

  /**
    The tenth failure in a row ends the run in an error, the process's own if it gave
    one; an earlier one leaves it reconnecting, with neither start time nor host name.
  */
  lemma FailureMeans(f: Fields, err: Option<string>)
    ensures var g := Failing(f, err);
            && g.failureCount == f.failureCount + 1 && g.cfg == f.cfg && g.cancel == f.cancel && g.done == f.done
            && g.status == if f.failureCount + 1 < 10 then Status(Reconnecting, "", "", None)
                           else if err.Some? then Status(Error, "", err.value, None)
                           else Status(Error, "", "too many consecutive failures", None)
    ensures GivesUp(f) <==> f.failureCount + 1 >= 10
  {
  }

  // ----- the retry bound -----

  predicate HasUp(events: seq<LogEvent>) {
    exists i :: 0 <= i < |events| && events[i].Up?
  }

  /** Sleep number i, from 0: 1, 2, 4, ... seconds, at most 60. */
  function Backoff(i: nat): (s: int)
    ensures 1 <= s <= MAX_BACKOFF
  {
    if i == 0 then 1 else if 2 * Backoff(i - 1) > MAX_BACKOFF then MAX_BACKOFF else 2 * Backoff(i - 1)
  }

  /** failureCount after a number of calls: the calls since the last one that connected, that one included. */
  function Streak(onces: nat -> (seq<LogEvent>, Option<string>), calls: nat): nat {
    if calls == 0 then 0 else if HasUp(onces(calls - 1).0) then 1 else Streak(onces, calls - 1) + 1
  }

  /** The calls end in a row of ten of which only the first may have connected. */
  predicate RowOfFailures(onces: nat -> (seq<LogEvent>, Option<string>), calls: nat) {
    calls >= 10 && forall i: nat :: calls - 10 < i < calls ==> !HasUp(onces(i).0)
  }

  predicate FirstRowOfFailures(onces: nat -> (seq<LogEvent>, Option<string>), calls: nat) {
    RowOfFailures(onces, calls) && forall c: nat :: c < calls ==> !RowOfFailures(onces, c)
  }

  lemma FirstStreak(onces: nat -> (seq<LogEvent>, Option<string>))
    ensures Streak(onces, 0) == 0 && Backoff(0) == 1
  {
  }

  lemma NextStreak(onces: nat -> (seq<LogEvent>, Option<string>), calls: nat)
    ensures Streak(onces, calls + 1) == if HasUp(onces(calls).0) then 1 else Streak(onces, calls) + 1
  {
  }

  lemma NextBackoff(i: nat)
    ensures Backoff(i + 1) == if 2 * Backoff(i) > MAX_BACKOFF then MAX_BACKOFF else 2 * Backoff(i)
  {
  }

  lemma {:induction false} StreakIs(onces: nat -> (seq<LogEvent>, Option<string>), calls: nat)
    ensures Streak(onces, calls) <= calls
    ensures forall i: nat :: calls - Streak(onces, calls) < i < calls ==> !HasUp(onces(i).0)
    ensures Streak(onces, calls) < calls ==> HasUp(onces(calls - Streak(onces, calls)).0)
  {
    if calls > 0 { StreakIs(onces, calls - 1); }
  }

  lemma StreakBound(onces: nat -> (seq<LogEvent>, Option<string>), quiet: nat, calls: nat)
    requires forall i: nat :: i >= quiet ==> !HasUp(onces(i).0)
    requires Streak(onces, calls) < MAX_FAILURES
    ensures calls < quiet + MAX_FAILURES
  {
    StreakIs(onces, calls);
  }

  lemma StreakRow(onces: nat -> (seq<LogEvent>, Option<string>), calls: nat)
    ensures Streak(onces, calls) >= MAX_FAILURES <==> RowOfFailures(onces, calls)
  {
    StreakIs(onces, calls);
  }

  lemma StreakMeansFailures(onces: nat -> (seq<LogEvent>, Option<string>), calls: nat)
    requires Streak(onces, calls) >= MAX_FAILURES && forall c: nat :: c < calls ==> Streak(onces, c) < MAX_FAILURES
    ensures FirstRowOfFailures(onces, calls)
  {
    forall c: nat ensures Streak(onces, c) >= MAX_FAILURES <==> RowOfFailures(onces, c) { StreakRow(onces, c); }
  }

  function Pow2(n: nat): nat { if n == 0 then 1 else 2 * Pow2(n - 1) }

  /** The n-th sleep is min(2^(n-1), 60) seconds, for every n. */
  lemma {:induction false} BackoffIs(i: nat)
    ensures Backoff(i) == if Pow2(i) < 60 then Pow2(i) else 60
  {
    if i > 0 { BackoffIs(i - 1); }
  }

  function Total(sleeps: seq<int>): int {
    if sleeps == [] then 0 else Total(sleeps[..|sleeps| - 1]) + sleeps[|sleeps| - 1]
  }

  /** If no call ever connects the first row of failures is the first ten calls. */
  lemma NoConnectionMeansTenCalls(onces: nat -> (seq<LogEvent>, Option<string>), calls: nat)
    requires forall i: nat :: !HasUp(onces(i).0)
    ensures FirstRowOfFailures(onces, calls) <==> calls == 10
  {
    assert RowOfFailures(onces, 10);
  }

  /** The nine sleeps between ten calls take 243 seconds. */
  lemma NineSleeps(sleeps: seq<int>)
    requires |sleeps| == 9 && forall i :: 0 <= i < |sleeps| ==> sleeps[i] == Backoff(i)
    ensures Total(sleeps) == 243
  {
    assert sleeps[..9] == sleeps;
    TotalNext(sleeps, 0);
    TotalNext(sleeps, 1);
    TotalNext(sleeps, 2);
    TotalNext(sleeps, 3);
    TotalNext(sleeps, 4);
    TotalNext(sleeps, 5);
    TotalNext(sleeps, 6);
    TotalNext(sleeps, 7);
    TotalNext(sleeps, 8);
    FirstBackoffs();
  }

  lemma TotalNext(sleeps: seq<int>, i: nat)
    requires i < |sleeps|
    ensures Total(sleeps[..i + 1]) == Total(sleeps[..i]) + sleeps[i]
  {
    assert sleeps[..i + 1][..i] == sleeps[..i];
  }

  lemma FirstBackoffs()
    ensures Backoff(0) == 1 && Backoff(1) == 2 && Backoff(2) == 4 && Backoff(3) == 8 && Backoff(4) == 16
    ensures Backoff(5) == 32 && Backoff(6) == 60 && Backoff(7) == 60 && Backoff(8) == 60
  {
    assert Backoff(2) == 4;
    assert Backoff(4) == 16;
    assert Backoff(6) == 60;
  }
}
