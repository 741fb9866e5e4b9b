/** The fixed-window rate limiter. */
module RateLimit {

  /** One key's window: calls seen and the last instant that still belongs to it. */
  datatype Window = Window(count: nat, windowAt: int)

  type Table = map<string, Window>

  // ----- the two operations on values -----

  predicate Expired(w: Window, now: int) {
    now > w.windowAt
  }

  function AllowStep(t: Table, key: string, limit: int, window: int, now: int): (Table, bool) {
    if key !in t || Expired(t[key], now) then (t[key := Window(1, now + window)], true)
    else (t[key := t[key].(count := t[key].count + 1)], t[key].count + 1 <= limit)
  }

  function CleanupStep(t: Table, now: int): Table {
    map key | key in t && !Expired(t[key], now) :: t[key]
  }

  class RateLimiter {
    var entries: Table

    constructor ()
      ensures entries == map[]
    {
      entries := map[];
    }

    method Allow(key: string, limit: int, window: int, now: int) returns (allowed: bool)
      modifies this
      ensures (entries, allowed) == AllowStep(old(entries), key, limit, window, now)
    {
      if key !in entries || now > entries[key].windowAt {
        entries := entries[key := Window(1, now + window)];
        return true;
      }
      var e := entries[key];
      e := e.(count := e.count + 1);
      entries := entries[key := e];
      return e.count <= limit;
    }

    method Cleanup(now: int)
      modifies this
      ensures entries == CleanupStep(old(entries), now)
      ensures forall key :: key in entries <==> key in old(entries) && old(entries)[key].windowAt >= now
      ensures forall key :: key in entries ==> entries[key] == old(entries)[key]
    {
      var keys := entries.Keys;
      var kept := entries;
      while keys != {}
        invariant keys <= entries.Keys && entries == old(entries)
        invariant kept == map key | key in entries && !(key !in keys && Expired(entries[key], now)) :: entries[key]
        decreases keys
      {
        var key :| key in keys;
        if now > entries[key].windowAt {
          kept := map k | k in kept && k != key :: kept[k];
        }
        keys := keys - {key};
      }
      entries := kept;
    }
  }

  // ----- runs -----

  datatype Step =
    | Call(key: string, limit: int, window: int, now: int)
    | Sweep(now: int)

  /** Apply a step; a sweep answers nothing. */
  function Do(t: Table, s: Step): (Table, seq<bool>) {
    match s
    case Call(key, limit, window, now) => var (u, b) := AllowStep(t, key, limit, window, now); (u, [b])
    case Sweep(now) => (CleanupStep(t, now), [])
  }

  /** The answers of a run, in order. */
  function Answers(t: Table, steps: seq<Step>): seq<bool>
    decreases |steps|
  {
    if steps == [] then [] else Do(t, steps[0]).1 + Answers(Do(t, steps[0]).0, steps[1..])
  }

  /** The same run without its sweeps. */
  function Calls(steps: seq<Step>): (calls: seq<Step>)
    ensures forall s :: s in calls ==> s in steps
  {
    if steps == [] then [] else (if steps[0].Call? then [steps[0]] else []) + Calls(steps[1..])
  }

  /** The clock never runs backwards. */
  ghost predicate Monotone(steps: seq<Step>, from: int) {
    && (forall i :: 0 <= i < |steps| ==> from <= steps[i].now)
    && (forall i, j :: 0 <= i < j < |steps| ==> steps[i].now <= steps[j].now)
  }

  /** Two tables that differ only in windows that are over. */
  ghost predicate SameLive(t: Table, u: Table, now: int) {
    forall key :: (key in t && !Expired(t[key], now)) || (key in u && !Expired(u[key], now)) ==>
      key in t && key in u && t[key] == u[key]
  }

  lemma StaysSameLive(t: Table, u: Table, now: int, later: int)
    requires SameLive(t, u, now) && now <= later
    ensures SameLive(t, u, later)
  {
  }

  lemma CallOnBoth(t: Table, u: Table, s: Step)
    requires s.Call? && SameLive(t, u, s.now)
    ensures Do(t, s).1 == Do(u, s).1 && SameLive(Do(t, s).0, Do(u, s).0, s.now)
  {
  }

  lemma SweepOnOne(t: Table, u: Table, now: int)
    requires SameLive(t, u, now)
    ensures SameLive(CleanupStep(t, now), u, now)
  {
  }

  lemma {:induction false} SweepsInvisibleFrom(t: Table, u: Table, steps: seq<Step>, now: int)
    requires SameLive(t, u, now) && Monotone(steps, now)
    ensures Answers(t, steps) == Answers(u, Calls(steps))
    decreases |steps|
  {
    if steps != [] {
      var s, rest := steps[0], steps[1..];
      StaysSameLive(t, u, now, s.now);
      assert Monotone(rest, s.now);
      if s.Call? {
        CallOnBoth(t, u, s);
        SweepsInvisibleFrom(Do(t, s).0, Do(u, s).0, rest, s.now);
        assert ([s] + Calls(rest))[1..] == Calls(rest);
      } else {
        SweepOnOne(t, u, s.now);
        SweepsInvisibleFrom(Do(t, s).0, u, rest, s.now);
        assert [] + Answers(Do(t, s).0, rest) == Answers(Do(t, s).0, rest);
        assert [] + Calls(rest) == Calls(rest);
      }
    }
  }

  /** Cleanup is invisible: sweeps anywhere in a run change no answer, for any limits and windows. */
  lemma SweepsInvisible(t: Table, steps: seq<Step>, now: int)
    requires Monotone(steps, now)
    ensures Answers(t, steps) == Answers(t, Calls(steps))
  {
    SweepsInvisibleFrom(t, t, steps, now);
  }

  // ----- which calls are allowed -----

  /** The calls of a run for one key, in order. */
  function CallsFor(steps: seq<Step>, key: string): seq<Step> {
    if steps == [] then []
    else (if steps[0].Call? && steps[0].key == key then [steps[0]] else []) + CallsFor(steps[1..], key)
  }

  /** And the answers to them. */
  function AnswersFor(t: Table, steps: seq<Step>, key: string): seq<bool>
    decreases |steps|
  {
    if steps == [] then []
    else
      (if steps[0].Call? && steps[0].key == key then Do(t, steps[0]).1 else [])
      + AnswersFor(Do(t, steps[0]).0, steps[1..], key)
  }

  /** The call that opened the window call n falls into: the first one, or the first after the last window was over. */
  function OpenedBy(calls: seq<Step>, n: nat): (o: nat)
    requires n < |calls| && forall i :: 0 <= i < |calls| ==> calls[i].Call?
    ensures o <= n
  {
    if n == 0 then 0
    else
      var o := OpenedBy(calls, n - 1);
      if calls[n].now > calls[o].now + calls[o].window then n else o
  }

  lemma {:induction false} CallsForAreCalls(steps: seq<Step>, key: string)
    ensures forall i :: 0 <= i < |CallsFor(steps, key)| ==> CallsFor(steps, key)[i].Call?
  {
    if steps != [] { CallsForAreCalls(steps[1..], key); }
  }

  /** What the table holds for a key after some calls for it: their window, unless a sweep found it over. */
  ghost predicate Tracks(t: Table, key: string, calls: seq<Step>, now: int)
    requires forall i :: 0 <= i < |calls| ==> calls[i].Call?
  {
    if calls == [] then key !in t
    else
      var o := OpenedBy(calls, |calls| - 1);
      var end := calls[o].now + calls[o].window;
      if key in t then t[key] == Window(|calls| - o, end) else now > end
  }

  lemma {:induction false} OpenedByPrefix(calls: seq<Step>, more: seq<Step>, n: nat)
    requires n < |calls| && forall i :: 0 <= i < |calls + more| ==> (calls + more)[i].Call?
    requires forall i :: 0 <= i < |calls| ==> calls[i].Call?
    ensures OpenedBy(calls + more, n) == OpenedBy(calls, n)
  {
    if n > 0 { OpenedByPrefix(calls, more, n - 1); }
  }

  lemma OwnCallTracks(t: Table, key: string, calls: seq<Step>, s: Step, now: int)
    requires forall i :: 0 <= i < |calls| ==> calls[i].Call?
    requires s.Call? && s.key == key && Tracks(t, key, calls, now) && now <= s.now
    ensures forall i :: 0 <= i < |calls + [s]| ==> (calls + [s])[i].Call?
    ensures Tracks(Do(t, s).0, key, calls + [s], s.now)
    ensures var o := OpenedBy(calls + [s], |calls|);
            Do(t, s).1 == [o == |calls| || |calls| - o < s.limit]
  {
    if calls != [] {
      OpenedByPrefix(calls, [s], |calls| - 1);
    }
  }

  lemma OtherStepTracks(t: Table, key: string, calls: seq<Step>, s: Step, now: int)
    requires forall i :: 0 <= i < |calls| ==> calls[i].Call?
    requires !(s.Call? && s.key == key) && Tracks(t, key, calls, now) && now <= s.now
    ensures Tracks(Do(t, s).0, key, calls, s.now)
  {
  }

  lemma {:induction false} AllowedFrom(t: Table, steps: seq<Step>, key: string, before: seq<Step>, now: int, n: nat)
    requires forall i :: 0 <= i < |before| ==> before[i].Call?
    requires Tracks(t, key, before, now) && Monotone(steps, now) && n < |CallsFor(steps, key)|
    ensures |AnswersFor(t, steps, key)| == |CallsFor(steps, key)|
    ensures forall i :: 0 <= i < |before + CallsFor(steps, key)| ==> (before + CallsFor(steps, key))[i].Call?
    ensures var all := before + CallsFor(steps, key);
            var o := OpenedBy(all, |before| + n);
            AnswersFor(t, steps, key)[n] <==> o == |before| + n || |before| + n - o < all[|before| + n].limit
    decreases |steps|
  {
    hide Do, Tracks, OpenedBy;
    CallsForAreCalls(steps, key);
    LengthsAgree(t, steps, key);
    var s, rest := steps[0], steps[1..];
    var u := Do(t, s).0;
    assert Monotone(rest, s.now);
    if s.Call? && s.key == key {
      OwnCallTracks(t, key, before, s, now);
      var all := before + CallsFor(steps, key);
      assert before + [s] + CallsFor(rest, key) == all;
      if n == 0 {
        CallsForAreCalls(rest, key);
        OpenedByPrefix(before + [s], CallsFor(rest, key), |before|);
      } else {
        AllowedFrom(u, rest, key, before + [s], s.now, n - 1);
      }
    } else {
      OtherStepTracks(t, key, before, s, now);
      AllowedFrom(u, rest, key, before, s.now, n);
      assert [] + CallsFor(rest, key) == CallsFor(rest, key);
      assert [] + AnswersFor(u, rest, key) == AnswersFor(u, rest, key);
    }
  }

  lemma {:induction false} LengthsAgree(t: Table, steps: seq<Step>, key: string)
    ensures |AnswersFor(t, steps, key)| == |CallsFor(steps, key)|
    decreases |steps|
  {
    if steps != [] { LengthsAgree(Do(t, steps[0]).0, steps[1..], key); }
  }

  /**
    In every run from an empty table with a clock that never runs backwards, whatever
    other keys and sweeps come between, a call is allowed exactly if it opens a window
    or its key has fewer earlier calls, refused ones included, since its window was
    opened than the call's limit.
  */
  lemma {:induction false} AllowedIff(steps: seq<Step>, key: string, now: int, n: nat)
    requires Monotone(steps, now) && n < |CallsFor(steps, key)|
    ensures |AnswersFor(map[], steps, key)| == |CallsFor(steps, key)|
    ensures forall i :: 0 <= i < |CallsFor(steps, key)| ==> CallsFor(steps, key)[i].Call?
    ensures var calls := CallsFor(steps, key);
            var o := OpenedBy(calls, n);
            AnswersFor(map[], steps, key)[n] <==> o == n || n - o < calls[n].limit
  {
    hide CallsFor, AnswersFor, OpenedBy;
    AllowedFrom(map[], steps, key, [], now, n);
    assert [] + CallsFor(steps, key) == CallsFor(steps, key);
  }

  // ----- the bound -----

  /** The calls for a key that a run allows in a closed interval of time. */
  function Allowed(t: Table, steps: seq<Step>, key: string, lo: int, hi: int): nat
    decreases |steps|
  {
    if steps == [] then 0
    else
      var (u, answer) := Do(t, steps[0]);
      (if steps[0].Call? && steps[0].key == key && answer == [true] && lo <= steps[0].now <= hi then 1 else 0)
      + Allowed(u, steps[1..], key, lo, hi)
  }

  /** The key's calls all use one limit and one window. */
  ghost predicate Fixed(steps: seq<Step>, key: string, limit: int, window: int) {
    forall i :: 0 <= i < |steps| && steps[i].Call? && steps[i].key == key ==>
      steps[i].limit == limit && steps[i].window == window
  }

  /** What a window can still admit. */
  function Room(w: Window, limit: int): int {
    if w.count < limit then limit - w.count else 0
  }

  /** After the interval nothing more counts. */
  lemma {:induction false} NothingAfter(t: Table, steps: seq<Step>, key: string, lo: int, hi: int, now: int)
    requires Monotone(steps, now) && hi < now
    ensures Allowed(t, steps, key, lo, hi) == 0
    decreases |steps|
  {
    if steps != [] {
      assert Monotone(steps[1..], now);
      NothingAfter(Do(t, steps[0]).0, steps[1..], key, lo, hi, now);
    }
  }

  /** A window that outlasts the interval admits at most the limit, counting what it has seen. */
  lemma {:induction false} WithinWindow(t: Table, steps: seq<Step>, key: string, limit: int, window: int,
                                        lo: int, hi: int, now: int)
    requires Monotone(steps, now) && Fixed(steps, key, limit, window) && limit >= 1
    requires key in t && hi <= t[key].windowAt
    ensures Allowed(t, steps, key, lo, hi) <= Room(t[key], limit)
    decreases |steps|
  {
    if steps != [] {
      var s, rest := steps[0], steps[1..];
      var u := Do(t, s).0;
      assert Monotone(rest, s.now);
      assert Fixed(rest, key, limit, window);
      if hi < s.now {
        NothingAfter(u, rest, key, lo, hi, s.now);
      } else {
        WithinWindow(u, rest, key, limit, window, lo, hi, s.now);
      }
    }
  }

  /** What the key can still be allowed in the interval from an instant on: at most two windows meet it. */
  function Budget(t: Table, key: string, limit: int, lo: int, now: int): int {
    if key in t && t[key].windowAt >= lo && t[key].windowAt >= now then Room(t[key], limit) + limit
    else if now >= lo then limit
    else 2 * limit - 1
  }

  lemma {:induction false} WithinBudget(t: Table, steps: seq<Step>, key: string, limit: int, window: int,
                                        lo: int, now: int)
    requires Monotone(steps, now) && Fixed(steps, key, limit, window) && limit >= 1 && window >= 0
    requires key in t ==> t[key].count >= 1
    ensures Allowed(t, steps, key, lo, lo + window) <= Budget(t, key, limit, lo, now)
    decreases |steps|
  {
    var hi := lo + window;
    if steps != [] {
      var s, rest := steps[0], steps[1..];
      var u := Do(t, s).0;
      assert Monotone(rest, s.now);
      assert Fixed(rest, key, limit, window);
      if s.Call? && s.key == key && (key !in t || Expired(t[key], s.now)) && lo <= s.now {
        // A window opened inside the interval outlasts it.
        if hi < s.now {
          NothingAfter(u, rest, key, lo, hi, s.now);
        } else {
          WithinWindow(u, rest, key, limit, window, lo, hi, s.now);
        }
      } else {
        WithinBudget(u, rest, key, limit, window, lo, s.now);
      }
    }
  }

  /**
    In every run with a clock that never runs backwards and one limit and window for
    the key, a closed interval as long as the window holds fewer than twice the limit
    of allowed calls for that key: the call that opens a window is never in the same
    interval as the next window.
  */
  lemma FewerThanTwiceTheLimit(t: Table, steps: seq<Step>, key: string, limit: int, window: int, lo: int, now: int)
    requires Monotone(steps, now) && Fixed(steps, key, limit, window) && limit >= 1 && window >= 0
    requires key in t ==> t[key].count >= 1
    ensures Allowed(t, steps, key, lo, lo + window) <= 2 * limit - 1
  {
    WithinBudget(t, steps, key, limit, window, lo, now);
  }

  function Burst(n: nat, key: string, limit: int, window: int, at: int): seq<Step> {
    if n == 0 then [] else [Call(key, limit, window, at)] + Burst(n - 1, key, limit, window, at)
  }

  lemma {:induction false} BurstAllowed(t: Table, n: nat, key: string, limit: int, window: int, at: int,
                                        rest: seq<Step>, lo: int, hi: int)
    requires key in t && !Expired(t[key], at) && t[key].count + n <= limit && lo <= at <= hi
    ensures Allowed(t, Burst(n, key, limit, window, at) + rest, key, lo, hi)
         == n + Allowed(t[key := Window(t[key].count + n, t[key].windowAt)], rest, key, lo, hi)
  {
    var steps := Burst(n, key, limit, window, at) + rest;
    if n == 0 {
      assert steps == rest;
      assert t[key := Window(t[key].count, t[key].windowAt)] == t;
    } else {
      var u := t[key := Window(t[key].count + 1, t[key].windowAt)];
      assert steps[1..] == Burst(n - 1, key, limit, window, at) + rest;
      assert Do(t, steps[0]) == (u, [true]);
      BurstAllowed(u, n - 1, key, limit, window, at, rest, lo, hi);
      assert u[key := Window(t[key].count + n, t[key].windowAt)] == t[key := Window(t[key].count + n, t[key].windowAt)];
    }
  }

  /** A call that opens a window is allowed. */
  lemma FirstCall(t: Table, steps: seq<Step>, key: string, limit: int, window: int, at: int, lo: int, hi: int)
    requires steps != [] && steps[0] == Call(key, limit, window, at) && (key in t ==> Expired(t[key], at))
    ensures var rest := Allowed(t[key := Window(1, at + window)], steps[1..], key, lo, hi);
            Allowed(t, steps, key, lo, hi) == rest + if lo <= at <= hi then 1 else 0
  {
    assert Do(t, steps[0]) == (t[key := Window(1, at + window)], [true]);
  }

  /** A fresh window and a burst that fills it: all its calls are allowed. */
  lemma FullWindow(t: Table, key: string, limit: nat, window: int, at: int, burstAt: int, rest: seq<Step>,
                   lo: int, hi: int)
    requires limit >= 1 && (key in t ==> Expired(t[key], at)) && at <= burstAt <= at + window && lo <= burstAt <= hi
    ensures Allowed(t, [Call(key, limit, window, at)] + (Burst(limit - 1, key, limit, window, burstAt) + rest),
                    key, lo, hi)
         == (if lo <= at <= hi then limit else limit - 1)
            + Allowed(t[key := Window(limit, at + window)], rest, key, lo, hi)
  {
    hide Allowed, Burst;
    var burst := Burst(limit - 1, key, limit, window, burstAt) + rest;
    var steps := [Call(key, limit, window, at)] + burst;
    var u := t[key := Window(1, at + window)];
    assert steps[1..] == burst;
    FirstCall(t, steps, key, limit, window, at, lo, hi);
    BurstAllowed(u, limit - 1, key, limit, window, burstAt, rest, lo, hi);
    assert u[key := Window(limit, at + window)] == t[key := Window(limit, at + window)];
  }

  /** The bound is sharp: late calls in one window and a burst at the start of the next reach it. */
  lemma BoundIsReached(key: string, limit: nat, window: int)
    requires limit >= 1 && window >= 1
    ensures var steps := [Call(key, limit, window, 0)] + (Burst(limit - 1, key, limit, window, window)
                         + ([Call(key, limit, window, window + 1)]
                           + (Burst(limit - 1, key, limit, window, window + 1) + [])));
            Allowed(map[], steps, key, window, window + window) == 2 * limit - 1
  {
    hide Burst;
    var second := [Call(key, limit, window, window + 1)] + (Burst(limit - 1, key, limit, window, window + 1) + []);
    FullWindow(map[], key, limit, window, 0, window, second, window, window + window);
    var filled: Table := map[key := Window(limit, window)];
    FullWindow(filled, key, limit, window, window + 1, window + 1, [], window, window + window);
  }
}
