/**
 The debounce protocol of the file watcher (realtime_updater.py, CodeChangeEventHandler).

 State is what the handler's lock protects plus the timers it has started; Step is what can happen between two
 releases of that lock, in any interleaving.  Events and timers are numbered in the order they are created.
 */
module Debounce {
  import opened Options

  // A timer is armed until it expires; then its callback has started and waits for the lock.  cancel() reaches armed
  // timers only.
  datatype Status = Armed | Firing | Cancelled | Finished

  datatype Timer = Timer(path: string, deadline: real, status: Status)

  datatype Settings = Settings(debounce: real, maxWait: real)

  // timers, first and pending are the handler's dictionaries; read, last, armed, events and replacedBy only record
  // history: the latest reading of the clock, the reading for the latest event of a path and the time its timer was
  // started, the path of each event, and which event took the place of which.  inFlight holds the events whose update
  // waits for the update lock.
  datatype State = State(
    clock: real,
    read: real,
    timers: map<string, nat>,
    first: map<string, real>,
    pending: map<string, nat>,
    pool: seq<Timer>,
    last: map<string, real>,
    armed: map<string, real>,
    events: seq<string>,
    inFlight: set<nat>,
    processed: seq<nat>,
    replacedBy: map<nat, nat>)

  datatype Step =
    | Tick(now: real)
    | Dispatch(path: string, read: real)
    | Expire(timer: nat)
    | Callback(timer: nat)
    | Process(event: nat)

  function Initial(clock: real): State {
    State(clock, clock, map[], map[], map[], [], map[], map[], [], {}, [], map[])
  }

  // Events are dispatched one after the other, and dispatch reads the clock before it waits for the lock.
  predicate Enabled(s: State, step: Step) {
    match step
    case Tick(now) => s.clock <= now
    case Dispatch(_, read) => s.read <= read <= s.clock
    case Expire(t) => t < |s.pool| && s.pool[t].status == Armed && s.pool[t].deadline <= s.clock
    case Callback(t) => t < |s.pool| && s.pool[t].status == Firing
    case Process(e) => e in s.inFlight
  }

  function RMin(a: real, b: real): real {
    if a <= b then a else b
  }

  function RMax(a: real, b: real): real {
    if a <= b then b else a
  }

  // The delay of the timer started at `now` for a burst whose first event came at `first`.
  function Delay(c: Settings, now: real, first: real): real {
    if now - first >= c.maxWait then 0.0 else RMin(c.debounce, c.maxWait - (now - first))
  }

  function SetStatus(pool: seq<Timer>, t: nat, status: Status): seq<Timer>
    requires t < |pool|
  {
    pool[t := pool[t].(status := status)]
  }

  function Cancel(pool: seq<Timer>, t: nat): seq<Timer> {
    if t < |pool| && pool[t].status == Armed then SetStatus(pool, t, Cancelled) else pool
  }

  // The recorded timer of a path, if there is one, is cancelled.
  function CancelRecorded(timers: map<string, nat>, pool: seq<Timer>, path: string): (pool': seq<Timer>)
    ensures |pool'| == |pool|
  {
    if path in timers then Cancel(pool, timers[path]) else pool
  }

  // A burst keeps the time of its first event.
  function StartBurst(first: map<string, real>, path: string, now: real): (first': map<string, real>)
    ensures path in first'
  {
    if path in first then first else first[path := now]
  }

  function Replace(replacedBy: map<nat, nat>, pending: map<string, nat>, path: string, event: nat): map<nat, nat> {
    if path in pending then replacedBy[pending[path] := event] else replacedBy
  }

  function AfterDispatch(c: Settings, s: State, path: string, read: real): State {
    var event := |s.events|;
    if c.debounce <= 0.0 then s.(events := s.events + [path], inFlight := s.inFlight + {event})
    else
      var first := StartBurst(s.first, path, read);
      var pool := CancelRecorded(s.timers, s.pool, path);
      s.(read := read,
         first := first,
         replacedBy := Replace(s.replacedBy, s.pending, path, event),
         pending := s.pending[path := event],
         timers := s.timers[path := |pool|],
         pool := pool + [Timer(path, s.clock + Delay(c, read, first[path]), Armed)],
         last := s.last[path := read],
         armed := s.armed[path := s.clock],
         events := s.events + [path])
  }

  function AfterCallback(s: State, t: nat): State
    requires t < |s.pool|
  {
    var path := s.pool[t].path;
    s.(pool := SetStatus(s.pool, t, Finished),
       inFlight := if path in s.pending then s.inFlight + {s.pending[path]} else s.inFlight,
       pending := s.pending - {path},
       first := s.first - {path},
       timers := s.timers - {path},
       last := s.last - {path},
       armed := s.armed - {path})
  }

  function Next(c: Settings, s: State, step: Step): State
    requires Enabled(s, step)
  {
    match step
    case Tick(now) => s.(clock := now)
    case Dispatch(path, read) => AfterDispatch(c, s, path, read)
    case Expire(t) => s.(pool := SetStatus(s.pool, t, Firing))
    case Callback(t) => AfterCallback(s, t)
    case Process(e) => s.(inFlight := s.inFlight - {e}, processed := s.processed + [e])
  }

  // ----- what every release of the lock finds -----

  // A path has a pending event iff it has a first-event time iff it has a recorded timer, and that timer is armed or
  // its callback has started.
  ghost predicate Recorded(s: State) {
    && s.timers.Keys == s.first.Keys == s.pending.Keys == s.last.Keys == s.armed.Keys
    && forall p :: p in s.timers ==>
         && s.timers[p] < |s.pool|
         && s.pool[s.timers[p]].path == p
         && (s.pool[s.timers[p]].status == Armed || s.pool[s.timers[p]].status == Firing)
  }

  ghost predicate IsPending(s: State, e: nat) {
    exists p :: p in s.pending && s.pending[p] == e
  }

  // Where an accepted event is.
  ghost function Places(s: State, e: nat): nat {
    (if IsPending(s, e) then 1 else 0) + (if e in s.inFlight then 1 else 0)
    + multiset(s.processed)[e] + (if e in s.replacedBy then 1 else 0)
  }

  // Every accepted event is in exactly one place, once, and is replaced only by a later event for the same path.
  ghost predicate Accounted(s: State) {
    && (forall p :: p in s.pending ==> s.pending[p] < |s.events| && s.events[s.pending[p]] == p)
    && (forall e: nat :: Places(s, e) == if e < |s.events| then 1 else 0)
    && (forall e :: e in s.replacedBy ==>
          e < s.replacedBy[e] < |s.events| && s.events[e] == s.events[s.replacedBy[e]])
  }

  // When a burst is due: after the debounce time without an event, but no later than the maximum wait.
  function Due(c: Settings, first: real, last: real): real {
    if first + c.maxWait <= last then last
    else if last + c.debounce <= first + c.maxWait then last + c.debounce
    else first + c.maxWait
  }

  // The recorded timer's deadline is when the burst is due, later by what passed between the reading of the clock and
  // the start of the timer.
  ghost predicate Timed(c: Settings, s: State) {
    forall p :: p in s.timers && p in s.first && p in s.last && p in s.armed && s.timers[p] < |s.pool| ==>
      && s.first[p] <= s.last[p] <= s.read && s.last[p] <= s.armed[p] <= s.clock
      && s.pool[s.timers[p]].deadline == Due(c, s.first[p], s.last[p]) + (s.armed[p] - s.last[p])
  }

  // No callback has started before its time.
  ghost predicate NotEarly(s: State) {
    forall t :: 0 <= t < |s.pool| && s.pool[t].status == Firing ==> s.pool[t].deadline <= s.clock
  }

  ghost predicate Consistent(c: Settings, s: State) {
    Recorded(s) && Accounted(s) && Timed(c, s) && NotEarly(s) && s.read <= s.clock
  }

  // What a dispatch does to the handler's dictionaries and to the timers.
  ghost predicate Rearmed(c: Settings, s: State, s': State, path: string, read: real) {
    && s'.clock == s.clock && s'.read == read && path in s'.first
    && s'.timers == s.timers[path := |s.pool|]
    && s'.last == s.last[path := read] && s'.armed == s.armed[path := s.clock]
    && s'.pending == s.pending[path := |s.events|]
    && s'.first == (if path in s.first then s.first else s.first[path := read])
    && |s'.pool| == |s.pool| + 1
    && s'.pool[|s.pool|] == Timer(path, s.clock + Delay(c, read, s'.first[path]), Armed)
    && forall t :: 0 <= t < |s.pool| ==> SameTimer(s, s', path, t)
  }

  // A dispatch cancels the timer recorded for its path, if that is still armed, and no other.
  ghost predicate SameTimer(s: State, s': State, path: string, t: nat)
    requires t < |s.pool| && t < |s'.pool|
  {
    if path in s.timers && s.timers[path] == t && s.pool[t].status == Armed
      then s'.pool[t] == s.pool[t].(status := Cancelled)
      else s'.pool[t] == s.pool[t]
  }

  lemma DispatchRearms(c: Settings, s: State, path: string, read: real)
    requires c.debounce > 0.0
    ensures Rearmed(c, s, AfterDispatch(c, s, path, read), path, read)
  {
  }

  lemma KeyAdded<V>(m: map<string, V>, path: string, v: V)
    ensures m[path := v].Keys == m.Keys + {path}
  {
  }

  lemma RearmedKeys(c: Settings, s: State, s': State, path: string, read: real)
    requires Recorded(s) && Rearmed(c, s, s', path, read)
    ensures s'.timers.Keys == s'.first.Keys == s'.pending.Keys == s'.last.Keys == s'.armed.Keys
  {
    KeyAdded(s.timers, path, |s.pool|);
    KeyAdded(s.last, path, read);
    KeyAdded(s.armed, path, s.clock);
    KeyAdded(s.pending, path, |s.events|);
    KeyAdded(s.first, path, read);
    assert path in s.first ==> s.first.Keys + {path} == s.first.Keys;
  }

  lemma RecordedRearmed(c: Settings, s: State, s': State, path: string, read: real)
    requires Recorded(s) && Rearmed(c, s, s', path, read)
    ensures Recorded(s')
  {
    RearmedKeys(c, s, s', path, read);
    forall p | p in s'.timers
      ensures s'.timers[p] < |s'.pool| && s'.pool[s'.timers[p]].path == p
      ensures s'.pool[s'.timers[p]].status == Armed || s'.pool[s'.timers[p]].status == Firing
    {
      if p != path {
        assert s.pool[s.timers[p]].path == p && SameTimer(s, s', path, s.timers[p]);
      }
    }
  }

  // The two branches of the delay are one deadline.
  lemma DelayDue(c: Settings, first: real, last: real)
    requires c.debounce > 0.0
    ensures last + Delay(c, last, first) == Due(c, first, last)
  {
  }

  lemma TimedRearmed(c: Settings, s: State, s': State, path: string, read: real)
    requires c.debounce > 0.0 && Recorded(s) && Timed(c, s) && Rearmed(c, s, s', path, read)
    requires s.read <= read <= s.clock
    ensures Timed(c, s')
  {
    forall p | p in s'.timers && p in s'.first && p in s'.last && p in s'.armed && s'.timers[p] < |s'.pool|
      ensures s'.first[p] <= s'.last[p] <= s'.read && s'.last[p] <= s'.armed[p] <= s'.clock
      ensures s'.pool[s'.timers[p]].deadline == Due(c, s'.first[p], s'.last[p]) + (s'.armed[p] - s'.last[p])
    {
      if p != path {
        assert s.pool[s.timers[p]].path == p && SameTimer(s, s', path, s.timers[p]);
      } else {
        DelayDue(c, s'.first[path], read);
        assert path in s.first ==> path in s.timers && s.timers[path] < |s.pool|;
      }
    }
  }

  lemma RecordedCallback(s: State, t: nat)
    requires Recorded(s) && t < |s.pool|
    ensures Recorded(AfterCallback(s, t))
  {
  }

  lemma RecordedKept(c: Settings, s: State, step: Step)
    requires Recorded(s) && Enabled(s, step)
    ensures Recorded(Next(c, s, step))
  {
    match step
    case Dispatch(path, read) =>
      if c.debounce > 0.0 {
        DispatchRearms(c, s, path, read);
        RecordedRearmed(c, s, Next(c, s, step), path, read);
      }
    case Callback(t) => RecordedCallback(s, t);
    case _ =>
  }

  // The steps that start no timer keep the burst times of the paths that remain, and the deadlines.
  lemma TimedRest(c: Settings, s: State, s': State)
    requires Timed(c, s) && s.clock <= s'.clock && s.read <= s'.read && |s'.pool| == |s.pool|
    requires forall t :: 0 <= t < |s.pool| ==> s'.pool[t].deadline == s.pool[t].deadline
    requires forall p :: p in s'.timers ==> p in s.timers && s'.timers[p] == s.timers[p]
    requires forall p :: p in s'.first ==> p in s.first && s'.first[p] == s.first[p]
    requires forall p :: p in s'.last ==> p in s.last && s'.last[p] == s.last[p]
    requires forall p :: p in s'.armed ==> p in s.armed && s'.armed[p] == s.armed[p]
    ensures Timed(c, s')
  {
  }

  lemma TimedKept(c: Settings, s: State, step: Step)
    requires Recorded(s) && Timed(c, s) && Enabled(s, step)
    ensures Timed(c, Next(c, s, step))
  {
    if step.Dispatch? {
      if c.debounce > 0.0 {
        DispatchRearms(c, s, step.path, step.read);
        TimedRearmed(c, s, Next(c, s, step), step.path, step.read);
      }
    } else {
      TimedRest(c, s, Next(c, s, step));
    }
  }

  lemma NotEarlyKept(c: Settings, s: State, step: Step)
    requires NotEarly(s) && Enabled(s, step)
    ensures NotEarly(Next(c, s, step))
  {
    if step.Dispatch? && c.debounce > 0.0 {
      DispatchRearms(c, s, step.path, step.read);
      var s' := Next(c, s, step);
      forall t: nat | t < |s'.pool| && s'.pool[t].status == Firing ensures s'.pool[t].deadline <= s'.clock {
        assert t < |s.pool| && SameTimer(s, s', step.path, t);
      }
    }
  }

  lemma PendingOnce(s: State, p: string, e: nat)
    requires Accounted(s) && p in s.pending
    ensures IsPending(s, e) <==> (e == s.pending[p] || exists q :: q in s.pending && q != p && s.pending[q] == e)
    ensures s.pending[p] == e ==> forall q :: q in s.pending && q != p ==> s.pending[q] != e
  {
  }

  // A new event takes the place of the pending one for its path.
  lemma PendingAfterDispatch(c: Settings, s: State, path: string, read: real, e: nat)
    requires Accounted(s) && c.debounce > 0.0
    ensures IsPending(AfterDispatch(c, s, path, read), e) <==>
            e == |s.events| || (IsPending(s, e) && !(path in s.pending && s.pending[path] == e))
  {
    var s' := AfterDispatch(c, s, path, read);
    if path in s.pending {
      PendingOnce(s, path, e);
    }
    if p :| p in s'.pending && s'.pending[p] == e && p != path {
      assert p in s.pending && s.pending[p] == e;
    }
    if p :| p in s.pending && s.pending[p] == e && p != path {
      assert p in s'.pending && s'.pending[p] == e;
    }
    assert path in s'.pending && s'.pending[path] == |s.events|;
  }

  lemma AccountedDispatch(c: Settings, s: State, path: string, read: real)
    requires Accounted(s)
    ensures Accounted(AfterDispatch(c, s, path, read))
  {
    var s', event := AfterDispatch(c, s, path, read), |s.events|;
    forall e: nat ensures Places(s', e) == if e < |s'.events| then 1 else 0 {
      assert Places(s, event) == 0;
      if c.debounce > 0.0 {
        PendingAfterDispatch(c, s, path, read, e);
        if path in s.pending {
          assert IsPending(s, s.pending[path]) && Places(s, s.pending[path]) == 1;
        }
      } else {
        assert IsPending(s', e) == IsPending(s, e);
      }
      assert Places(s, e) == if e < event then 1 else 0;
    }
  }

  lemma AccountedCallback(s: State, t: nat)
    requires Accounted(s) && t < |s.pool|
    ensures Accounted(AfterCallback(s, t))
  {
    var s', path := AfterCallback(s, t), s.pool[t].path;
    forall e: nat ensures Places(s', e) == if e < |s'.events| then 1 else 0 {
      if path in s.pending {
        PendingOnce(s, path, e);
        assert IsPending(s, s.pending[path]) && Places(s, s.pending[path]) == 1;
      }
      if p :| p in s'.pending && s'.pending[p] == e {
        assert p in s.pending && s.pending[p] == e;
      }
      if p :| p in s.pending && s.pending[p] == e && p != path {
        assert p in s'.pending && s'.pending[p] == e;
      }
      assert Places(s, e) == if e < |s.events| then 1 else 0;
    }
  }

  lemma AccountedProcess(c: Settings, s: State, e: nat)
    requires Accounted(s) && e in s.inFlight
    ensures Accounted(Next(c, s, Process(e)))
  {
    var s' := Next(c, s, Process(e));
    forall x: nat ensures IsPending(s', x) == IsPending(s, x) && Places(s', x) == Places(s, x) {
    }
  }

  lemma AccountedKept(c: Settings, s: State, step: Step)
    requires Accounted(s) && Enabled(s, step)
    ensures Accounted(Next(c, s, step))
  {
    match step
    case Dispatch(path, read) => AccountedDispatch(c, s, path, read);
    case Callback(t) => AccountedCallback(s, t);
    case Process(e) => AccountedProcess(c, s, e);
    case _ =>
      var s' := Next(c, s, step);
      forall e: nat ensures IsPending(s', e) == IsPending(s, e) && Places(s', e) == Places(s, e) {
      }
  }

  // ----- whole runs -----

  ghost predicate Runnable(c: Settings, s: State, steps: seq<Step>)
    decreases |steps|
  {
    steps == [] || (Enabled(s, steps[0]) && Runnable(c, Next(c, s, steps[0]), steps[1..]))
  }

  ghost function Run(c: Settings, s: State, steps: seq<Step>): State
    requires Runnable(c, s, steps)
    decreases |steps|
  {
    if steps == [] then s else Run(c, Next(c, s, steps[0]), steps[1..])
  }

  lemma StepConsistent(c: Settings, s: State, step: Step)
    requires Consistent(c, s) && Enabled(s, step)
    ensures Consistent(c, Next(c, s, step))
  {
    RecordedKept(c, s, step);
    AccountedKept(c, s, step);
    TimedKept(c, s, step);
    NotEarlyKept(c, s, step);
  }

  // Every interleaving keeps the invariant.
  lemma {:induction false} RunConsistent(c: Settings, s: State, steps: seq<Step>)
    requires Consistent(c, s) && Runnable(c, s, steps)
    ensures Consistent(c, Run(c, s, steps))
    decreases |steps|
  {
    if steps != [] {
      StepConsistent(c, s, steps[0]);
      RunConsistent(c, Next(c, s, steps[0]), steps[1..]);
    }
  }

  lemma InitialConsistent(c: Settings, clock: real)
    ensures Consistent(c, Initial(clock)) && Tidy(c, Initial(clock))
  {
    forall e: nat ensures Places(Initial(clock), e) == 0 {
    }
  }

  // Whatever the interleaving, an accepted event is processed at most once, and one that is neither waiting nor
  // processed was replaced by a later event for the same path.
  lemma EventFate(c: Settings, clock: real, steps: seq<Step>, e: nat)
    requires Runnable(c, Initial(clock), steps)
    requires e < |Run(c, Initial(clock), steps).events|
    ensures var s := Run(c, Initial(clock), steps);
            && multiset(s.processed)[e] <= 1
            && (e in s.processed || e in s.inFlight || IsPending(s, e) ||
                (e in s.replacedBy && e < s.replacedBy[e] < |s.events| && s.events[s.replacedBy[e]] == s.events[e]))
  {
    InitialConsistent(c, clock);
    RunConsistent(c, Initial(clock), steps);
    var s := Run(c, Initial(clock), steps);
    assert Places(s, e) == 1;
    assert e in s.processed <==> e in multiset(s.processed);
  }

  ghost predicate Quiescent(s: State) {
    s.inFlight == {} && forall t :: 0 <= t < |s.pool| ==> s.pool[t].status != Armed && s.pool[t].status != Firing
  }

  // No wake-up is lost: once no timer is left and no update waits, the latest event of every path has been processed.
  lemma LatestProcessed(c: Settings, s: State, e: nat)
    requires Consistent(c, s) && Quiescent(s) && e < |s.events|
    requires forall later :: e < later < |s.events| ==> s.events[later] != s.events[e]
    ensures e in s.processed
  {
    assert Places(s, e) == 1;
    assert e !in s.replacedBy;
    assert forall p :: p in s.pending ==> p in s.timers && s.timers[p] < |s.pool|;
  }

  ghost function Weight(status: Status): nat {
    if status == Armed then 3 else if status == Firing then 2 else 0
  }

  ghost function PoolWork(pool: seq<Timer>): nat {
    if pool == [] then 0 else PoolWork(pool[..|pool| - 1]) + Weight(pool[|pool| - 1].status)
  }

  ghost function Work(s: State): nat {
    PoolWork(s.pool) + |s.inFlight|
  }

  lemma {:induction false} PoolWorkUpdate(pool: seq<Timer>, t: nat, status: Status)
    requires t < |pool|
    ensures PoolWork(SetStatus(pool, t, status)) == PoolWork(pool) - Weight(pool[t].status) + Weight(status)
  {
    var last, pool' := |pool| - 1, SetStatus(pool, t, status);
    if t == last {
      assert pool'[..last] == pool[..last];
    } else {
      assert pool'[..last] == SetStatus(pool[..last], t, status);
      PoolWorkUpdate(pool[..last], t, status);
    }
  }

  // Without new events the timers and updates run out: every expiry, callback and update shrinks the work left.
  lemma WorkShrinks(c: Settings, s: State, step: Step)
    requires Enabled(s, step) && (step.Expire? || step.Callback? || step.Process?)
    ensures Work(Next(c, s, step)) < Work(s)
  {
    match step
    case Expire(t) => PoolWorkUpdate(s.pool, t, Firing);
    case Callback(t) => PoolWorkUpdate(s.pool, t, Finished);
    case Process(e) =>
  }

  // ----- how long a burst can wait -----

  // Timers fire promptly: time does not pass an armed timer's deadline or a callback that has started.  A dispatch gets
  // the lock no later than `lag` after it read the clock.
  ghost predicate Prompt(s: State, lag: real, step: Step) {
    && (step.Tick? ==> forall t :: 0 <= t < |s.pool| ==>
          s.pool[t].status != Firing && (s.pool[t].status == Armed ==> step.now <= s.pool[t].deadline))
    && (step.Dispatch? ==> s.clock <= step.read + lag)
  }

  ghost predicate RunPrompt(c: Settings, s: State, lag: real, steps: seq<Step>)
    decreases |steps|
  {
    steps == []
    || (Enabled(s, steps[0]) && Prompt(s, lag, steps[0]) && RunPrompt(c, Next(c, s, steps[0]), lag, steps[1..]))
  }

  // Neither the clock nor the recorded timer of a burst is further on than this.
  ghost predicate WithinMaxWait(c: Settings, lag: real, s: State) {
    forall p :: p in s.first && p in s.timers && s.timers[p] < |s.pool| ==>
      && s.clock <= s.first[p] + RMax(c.maxWait, 0.0) + lag
      && s.pool[s.timers[p]].deadline <= s.first[p] + RMax(c.maxWait, 0.0) + lag
  }

  lemma PromptDispatch(c: Settings, s: State, s': State, path: string, read: real, lag: real)
    requires c.debounce > 0.0 && Recorded(s) && Rearmed(c, s, s', path, read) && WithinMaxWait(c, lag, s)
    requires s.clock <= read + lag
    ensures WithinMaxWait(c, lag, s')
  {
    forall p | p in s'.first && p in s'.timers && s'.timers[p] < |s'.pool|
      ensures s'.clock <= s'.first[p] + RMax(c.maxWait, 0.0) + lag
      ensures s'.pool[s'.timers[p]].deadline <= s'.first[p] + RMax(c.maxWait, 0.0) + lag
    {
      if p != path {
        assert s.pool[s.timers[p]].path == p && SameTimer(s, s', path, s.timers[p]);
      } else {
        assert path in s.first ==> path in s.timers && s.timers[path] < |s.pool|;
      }
    }
  }

  lemma PromptTick(c: Settings, s: State, lag: real, now: real)
    requires Recorded(s) && Prompt(s, lag, Tick(now)) && WithinMaxWait(c, lag, s)
    ensures WithinMaxWait(c, lag, s.(clock := now))
  {
    forall p | p in s.first ensures now <= s.first[p] + RMax(c.maxWait, 0.0) + lag {
      var t := s.timers[p];
      assert s.pool[t].status == Armed;
    }
  }

  // The steps that start no timer keep the burst times of the paths that remain, and the deadlines.
  lemma PromptRest(c: Settings, s: State, s': State, lag: real)
    requires WithinMaxWait(c, lag, s) && s'.clock == s.clock && |s'.pool| == |s.pool|
    requires forall t :: 0 <= t < |s.pool| ==> s'.pool[t].deadline == s.pool[t].deadline
    requires forall p :: p in s'.timers ==> p in s.timers && s'.timers[p] == s.timers[p]
    requires forall p :: p in s'.first ==> p in s.first && s'.first[p] == s.first[p]
    ensures WithinMaxWait(c, lag, s')
  {
  }

  lemma PromptStep(c: Settings, s: State, lag: real, step: Step)
    requires Consistent(c, s) && Enabled(s, step) && Prompt(s, lag, step) && WithinMaxWait(c, lag, s)
    ensures WithinMaxWait(c, lag, Next(c, s, step))
  {
    if step.Tick? {
      PromptTick(c, s, lag, step.now);
    } else if step.Dispatch? && c.debounce > 0.0 {
      DispatchRearms(c, s, step.path, step.read);
      PromptDispatch(c, s, Next(c, s, step), step.path, step.read, lag);
    } else {
      PromptRest(c, s, Next(c, s, step), lag);
    }
  }

  // However often a file is saved, no burst waits longer than the maximum wait and the wait for the lock.
  lemma {:induction false} PromptBound(c: Settings, s: State, lag: real, steps: seq<Step>)
    requires Consistent(c, s) && WithinMaxWait(c, lag, s) && RunPrompt(c, s, lag, steps)
    ensures Runnable(c, s, steps) && WithinMaxWait(c, lag, Run(c, s, steps))
    decreases |steps|
  {
    if steps != [] {
      StepConsistent(c, s, steps[0]);
      PromptStep(c, s, lag, steps[0]);
      PromptBound(c, Next(c, s, steps[0]), lag, steps[1..]);
    }
  }

  // The burst of p has been quiet for the debounce time, or has waited the maximum wait.
  ghost predicate Quiet(c: Settings, s: State, p: string)
    requires p in s.first && p in s.last
  {
    s.last[p] + c.debounce <= s.clock || s.first[p] + c.maxWait <= s.clock
  }

  // A burst taken by its recorded timer is quiet.
  lemma QuietUnlessSuperseded(c: Settings, s: State, t: nat)
    requires Consistent(c, s) && Enabled(s, Callback(t))
    requires var p := s.pool[t].path; p in s.pending && s.timers[p] == t
    ensures Quiet(c, s, s.pool[t].path)
  {
  }

  lemma RunFirst(c: Settings, s: State, step: Step, rest: seq<Step>)
    requires Enabled(s, step) && Runnable(c, Next(c, s, step), rest)
    ensures Runnable(c, s, [step] + rest) && Run(c, s, [step] + rest) == Run(c, Next(c, s, step), rest)
  {
    assert ([step] + rest)[1..] == rest;
  }

  // ----- one timer for each burst -----

  // Every armed timer is the one recorded for its path.
  ghost predicate Sole(s: State) {
    forall t :: 0 <= t < |s.pool| && s.pool[t].status == Armed ==>
      s.pool[t].path in s.timers && s.timers[s.pool[t].path] == t
  }

  // And no callback that has started has lost its record.
  ghost predicate NoneLost(s: State) {
    forall t :: 0 <= t < |s.pool| && (s.pool[t].status == Armed || s.pool[t].status == Firing) ==>
      s.pool[t].path in s.timers && s.timers[s.pool[t].path] == t
  }

  // No other timer is recorded for the path of a callback.
  ghost predicate Own(s: State, step: Step) {
    step.Callback? && step.timer < |s.pool| && s.pool[step.timer].path in s.timers ==>
      s.timers[s.pool[step.timer].path] == step.timer
  }

  // The record that a callback removes is its own, or that of a timer no longer armed.
  ghost predicate OrphansNone(s: State, step: Step) {
    step.Callback? && step.timer < |s.pool| && s.pool[step.timer].path in s.timers ==>
      var recorded := s.timers[s.pool[step.timer].path];
      recorded == step.timer || (recorded < |s.pool| && s.pool[recorded].status != Armed)
  }

  // A dispatch does not come between the expiry of the timer of its path and that timer's callback.
  ghost predicate Undisturbed(c: Settings, s: State, step: Step) {
    step.Dispatch? && c.debounce > 0.0 && step.path in s.timers && s.timers[step.path] < |s.pool| ==>
      s.pool[s.timers[step.path]].status != Firing
  }

  lemma SoleRearmed(c: Settings, s: State, s': State, path: string, read: real)
    requires Recorded(s) && Sole(s) && Rearmed(c, s, s', path, read)
    ensures Sole(s')
  {
    forall t: nat | t < |s'.pool| && s'.pool[t].status == Armed
      ensures s'.pool[t].path in s'.timers && s'.timers[s'.pool[t].path] == t
    {
      assert t < |s.pool| ==> SameTimer(s, s', path, t);
    }
  }

  // A step leaves one armed timer to each burst, the recorded one, exactly unless a late callback removes the record of
  // a newer timer.
  lemma SoleIff(c: Settings, s: State, step: Step)
    requires Recorded(s) && Sole(s) && Enabled(s, step)
    ensures Sole(Next(c, s, step)) <==> OrphansNone(s, step)
  {
    var s' := Next(c, s, step);
    if step.Dispatch? && c.debounce > 0.0 {
      DispatchRearms(c, s, step.path, step.read);
      SoleRearmed(c, s, s', step.path, step.read);
    } else if !OrphansNone(s, step) {
      var recorded := s.timers[s.pool[step.timer].path];
      assert s'.pool[recorded] == s.pool[recorded] && s.pool[recorded].path !in s'.timers;
    }
  }

  lemma NoneLostRearmed(c: Settings, s: State, s': State, path: string, read: real)
    requires Recorded(s) && NoneLost(s) && Rearmed(c, s, s', path, read)
    ensures NoneLost(s') <==> (path in s.timers ==> s.pool[s.timers[path]].status != Firing)
  {
    if path in s.timers && s.pool[s.timers[path]].status == Firing {
      assert SameTimer(s, s', path, s.timers[path]) && s'.pool[s.timers[path]].path == path;
    } else {
      forall t: nat | t < |s'.pool| && (s'.pool[t].status == Armed || s'.pool[t].status == Firing)
        ensures s'.pool[t].path in s'.timers && s'.timers[s'.pool[t].path] == t
      {
        assert t < |s.pool| ==> SameTimer(s, s', path, t);
      }
    }
  }

  // No timer loses its record exactly unless a dispatch comes between an expiry and its callback.
  lemma NoneLostIff(c: Settings, s: State, step: Step)
    requires Recorded(s) && NoneLost(s) && Enabled(s, step)
    ensures NoneLost(Next(c, s, step)) <==> Undisturbed(c, s, step)
  {
    if step.Dispatch? && c.debounce > 0.0 {
      DispatchRearms(c, s, step.path, step.read);
      NoneLostRearmed(c, s, Next(c, s, step), step.path, step.read);
    }
  }

  // Every step of the run satisfies Own.
  ghost predicate AllOwn(c: Settings, s: State, steps: seq<Step>)
    decreases |steps|
  {
    steps == [] || (Enabled(s, steps[0]) && Own(s, steps[0]) && AllOwn(c, Next(c, s, steps[0]), steps[1..]))
  }

  ghost predicate AllUndisturbed(c: Settings, s: State, steps: seq<Step>)
    decreases |steps|
  {
    steps == []
    || (Enabled(s, steps[0]) && Undisturbed(c, s, steps[0]) && AllUndisturbed(c, Next(c, s, steps[0]), steps[1..]))
  }

  // Whenever a callback of the run takes an event, the burst is quiet.
  ghost predicate TakesQuiet(c: Settings, s: State, steps: seq<Step>)
    requires Consistent(c, s) && Runnable(c, s, steps)
    decreases |steps|
  {
    steps == []
    || (StepConsistent(c, s, steps[0]);
        && (steps[0].Callback? ==>
              var p := s.pool[steps[0].timer].path; p in s.pending ==> Quiet(c, s, p))
        && TakesQuiet(c, Next(c, s, steps[0]), steps[1..]))
  }

  // If no callback meets the record of another timer, there is one armed timer to each burst throughout, and every
  // event a callback takes has been quiet for the debounce time or has waited the maximum wait.
  lemma {:induction false} OwnTakesQuiet(c: Settings, s: State, steps: seq<Step>)
    requires Consistent(c, s) && Sole(s) && AllOwn(c, s, steps)
    ensures Runnable(c, s, steps) && Sole(Run(c, s, steps)) && TakesQuiet(c, s, steps)
    decreases |steps|
  {
    if steps != [] {
      SoleIff(c, s, steps[0]);
      StepConsistent(c, s, steps[0]);
      OwnTakesQuiet(c, Next(c, s, steps[0]), steps[1..]);
      if steps[0].Callback? && s.pool[steps[0].timer].path in s.pending {
        QuietUnlessSuperseded(c, s, steps[0].timer);
      }
    }
  }

  // That is so in every run in which no dispatch comes between the expiry of a timer and its callback.
  lemma {:induction false} UndisturbedOwn(c: Settings, s: State, steps: seq<Step>)
    requires Consistent(c, s) && NoneLost(s) && AllUndisturbed(c, s, steps)
    ensures AllOwn(c, s, steps)
    decreases |steps|
  {
    if steps != [] {
      NoneLostIff(c, s, steps[0]);
      StepConsistent(c, s, steps[0]);
      UndisturbedOwn(c, Next(c, s, steps[0]), steps[1..]);
    }
  }

  // From the start, whatever the interleaving.
  lemma UndisturbedTakesQuiet(c: Settings, clock: real, steps: seq<Step>)
    requires AllUndisturbed(c, Initial(clock), steps)
    ensures AllOwn(c, Initial(clock), steps) && Runnable(c, Initial(clock), steps)
    ensures Consistent(c, Initial(clock)) && Sole(Run(c, Initial(clock), steps)) && TakesQuiet(c, Initial(clock), steps)
  {
    InitialConsistent(c, clock);
    UndisturbedOwn(c, Initial(clock), steps);
    OwnTakesQuiet(c, Initial(clock), steps);
  }

  // An event for the path of a callback that has started supersedes the timer, and starts or extends a burst that is
  // quiet only if the maximum wait is over.
  lemma DispatchSupersedes(c: Settings, s: State, t: nat)
    requires Consistent(c, s) && c.debounce > 0.0 && Enabled(s, Callback(t))
    ensures var p := s.pool[t].path; var s1 := Next(c, s, Dispatch(p, s.clock));
            && Enabled(s1, Callback(t)) && s1.pool[t].path == p && p in s1.pending && s1.pending[p] == |s.events|
            && p in s1.first && p in s1.last && p in s1.timers && s1.timers[p] != t
            && (Quiet(c, s1, p) <==> s1.first[p] + c.maxWait <= s.clock)
  {
    var p := s.pool[t].path;
    var s1 := Next(c, s, Dispatch(p, s.clock));
    DispatchRearms(c, s, p, s.clock);
    StillFiring(c, s, s1, p, s.clock, t);
  }

  lemma StillFiring(c: Settings, s: State, s': State, path: string, read: real, t: nat)
    requires Recorded(s) && Rearmed(c, s, s', path, read) && Enabled(s, Callback(t))
    requires s' == AfterDispatch(c, s, path, read)
    ensures Enabled(s', Callback(t)) && s'.pool[t].path == s.pool[t].path
  {
    assert SameTimer(s, s', path, t);
  }

  // So from any reachable state in which a callback has started, there is a run in which it takes a new event without
  // a quiet period, unless the maximum wait is over.
  lemma SupersededTakesNewEvent(c: Settings, s: State, t: nat)
    requires Consistent(c, s) && c.debounce > 0.0 && Enabled(s, Callback(t))
    ensures var p, steps := s.pool[t].path, [Dispatch(s.pool[t].path, s.clock), Callback(t)];
            && Runnable(c, s, steps) && |s.events| in Run(c, s, steps).inFlight
            && var s1 := Next(c, s, steps[0]);
               && p in s1.first && p in s1.last && p in s1.timers && s1.timers[p] != t
               && (Quiet(c, s1, p) <==> s1.first[p] + c.maxWait <= s.clock)
  {
    var p := s.pool[t].path;
    var s1 := Next(c, s, Dispatch(p, s.clock));
    DispatchSupersedes(c, s, t);
    RunFirst(c, s1, Callback(t), []);
    RunFirst(c, s, Dispatch(p, s.clock), [Callback(t)]);
  }

  // For example at once, when the debounce time is 5 seconds.
  lemma SupersededTimerTakesNewEvent()
    ensures var c := Settings(5.0, 30.0);
            var steps := [Dispatch("a.py", 0.0), Tick(5.0), Expire(0), Dispatch("a.py", 5.0), Callback(0)];
            && Runnable(c, Initial(0.0), steps)
            && var s := Run(c, Initial(0.0), steps); s.clock == 5.0 && s.inFlight == {1} && s.replacedBy == map[0 := 1]
  {
    var c := Settings(5.0, 30.0);
    var s1 := Next(c, Initial(0.0), Dispatch("a.py", 0.0));
    var s2 := Next(c, s1, Tick(5.0));
    var s3 := Next(c, s2, Expire(0));
    var s4 := Next(c, s3, Dispatch("a.py", 5.0));
    RunFirst(c, s4, Callback(0), []);
    RunFirst(c, s3, Dispatch("a.py", 5.0), [Callback(0)]);
    RunFirst(c, s2, Expire(0), [Dispatch("a.py", 5.0), Callback(0)]);
    RunFirst(c, s1, Tick(5.0), [Expire(0), Dispatch("a.py", 5.0), Callback(0)]);
    RunFirst(c, Initial(0.0), Dispatch("a.py", 0.0), [Tick(5.0), Expire(0), Dispatch("a.py", 5.0), Callback(0)]);
  }

  // ----- the order of updates -----

  predicate SamePath(events: seq<string>, e: nat, f: nat) {
    e < |events| && f < |events| && events[e] == events[f]
  }

  // The updates of each path have been processed in the order of its events.
  ghost predicate InEventOrder(events: seq<string>, processed: seq<nat>) {
    forall i, j :: 0 <= i < j < |processed| && SamePath(events, processed[i], processed[j]) ==>
      processed[i] < processed[j]
  }

  // At most one update of a path is in flight.
  ghost predicate Alone(events: seq<string>, inFlight: set<nat>) {
    forall e, f :: e in inFlight && f in inFlight && SamePath(events, e, f) ==> e == f
  }

  // Of each path, what was processed is older than what is in flight, and both are older than what is pending.
  ghost predicate Staged(events: seq<string>, pending: map<string, nat>, inFlight: set<nat>, processed: set<nat>) {
    && (forall e, f :: e in processed && f in inFlight && SamePath(events, e, f) ==> e < f)
    && (forall e, p :: (e in processed || e in inFlight) && p in pending && e < |events| && events[e] == p ==>
          e < pending[p])
  }

  ghost predicate Known(events: seq<string>, pending: map<string, nat>, inFlight: set<nat>, processed: set<nat>) {
    && (forall e :: e in inFlight || e in processed ==> e < |events|)
    && (forall p :: p in pending ==> pending[p] < |events| && events[pending[p]] == p)
  }

  function Done(processed: seq<nat>): set<nat> {
    set e | e in processed
  }

  ghost predicate Orderly(events: seq<string>, pending: map<string, nat>, inFlight: set<nat>, processed: seq<nat>) {
    && Known(events, pending, inFlight, Done(processed)) && InEventOrder(events, processed)
    && Staged(events, pending, inFlight, Done(processed)) && Alone(events, inFlight)
  }

  lemma AppendOrderly(events: seq<string>, pending: map<string, nat>, inFlight: set<nat>, processed: seq<nat>,
                      path: string)
    requires Orderly(events, pending, inFlight, processed)
    ensures Orderly(events + [path], pending, inFlight, processed)
  {
    forall i | 0 <= i < |processed| ensures processed[i] < |events| {
      assert processed[i] in Done(processed);
    }
  }

  lemma PendOrderly(events: seq<string>, pending: map<string, nat>, inFlight: set<nat>, processed: seq<nat>,
                    path: string)
    requires Orderly(events, pending, inFlight, processed)
    ensures Orderly(events + [path], pending[path := |events|], inFlight, processed)
  {
    AppendOrderly(events, pending, inFlight, processed, path);
  }

  lemma SendOrderly(events: seq<string>, pending: map<string, nat>, inFlight: set<nat>, processed: seq<nat>, e: nat)
    requires Orderly(events, pending, inFlight, processed) && e < |events| && events[e] !in pending
    requires forall f :: f in inFlight && SamePath(events, e, f) ==> e == f
    requires forall f :: f in Done(processed) && SamePath(events, e, f) ==> f < e
    ensures Orderly(events, pending, inFlight + {e}, processed)
  {
  }

  lemma PopOrderly(events: seq<string>, pending: map<string, nat>, inFlight: set<nat>, processed: seq<nat>, p: string)
    requires Orderly(events, pending, inFlight, processed)
    ensures Orderly(events, pending - {p}, inFlight, processed)
  {
  }

  lemma ProcessOrderly(events: seq<string>, pending: map<string, nat>, inFlight: set<nat>, processed: seq<nat>, e: nat)
    requires Orderly(events, pending, inFlight, processed) && e in inFlight
    ensures Orderly(events, pending, inFlight - {e}, processed + [e])
  {
    assert Done(processed + [e]) == Done(processed) + {e};
    forall i | 0 <= i < |processed| ensures processed[i] in Done(processed) {
    }
  }

  // Nothing is pending when debouncing is off.
  ghost predicate Tidy(c: Settings, s: State) {
    Orderly(s.events, s.pending, s.inFlight, s.processed) && (c.debounce <= 0.0 ==> s.pending == map[])
  }

  ghost predicate Idle(s: State, p: string) {
    forall e :: e in s.inFlight && e < |s.events| ==> s.events[e] != p
  }

  // The step sends no update of a path after one that is still in flight.
  ghost predicate Clear(c: Settings, s: State, step: Step) {
    match step
    case Dispatch(path, _) => c.debounce <= 0.0 ==> Idle(s, path)
    case Callback(t) => t < |s.pool| && s.pool[t].path in s.pending ==> Idle(s, s.pool[t].path)
    case _ => true
  }

  lemma DispatchTidy(c: Settings, s: State, path: string, read: real)
    requires Tidy(c, s) && Clear(c, s, Dispatch(path, read))
    ensures Tidy(c, AfterDispatch(c, s, path, read))
  {
    var e := |s.events|;
    if c.debounce <= 0.0 {
      AppendOrderly(s.events, s.pending, s.inFlight, s.processed, path);
      SendOrderly(s.events + [path], s.pending, s.inFlight, s.processed, e);
    } else {
      PendOrderly(s.events, s.pending, s.inFlight, s.processed, path);
    }
  }

  lemma CallbackTidy(c: Settings, s: State, t: nat)
    requires Tidy(c, s) && t < |s.pool| && Clear(c, s, Callback(t))
    ensures Tidy(c, AfterCallback(s, t))
  {
    var p := s.pool[t].path;
    PopOrderly(s.events, s.pending, s.inFlight, s.processed, p);
    if p in s.pending {
      SendOrderly(s.events, s.pending - {p}, s.inFlight, s.processed, s.pending[p]);
    }
  }

  // A second update of a path in flight is all that can go wrong: a step keeps the stages in order if and only if it
  // sends none.
  lemma TidyIff(c: Settings, s: State, step: Step)
    requires Consistent(c, s) && Tidy(c, s) && Enabled(s, step)
    ensures Tidy(c, Next(c, s, step)) <==> Clear(c, s, step)
  {
    if Clear(c, s, step) {
      match step
      case Dispatch(path, read) => DispatchTidy(c, s, path, read);
      case Callback(t) => CallbackTidy(c, s, t);
      case Process(e) => ProcessOrderly(s.events, s.pending, s.inFlight, s.processed, e);
      case _ =>
    } else {
      var path := if step.Dispatch? then step.path else s.pool[step.timer].path;
      var e, f := if step.Dispatch? then |s.events| else s.pending[path], 0;
      f :| f in s.inFlight && f < |s.events| && s.events[f] == path;
      var s' := Next(c, s, step);
      assert e in s'.inFlight && f in s'.inFlight && SamePath(s'.events, e, f) && f < e;
    }
  }

  ghost predicate AllClear(c: Settings, s: State, steps: seq<Step>)
    decreases |steps|
  {
    steps == [] || (Enabled(s, steps[0]) && Clear(c, s, steps[0]) && AllClear(c, Next(c, s, steps[0]), steps[1..]))
  }

  // Updates of a path that never meet in flight are processed in the order of its events.
  lemma {:induction false} OrderKept(c: Settings, s: State, steps: seq<Step>)
    requires Consistent(c, s) && Tidy(c, s) && AllClear(c, s, steps)
    ensures Runnable(c, s, steps) && InEventOrder(Run(c, s, steps).events, Run(c, s, steps).processed)
    decreases |steps|
  {
    if steps != [] {
      TidyIff(c, s, steps[0]);
      StepConsistent(c, s, steps[0]);
      OrderKept(c, Next(c, s, steps[0]), steps[1..]);
    }
  }

  // Two that do meet can be processed the other way round, from any state.
  lemma OrderLost(c: Settings, s: State, e: nat, f: nat)
    requires e in s.inFlight && f in s.inFlight && e < f && SamePath(s.events, e, f)
    ensures var steps := [Process(f), Process(e)];
            Runnable(c, s, steps) && !InEventOrder(Run(c, s, steps).events, Run(c, s, steps).processed)
  {
    var s1 := Next(c, s, Process(f));
    var s2 := Next(c, s1, Process(e));
    RunFirst(c, s1, Process(e), []);
    RunFirst(c, s, Process(f), [Process(e)]);
    assert [Process(f)] + [Process(e)] == [Process(f), Process(e)];
    var n := |s.processed|;
    assert s2.processed[n] == f && s2.processed[n + 1] == e;
  }

  // One burst of a.py has been popped at 5.0 and waits for the update lock.
  ghost function OneWaiting(): State {
    State(5.0, 0.0, map[], map[], map[], [Timer("a.py", 5.0, Finished)], map[], map[], ["a.py"], {0}, [], map[])
  }

  lemma SecondBurstOvertakes(c: Settings, steps: seq<Step>)
    requires c == Settings(5.0, 30.0)
    requires steps == [Dispatch("a.py", 5.0), Tick(10.0), Expire(1), Callback(1), Process(1), Process(0)]
    ensures Runnable(c, OneWaiting(), steps) && Run(c, OneWaiting(), steps).processed == [1, 0]
    ensures Run(c, OneWaiting(), steps).events == ["a.py", "a.py"]
  {
    var s5 := Next(c, OneWaiting(), Dispatch("a.py", 5.0));
    var s6 := Next(c, s5, Tick(10.0));
    var s7 := Next(c, s6, Expire(1));
    var s8 := Next(c, s7, Callback(1));
    var s9 := Next(c, s8, Process(1));
    RunFirst(c, s9, Process(0), []);
    RunFirst(c, s8, Process(1), [Process(0)]);
    RunFirst(c, s7, Callback(1), [Process(1), Process(0)]);
    RunFirst(c, s6, Expire(1), [Callback(1), Process(1), Process(0)]);
    RunFirst(c, s5, Tick(10.0), [Expire(1), Callback(1), Process(1), Process(0)]);
    RunFirst(c, OneWaiting(), Dispatch("a.py", 5.0), [Tick(10.0), Expire(1), Callback(1), Process(1), Process(0)]);
  }

  // The pop and the update take different locks, so two updates of one path can run in the wrong order.
  lemma UpdatesCanOvertake()
    ensures exists c, steps :: Runnable(c, Initial(0.0), steps)
              && Run(c, Initial(0.0), steps).processed == [1, 0]
              && Run(c, Initial(0.0), steps).events == ["a.py", "a.py"]
  {
    var c := Settings(5.0, 30.0);
    var s1 := Next(c, Initial(0.0), Dispatch("a.py", 0.0));
    var s2 := Next(c, s1, Tick(5.0));
    var s3 := Next(c, s2, Expire(0));
    assert Next(c, s3, Callback(0)) == OneWaiting();
    var rest := [Dispatch("a.py", 5.0), Tick(10.0), Expire(1), Callback(1), Process(1), Process(0)];
    SecondBurstOvertakes(c, rest);
    RunFirst(c, s3, Callback(0), rest);
    RunFirst(c, s2, Expire(0), [Callback(0)] + rest);
    RunFirst(c, s1, Tick(5.0), [Expire(0)] + ([Callback(0)] + rest));
    RunFirst(c, Initial(0.0), Dispatch("a.py", 0.0), [Tick(5.0)] + ([Expire(0)] + ([Callback(0)] + rest)));
  }

  // ----- the handler -----

  class CodeChangeEventHandler {
    const settings: Settings
    var timers: map<string, nat>
    var firstEventTime: map<string, real>
    var pendingEvents: map<string, nat>
    var pool: seq<Timer>
    ghost var read: real
    ghost var last: map<string, real>
    ghost var armed: map<string, real>
    ghost var events: seq<string>
    ghost var inFlight: set<nat>
    ghost var processed: seq<nat>
    ghost var replacedBy: map<nat, nat>

    ghost function View(clock: real): State
      reads this
    {
      State(clock, read, timers, firstEventTime, pendingEvents, pool, last, armed, events, inFlight, processed,
            replacedBy)
    }

    constructor (settings: Settings, now: real)
      ensures this.settings == settings && View(now) == Initial(now)
    {
      this.settings := settings;
      timers, firstEventTime, pendingEvents, pool := map[], map[], map[], [];
      read, last, armed, events, inFlight, processed, replacedBy := now, map[], map[], [], {}, [], map[];
    }

    // dispatch, for a relevant event with number `event`, for which the clock was read at currentTime; `now` is the
    // time inside the lock.  `immediate` tells the caller to run the update at once, because debouncing is
    // off.
    method DispatchEvent(path: string, event: nat, currentTime: real, now: real) returns (immediate: bool)
      requires event == |events|
      modifies this
      ensures View(now) == AfterDispatch(settings, old(View(now)), path, currentTime)
      ensures settings.debounce > 0.0 ==> Rearmed(settings, old(View(now)), View(now), path, currentTime)
      ensures immediate <==> settings.debounce <= 0.0
    {
      if settings.debounce <= 0.0 {
        events, inFlight := events + [path], inFlight + {event};
        return true;
      }
      Schedule(path, event, currentTime, now);
      return false;
    }

    // The part of dispatch under the lock.
    method Schedule(path: string, event: nat, currentTime: real, now: real)
      requires settings.debounce > 0.0 && event == |events|
      modifies this
      ensures View(now) == AfterDispatch(settings, old(View(now)), path, currentTime)
      ensures Rearmed(settings, old(View(now)), View(now), path, currentTime)
    {
      Remember(path, event, currentTime, now);
      firstEventTime := StartBurst(firstEventTime, path, currentTime);
      pendingEvents := pendingEvents[path := event];
      pool := CancelRecorded(timers, pool, path);
      StartTimer(path, now, Delay(settings, currentTime, firstEventTime[path]));
      DispatchRearms(settings, old(View(now)), path, currentTime);
    }

    ghost method Remember(path: string, event: nat, currentTime: real, now: real)
      requires event == |events|
      modifies this`read, this`last, this`armed, this`events, this`replacedBy
      ensures read == currentTime && last == old(last)[path := currentTime] && armed == old(armed)[path := now]
      ensures events == old(events) + [path]
      ensures replacedBy == Replace(old(replacedBy), pendingEvents, path, event)
    {
      read, last, armed := currentTime, last[path := currentTime], armed[path := now];
      events, replacedBy := events + [path], Replace(replacedBy, pendingEvents, path, event);
    }

    // Creates, records and starts a timer.
    method StartTimer(path: string, now: real, delay: real)
      modifies this`timers, this`pool
      ensures timers == old(timers)[path := |old(pool)|]
      ensures pool == old(pool) + [Timer(path, now + delay, Armed)]
    {
      timers := timers[path := |pool|];
      pool := pool + [Timer(path, now + delay, Armed)];
    }

    // _process_debounced_change up to the release of the lock; the event it returns is then updated under the other
    // lock.
    method TakePending(t: nat) returns (event: Option<nat>)
      requires t < |pool|
      modifies this
      ensures forall clock :: View(clock) == AfterCallback(old(View(clock)), t)
      ensures var path := old(pool)[t].path;
              event == if path in old(pendingEvents) then Some(old(pendingEvents)[path]) else None
    {
      var path := pool[t].path;
      pool := SetStatus(pool, t, Finished);
      event := if path in pendingEvents then Some(pendingEvents[path]) else None;
      if event.Some? {
        inFlight := inFlight + {event.value};
      }
      pendingEvents := pendingEvents - {path};
      firstEventTime := firstEventTime - {path};
      timers := timers - {path};
      last, armed := last - {path}, armed - {path};
    }
  }
}
