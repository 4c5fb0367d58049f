/** The happy-eyeballs connector (hookup/src/Hookup/Concurrent.hs, sections 4 and 5 of RFC 8305): attempts are started
    in order, one at a time unless the delay timer fires, until one succeeds or all have failed. */
module ConcurrentAttempts {
  import opened Text

  /** An exception, by identity. */
  type Error = int

  /** What an attempt's thread is doing. */
  datatype Status = NotStarted | Running | Succeeded | Failed(error: Error)

  /** The transaction a new attempt waits for: one that always retries, a pending delay, or an elapsed one. */
  datatype Timer = Never | Armed(deadline: int) | Fired

  /** The event loop's record; threads and errors are newest first, attempts are their positions in the list. */
  datatype St = St(threads: seq<nat>, errors: seq<Error>, work: seq<nat>, ready: Timer)

  datatype Answer = Left(errors: seq<Error>) | Right(winner: nat)

  datatype Main = Waiting(st: St) | Answered(answer: Answer)

  /** The thread forked by `cleanup`: it has told the first `cancelled` of `all` to stop and, after telling them all,
      has waited for the first `waited`. */
  datatype Worker = Worker(all: seq<nat>, cancelled: nat, waited: nat)

  /** The event loop, its worker, the threads and the clock; `started`, `failed` and `released` are histories. */
  datatype System = System(
    n: nat,
    delay: nat,
    now: int,
    status: seq<Status>,
    main: Main,
    worker: Worker,
    started: seq<nat>,
    lastStart: int,
    failed: seq<nat>,
    released: seq<nat>)

  // ----- The event loop -----

  function Loop(s: System, st: St): System
    requires forall i | 0 <= i < |st.work| :: st.work[i] < |s.status|
  {
    if st.threads == [] then NothingRunning(s, st) else s.(main := Waiting(st))
  }

  function NothingRunning(s: System, st: St): System
    requires forall i | 0 <= i < |st.work| :: st.work[i] < |s.status|
  {
    if st.work == [] then s.(main := Answered(Left(st.errors)))
    else Start(s, st.work[0], st.(work := st.work[1..]))
  }

  /** Fork the attempt's thread, start its timer unless it is the last, and go back to the loop: with a thread to
      watch, the loop always waits. */
  function Start(s: System, x: nat, st: St): System
    requires x < |s.status|
  {
    var ready := if st.work == [] then Never else Armed(s.now + s.delay);
    s.(status := s.status[x := Running], started := s.started + [x], lastStart := s.now,
       main := Waiting(st.(threads := [x] + st.threads, ready := ready)))
  }

  predicate Finished(s: System, t: nat) {
    t < |s.status| && (s.status[t].Succeeded? || s.status[t].Failed?)
  }

  /** The transaction of the event loop: the first finished thread, else the timer, else nothing yet. */
  function Finish(s: System, st: St, passed: seq<nat>, rest: seq<nat>): Option<System>
    requires forall i | 0 <= i < |st.work| :: st.work[i] < |s.status|
    decreases |rest|
  {
    if rest == [] then Fresh(s, st)
    else if Finished(s, rest[0]) then Some(Finish1(s, st, passed + rest[1..], rest[0]))
    else Finish(s, st, [rest[0]] + passed, rest[1..])
  }

  function Finish1(s: System, st: St, others: seq<nat>, t: nat): System
    requires forall i | 0 <= i < |st.work| :: st.work[i] < |s.status|
    requires Finished(s, t)
  {
    match s.status[t]
    case Failed(e) => Loop(s.(failed := [t] + s.failed), st.(errors := [e] + st.errors, threads := others))
    case _ => s.(main := Answered(Right(t)), worker := Worker(others, 0, 0))
  }

  function Fresh(s: System, st: St): Option<System>
    requires forall i | 0 <= i < |st.work| :: st.work[i] < |s.status|
  {
    if st.work == [] || st.ready != Fired then None
    else Some(Start(s, st.work[0], st.(work := st.work[1..])))
  }

  // ----- Runs -----

  /** One step of the system. A thread may finish either way at any moment, also after it was told to stop. */
  datatype Step =
    | Succeeds(attempt: nat)
    | Fails(attempt: nat, error: Error)
    | TimePasses(d: nat)
    | TimerFires
    | MainStep
    | WorkerCancels
    | WorkerWaits

  function Range(lo: nat, hi: nat): (r: seq<nat>)
    ensures |r| == (if lo <= hi then hi - lo else 0) && forall i | 0 <= i < |r| :: r[i] == lo + i
  {
    seq(if lo <= hi then hi - lo else 0, i requires 0 <= i => lo + i)
  }

  function Init(n: nat, delay: nat, now: int): System {
    var s := System(n, delay, now, seq(n, i => NotStarted), Answered(Left([])), Worker([], 0, 0), [], now, [], []);
    Loop(s, St([], [], Range(0, n), Never))
  }

  /** The state after a step, when the step is possible. */
  function Apply(s: System, a: Step): Option<System> {
    match a
    case Succeeds(i) =>
      if i < |s.status| && s.status[i].Running? then Some(s.(status := s.status[i := Succeeded])) else None
    case Fails(i, e) =>
      if i < |s.status| && s.status[i].Running? then Some(s.(status := s.status[i := Failed(e)])) else None
    case TimePasses(d) => Some(s.(now := s.now + d))
    case TimerFires =>
      if s.main.Waiting? && s.main.st.ready.Armed? && s.now >= s.main.st.ready.deadline
      then Some(s.(main := Waiting(s.main.st.(ready := Fired)))) else None
    case MainStep =>
      if s.main.Waiting? && forall i | 0 <= i < |s.main.st.work| :: s.main.st.work[i] < |s.status|
      then Finish(s, s.main.st, [], s.main.st.threads) else None
    case WorkerCancels =>
      if s.worker.cancelled < |s.worker.all|
      then Some(s.(worker := s.worker.(cancelled := s.worker.cancelled + 1))) else None
    case WorkerWaits =>
      if s.worker.waited < s.worker.cancelled == |s.worker.all| && Finished(s, s.worker.all[s.worker.waited])
      then
        var t := s.worker.all[s.worker.waited];
        Some(s.(worker := s.worker.(waited := s.worker.waited + 1),
                released := if s.status[t].Succeeded? then s.released + [t] else s.released))
      else None
  }

  /** The state at the end of a run, when every step of it is possible. */
  function Exec(s: System, steps: seq<Step>): Option<System> {
    if steps == [] then Some(s)
    else
      match Exec(s, steps[..|steps| - 1])
      case None => None
      case Some(mid) => Apply(mid, steps[|steps| - 1])
  }

  // ----- The invariant -----

  predicate ErrorsOf(s: System, errors: seq<Error>) {
    |errors| == |s.failed|
    && forall j | 0 <= j < |errors| :: s.failed[j] < |s.status| && s.status[s.failed[j]] == Failed(errors[j])
  }

  predicate StartedInOrder(s: System) {
    && |s.status| == s.n
    && |s.started| <= s.n
    && s.started == Range(0, |s.started|)
    && (forall i | 0 <= i < s.n :: s.status[i].NotStarted? <==> i >= |s.started|)
  }

  predicate InvWaiting(s: System, st: St) {
    && st.threads != []
    && st.work == Range(|s.started|, s.n)
    && multiset(st.threads) + multiset(s.failed) == multiset(s.started)
    && ErrorsOf(s, st.errors)
    && (st.work == [] <==> st.ready == Never)
    && (st.ready.Armed? ==> st.ready.deadline == s.lastStart + s.delay)
    && (st.ready.Fired? ==> s.now >= s.lastStart + s.delay)
    && s.worker == Worker([], 0, 0)
    && s.released == []
  }

  predicate InvLeft(s: System, errors: seq<Error>) {
    && |s.started| == s.n
    && multiset(s.failed) == multiset(s.started)
    && ErrorsOf(s, errors)
    && s.worker == Worker([], 0, 0)
    && s.released == []
  }

  predicate Won(s: System, t: nat) {
    t < |s.status| && s.status[t].Succeeded?
  }

  /** The successes among the threads of `all`, in order. */
  function Successes(s: System, all: seq<nat>): seq<nat> {
    if all == [] then []
    else
      var t := all[|all| - 1];
      Successes(s, all[..|all| - 1]) + (if Won(s, t) then [t] else [])
  }

  lemma {:induction false} SuccessesCount(s: System, all: seq<nat>, t: nat)
    ensures multiset(Successes(s, all))[t] == if Won(s, t) then multiset(all)[t] else 0
  {
    if all != [] {
      SuccessesCount(s, all[..|all| - 1], t);
      assert all == all[..|all| - 1] + [all[|all| - 1]];
    }
  }

  predicate InvRight(s: System, w: nat) {
    && w < |s.started| && w < |s.status|
    && s.status[w].Succeeded?
    && multiset([w]) + multiset(s.worker.all) + multiset(s.failed) == multiset(s.started)
    && s.worker.waited <= s.worker.cancelled <= |s.worker.all|
    && (s.worker.waited > 0 ==> s.worker.cancelled == |s.worker.all|)
    && (forall j | 0 <= j < s.worker.waited :: Finished(s, s.worker.all[j]))
    && (forall j | 0 <= j < |s.failed| :: s.failed[j] < |s.status| && s.status[s.failed[j]].Failed?)
    && s.released == Successes(s, s.worker.all[..s.worker.waited])
  }

  predicate Inv(s: System) {
    && StartedInOrder(s)
    && s.lastStart <= s.now
    && (match s.main
        case Waiting(st) => InvWaiting(s, st)
        case Answered(Left(errors)) => InvLeft(s, errors)
        case Answered(Right(w)) => InvRight(s, w))
  }

  lemma StartKeeps(s: System, st: St)
    requires StartedInOrder(s) && s.lastStart <= s.now
    requires st.work == Range(|s.started|, s.n) && st.work != []
    requires multiset(st.threads) + multiset(s.failed) == multiset(s.started)
    requires ErrorsOf(s, st.errors) && s.worker == Worker([], 0, 0) && s.released == []
    ensures var s' := Start(s, st.work[0], st.(work := st.work[1..]));
            Inv(s') && s'.main.Waiting? && s'.started == s.started + [|s.started|]
  {
    var k := |s.started|;
    assert |[st.work[0]] + st.threads| > 0;
    assert s.started + [k] == Range(0, k + 1);
    assert st.work[1..] == Range(k + 1, s.n);
  }

  lemma LoopKeeps(s: System, st: St)
    requires StartedInOrder(s) && s.lastStart <= s.now
    requires st.work == Range(|s.started|, s.n)
    requires multiset(st.threads) + multiset(s.failed) == multiset(s.started)
    requires ErrorsOf(s, st.errors) && s.worker == Worker([], 0, 0) && s.released == []
    requires st.threads != [] ==> (st.work == [] <==> st.ready == Never)
    requires st.ready.Armed? ==> st.ready.deadline == s.lastStart + s.delay
    requires st.ready.Fired? ==> s.now >= s.lastStart + s.delay
    ensures Inv(Loop(s, st))
  {
    if st.threads == [] && st.work != [] {
      StartKeeps(s, st);
    }
  }

  lemma InitInv(n: nat, delay: nat, now: int)
    ensures Inv(Init(n, delay, now))
  {
    var s := System(n, delay, now, seq(n, i => NotStarted), Answered(Left([])), Worker([], 0, 0), [], now, [], []);
    LoopKeeps(s, St([], [], Range(0, n), Never));
  }

  lemma Finish1Keeps(s: System, st: St, others: seq<nat>, t: nat)
    requires Inv(s) && s.main == Waiting(st) && Finished(s, t)
    requires multiset([t]) + multiset(others) == multiset(st.threads)
    ensures Inv(Finish1(s, st, others, t))
  {
    if s.status[t].Failed? {
      FailureKeeps(s, st, others, t);
    } else {
      assert t in multiset(s.started);
      assert t in s.started;
      assert others[..0] == [];
    }
  }

  lemma FailureKeeps(s: System, st: St, others: seq<nat>, t: nat)
    requires Inv(s) && s.main == Waiting(st) && t < |s.status| && s.status[t].Failed?
    requires multiset([t]) + multiset(others) == multiset(st.threads)
    ensures Inv(Finish1(s, st, others, t))
  {
    var s1 := s.(failed := [t] + s.failed);
    var st1 := st.(errors := [s.status[t].error] + st.errors, threads := others);
    assert ErrorsOf(s1, st1.errors);
    LoopKeeps(s1, st1);
  }

  lemma {:induction false} FinishKeeps(s: System, st: St, passed: seq<nat>, rest: seq<nat>)
    requires Inv(s) && s.main == Waiting(st)
    requires multiset(passed) + multiset(rest) == multiset(st.threads)
    ensures Finish(s, st, passed, rest).Some? ==> Inv(Finish(s, st, passed, rest).value)
    decreases |rest|
  {
    if rest == [] {
      if st.work != [] && st.ready == Fired { StartKeeps(s, st); }
    } else {
      var t := rest[0];
      assert rest == [t] + rest[1..];
      if Finished(s, t) {
        Finish1Keeps(s, st, passed + rest[1..], t);
      } else {
        FinishKeeps(s, st, [t] + passed, rest[1..]);
      }
    }
  }

  lemma {:induction false} SuccessesFrame(s: System, s': System, all: seq<nat>)
    requires |s.status| == |s'.status|
    requires forall t | t in all && t < |s.status| :: s.status[t] == s'.status[t]
    ensures Successes(s, all) == Successes(s', all)
  {
    if all != [] {
      SuccessesFrame(s, s', all[..|all| - 1]);
    }
  }

  lemma SuccessesSnoc(s: System, all: seq<nat>, k: nat)
    requires k < |all|
    ensures Successes(s, all[..k + 1])
         == Successes(s, all[..k]) + (if all[k] < |s.status| && s.status[all[k]].Succeeded? then [all[k]] else [])
  {
    assert all[..k + 1][..k] == all[..k];
  }

  lemma WaitsRight(s: System, s': System, w: nat)
    requires s.main == Answered(Right(w)) && InvRight(s, w)
    requires var k := s.worker.waited;
          && k < s.worker.cancelled == |s.worker.all| && Finished(s, s.worker.all[k])
          && s'.worker == s.worker.(waited := k + 1)
          && s'.released == s.released + (if s.status[s.worker.all[k]].Succeeded? then [s.worker.all[k]] else [])
    requires s'.started == s.started && s'.failed == s.failed && s'.status == s.status
    ensures InvRight(s', w)
  {
    assert forall j | 0 <= j < s.worker.waited :: Finished(s, s.worker.all[j]) ==> Finished(s', s.worker.all[j]);
    SuccessesSnoc(s, s.worker.all, s.worker.waited);
    SuccessesFrame(s, s', s.worker.all[..s.worker.waited + 1]);
  }

  lemma WaitsKeeps(s: System)
    requires Inv(s) && Apply(s, WorkerWaits).Some?
    ensures Inv(Apply(s, WorkerWaits).value)
  {
    var s' := Apply(s, WorkerWaits).value;
    assert s.released + [] == s.released;
    WaitsRight(s, s', s.main.answer.winner);
  }

  /** A thread that finishes was running, so nothing recorded about finished threads changes. */
  lemma ThreadKeeps(s: System, i: nat, end: Status)
    requires Inv(s) && i < |s.status| && s.status[i].Running? && (end.Succeeded? || end.Failed?)
    ensures Inv(s.(status := s.status[i := end]))
  {
    var s' := s.(status := s.status[i := end]);
    match s.main
    case Waiting(st) => assert ErrorsOf(s', st.errors);
    case Answered(Left(errors)) => assert ErrorsOf(s', errors);
    case Answered(Right(w)) => RightFrame(s, s', w);
  }

  lemma ReleasedFrame(s: System, s': System)
    requires s.main.Answered? && s.main.answer.Right? && InvRight(s, s.main.answer.winner)
    requires |s.status| == |s'.status|
    requires forall t | 0 <= t < |s.status| && !s.status[t].Running? :: s.status[t] == s'.status[t]
    ensures Successes(s, s.worker.all[..s.worker.waited]) == Successes(s', s.worker.all[..s.worker.waited])
  {
    forall t | t in s.worker.all[..s.worker.waited]
      ensures Finished(s, t)
    {
      var j :| 0 <= j < s.worker.waited && s.worker.all[j] == t;
    }
    SuccessesFrame(s, s', s.worker.all[..s.worker.waited]);
  }

  /** Letting time pass or telling a thread to stop changes nothing the invariant records about the attempts. */
  lemma QuietKeeps(s: System, s': System)
    requires Inv(s)
    requires s' == s.(now := s'.now, worker := s'.worker) && s'.now >= s.now
    requires s'.worker == s.worker
          || (s.worker.cancelled < |s.worker.all| && s'.worker == s.worker.(cancelled := s.worker.cancelled + 1))
    ensures Inv(s')
  {
    if s.main.Answered? && s.main.answer.Right? {
      ReleasedFrame(s, s');
    }
  }

  lemma RightFrame(s: System, s': System, w: nat)
    requires s.main == Answered(Right(w)) && InvRight(s, w)
    requires s'.started == s.started && s'.failed == s.failed && s'.released == s.released && s'.worker == s.worker
    requires |s.status| == |s'.status|
    requires forall t | 0 <= t < |s.status| && !s.status[t].Running? :: s.status[t] == s'.status[t]
    ensures InvRight(s', w)
  {
    ReleasedFrame(s, s');
    forall j | 0 <= j < s.worker.waited
      ensures Finished(s', s.worker.all[j])
    {
      assert Finished(s, s.worker.all[j]);
    }
  }

  lemma ApplyInv(s: System, a: Step)
    requires Inv(s) && Apply(s, a).Some?
    ensures Inv(Apply(s, a).value)
  {
    match a
    case Succeeds(i) => ThreadKeeps(s, i, Succeeded);
    case Fails(i, e) => ThreadKeeps(s, i, Failed(e));
    case MainStep => FinishKeeps(s, s.main.st, [], s.main.st.threads);
    case WorkerWaits => WaitsKeeps(s);
    case TimePasses(d) => QuietKeeps(s, Apply(s, a).value);
    case TimerFires =>
    case WorkerCancels => QuietKeeps(s, Apply(s, a).value);
  }

  lemma {:induction false} RunInv(n: nat, delay: nat, now: int, steps: seq<Step>)
    requires Exec(Init(n, delay, now), steps).Some?
    ensures Inv(Exec(Init(n, delay, now), steps).value)
  {
    var s0 := Init(n, delay, now);
    if steps == [] {
      InitInv(n, delay, now);
    } else {
      RunInv(n, delay, now, steps[..|steps| - 1]);
      ApplyInv(Exec(s0, steps[..|steps| - 1]).value, steps[|steps| - 1]);
    }
  }

  // ----- Main results: every run -----

  ghost predicate Reaches(n: nat, delay: nat, now: int, steps: seq<Step>, s: System) {
    Exec(Init(n, delay, now), steps) == Some(s)
  }

  lemma {:induction false} RangeOnce(lo: nat, hi: nat, t: nat)
    ensures multiset(Range(lo, hi))[t] == if lo <= t < hi then 1 else 0
    decreases hi
  {
    if lo < hi {
      RangeOnce(lo, hi - 1, t);
      assert Range(lo, hi) == Range(lo, hi - 1) + [hi - 1];
    } else {
      assert Range(lo, hi) == [];
    }
  }

  lemma Unchanging(n: nat, delay: nat, now: int, steps: seq<Step>, s: System)
    requires Reaches(n, delay, now, steps, s)
    ensures s.n == n && s.delay == delay
    decreases |steps|
  {
    if steps != [] {
      var mid := Exec(Init(n, delay, now), steps[..|steps| - 1]).value;
      Unchanging(n, delay, now, steps[..|steps| - 1], mid);
      if steps[|steps| - 1] == MainStep {
        FinishConfig(mid, mid.main.st, [], mid.main.st.threads);
      }
    }
  }

  lemma {:induction false} FinishConfig(s: System, st: St, passed: seq<nat>, rest: seq<nat>)
    requires forall i | 0 <= i < |st.work| :: st.work[i] < |s.status|
    ensures var f := Finish(s, st, passed, rest); f.Some? ==> f.value.n == s.n && f.value.delay == s.delay
    decreases |rest|
  {
    if rest != [] && !Finished(s, rest[0]) {
      FinishConfig(s, st, [rest[0]] + passed, rest[1..]);
    }
  }

  /** Attempts are started in list order, and until there is an answer every attempt is in exactly one place: its
      thread is being watched, it has failed, or it is still to be started. */
  lemma Conservation(n: nat, delay: nat, now: int, steps: seq<Step>, s: System)
    requires Reaches(n, delay, now, steps, s)
    ensures s.started == Range(0, |s.started|) && |s.started| <= n
    ensures s.main.Waiting? ==>
              var st := s.main.st;
              && multiset(st.threads) + multiset(s.failed) + multiset(st.work) == multiset(Range(0, n))
              && |st.threads| + |st.errors| + |st.work| == n
  {
    RunInv(n, delay, now, steps);
    Unchanging(n, delay, now, steps, s);
    if s.main.Waiting? {
      var k := |s.started|;
      assert Range(0, k) + Range(k, n) == Range(0, n);
      assert |multiset(s.main.st.threads) + multiset(s.failed)| == |multiset(s.started)|;
    }
  }

  /** Errors are returned only when every attempt has failed; there is one error for each attempt, its own. */
  lemma LeftMeansAllFailed(n: nat, delay: nat, now: int, steps: seq<Step>, s: System)
    requires Reaches(n, delay, now, steps, s)
    requires s.main.Answered? && s.main.answer.Left?
    ensures |s.main.answer.errors| == n && |s.failed| == n && |s.status| == n
    ensures multiset(s.failed) == multiset(Range(0, n))
    ensures forall j | 0 <= j < n :: s.failed[j] < n && s.status[s.failed[j]] == Failed(s.main.answer.errors[j])
    ensures forall t | 0 <= t < n :: s.status[t].Failed?
  {
    RunInv(n, delay, now, steps);
    Unchanging(n, delay, now, steps, s);
    assert |multiset(s.failed)| == |multiset(s.started)|;
    forall t | 0 <= t < n
      ensures s.status[t].Failed?
    {
      RangeOnce(0, n, t);
      assert t in multiset(s.failed);
      assert t in s.failed;
    }
  }

  predicate Drained(s: System) {
    s.worker.waited == |s.worker.all|
  }

  lemma {:induction false} PrefixCount(all: seq<nat>, k: nat, t: nat)
    requires k <= |all|
    ensures multiset(all[..k])[t] <= multiset(all)[t]
  {
    assert all == all[..k] + all[k..];
  }

  /** When an attempt wins, it is never released, nothing that failed is released, and no success is released twice;
      once the worker is done no thread is left running and every other success has been released exactly once. */
  lemma OnlyTheWinnerIsKept(n: nat, delay: nat, now: int, steps: seq<Step>, s: System, t: nat)
    requires Reaches(n, delay, now, steps, s)
    requires s.main.Answered? && s.main.answer.Right?
    ensures var w := s.main.answer.winner;
            && Won(s, w)
            && w !in s.released
            && multiset(s.released)[t] <= 1
            && (t in s.released ==> Won(s, t))
            && (Drained(s) ==> (Won(s, t) && t != w <==> multiset(s.released)[t] == 1))
            && (Drained(s) ==> t < |s.status| ==> !s.status[t].Running?)
  {
    RunInv(n, delay, now, steps);
    var w := s.main.answer.winner;
    var all, k := s.worker.all, s.worker.waited;
    AccountedFor(s, w);
    AccountedFor(s, t);
    SuccessesCount(s, all[..k], w);
    SuccessesCount(s, all[..k], t);
    PrefixCount(all, k, w);
    PrefixCount(all, k, t);
    assert Drained(s) ==> all[..k] == all;
  }

  /** After a win, a started attempt is the winner, is left to the worker, or has failed: exactly one of these. */
  lemma AccountedFor(s: System, t: nat)
    requires Inv(s) && s.main.Answered? && s.main.answer.Right?
    ensures (if t == s.main.answer.winner then 1 else 0) + multiset(s.worker.all)[t] + multiset(s.failed)[t]
         == if t < |s.started| then 1 else 0
    ensures multiset(s.failed)[t] > 0 ==> t < |s.status| && s.status[t].Failed?
    ensures Drained(s) && multiset(s.worker.all)[t] > 0 ==> Finished(s, t)
  {
    var w := s.main.answer.winner;
    RangeOnce(0, |s.started|, t);
    assert multiset([w])[t] == if t == w then 1 else 0;
    if multiset(s.failed)[t] > 0 {
      assert t in s.failed;
    }
    if Drained(s) && multiset(s.worker.all)[t] > 0 {
      assert t in s.worker.all;
      var j :| 0 <= j < |s.worker.all| && s.worker.all[j] == t;
      assert Finished(s, s.worker.all[j]);
    }
  }

  lemma {:induction false} FinishStarts(s: System, st: St, passed: seq<nat>, rest: seq<nat>)
    requires Inv(s) && s.main == Waiting(st)
    requires multiset(passed) + multiset(rest) == multiset(st.threads) && |passed| + |rest| == |st.threads|
    requires forall i | 0 <= i < |passed| :: !Finished(s, passed[i])
    ensures var f := Finish(s, st, passed, rest);
            f.Some? && f.value.started != s.started ==>
              && f.value.started == s.started + [|s.started|]
              && (|f.value.failed| == |s.started|
                  || (st.ready == Fired && forall t | t in st.threads :: !Finished(s, t)))
    decreases |rest|
  {
    if rest == [] {
      forall t | t in st.threads
        ensures !Finished(s, t)
      {
        assert multiset(rest) == multiset{};
        assert t in multiset(st.threads);
        assert t in multiset(passed);
        assert t in passed;
      }
      if st.work != [] { assert st.work[0] == |s.started|; }
    } else if Finished(s, rest[0]) {
      var others := passed + rest[1..];
      assert |multiset(st.threads) + multiset(s.failed)| == |multiset(s.started)|;
      if st.work != [] { assert st.work[0] == |s.started|; }
    } else {
      assert rest == [rest[0]] + rest[1..];
      FinishStarts(s, st, [rest[0]] + passed, rest[1..]);
    }
  }

  /** The pace of RFC 8305: an attempt is started only by the event loop, is the next one in the list, and is started
      either when all earlier attempts have failed, or when none of the running ones has finished and at least the
      configured delay has passed since the last start. */
  lemma StartPacing(n: nat, delay: nat, now: int, steps: seq<Step>, s: System, a: Step)
    requires Reaches(n, delay, now, steps, s)
    requires Apply(s, a).Some? && Apply(s, a).value.started != s.started
    ensures var s' := Apply(s, a).value;
            && a == MainStep && s.main.Waiting?
            && s'.started == s.started + [|s.started|]
            && (|s'.failed| == |s.started|
                || (s.now >= s.lastStart + delay && forall t | t in s.main.st.threads :: !Finished(s, t)))
  {
    RunInv(n, delay, now, steps);
    Unchanging(n, delay, now, steps, s);
    if a == MainStep {
      FinishStarts(s, s.main.st, [], s.main.st.threads);
    }
  }

  // ----- Progress -----

  function Measure(s: System): nat {
    if s.main.Waiting? then 2 * |s.main.st.work| + |s.main.st.threads| else 0
  }

  lemma {:induction false} FinishDecreases(s: System, st: St, passed: seq<nat>, rest: seq<nat>)
    requires Inv(s) && s.main == Waiting(st)
    requires |passed| + |rest| == |st.threads|
    ensures var f := Finish(s, st, passed, rest); f.Some? ==> Measure(f.value) < Measure(s)
    ensures Finish(s, st, passed, rest).None? ==> forall i | 0 <= i < |rest| :: !Finished(s, rest[i])
    decreases |rest|
  {
    if rest != [] && !Finished(s, rest[0]) {
      FinishDecreases(s, st, [rest[0]] + passed, rest[1..]);
      if Finish(s, st, passed, rest).None? {
        forall i | 0 <= i < |rest|
          ensures !Finished(s, rest[i])
        {
          assert i > 0 ==> rest[i] == rest[1..][i - 1];
        }
      }
    }
  }

  function Count(steps: seq<Step>): nat {
    if steps == [] then 0
    else Count(steps[..|steps| - 1]) + if steps[|steps| - 1] == MainStep then 1 else 0
  }

  /** The event loop makes fewer than 2n transactions, whatever the threads, the timer and the clock do. */
  lemma {:induction false} LoopTerminates(n: nat, delay: nat, now: int, steps: seq<Step>, s: System)
    requires Reaches(n, delay, now, steps, s)
    ensures Count(steps) + Measure(s) <= if n == 0 then 0 else 2 * n - 1
    decreases |steps|
  {
    if steps == [] {
      InitMeasure(n, delay, now);
    } else {
      var init := steps[..|steps| - 1];
      var mid := Exec(Init(n, delay, now), init).value;
      LoopTerminates(n, delay, now, init, mid);
      RunInv(n, delay, now, init);
      if steps[|steps| - 1] == MainStep {
        FinishDecreases(mid, mid.main.st, [], mid.main.st.threads);
      }
    }
  }

  lemma InitMeasure(n: nat, delay: nat, now: int)
    ensures Measure(Init(n, delay, now)) == if n == 0 then 0 else 2 * n - 1
  {
    var s := System(n, delay, now, seq(n, i => NotStarted), Answered(Left([])), Worker([], 0, 0), [], now, [], []);
    var st := St([], [], Range(0, n), Never);
    if n > 0 {
      assert |st.work[1..]| == n - 1;
      assert |[st.work[0]] + st.threads| == 1;
    }
  }

  /** Nothing gets stuck: while there is no answer the event loop can go on unless it waits for a running thread, and
      after a win the worker can go on unless it is done or waits for a running thread. */
  lemma NeverStuck(n: nat, delay: nat, now: int, steps: seq<Step>, s: System)
    requires Reaches(n, delay, now, steps, s)
    ensures s.main.Waiting? ==>
              Apply(s, MainStep).Some? || exists t | t in s.main.st.threads :: t < |s.status| && s.status[t].Running?
    ensures s.main.Answered? ==>
              || Drained(s)
              || Apply(s, WorkerCancels).Some?
              || Apply(s, WorkerWaits).Some?
              || (s.worker.waited < |s.worker.all| && s.worker.all[s.worker.waited] < |s.status|
                  && s.status[s.worker.all[s.worker.waited]].Running?)
  {
    RunInv(n, delay, now, steps);
    if s.main.Waiting? {
      var st := s.main.st;
      FinishDecreases(s, st, [], st.threads);
      var t := st.threads[0];
      assert t in multiset(s.started);
      assert t in s.started;
    } else if s.main.answer.Right? && !Drained(s) && s.worker.cancelled == |s.worker.all| {
      var t := s.worker.all[s.worker.waited];
      assert t in multiset(s.worker.all);
      AccountedFor(s, t);
    }
  }

  lemma {:induction false} FinishFresh(s: System, st: St, passed: seq<nat>, rest: seq<nat>)
    requires forall i | 0 <= i < |st.work| :: st.work[i] < |s.status|
    requires forall i | 0 <= i < |rest| :: !Finished(s, rest[i])
    ensures Finish(s, st, passed, rest) == Fresh(s, st)
    decreases |rest|
  {
    if rest != [] {
      FinishFresh(s, st, [rest[0]] + passed, rest[1..]);
    }
  }

  /** The other half of the pace: while attempts are left, a delay is always running from the last start. As soon as it
      has passed the timer can fire, and then, if still no running attempt has finished, the next one is started. */
  lemma DelayedStart(n: nat, delay: nat, now: int, steps: seq<Step>, s: System)
    requires Reaches(n, delay, now, steps, s)
    requires s.main.Waiting? && s.main.st.work != [] && s.now >= s.lastStart + delay
    ensures s.main.st.ready == Fired || Apply(s, TimerFires).Some?
    ensures var fired := s.(main := Waiting(s.main.st.(ready := Fired)));
            (forall i | 0 <= i < |s.main.st.threads| :: !Finished(s, s.main.st.threads[i])) ==>
              && Apply(fired, MainStep).Some?
              && Apply(fired, MainStep).value.started == s.started + [|s.started|]
  {
    RunInv(n, delay, now, steps);
    Unchanging(n, delay, now, steps, s);
    var fired := s.(main := Waiting(s.main.st.(ready := Fired)));
    if forall i | 0 <= i < |s.main.st.threads| :: !Finished(s, s.main.st.threads[i]) {
      FinishFresh(fired, fired.main.st, [], fired.main.st.threads);
      assert s.main.st.work[0] == |s.started|;
    }
  }

  // ----- Which event a transaction takes, and in what order errors are reported -----

  function Reversed(xs: seq<nat>): seq<nat> {
    seq(|xs|, i requires 0 <= i < |xs| => xs[|xs| - 1 - i])
  }

  lemma {:induction false} FinishFirst(s: System, st: St, passed: seq<nat>, rest: seq<nat>, k: nat)
    requires forall i | 0 <= i < |st.work| :: st.work[i] < |s.status|
    requires k < |rest| && Finished(s, rest[k]) && forall i | 0 <= i < k :: !Finished(s, rest[i])
    ensures Finish(s, st, passed, rest)
         == Some(Finish1(s, st, Reversed(rest[..k]) + passed + rest[k + 1..], rest[k]))
    decreases |rest|
  {
    if k == 0 {
      assert Reversed(rest[..0]) + passed == passed;
    } else {
      FinishFirst(s, st, [rest[0]] + passed, rest[1..], k - 1);
      assert rest[1..][..k - 1] == rest[1..k] && rest[1..][k..] == rest[k + 1..];
      assert Reversed(rest[..k]) == Reversed(rest[1..k]) + [rest[0]];
      assert Reversed(rest[1..k]) + ([rest[0]] + passed) == Reversed(rest[..k]) + passed;
    }
  }

  /** The errors collected so far, newest first. */
  function ErrorsIn(m: Main): seq<Error> {
    match m
    case Waiting(st) => st.errors
    case Answered(Left(errors)) => errors
    case Answered(Right(_)) => []
  }

  /** Of the finished threads the event loop takes the first in its list, the one started last if none has been passed
      over. If that one has succeeded it is the answer; if it has failed its error is reported in front of the earlier
      ones. Without a finished thread no error is added. */
  lemma TakesFirst(n: nat, delay: nat, now: int, steps: seq<Step>, s: System, k: nat)
    requires Reaches(n, delay, now, steps, s) && s.main.Waiting? && Apply(s, MainStep).Some?
    requires k <= |s.main.st.threads| && forall i | 0 <= i < k :: !Finished(s, s.main.st.threads[i])
    requires k < |s.main.st.threads| ==> Finished(s, s.main.st.threads[k])
    ensures var st, s' := s.main.st, Apply(s, MainStep).value;
            if k == |st.threads| then s'.main.Waiting? && ErrorsIn(s'.main) == st.errors
            else if s.status[st.threads[k]].Succeeded? then s'.main == Answered(Right(st.threads[k]))
            else ErrorsIn(s'.main) == [s.status[st.threads[k]].error] + st.errors
                 && s'.failed == [st.threads[k]] + s.failed
  {
    RunInv(n, delay, now, steps);
    var st := s.main.st;
    if k == |st.threads| {
      FinishFresh(s, st, [], st.threads);
    } else {
      FinishFirst(s, st, [], st.threads, k);
    }
  }

  /** Nothing else adds an error or answers. */
  lemma OnlyTheLoopReports(s: System, a: Step)
    requires Apply(s, a).Some? && a != MainStep
    ensures var s' := Apply(s, a).value;
            && ErrorsIn(s'.main) == ErrorsIn(s.main) && s'.failed == s.failed
            && (s'.main.Answered? <==> s.main.Answered?) && (s.main.Answered? ==> s'.main == s.main)
  {}

  lemma {:induction false} FinishDates(s: System, st: St, passed: seq<nat>, rest: seq<nat>)
    requires forall i | 0 <= i < |st.work| :: st.work[i] < |s.status|
    ensures var f := Finish(s, st, passed, rest);
            f.Some? ==>
              if f.value.started == s.started then f.value.lastStart == s.lastStart
              else exists x :: 0 <= x < |s.status| && Begun(s, f.value, x)
    decreases |rest|
  {
    if rest == [] {
      if st.work != [] && st.ready == Fired {
        assert Begun(s, Start(s, st.work[0], st.(work := st.work[1..])), st.work[0]);
      }
    } else if Finished(s, rest[0]) {
      if st.work != [] && passed + rest[1..] == [] && s.status[rest[0]].Failed? {
        assert Begun(s, Finish1(s, st, [], rest[0]), st.work[0]);
      }
    } else {
      FinishDates(s, st, [rest[0]] + passed, rest[1..]);
    }
  }

  /** The attempt `x` has been started just now. */
  predicate Begun(s: System, s': System, x: nat)
    requires x < |s.status|
  {
    s'.started == s.started + [x] && s'.lastStart == s.now && s'.status == s.status[x := Running]
  }

  /** The recorded start is that of the last attempt: a step that starts one records the time and sets its thread
      running, and no other step changes the record. */
  lemma StartDated(s: System, a: Step)
    requires Apply(s, a).Some?
    ensures var s' := Apply(s, a).value;
            if s'.started == s.started then s'.lastStart == s.lastStart
            else exists x :: 0 <= x < |s.status| && Begun(s, s', x)
  {
    if a == MainStep { FinishDates(s, s.main.st, [], s.main.st.threads); }
  }

  /** What the environment may do: a running thread may succeed or fail at any moment, and only that; time passes; the
      timer fires once its deadline has come. */
  lemma Environment(s: System, i: nat, e: Error, d: nat)
    ensures Apply(s, Succeeds(i)).Some? <==> i < |s.status| && s.status[i].Running?
    ensures Apply(s, Fails(i, e)).Some? <==> i < |s.status| && s.status[i].Running?
    ensures i < |s.status| && s.status[i].Running? ==>
              && Apply(s, Succeeds(i)) == Some(s.(status := s.status[i := Succeeded]))
              && Apply(s, Fails(i, e)) == Some(s.(status := s.status[i := Failed(e)]))
    ensures Apply(s, TimePasses(d)) == Some(s.(now := s.now + d))
    ensures Apply(s, TimerFires).Some? <==>
              s.main.Waiting? && s.main.st.ready.Armed? && s.main.st.ready.deadline <= s.now
  {}
}
