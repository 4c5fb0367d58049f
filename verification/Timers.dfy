/** Extension timers of the client (src/Client/CApi.hs) and how the OTR extension uses them
    (otr-extension/glirc-otr.cpp). */
module Timers {
  import opened Text

  /** The scheduled timers by id, with their activation times in milliseconds, and the next id. */
  datatype Extension = Extension(timers: map<int, int>, nextTimer: int, live: bool)

  const OPENED := Extension(map[], 1, true)

  function PushTimer(time: int, e: Extension): (int, Extension) {
    (e.nextTimer, e.(timers := e.timers[e.nextTimer := time], nextTimer := e.nextTimer + 1))
  }

  /** No other timer is due before this one. */
  predicate Earliest(e: Extension, id: int) {
    id in e.timers && forall k | k in e.timers :: e.timers[id] <= e.timers[k]
  }

  /** What taking the earliest timer may give: one of the earliest entries, or nothing when there is none or the
      extension is being stopped. */
  predicate PopTimer(e: Extension, popped: Option<int>, e': Extension) {
    match popped
    case None => (!e.live || e.timers.Keys == {}) && e' == e
    case Some(id) => e.live && Earliest(e, id) && e' == e.(timers := e.timers - {id})
  }

  function CancelTimer(id: int, e: Extension): Option<Extension> {
    if id in e.timers then Some(e.(timers := e.timers - {id})) else None
  }

  lemma {:induction false} Smallest<T>(due: map<T, int>, keys: set<T>) returns (id: T)
    requires keys != {} && keys <= due.Keys
    ensures id in keys && forall k | k in keys :: due[id] <= due[k]
    decreases |keys|
  {
    var x :| x in keys;
    var rest := keys - {x};
    if rest == {} {
      assert keys == {x};
      id := x;
    } else {
      var y := Smallest(due, rest);
      id := if due[x] <= due[y] then x else y;
      assert forall k | k in keys :: k == x || k in rest;
    }
  }

  /** A live extension with timers can always take one. */
  lemma PopPossible(e: Extension)
    ensures exists popped, e' :: PopTimer(e, popped, e')
    ensures e.live && e.timers.Keys != {} ==> exists id :: PopTimer(e, Some(id), e.(timers := e.timers - {id}))
  {
    if e.live && e.timers.Keys != {} {
      var id := Smallest(e.timers, e.timers.Keys);
      assert Earliest(e, id);
      assert PopTimer(e, Some(id), e.(timers := e.timers - {id}));
    } else {
      assert PopTimer(e, None, e);
    }
  }

  // ----- Runs of the client's timer operations -----

  datatype Op = Push(time: int) | Pop(id: int) | Cancel(id: int)

  /** The extension with the history of its timers. */
  datatype History = History(ext: Extension, issued: seq<int>, fired: seq<int>, cancelled: seq<int>)

  function Apply(h: History, op: Op): Option<History> {
    match op
    case Push(time) =>
      var (id, e) := PushTimer(time, h.ext);
      Some(h.(ext := e, issued := h.issued + [id]))
    case Pop(id) =>
      if h.ext.live && Earliest(h.ext, id)
      then Some(h.(ext := h.ext.(timers := h.ext.timers - {id}), fired := h.fired + [id])) else None
    case Cancel(id) =>
      match CancelTimer(id, h.ext)
      case None => Some(h)
      case Some(e) => Some(h.(ext := e, cancelled := h.cancelled + [id]))
  }

  function Exec(ops: seq<Op>): Option<History> {
    if ops == [] then Some(History(OPENED, [], [], []))
    else
      match Exec(ops[..|ops| - 1])
      case None => None
      case Some(h) => Apply(h, ops[|ops| - 1])
  }

  /** Each issued timer is in exactly one place. */
  predicate Accounted(h: History) {
    && (forall i | 0 <= i < |h.issued| :: h.issued[i] == i + 1)
    && h.ext.nextTimer == |h.issued| + 1
    && multiset(h.issued) == multiset(h.ext.timers.Keys) + multiset(h.fired) + multiset(h.cancelled)
  }

  lemma {:induction false} RunAccounted(ops: seq<Op>)
    ensures Exec(ops).Some? ==> Accounted(Exec(ops).value)
  {
    if ops != [] && Exec(ops).Some? {
      RunAccounted(ops[..|ops| - 1]);
      ApplyAccounted(Exec(ops[..|ops| - 1]).value, ops[|ops| - 1]);
    }
  }

  lemma ApplyAccounted(h: History, op: Op)
    requires Accounted(h) && Apply(h, op).Some?
    ensures Accounted(Apply(h, op).value)
  {
    match op
    case Push(time) => PushAccounted(h, time);
    case Pop(id) => Removed(h.ext.timers, id);
    case Cancel(id) => if id in h.ext.timers { Removed(h.ext.timers, id); }
  }

  lemma PushAccounted(h: History, time: int)
    requires Accounted(h)
    ensures Accounted(Apply(h, Push(time)).value)
  {
    var h' := Apply(h, Push(time)).value;
    var id := h.ext.nextTimer;
    FreshId(h);
    assert h'.ext.timers.Keys == h.ext.timers.Keys + {id};
    assert multiset(h'.ext.timers.Keys) == multiset(h.ext.timers.Keys) + multiset{id};
    assert multiset(h'.issued) == multiset(h.issued) + multiset{id};
  }

  lemma FreshId(h: History)
    requires Accounted(h)
    ensures h.ext.nextTimer !in h.ext.timers
  {
    assert h.ext.nextTimer !in h.issued;
    assert multiset(h.issued)[h.ext.nextTimer] == 0;
  }

  lemma Removed(timers: map<int, int>, id: int)
    requires id in timers
    ensures multiset(timers.Keys) == multiset((timers - {id}).Keys) + multiset{id}
  {
    assert timers.Keys == (timers - {id}).Keys + {id};
  }

  /** In every run ids are never reused, a timer fires at most once, and a cancelled one never. */
  lemma TimerSafety(ops: seq<Op>, id: int)
    requires Exec(ops).Some?
    ensures var h := Exec(ops).value;
            && multiset(h.issued)[id] <= 1
            && multiset(h.fired)[id] + multiset(h.cancelled)[id] <= 1
            && (id in h.ext.timers ==> id !in h.fired && id !in h.cancelled)
            && (id in h.issued ==> id in h.ext.timers || id in h.fired || id in h.cancelled)
  {
    RunAccounted(ops);
    var h := Exec(ops).value;
    IssuedOnce(h.issued, id);
    assert multiset(h.issued)[id]
        == multiset(h.ext.timers.Keys)[id] + multiset(h.fired)[id] + multiset(h.cancelled)[id];
    assert id in h.fired <==> id in multiset(h.fired);
    assert id in h.cancelled <==> id in multiset(h.cancelled);
    assert id in h.issued <==> id in multiset(h.issued);
  }

  lemma {:induction false} IssuedOnce(issued: seq<int>, id: int)
    requires forall i | 0 <= i < |issued| :: issued[i] == i + 1
    ensures multiset(issued)[id] <= 1
  {
    if issued != [] {
      var init := issued[..|issued| - 1];
      assert issued == init + [issued[|issued| - 1]];
      IssuedOnce(init, id);
      if id == |issued| {
        assert id !in init;
      }
    }
  }

  // ----- The OTR extension -----

  /** The client as the extension sees it: its timers, and the clock in milliseconds. */
  class Client {
    var ext: Extension
    var now: int
    ghost var fired: set<int>
    ghost var cancelled: set<int>

    ghost predicate Valid()
      reads this
    {
      && (forall id | id in ext.timers :: id < ext.nextTimer)
      && (forall id | id in fired + cancelled :: id < ext.nextTimer)
      && fired !! cancelled
      && ext.timers.Keys !! (fired + cancelled)
    }

    constructor (start: int)
      ensures Valid() && ext == Extension(map[], 1, true) && now == start && fired == {} && cancelled == {}
    {
      ext, now := OPENED, start;
      fired, cancelled := {}, {};
    }

    method SetTimer(millis: nat) returns (id: int)
      requires Valid()
      modifies this`ext
      ensures Valid()
      ensures (id, ext) == PushTimer(now + millis, old(ext))
      ensures id !in old(ext).timers && id !in fired + cancelled
    {
      var (i, e) := PushTimer(now + millis, ext);
      ext := e;
      id := i;
    }

    method Cancel(id: int)
      requires Valid()
      modifies this`ext, this`cancelled
      ensures Valid()
      ensures ext == (if id in old(ext).timers then CancelTimer(id, old(ext)).value else old(ext))
      ensures cancelled == old(cancelled) + (if id in old(ext).timers then {id} else {})
    {
      match CancelTimer(id, ext)
      case None =>
      case Some(e) =>
        ext := e;
        cancelled := cancelled + {id};
    }

    /** Take an earliest timer out of the queue; its callback runs next. */
    method Take() returns (popped: Option<int>)
      requires Valid()
      modifies this`ext, this`fired
      ensures Valid()
      ensures PopTimer(old(ext), popped, ext)
      ensures fired == old(fired) + (if popped.Some? then {popped.value} else {})
      ensures popped.Some? ==> popped.value !in cancelled + old(fired)
    {
      if !ext.live || ext.timers.Keys == {} { return None; }
      ghost var first := Smallest(ext.timers, ext.timers.Keys);
      assert first in ext.timers.Keys && Earliest(ext, first);
      var id :| id in ext.timers.Keys && Earliest(ext, id);
      ext := ext.(timers := ext.timers - {id});
      fired := fired + {id};
      popped := Some(id);
    }
  }

  /** The extension's own fields for its poll timer; the interval is in seconds. */
  class OpData {
    const G: Client
    var timerActive: bool
    var timerInterval: nat
    var timerId: int

    /** The client holds exactly the timer the fields describe, or none. */
    ghost predicate Valid()
      reads this, G
    {
      && G.Valid()
      && G.ext.timers.Keys == (if timerActive then {timerId} else {})
      && (timerActive <==> timerInterval > 0)
    }

    /** The queue has just given up the extension's timer, and the callback has not started yet. */
    ghost predicate Firing()
      reads this, G
    {
      G.Valid() && timerActive && G.ext.timers.Keys == {} && timerInterval > 0
    }

    constructor (g: Client)
      requires g.Valid() && g.ext.timers.Keys == {}
      ensures Valid() && G == g && !timerActive && timerInterval == 0
    {
      G := g;
      timerActive, timerInterval, timerId := false, 0, 0;
    }

    /** Whatever timer there was is cancelled, and a new one is set when the interval is positive. */
    method ScheduleTimer()
      requires G.Valid() && G.ext.timers.Keys == if timerActive then {timerId} else {}
      modifies this`timerActive, this`timerId, G`ext, G`cancelled
      ensures Valid()
      ensures timerActive <==> timerInterval > 0
      ensures timerActive ==>
                timerId == old(G.ext.nextTimer) && G.ext.timers == map[timerId := G.now + 1000 * timerInterval]
      ensures G.cancelled == old(G.cancelled) + (if old(timerActive) then {old(timerId)} else {})
    {
      if timerActive {
        G.Cancel(timerId);
      }
      assert G.ext.timers == map[];
      timerActive := timerInterval > 0;
      if timerActive {
        timerId := G.SetTimer(1000 * timerInterval);
      }
    }

    method TimerFinished()
      modifies this`timerActive
      ensures !timerActive
    {
      timerActive := false;
    }

    method TimerControl(interval: nat)
      requires G.Valid() && G.ext.timers.Keys == if timerActive then {timerId} else {}
      modifies this`timerActive, this`timerId, this`timerInterval, G`ext, G`cancelled
      ensures Valid() && timerInterval == interval
      ensures timerActive ==> timerId == old(G.ext.nextTimer) && G.ext.timers == map[timerId := G.now + 1000 * interval]
      ensures G.cancelled == old(G.cancelled) + (if old(timerActive) then {old(timerId)} else {})
    {
      timerInterval := interval;
      ScheduleTimer();
    }

    /** Polling the library calls back `TimerControl` any number of times, with any intervals. */
    method MessagePoll(intervals: seq<nat>)
      requires G.Valid() && G.ext.timers.Keys == if timerActive then {timerId} else {}
      modifies this`timerActive, this`timerId, this`timerInterval, G`ext, G`cancelled
      ensures G.Valid() && G.ext.timers.Keys == if timerActive then {timerId} else {}
      ensures timerInterval == if intervals == [] then old(timerInterval) else intervals[|intervals| - 1]
    {
      for i := 0 to |intervals|
        invariant G.Valid() && G.ext.timers.Keys == if timerActive then {timerId} else {}
        invariant timerInterval == if i == 0 then old(timerInterval) else intervals[i - 1]
      {
        TimerControl(intervals[i]);
      }
    }

    /** The callback of the timer: mark it finished, poll, and schedule the next one. The timer that fired is never
        cancelled, and afterwards there is one timer for the interval asked for last, or none. */
    method TimerEntrypoint(intervals: seq<nat>)
      requires Firing()
      modifies this`timerActive, this`timerId, this`timerInterval, G`ext, G`cancelled
      ensures Valid()
      ensures timerInterval == if intervals == [] then old(timerInterval) else intervals[|intervals| - 1]
      ensures timerActive ==> G.ext.timers == map[timerId := G.now + 1000 * timerInterval]
    {
      TimerFinished();
      MessagePoll(intervals);
      ScheduleTimer();
    }

    /** One turn of the client's event loop for this extension: take the earliest timer and run its callback. Nothing
        but the extension's active timer can be taken. */
    method FireTimer(intervals: seq<nat>) returns (popped: Option<int>)
      requires Valid()
      modifies this`timerActive, this`timerId, this`timerInterval, G`ext, G`cancelled, G`fired
      ensures Valid()
      ensures popped.Some? <==> old(timerActive) && old(G.ext.live)
      ensures popped.Some? ==> popped.value == old(timerId) && popped.value !in old(G.cancelled + G.fired)
      ensures popped.Some? ==> popped.value !in G.cancelled && popped.value in G.fired
    {
      popped := G.Take();
      if popped.Some? {
        TimerEntrypoint(intervals);
      }
    }
  }
}
