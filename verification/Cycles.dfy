/** Cycling through choices in order: tab completion (src/Client/Commands/WordCompletion.hs) and stepping the focus
    through the windows (src/Client/State.hs). */
module Cycles {
  import opened Text
  import opened Identifiers

  ghost predicate TotalOrder<T(!new)>(lt: (T, T) -> bool) {
    && (forall x :: !lt(x, x))
    && (forall x, y :: x != y ==> lt(x, y) || lt(y, x))
    && (forall x, y, z :: lt(x, y) && lt(y, z) ==> lt(x, z))
  }

  /** The same order, read from the other end. */
  function Flip<T>(lt: (T, T) -> bool): (T, T) -> bool {
    (x, y) => lt(y, x)
  }

  predicate IsMin<T>(lt: (T, T) -> bool, s: set<T>, m: T) {
    m in s && forall y | y in s :: y == m || lt(m, y)
  }

  lemma {:induction false} MinExists<T(!new)>(lt: (T, T) -> bool, s: set<T>)
    requires TotalOrder(lt) && s != {}
    ensures exists m :: IsMin(lt, s, m)
    decreases |s|
  {
    var x :| x in s;
    if s == {x} {
      assert IsMin(lt, s, x);
    } else {
      MinExists(lt, s - {x});
      var m :| IsMin(lt, s - {x}, m);
      assert forall y | y in s :: y == x || y in s - {x};
      assert IsMin(lt, s, if lt(x, m) then x else m);
    }
  }

  ghost function Min<T(!new)>(lt: (T, T) -> bool, s: set<T>): (m: T)
    requires TotalOrder(lt) && s != {}
    ensures IsMin(lt, s, m)
  {
    MinExists(lt, s);
    var m :| IsMin(lt, s, m);
    m
  }

  ghost function After<T(!new)>(lt: (T, T) -> bool, s: set<T>, x: T): set<T> {
    set y | y in s && lt(x, y)
  }

  // ----- The two steps of the client -----

  ghost function Matching<T(!new)>(isPrefix: (T, T) -> bool, pat: T, vals: seq<T>): set<T> {
    set v | v in vals && isPrefix(pat, v)
  }

  /** The next possibility after the previous result, or the first one. */
  ghost function TabSearch<T(!new)>(isReversed: bool, lt: (T, T) -> bool, isPrefix: (T, T) -> bool, pat: T, cur: T,
                                    vals: seq<T>): Option<T>
    requires TotalOrder(lt)
  {
    var valSet := Matching(isPrefix, pat, vals);
    var order := if isReversed then Flip(lt) else lt;
    if valSet == {} then None
    else if After(order, valSet, cur) != {} then Some(Min(order, After(order, valSet, cur)))
    else Some(Min(order, valSet))
  }

  datatype Direction = Forward | Backward

  /** The windows are split into those before and those after the current one, the hidden ones left out. */
  ghost function StepFocus<T(!new)>(d: Direction, lt: (T, T) -> bool, visible: set<T>, focus: T): T
    requires TotalOrder(lt)
  {
    var order := if d.Backward? then Flip(lt) else lt;
    var l, r := After(Flip(order), visible, focus), After(order, visible, focus);
    if r != {} then Min(order, r) else if l != {} then Min(order, l) else focus
  }

  // ----- The cyclic successor -----

  ghost function Next<T(!new)>(lt: (T, T) -> bool, s: set<T>, x: T): (y: T)
    requires TotalOrder(lt) && s != {}
    ensures y in s
  {
    if After(lt, s, x) != {} then Min(lt, After(lt, s, x)) else Min(lt, s)
  }

  ghost function Iterate<T(!new)>(lt: (T, T) -> bool, s: set<T>, x: T, k: nat): T
    requires TotalOrder(lt) && s != {}
  {
    if k == 0 then x else Next(lt, s, Iterate(lt, s, x, k - 1))
  }

  /** Stepping the focus from a visible window is the successor in the cycle of visible windows. */
  lemma StepFocusIsNext<T(!new)>(d: Direction, lt: (T, T) -> bool, visible: set<T>, focus: T)
    requires TotalOrder(lt) && focus in visible
    ensures StepFocus(d, lt, visible, focus) == Next(if d.Backward? then Flip(lt) else lt, visible, focus)
  {
    var order := if d.Backward? then Flip(lt) else lt;
    var l, r := After(Flip(order), visible, focus), After(order, visible, focus);
    if r == {} {
      forall y | y in visible
        ensures y == focus || y in l
      {
        assert y !in r;
      }
      var m := Min(order, visible);
      if l != {} {
        assert m in l;
      }
    }
  }

  lemma FlipOrder<T(!new)>(lt: (T, T) -> bool)
    requires TotalOrder(lt)
    ensures TotalOrder(Flip(lt))
  {}

  /** The elements in ascending order. */
  ghost predicate Ascending<T(!new)>(lt: (T, T) -> bool, s: set<T>, q: seq<T>) {
    && |q| == |s|
    && (forall i | 0 <= i < |q| :: q[i] in s)
    && (forall x | x in s :: x in q)
    && (forall i, j | 0 <= i < j < |q| :: lt(q[i], q[j]))
  }

  lemma {:induction false} Sort<T(!new)>(lt: (T, T) -> bool, s: set<T>) returns (q: seq<T>)
    requires TotalOrder(lt)
    ensures Ascending(lt, s, q)
    decreases |s|
  {
    if s == {} {
      q := [];
    } else {
      var m := Min(lt, s);
      var rest := Sort(lt, s - {m});
      q := [m] + rest;
      forall i, j | 0 <= i < j < |q|
        ensures lt(q[i], q[j])
      {
        assert q[j] == rest[j - 1] && rest[j - 1] in s - {m};
      }
      forall x | x in s
        ensures x in q
      {
        if x == m { assert q[0] == m; } else { assert x in s - {m}; }
      }
    }
  }

  lemma AscendingMin<T(!new)>(lt: (T, T) -> bool, s: set<T>, q: seq<T>, i: nat, part: set<T>)
    requires TotalOrder(lt) && Ascending(lt, s, q) && i < |q|
    requires part <= s && q[i] in part && forall k | 0 <= k < i :: q[k] !in part
    ensures Min(lt, part) == q[i]
  {
    var m := Min(lt, part);
    var j :| 0 <= j < |q| && q[j] == m;
    assert i < j ==> lt(q[i], q[j]);
  }

  lemma NextAscending<T(!new)>(lt: (T, T) -> bool, s: set<T>, q: seq<T>, i: nat)
    requires TotalOrder(lt) && Ascending(lt, s, q) && i < |q|
    ensures s != {}
    ensures Next(lt, s, q[i]) == q[if i + 1 < |q| then i + 1 else 0]
  {
    assert q[i] in s;
    var x, after := q[i], After(lt, s, q[i]);
    if i + 1 < |q| {
      assert q[i + 1] in after;
      AscendingMin(lt, s, q, i + 1, after);
    } else {
      forall y | y in s
        ensures y !in after
      {
        var k :| 0 <= k < |q| && q[k] == y;
        assert k < i ==> lt(y, x);
      }
      AscendingMin(lt, s, q, 0, s);
    }
  }

  /** Positions on the circle of `n`. */
  function Wrap(n: nat, i: nat): nat {
    if i < n then i else i - n
  }

  lemma {:induction false} IterateAscending<T(!new)>(lt: (T, T) -> bool, s: set<T>, q: seq<T>, i: nat, k: nat)
    requires TotalOrder(lt) && Ascending(lt, s, q) && i < |q| && k <= |q|
    ensures s != {}
    ensures Iterate(lt, s, q[i], k) == q[Wrap(|q|, i + k)]
  {
    assert q[i] in s;
    if k > 0 {
      IterateAscending(lt, s, q, i, k - 1);
      StepAscending(lt, s, q, q[i], i + k - 1, k);
    } else {
      assert Iterate(lt, s, q[i], 0) == q[i];
    }
  }

  lemma StepAscending<T(!new)>(lt: (T, T) -> bool, s: set<T>, q: seq<T>, x: T, j: nat, k: nat)
    requires TotalOrder(lt) && Ascending(lt, s, q) && s != {} && k > 0 && j + 1 < 2 * |q|
    requires Iterate(lt, s, x, k - 1) == q[Wrap(|q|, j)]
    ensures Iterate(lt, s, x, k) == q[Wrap(|q|, j + 1)]
  {
    NextAscending(lt, s, q, Wrap(|q|, j));
    IterateStep(lt, s, x, k, q[Wrap(|q|, j)]);
  }

  lemma IterateStep<T(!new)>(lt: (T, T) -> bool, s: set<T>, x: T, k: nat, y: T)
    requires TotalOrder(lt) && s != {} && k > 0 && Iterate(lt, s, x, k - 1) == y
    ensures Iterate(lt, s, x, k) == Next(lt, s, y)
  {}

  ghost predicate Visited<T(!new)>(lt: (T, T) -> bool, s: set<T>, x: T, y: T)
    requires TotalOrder(lt) && s != {}
  {
    exists k: nat :: k < |s| && Iterate(lt, s, x, k) == y
  }

  /** As many steps as there are choices visit each choice exactly once and end where they began. */
  ghost predicate GoesRound<T(!new)>(lt: (T, T) -> bool, s: set<T>, x: T)
    requires TotalOrder(lt) && s != {}
  {
    && Iterate(lt, s, x, |s|) == x
    && (forall y | y in s :: Visited(lt, s, x, y))
    && (forall j: nat, k: nat | j < k < |s| :: Differ(lt, s, x, j, k))
  }

  ghost predicate Differ<T(!new)>(lt: (T, T) -> bool, s: set<T>, x: T, j: nat, k: nat)
    requires TotalOrder(lt) && s != {}
  {
    Iterate(lt, s, x, j) != Iterate(lt, s, x, k)
  }

  /** Going round, from any of the choices. */
  lemma FullCycle<T(!new)>(lt: (T, T) -> bool, s: set<T>, x: T)
    requires TotalOrder(lt) && x in s
    ensures GoesRound(lt, s, x)
  {
    var q := Sort(lt, s);
    var i: nat :| i < |q| && q[i] == x;
    AscendingReturns(lt, s, q, i);
    forall y | y in s { AscendingVisits(lt, s, q, i, y); }
    forall j: nat, k: nat | j < k < |s| { AscendingDiffers(lt, s, q, i, j, k); }
  }

  lemma AscendingReturns<T(!new)>(lt: (T, T) -> bool, s: set<T>, q: seq<T>, i: nat)
    requires TotalOrder(lt) && Ascending(lt, s, q) && i < |q|
    ensures s != {} && Iterate(lt, s, q[i], |s|) == q[i]
  {
    IterateAscending(lt, s, q, i, |q|);
  }

  lemma AscendingVisits<T(!new)>(lt: (T, T) -> bool, s: set<T>, q: seq<T>, i: nat, y: T)
    requires TotalOrder(lt) && Ascending(lt, s, q) && i < |q| && y in s
    ensures s != {} && Visited(lt, s, q[i], y)
  {
    var j :| 0 <= j < |q| && q[j] == y;
    var k := if j >= i then j - i else j - i + |q|;
    IterateAscending(lt, s, q, i, k);
    assert Iterate(lt, s, q[i], k) == y;
  }

  lemma AscendingDiffers<T(!new)>(lt: (T, T) -> bool, s: set<T>, q: seq<T>, i: nat, j: nat, k: nat)
    requires TotalOrder(lt) && Ascending(lt, s, q) && i < |q| && j < k < |q|
    ensures s != {} && Differ(lt, s, q[i], j, k)
  {
    IterateAscending(lt, s, q, i, j);
    IterateAscending(lt, s, q, i, k);
    var n := |q|;
    var a, b := Wrap(n, i + j), Wrap(n, i + k);
    assert a < b ==> lt(q[a], q[b]);
    assert b < a ==> lt(q[b], q[a]);
  }

  /** The step the other way undoes the step. */
  lemma FlipUndoes<T(!new)>(lt: (T, T) -> bool, s: set<T>, x: T)
    requires TotalOrder(lt) && x in s
    ensures TotalOrder(Flip(lt)) && Next(Flip(lt), s, Next(lt, s, x)) == x
  {
    var q := Sort(lt, s);
    var i: nat :| i < |q| && q[i] == x;
    var n := |q|;
    var p := Reversed(q);
    ReversedAscends(lt, s, q);
    NextAscending(lt, s, q, i);
    var j := if i + 1 < n then i + 1 else 0;
    NextAscending(Flip(lt), s, p, n - 1 - j);
  }

  function Reversed<T>(q: seq<T>): seq<T> {
    seq(|q|, k requires 0 <= k < |q| => q[|q| - 1 - k])
  }

  lemma ReversedAscends<T(!new)>(lt: (T, T) -> bool, s: set<T>, q: seq<T>)
    requires TotalOrder(lt) && Ascending(lt, s, q)
    ensures TotalOrder(Flip(lt)) && Ascending(Flip(lt), s, Reversed(q))
  {
    forall y | y in s
      ensures y in Reversed(q)
    {
      var j :| 0 <= j < |q| && q[j] == y;
      assert Reversed(q)[|q| - 1 - j] == y;
    }
  }

  // ----- Main results -----

  /** Repeated tab completion from one of the matches goes through all matches and back, in both directions, and the
      reversed search returns to the previous one. */
  lemma TabCycle<T(!new)>(lt: (T, T) -> bool, isPrefix: (T, T) -> bool, pat: T, cur: T, vals: seq<T>)
    requires TotalOrder(lt)
    ensures var s := Matching(isPrefix, pat, vals);
            && (TabSearch(false, lt, isPrefix, pat, cur, vals).None? <==> s == {})
            && (s != {} ==> TabSearch(false, lt, isPrefix, pat, cur, vals) == Some(Next(lt, s, cur)))
            && (cur in s ==>
                  && TabSearch(true, lt, isPrefix, pat, Next(lt, s, cur), vals) == Some(cur)
                  && GoesRound(lt, s, cur))
    ensures TotalOrder(Flip(lt))
    ensures var s := Matching(isPrefix, pat, vals);
            cur in s ==>
              && TabSearch(true, lt, isPrefix, pat, cur, vals) == Some(Next(Flip(lt), s, cur))
              && GoesRound(Flip(lt), s, cur)
  {
    var s := Matching(isPrefix, pat, vals);
    FlipOrder(lt);
    if cur in s {
      FullCycle(lt, s, cur);
      FullCycle(Flip(lt), s, cur);
      FlipUndoes(lt, s, cur);
    }
  }

  /** `y` is the choice that comes after `x`: the least one greater than `x`, or the least of all when there is none. */
  ghost predicate Follows<T(!new)>(lt: (T, T) -> bool, among: T -> bool, x: T, y: T) {
    && among(y)
    && (if exists z :: among(z) && lt(x, z)
        then lt(x, y) && forall z | among(z) && lt(x, z) :: z == y || lt(y, z)
        else forall z | among(z) :: z == y || lt(y, z))
  }

  lemma FollowsIn<T(!new)>(order: (T, T) -> bool, s: set<T>, lt: (T, T) -> bool, among: T -> bool, x: T)
    requires TotalOrder(order) && s != {}
    requires (forall z :: among(z) <==> z in s) && forall y, z :: lt(y, z) == order(y, z)
    ensures var after := After(order, s, x); Follows(lt, among, x, Min(order, if after != {} then after else s))
  {
    var after := After(order, s, x);
    var y := Min(order, if after != {} then after else s);
    if after != {} {
      assert y in after && lt(x, y) && among(y);
      forall z | among(z) && lt(x, z)
        ensures z == y || lt(y, z)
      {
        assert z in after;
      }
    } else {
      forall z | among(z)
        ensures !lt(x, z)
      {
        assert z !in after;
      }
    }
  }

  /** What a search gives, whatever the previous result was and in both directions: nothing when no possibility has the
      prefix, otherwise the one that comes after the previous result, or before it when the search is reversed. */
  lemma TabSearchMeans<T(!new)>(isReversed: bool, lt: (T, T) -> bool, isPrefix: (T, T) -> bool, pat: T, cur: T,
                                vals: seq<T>)
    requires TotalOrder(lt)
    ensures var r := TabSearch(isReversed, lt, isPrefix, pat, cur, vals);
            var order := (x, y) => if isReversed then lt(y, x) else lt(x, y);
            && (r.None? <==> forall v | v in vals :: !isPrefix(pat, v))
            && (r.Some? ==> Follows(order, v => v in vals && isPrefix(pat, v), cur, r.value))
  {
    var s := Matching(isPrefix, pat, vals);
    FlipOrder(lt);
    if s == {} {
      forall v | v in vals
        ensures !isPrefix(pat, v)
      {
        assert v !in s;
      }
    } else {
      var v :| v in s;
      var order := (x, y) => if isReversed then lt(y, x) else lt(x, y);
      FollowsIn(if isReversed then Flip(lt) else lt, s, order, v => v in vals && isPrefix(pat, v), cur);
    }
  }

  /** The same for the focus among the other visible windows; from a hidden window it goes to the one that would come
      next. */
  lemma StepFocusMeans<T(!new)>(d: Direction, lt: (T, T) -> bool, visible: set<T>, focus: T)
    requires TotalOrder(lt)
    ensures var y := StepFocus(d, lt, visible, focus);
            var order := (x, y) => if d.Backward? then lt(y, x) else lt(x, y);
            if forall z | z in visible :: z == focus then y == focus
            else Follows(order, z => z in visible && z != focus, focus, y)
  {
    FlipOrder(lt);
    var lt' := (x, y) => if d.Backward? then lt(y, x) else lt(x, y);
    GoesOn(if d.Backward? then Flip(lt) else lt, lt', visible, focus);
  }

  lemma GoesOn<T(!new)>(order: (T, T) -> bool, lt: (T, T) -> bool, visible: set<T>, focus: T)
    requires TotalOrder(order) && forall y, z :: lt(y, z) == order(y, z)
    ensures TotalOrder(Flip(order))
    ensures var l, r := After(Flip(order), visible, focus), After(order, visible, focus);
            if forall z | z in visible :: z == focus then l == {} && r == {}
            else r + l != {}
                 && Follows(lt, z => z in visible && z != focus, focus, Min(order, if r != {} then r else l))
  {
    FlipOrder(order);
    var l, r := After(Flip(order), visible, focus), After(order, visible, focus);
    var others := visible - {focus};
    forall z | z in others
      ensures z in l || z in r
    {
      assert order(z, focus) || order(focus, z);
    }
    assert After(order, others, focus) == r;
    if others != {} {
      if r == {} { assert others == l; }
      FollowsIn(order, others, lt, z => z in visible && z != focus, focus);
    } else {
      forall z | z in visible
        ensures z == focus
      {
        assert z !in others;
      }
    }
  }

  /** Advancing the focus as often as there are visible windows shows each of them once and returns, and so does
      retreating; retreating undoes advancing. */
  lemma FocusCycle<T(!new)>(lt: (T, T) -> bool, visible: set<T>, focus: T)
    requires TotalOrder(lt) && focus in visible
    ensures StepFocus(Forward, lt, visible, focus) == Next(lt, visible, focus)
    ensures StepFocus(Backward, lt, visible, StepFocus(Forward, lt, visible, focus)) == focus
    ensures GoesRound(lt, visible, focus)
    ensures TotalOrder(Flip(lt)) && GoesRound(Flip(lt), visible, focus)
    ensures StepFocus(Backward, lt, visible, focus) == Next(Flip(lt), visible, focus)
  {
    FlipOrder(lt);
    StepFocusIsNext(Backward, lt, visible, focus);
    FullCycle(Flip(lt), visible, focus);
    StepFocusIsNext(Forward, lt, visible, focus);
    StepFocusIsNext(Backward, lt, visible, Next(lt, visible, focus));
    FullCycle(lt, visible, focus);
    FlipUndoes(lt, visible, focus);
  }

  /** Identifiers are ordered by their folded bytes, so completion of nicknames and channels cycles. */
  lemma IdentifierOrder()
    ensures TotalOrder((x: seq<byte>, y: seq<byte>) => Compare(x, y) == LT)
  {
    var lt := (x: seq<byte>, y: seq<byte>) => Compare(x, y) == LT;
    forall x: seq<byte>, y: seq<byte>
      ensures Compare(x, y) == EQ <==> x == y
      ensures Compare(x, y) == GT <==> Compare(y, x) == LT
    {
      CompareTotal(x, y);
      CompareTotal(y, x);
    }
    forall x: seq<byte>, y: seq<byte>, z: seq<byte> | lt(x, y) && lt(y, z)
      ensures lt(x, z)
    {
      LeqTransitive(x, y, z);
    }
  }
}
