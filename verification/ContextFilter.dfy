/** Filtering with context, as grep does (src/ContextFilter.hs): one pass with a sliding window. */
module ContextFilters {
  import opened Text

  function Max(a: int, b: int): int {
    if a < b then b else a
  }

  function Take<T>(m: int, xs: seq<T>): seq<T> {
    if m <= 0 then [] else if m <= |xs| then xs[..m] else xs
  }

  /** `i` counts the elements seen, `m` is the open window, `ys` lags `before` elements behind `xs`. */
  function Go<T>(before: nat, width: nat, p: T -> bool, i: nat, m: int, xs: seq<T>, ys: seq<T>): seq<T>
    decreases |xs|
  {
    if xs == [] || ys == [] then Take(m, ys)
    else
      var px := p(xs[0]);
      var m' := Max(m - 1, if px then width else 0);
      var ys' := if i >= before then ys[1..] else ys;
      var rest := Go(before, width, p, i + 1, m', xs[1..], ys');
      if (m > 0 || px) && i >= before then [ys[0]] + rest else rest
  }

  /** Negative context sizes are an error. */
  function FilterContext<T>(before: int, after: int, p: T -> bool, xs: seq<T>): Option<seq<T>> {
    if before < 0 || after < 0 then None
    else Some(Go(before, before + after, p, 0, 0, xs, xs))
  }

  // ----- The specification -----

  /** Some match lies at most `before` after, or `after` before, position `k`. */
  predicate Keep<T>(before: nat, after: nat, p: T -> bool, xs: seq<T>, k: int) {
    exists j :: 0 <= j < |xs| && p(xs[j]) && j - before <= k <= j + after
  }

  /** The kept elements from position `k` on, in order. */
  function Kept<T>(before: nat, after: nat, p: T -> bool, xs: seq<T>, k: nat): seq<T>
    requires k <= |xs|
    decreases |xs| - k
  {
    if k == |xs| then []
    else (if Keep(before, after, p, xs, k) then [xs[k]] else []) + Kept(before, after, p, xs, k + 1)
  }

  /** The last match before position `i`, or -1. */
  function LastMatch<T>(p: T -> bool, xs: seq<T>, i: nat): (j: int)
    requires i <= |xs|
    ensures -1 <= j < i && (j >= 0 ==> p(xs[j]))
    ensures forall k | j < k < i :: !p(xs[k])
  {
    if i == 0 then -1 else if p(xs[i - 1]) then i - 1 else LastMatch(p, xs, i - 1)
  }

  /** The window that is open when `i` elements have been seen. */
  function Window<T>(width: nat, p: T -> bool, xs: seq<T>, i: nat): int
    requires i <= |xs|
  {
    var j := LastMatch(p, xs, i);
    if j < 0 then 0 else Max(0, width - (i - 1 - j))
  }

  lemma WindowStep<T>(width: nat, p: T -> bool, xs: seq<T>, i: nat)
    requires i < |xs|
    ensures Window(width, p, xs, i + 1) == Max(Window(width, p, xs, i) - 1, if p(xs[i]) then width else 0)
  {}

  /** The element `before` positions back is kept exactly when the window is open or the current element matches. */
  lemma KeepIsWindow<T>(before: nat, after: nat, p: T -> bool, xs: seq<T>, i: nat)
    requires before <= i < |xs|
    ensures Keep(before, after, p, xs, i - before) <==> Window(before + after, p, xs, i) > 0 || p(xs[i])
  {
    var j := LastMatch(p, xs, i);
    if Window(before + after, p, xs, i) > 0 || p(xs[i]) {
      var w := if p(xs[i]) then i else j;
      assert w - before <= i - before <= w + after;
    }
  }

  /** Near the end only the last match counts: it keeps everything up to `after` positions behind it. */
  lemma {:induction false} TailIsTake<T>(before: nat, after: nat, p: T -> bool, xs: seq<T>, k: nat)
    requires |xs| - before <= k <= |xs|
    ensures var j := LastMatch(p, xs, |xs|);
            Kept(before, after, p, xs, k) == Take(if j < 0 then 0 else j + after + 1 - k, xs[k..])
    decreases |xs| - k
  {
    var j := LastMatch(p, xs, |xs|);
    if k < |xs| {
      TailIsTake(before, after, p, xs, k + 1);
      KeepInTail(before, after, p, xs, k);
      assert xs[k..] == [xs[k]] + xs[k + 1..];
      TakeStep(if j < 0 then 0 else j + after + 1 - k, xs[k], xs[k + 1..]);
    }
  }

  lemma KeepInTail<T>(before: nat, after: nat, p: T -> bool, xs: seq<T>, k: nat)
    requires |xs| - before <= k < |xs|
    ensures var j := LastMatch(p, xs, |xs|); Keep(before, after, p, xs, k) <==> j >= 0 && k <= j + after
  {
    var j := LastMatch(p, xs, |xs|);
    assert j >= 0 ==> p(xs[j]) && j - before <= k;
  }

  lemma TakeStep<T>(m: int, x: T, ys: seq<T>)
    ensures Take(m, [x] + ys) == if m <= 0 then [] else [x] + Take(m - 1, ys)
  {}

  /** The worker at position `i`, with `ys` from position `k` on, keeps what the specification keeps from there. */
  ghost predicate GoAgrees<T>(before: nat, after: nat, p: T -> bool, xs: seq<T>, i: nat, k: nat)
    requires i <= |xs| && k <= |xs|
  {
    var w := before + after;
    Go(before, w, p, i, Window(w, p, xs, i), xs[i..], xs[k..]) == Kept(before, after, p, xs, k)
  }

  lemma {:induction false} GoKeeps<T>(before: nat, after: nat, p: T -> bool, xs: seq<T>, i: nat)
    requires before <= |xs| && i <= |xs|
    ensures GoAgrees(before, after, p, xs, i, if i < before then 0 else i - before)
    decreases |xs| - i
  {
    if i == |xs| {
      TailIsTake(before, after, p, xs, i - before);
    } else {
      GoKeeps(before, after, p, xs, i + 1);
      if i < before { Early(before, after, p, xs, i); } else { Late(before, after, p, xs, i); }
    }
  }

  lemma Early<T>(before: nat, after: nat, p: T -> bool, xs: seq<T>, i: nat)
    requires i < before && i < |xs| && GoAgrees(before, after, p, xs, i + 1, 0)
    ensures GoAgrees(before, after, p, xs, i, 0)
  {
    GoStep(before, before + after, p, xs, i, 0);
  }

  lemma Late<T>(before: nat, after: nat, p: T -> bool, xs: seq<T>, i: nat)
    requires before <= i < |xs| && GoAgrees(before, after, p, xs, i + 1, i + 1 - before)
    ensures GoAgrees(before, after, p, xs, i, i - before)
  {
    GoStep(before, before + after, p, xs, i, i - before);
    KeptStep(before, after, p, xs, i);
  }

  lemma KeptStep<T>(before: nat, after: nat, p: T -> bool, xs: seq<T>, i: nat)
    requires before <= i < |xs|
    ensures Kept(before, after, p, xs, i - before)
         == (if Window(before + after, p, xs, i) > 0 || p(xs[i]) then [xs[i - before]] else [])
            + Kept(before, after, p, xs, i - before + 1)
  {
    KeepIsWindow(before, after, p, xs, i);
  }

  lemma GoStep<T>(before: nat, w: nat, p: T -> bool, xs: seq<T>, i: nat, k: nat)
    requires i < |xs| && k < |xs|
    ensures var m := Window(w, p, xs, i);
            Go(before, w, p, i, m, xs[i..], xs[k..]) ==
            (if (m > 0 || p(xs[i])) && i >= before then [xs[k]] else [])
            + Go(before, w, p, i + 1, Window(w, p, xs, i + 1), xs[i + 1..],
                 if i >= before then xs[k + 1..] else xs[k..])
  {
    WindowStep(w, p, xs, i);
    assert xs[i..][1..] == xs[i + 1..] && xs[k..][1..] == xs[k + 1..];
  }

  lemma {:induction false} GoNeverEmits<T>(before: nat, w: nat, p: T -> bool, xs: seq<T>, i: nat)
    requires i <= |xs| <= before
    ensures Go(before, w, p, i, Window(w, p, xs, i), xs[i..], xs) == Take(Window(w, p, xs, |xs|), xs)
    decreases |xs| - i
  {
    if i < |xs| {
      GoNeverEmits(before, w, p, xs, i + 1);
      assert xs[0..] == xs;
      GoStep(before, w, p, xs, i, 0);
    }
  }

  /** One pass computes the specification exactly when `before` does not exceed the number of inputs, or nothing
      matches, or the last match is at most `after` positions from the end. */
  lemma FilterContextMeans<T>(before: nat, after: nat, p: T -> bool, xs: seq<T>)
    ensures FilterContext(before, after, p, xs) == Some(Kept(before, after, p, xs, 0))
       <==> before <= |xs| || LastMatch(p, xs, |xs|) < 0 || |xs| - 1 - LastMatch(p, xs, |xs|) <= after
  {
    var w := before + after;
    assert xs[0..] == xs;
    if before <= |xs| {
      GoKeeps(before, after, p, xs, 0);
    } else {
      GoNeverEmits(before, w, p, xs, 0);
      TailIsTake(before, after, p, xs, 0);
      var j, m := LastMatch(p, xs, |xs|), Window(w, p, xs, |xs|);
      assert Window(w, p, xs, 0) == 0 && xs[..|xs|] == xs;
      assert FilterContext(before, after, p, xs) == Some(Take(m, xs));
      if 0 <= j && j + after + 1 < |xs| {
        assert |Take(m, xs)| > j + after + 1 == |Kept(before, after, p, xs, 0)|;
      }
    }
  }

  /** The smallest failing case: two inputs, three wanted before the match at the front. */
  lemma TooMuchContext()
    ensures var p := (x: int) => x == 0;
            && FilterContext(3, 0, p, [0, 1]) == Some([0, 1])
            && Kept(3, 0, p, [0, 1], 0) == [0]
  {
    var p := (x: int) => x == 0;
    var xs := [0, 1];
    GoNeverEmits(3, 3, p, xs, 0);
    TailIsTake(3, 0, p, xs, 0);
    assert xs[0..] == xs;
    assert LastMatch(p, xs, 2) == LastMatch(p, xs, 1) == 0;
    assert Window(3, p, xs, 0) == 0 && Window(3, p, xs, 2) == 2;
    assert xs[..1] == [0] && xs[..2] == xs;
  }
}
