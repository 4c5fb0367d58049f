/** Shortcut letters of the chat windows (src/Client/State.hs, src/Client/Commands/Window.hs). */
module WindowNames {
  import opened Text

  datatype Focus = Unfocused | NetworkFocus(net: string) | ChannelFocus(net: string, chan: string)

  /** No letter is the NUL character. */
  const NUL: char := '\0'

  datatype Window = Window(name: char, hidden: bool)

  datatype State = State(windows: map<Focus, Window>, focus: Focus, prevFocus: Focus)

  /** The letters that may be assigned, those reserved by window hints, and what the hints say about each window. */
  datatype Config = Config(
    names: string, reserved: string, hintName: Focus -> Option<char>, hintHidden: Focus -> bool)

  // ----- Choosing a letter -----

  function Delete(c: char, xs: string): string {
    if xs == [] then [] else if xs[0] == c then xs[1..] else [xs[0]] + Delete(c, xs[1..])
  }

  /** List difference: for each element of `ys` the first occurrence in `xs` is removed. */
  function Minus(xs: string, ys: string): string
    decreases |ys|
  {
    if ys == [] then xs else Minus(Delete(ys[0], xs), ys[1..])
  }

  /** The hinted letter if it is free, else the first free one, else none. */
  function NextWindowName(cfg: Config, hint: Option<char>, used: string): char {
    if hint.Some? && hint.value !in used then hint.value
    else
      var free := Minus(Minus(cfg.names, cfg.reserved), used);
      if free != [] then free[0] else NUL
  }

  /** `used` lists the letters of the windows, one for each window that has one, in the order of the map. */
  ghost predicate Lists(used: string, ws: map<Focus, Window>) {
    && NUL !in used
    && (forall f | f in ws && ws[f].name != NUL :: ws[f].name in used)
    && (forall c | c in used :: exists f :: f in ws && ws[f].name == c)
    && (forall c | c in used :: multiset(used)[c] == |set f | f in ws && ws[f].name == c|)
  }

  // ----- The steps -----

  /** A line for a window: the window is created if need be. */
  function RecordLine(create: bool, f: Focus, cfg: Config, used: string, st: State): State {
    if f in st.windows || !create then st
    else st.(windows := st.windows[f := Window(NextWindowName(cfg, cfg.hintName(f), used), cfg.hintHidden(f))])
  }

  /** A query window follows the nickname of its user unless there is a window for the new one already. */
  function Rename(old_: Focus, new_: Focus, st: State): State {
    if old_ in st.windows && new_ !in st.windows then
      st.(windows := (st.windows - {old_})[new_ := st.windows[old_]],
          focus := if st.focus == old_ then new_ else st.focus)
    else st
  }

  /** Give the current window a letter, the one asked for or the next free one, and take it from any other window. */
  function SetWindowName(arg: Option<string>, cfg: Config, used: string, st: State): Option<State> {
    if st.focus !in st.windows then None
    else
      var next := NextWindowName(cfg, cfg.hintName(st.focus), used);
      match arg
      case Some(s) => if |s| == 1 && s[0] in cfg.names then Some(Named(s[0], st)) else None
      case None => if next != NUL then Some(Named(next, st)) else None
  }

  function Named(n: char, st: State): State
    requires st.focus in st.windows
  {
    var unset := map f | f in st.windows ::
      if st.windows[f].name == n then st.windows[f].(name := NUL) else st.windows[f];
    st.(windows := unset[st.focus := unset[st.focus].(name := n)])
  }

  function Hide(st: State): Option<State> {
    if st.focus !in st.windows then None
    else Some(st.(windows := st.windows[st.focus := Window(NUL, true)]))
  }

  function Show(st: State): Option<State> {
    if st.focus !in st.windows then None
    else Some(st.(windows := st.windows[st.focus := st.windows[st.focus].(hidden := false)]))
  }

  function ChangeFocus(f: Focus, st: State): State {
    st.(focus := f, prevFocus := if f == st.focus then st.prevFocus else st.focus)
  }

  /** Empty a window in use, delete any other one; if it had the focus, go to the previous window, or, when there is no
      such window, to the one that follows. */
  function Clear(f: Focus, active: bool, prev: Focus, next: Focus, st: State): State {
    var st1 := if active then st else st.(windows := st.windows - {f});
    if active || st.focus != f then st1
    else if prev in st.windows then ChangeFocus(prev, st1)
    else ChangeFocus(next, st1)
  }

  // ----- The invariant -----

  /** No two windows carry the same letter. */
  predicate DistinctLetters(ws: map<Focus, Window>) {
    forall f, g | f in ws && g in ws && f != g && ws[f].name != NUL :: ws[f].name != ws[g].name
  }

  predicate NoDup(xs: string) {
    forall i, j | 0 <= i < j < |xs| :: xs[i] != xs[j]
  }

  lemma {:induction false} DeleteNoDup(c: char, xs: string)
    ensures forall x | x in Delete(c, xs) :: x in xs
    ensures |Delete(c, xs)| >= |xs| - 1
    ensures NoDup(xs) ==> NoDup(Delete(c, xs)) && c !in Delete(c, xs)
  {
    if xs != [] {
      DeleteNoDup(c, xs[1..]);
      assert forall x | x in xs[1..] :: x in xs;
      if NoDup(xs) {
        assert xs[0] !in xs[1..];
        assert NoDup(xs[1..]);
      }
    }
  }

  /** From a list without repetitions the difference takes every element of the other list. */
  lemma {:induction false} MinusNoDup(xs: string, ys: string)
    ensures forall x | x in Minus(xs, ys) :: x in xs
    ensures |Minus(xs, ys)| >= |xs| - |ys|
    ensures NoDup(xs) ==> NoDup(Minus(xs, ys)) && forall y | y in ys :: y !in Minus(xs, ys)
    decreases |ys|
  {
    if ys != [] {
      DeleteNoDup(ys[0], xs);
      MinusNoDup(Delete(ys[0], xs), ys[1..]);
      assert forall y | y in ys :: y == ys[0] || y in ys[1..];
    }
  }

  lemma {:induction false} DeleteKeeps(c: char, xs: string, x: char)
    requires x in xs && x != c
    ensures x in Delete(c, xs)
  {
    if xs[0] != c && xs[0] != x { DeleteKeeps(c, xs[1..], x); }
  }

  lemma {:induction false} MinusKeeps(xs: string, ys: string, x: char)
    requires x in xs && x !in ys
    ensures x in Minus(xs, ys)
    decreases |ys|
  {
    if ys != [] {
      DeleteKeeps(ys[0], xs, x);
      MinusKeeps(Delete(ys[0], xs), ys[1..], x);
    }
  }

  /** Every letter is in use or reserved, and so is the hinted one. */
  predicate NoneLeft(cfg: Config, hint: Option<char>, used: string) {
    (hint.Some? ==> hint.value in used) && forall c | c in cfg.names :: c in used || c in cfg.reserved
  }

  /** The letter that is chosen is free, and there is none exactly when none is left. */
  lemma NextIsFree(cfg: Config, hint: Option<char>, used: string)
    requires NoDup(cfg.names)
    ensures var n := NextWindowName(cfg, hint, used);
            && (n != NUL ==> n !in used)
            && (hint != Some(NUL) && NUL !in cfg.names ==> (n == NUL <==> NoneLeft(cfg, hint, used)))
  {
    var available := Minus(cfg.names, cfg.reserved);
    MinusNoDup(cfg.names, cfg.reserved);
    MinusNoDup(available, used);
    var free := Minus(available, used);
    if free != [] { assert free[0] in free; }
    forall c | c in cfg.names && c !in used && c !in cfg.reserved
      ensures free != []
    {
      MinusKeeps(cfg.names, cfg.reserved, c);
      MinusKeeps(available, used, c);
    }
  }

  function Dedup(xs: string): string {
    if xs == [] then [] else if xs[0] in xs[1..] then Dedup(xs[1..]) else [xs[0]] + Dedup(xs[1..])
  }

  lemma {:induction false} DedupExact(xs: string)
    ensures NoDup(Dedup(xs)) && forall x :: x in Dedup(xs) <==> x in xs
    ensures |Dedup(xs)| <= |xs| && (|Dedup(xs)| == |xs| ==> NoDup(xs))
  {
    if xs != [] {
      DedupExact(xs[1..]);
      assert forall x :: x in xs <==> x == xs[0] || x in xs[1..];
    }
  }

  /** Distinct letters are what the choice relies on, and no less: list difference removes only one occurrence, so it
      never offers a letter in use exactly when the available letters have no repetition. */
  lemma DistinctNeeded(available: string)
    ensures (forall used | NoDup(used) && Minus(available, used) != [] :: Minus(available, used)[0] !in used)
       <==> NoDup(available)
  {
    if NoDup(available) {
      forall used | NoDup(used) && Minus(available, used) != []
        ensures Minus(available, used)[0] !in used
      {
        MinusNoDup(available, used);
        assert Minus(available, used)[0] in Minus(available, used);
      }
    } else {
      var used := Dedup(available);
      DedupExact(available);
      MinusNoDup(available, used);
      var free := Minus(available, used);
      assert |free| > 0 && free[0] in free;
      assert NoDup(used) && free[0] in used;
    }
  }

  lemma NamedDistinct(n: char, st: State)
    requires st.focus in st.windows && DistinctLetters(st.windows)
    ensures DistinctLetters(Named(n, st).windows)
  {}

  // ----- Runs -----

  /** A step, with the configuration of the moment; the letters may be reconfigured between steps. */
  datatype Step =
    | Line(create: bool, at: Focus, cfg: Config, used: string)
    | Nick(old_: Focus, new_: Focus)
    | SetName(arg: Option<string>, cfg: Config, used: string)
    | HideWindow
    | ShowWindow
    | GoTo(to: Focus)
    | ClearWindow(which: Focus, active: bool, prev: Focus, next: Focus)

  function Apply(a: Step, st: State): State {
    match a
    case Line(create, f, cfg, used) => RecordLine(create, f, cfg, used, st)
    case Nick(o, n) => Rename(o, n, st)
    case SetName(arg, cfg, used) => OrSame(SetWindowName(arg, cfg, used, st), st)
    case HideWindow => OrSame(Hide(st), st)
    case ShowWindow => OrSame(Show(st), st)
    case GoTo(f) => ChangeFocus(f, st)
    case ClearWindow(f, active, prev, next) => Clear(f, active, prev, next, st)
  }

  /** A command that fails changes nothing. */
  function OrSame(r: Option<State>, st: State): State {
    match r
    case None => st
    case Some(s) => s
  }

  /** The step's configured letters are distinct, and it sees the letters in use. */
  ghost predicate Possible(a: Step, st: State) {
    match a
    case Line(_, _, cfg, used) => NoDup(cfg.names) && Lists(used, st.windows)
    case SetName(_, cfg, used) => NoDup(cfg.names) && Lists(used, st.windows)
    case _ => true
  }

  function Exec(steps: seq<Step>, st: State): State
    decreases |steps|
  {
    if steps == [] then st else Exec(steps[1..], Apply(steps[0], st))
  }

  ghost predicate AllPossible(steps: seq<Step>, st: State)
    decreases |steps|
  {
    steps == [] || (Possible(steps[0], st) && AllPossible(steps[1..], Apply(steps[0], st)))
  }

  lemma LineDistinct(create: bool, f: Focus, cfg: Config, used: string, st: State)
    requires DistinctLetters(st.windows) && NoDup(cfg.names) && Lists(used, st.windows)
    ensures DistinctLetters(RecordLine(create, f, cfg, used, st).windows)
  {
    var n := NextWindowName(cfg, cfg.hintName(f), used);
    NextIsFree(cfg, cfg.hintName(f), used);
    assert n != NUL ==> forall g | g in st.windows :: st.windows[g].name != n;
  }

  lemma ApplyDistinct(a: Step, st: State)
    requires DistinctLetters(st.windows) && Possible(a, st)
    ensures DistinctLetters(Apply(a, st).windows)
  {
    match a
    case Line(create, f, cfg, used) => LineDistinct(create, f, cfg, used, st);
    case SetName(arg, cfg, used) =>
      if st.focus in st.windows {
        var n := NextWindowName(cfg, cfg.hintName(st.focus), used);
        NamedDistinct(n, st);
        if arg.Some? && |arg.value| == 1 { NamedDistinct(arg.value[0], st); }
      }
    case _ =>
  }

  /** In every run no two windows ever carry the same letter. */
  lemma {:induction false} LettersStayDistinct(steps: seq<Step>, st: State)
    requires DistinctLetters(st.windows) && AllPossible(steps, st)
    ensures DistinctLetters(Exec(steps, st).windows)
    decreases |steps|
  {
    if steps != [] {
      ApplyDistinct(steps[0], st);
      LettersStayDistinct(steps[1..], Apply(steps[0], st));
    }
  }

  /** The letters in use. */
  function Letters(ws: map<Focus, Window>): set<char> {
    set f | f in ws && ws[f].name != NUL :: ws[f].name
  }

  /** Naming the current window exchanges its letter for the new one among the letters in use. When no other window had
      the new letter, naming it back restores everything. */
  lemma NamingExchanges(n: char, st: State)
    requires st.focus in st.windows && DistinctLetters(st.windows) && n != NUL
    ensures var was, st' := st.windows[st.focus].name, Named(n, st);
            && Letters(st'.windows) == Letters(st.windows) - {was} + {n}
            && (was != NUL && (n == was || n !in Letters(st.windows)) ==> Named(was, st') == st)
  {
    var was, st' := st.windows[st.focus].name, Named(n, st);
    var ws, ws' := st.windows, st'.windows;
    forall c
      ensures c in Letters(ws') <==> c in Letters(ws) - {was} + {n}
    {
      if c == n {
        assert ws'[st.focus].name == n;
      } else if c in Letters(ws) && c != was {
        var f :| f in ws && ws[f].name != NUL && ws[f].name == c;
        assert ws'[f].name == c;
      }
    }
    if was != NUL && (n == was || n !in Letters(ws)) {
      assert forall f | f in ws && f != st.focus :: ws[f].name != NUL ==> ws[f].name in Letters(ws);
      assert Named(was, st').windows == ws;
    }
  }

  /** What `used` would list if the current window's letter were unset first. */
  ghost predicate ListsUnset(used: string, st: State)
    requires st.focus in st.windows
  {
    Lists(used, st.windows[st.focus := st.windows[st.focus].(name := NUL)])
  }

  /** The letter of the current window is unset so that it becomes available, but the next letter is chosen as if it
      were still in use. So the command without a letter fails where it would not have to exactly when the only letter
      left is the window's own. */
  lemma OwnLetterUnavailable(cfg: Config, used: string, unset: string, st: State)
    requires st.focus in st.windows && DistinctLetters(st.windows)
    requires Lists(used, st.windows) && ListsUnset(unset, st)
    requires NoDup(cfg.names) && NUL !in cfg.names && cfg.hintName(st.focus) != Some(NUL)
    ensures var own, hint := st.windows[st.focus].name, cfg.hintName(st.focus);
            SetWindowName(None, cfg, used, st).None? && NextWindowName(cfg, hint, unset) != NUL
            <==> NoneLeft(cfg, hint, used) && own != NUL
                 && (hint == Some(own) || (own in cfg.names && own !in cfg.reserved))
  {
    var own, hint := st.windows[st.focus].name, cfg.hintName(st.focus);
    NextIsFree(cfg, hint, used);
    NextIsFree(cfg, hint, unset);
    UnsetLetters(used, unset, st);
  }

  lemma UnsetLetters(used: string, unset: string, st: State)
    requires st.focus in st.windows && DistinctLetters(st.windows)
    requires Lists(used, st.windows) && ListsUnset(unset, st)
    ensures forall c :: c in unset <==> c in used && c != st.windows[st.focus].name
  {
    var ws := st.windows;
    var ws' := ws[st.focus := ws[st.focus].(name := NUL)];
    forall c
      ensures c in unset <==> c in used && c != ws[st.focus].name
    {
      if c in unset {
        var f :| f in ws' && ws'[f].name == c;
        assert f != st.focus && ws[f].name == c;
      }
      if c in used && c != ws[st.focus].name {
        var f :| f in ws && ws[f].name == c;
        assert ws'[f].name == c;
      }
    }
  }

  /** The smallest case: the only window has the only letter. */
  lemma OwnLetterExample()
    ensures var cfg := Config("1", "", f => None, f => false);
            SetWindowName(None, cfg, "1", State(map[Unfocused := Window('1', false)], Unfocused, Unfocused)) == None
  {
    assert Minus("1", "") == "1" && Delete('1', "1") == "";
  }

  /** A window keeps its letter when its user changes nickname, and the focus stays on it; the letters in use are the
      same. Changing the nickname back restores everything exactly when the focus was not already on the new name. */
  lemma RenameKeepsLetter(old_: Focus, new_: Focus, st: State)
    requires old_ in st.windows && new_ !in st.windows
    ensures var st' := Rename(old_, new_, st);
            && st'.windows.Keys == st.windows.Keys - {old_} + {new_}
            && st'.windows[new_] == st.windows[old_]
            && (forall g | g in st.windows && g != old_ :: g in st'.windows && st'.windows[g] == st.windows[g])
            && (st.focus in st.windows ==> st'.focus in st'.windows && st'.windows[st'.focus] == st.windows[st.focus])
            && Letters(st'.windows) == Letters(st.windows)
            && (Rename(new_, old_, st') == st <==> st.focus != new_)
  {
    var st' := Rename(old_, new_, st);
    var back := Rename(new_, old_, st');
    forall c
      ensures c in Letters(st'.windows) <==> c in Letters(st.windows)
    {
      if c in Letters(st.windows) {
        var f :| f in st.windows && st.windows[f].name == c && c != NUL;
        assert st'.windows[if f == old_ then new_ else f].name == c;
      }
      if c in Letters(st'.windows) {
        var f :| f in st'.windows && st'.windows[f].name == c && c != NUL;
        assert st.windows[if f == new_ then old_ else f].name == c;
      }
    }
    assert back.windows == st.windows;
  }

  // ----- Which letter, and what the other steps do -----

  function Without(xs: string, ys: string): string {
    if xs == [] then [] else (if xs[0] in ys then [] else [xs[0]]) + Without(xs[1..], ys)
  }

  lemma {:induction false} DeleteFilters(c: char, xs: string)
    requires NoDup(xs)
    ensures Delete(c, xs) == Without(xs, [c])
  {
    if xs != [] {
      assert NoDup(xs[1..]);
      if xs[0] == c {
        assert c !in xs[1..];
        NothingWithout(xs[1..], [c]);
      } else {
        DeleteFilters(c, xs[1..]);
      }
    }
  }

  lemma {:induction false} NothingWithout(xs: string, ys: string)
    requires forall x | x in xs :: x !in ys
    ensures Without(xs, ys) == xs
  {
    if xs != [] {
      assert xs[0] in xs && forall x | x in xs[1..] :: x in xs;
      NothingWithout(xs[1..], ys);
      assert xs == [xs[0]] + xs[1..];
    }
  }

  lemma {:induction false} WithoutBoth(xs: string, a: string, b: string)
    ensures Without(Without(xs, a), b) == Without(xs, a + b)
  {
    if xs != [] {
      var rest := Without(xs[1..], a);
      WithoutBoth(xs[1..], a, b);
      if xs[0] in a {
        assert [] + rest == rest && xs[0] in a + b;
      } else {
        assert ([xs[0]] + rest)[1..] == rest;
        assert xs[0] in a + b <==> xs[0] in b;
      }
    }
  }

  /** From a list without repetitions the difference filters. */
  lemma {:induction false} MinusFilters(xs: string, ys: string)
    requires NoDup(xs)
    ensures Minus(xs, ys) == Without(xs, ys)
    decreases |ys|
  {
    if ys == [] {
      NothingWithout(xs, ys);
    } else {
      DeleteNoDup(ys[0], xs);
      DeleteFilters(ys[0], xs);
      MinusFilters(Delete(ys[0], xs), ys[1..]);
      WithoutBoth(xs, [ys[0]], ys[1..]);
      assert [ys[0]] + ys[1..] == ys;
    }
  }

  /** `n` is in the list but not in `ys`, and everything in front of it is in `ys`. */
  predicate FirstNotIn(xs: string, ys: string, n: char) {
    n !in ys && exists i :: 0 <= i < |xs| && xs[i] == n && forall j | 0 <= j < i :: xs[j] in ys
  }

  lemma {:induction false} WithoutFirst(xs: string, ys: string)
    ensures Without(xs, ys) != [] ==> FirstNotIn(xs, ys, Without(xs, ys)[0])
  {
    if xs != [] && Without(xs, ys) != [] {
      if xs[0] in ys {
        WithoutFirst(xs[1..], ys);
        var n := Without(xs[1..], ys)[0];
        var i :| 0 <= i < |xs[1..]| && xs[1..][i] == n && forall j | 0 <= j < i :: xs[1..][j] in ys;
        assert xs[i + 1] == n;
        assert forall j | 0 < j < i + 1 :: xs[j] == xs[1..][j - 1];
      } else {
        assert xs[0] == Without(xs, ys)[0];
      }
    }
  }

  /** Which letter is chosen: the hinted one if no window has it, otherwise the first of the configured letters that is
      neither reserved nor in use, if there is one. */
  lemma NextIsFirst(cfg: Config, hint: Option<char>, used: string)
    requires NoDup(cfg.names)
    ensures var n := NextWindowName(cfg, hint, used);
            if hint.Some? && hint.value !in used then n == hint.value
            else n == NUL || FirstNotIn(cfg.names, cfg.reserved + used, n)
  {
    MinusNoDup(cfg.names, cfg.reserved);
    MinusFilters(cfg.names, cfg.reserved);
    MinusFilters(Minus(cfg.names, cfg.reserved), used);
    WithoutBoth(cfg.names, cfg.reserved, used);
    WithoutFirst(cfg.names, cfg.reserved + used);
  }

  /** The command gives the current window the letter asked for, which has to be a configured one, or the next letter,
      which has to exist; the window that had the letter loses it, and nothing else changes. */
  lemma SetNameMeans(arg: Option<string>, cfg: Config, used: string, st: State)
    requires st.focus in st.windows
    ensures var r := SetWindowName(arg, cfg, used, st);
            var n := if arg.Some? then (if |arg.value| == 1 then arg.value[0] else NUL)
                     else NextWindowName(cfg, cfg.hintName(st.focus), used);
            && (r.Some? <==> if arg.Some? then |arg.value| == 1 && n in cfg.names else n != NUL)
            && (r.Some? ==>
                  && r.value.focus == st.focus && r.value.prevFocus == st.prevFocus
                  && r.value.windows.Keys == st.windows.Keys
                  && r.value.windows[st.focus] == Window(n, st.windows[st.focus].hidden)
                  && forall g | g in st.windows && g != st.focus ::
                       r.value.windows[g].hidden == st.windows[g].hidden
                       && r.value.windows[g].name == if st.windows[g].name == n then NUL else st.windows[g].name)
  {}

  /** A line creates at most its own window, with the next letter and hidden as its hint says, and changes no other. */
  lemma LineMeans(create: bool, f: Focus, cfg: Config, used: string, st: State)
    ensures var st' := RecordLine(create, f, cfg, used, st);
            && st'.focus == st.focus && st'.prevFocus == st.prevFocus
            && st'.windows.Keys == st.windows.Keys + (if create then {f} else {})
            && (forall g | g in st.windows :: st'.windows[g] == st.windows[g])
            && (f in st'.windows && f !in st.windows ==>
                  st'.windows[f] == Window(NextWindowName(cfg, cfg.hintName(f), used), cfg.hintHidden(f)))
  {}

  /** Without a window both commands fail. */
  lemma NothingToHide(st: State)
    ensures Hide(st).Some? <==> st.focus in st.windows
    ensures Show(st).Some? <==> st.focus in st.windows
  {}

  /** Hiding frees the window's letter and no other; showing it again does not give the letter back. */
  lemma HideAndShow(st: State)
    requires st.focus in st.windows && DistinctLetters(st.windows)
    ensures var hidden, shown := Hide(st).value, Show(Hide(st).value).value;
            && hidden.windows[st.focus].hidden && !shown.windows[st.focus].hidden
            && Letters(hidden.windows) == Letters(shown.windows) == Letters(st.windows) - {st.windows[st.focus].name}
            && hidden.windows - {st.focus} == shown.windows - {st.focus} == st.windows - {st.focus}
            && hidden.focus == shown.focus == st.focus && hidden.prevFocus == shown.prevFocus == st.prevFocus
  {
    var own, ws := st.windows[st.focus].name, st.windows;
    var hidden, shown := Hide(st).value.windows, Show(Hide(st).value).value.windows;
    forall c
      ensures c in Letters(hidden) <==> c in Letters(ws) - {own}
      ensures c in Letters(shown) <==> c in Letters(ws) - {own}
    {
      if c in Letters(ws) - {own} {
        var f :| f in ws && ws[f].name == c && c != NUL;
        assert hidden[f].name == c && shown[f].name == c;
      }
    }
  }

  /** After clearing there is no other window missing, and the focus is not on a window that was deleted, unless the
      window to go to next is that one; it moves only away from such a window, to the previous one if that is there. */
  lemma ClearMeans(f: Focus, active: bool, prev: Focus, next: Focus, st: State)
    ensures var st' := Clear(f, active, prev, next, st);
            && st'.windows == (if active then st.windows else st.windows - {f})
            && st'.focus == (if active || st.focus != f then st.focus
                             else if prev in st.windows then prev else next)
            && (prev != f && next != f && st.focus == f && !active ==> st'.prevFocus == f)
            && (st'.focus == st.focus ==> st'.prevFocus == st.prevFocus)
  {}
}
