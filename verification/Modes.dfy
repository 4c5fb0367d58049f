/** Channel mode changes: reading and writing the parameters of MODE (lib/src/Irc/Modes.hs). */
module Modes {
  import opened Text

  datatype ModeTypes = ModeTypes(
    lists: string, alwaysArg: string, setArg: string, neverArg: string, prefixModes: seq<(char, char)>)

  datatype Change = Change(on: bool, mode: char, arg: string)

  predicate IsPrefixMode(t: ModeTypes, m: char) {
    exists i :: 0 <= i < |t.prefixModes| && t.prefixModes[i].0 == m
  }

  predicate TakesArg(t: ModeTypes, polarity: bool, m: char) {
    m in t.alwaysArg || (polarity && m in t.setArg) || IsPrefixMode(t, m) || m in t.lists
  }

  predicate Bare(t: ModeTypes, polarity: bool, m: char) {
    !TakesArg(t, polarity, m) && ((!polarity && m in t.setArg) || m in t.neverArg)
  }

  function Cons(c: Change, cs: Option<seq<Change>>): Option<seq<Change>> {
    match cs
    case None => None
    case Some(xs) => Some([c] + xs)
  }

  function ComputeMode(t: ModeTypes, polarity: bool, modes: string, args: seq<string>): Option<seq<Change>>
    decreases |modes|
  {
    if modes == [] then (if args == [] then Some([]) else None)
    else if modes[0] == '+' then ComputeMode(t, true, modes[1..], args)
    else if modes[0] == '-' then ComputeMode(t, false, modes[1..], args)
    else if TakesArg(t, polarity, modes[0]) then
      if args == [] then Cons(Change(polarity, modes[0], ""), ComputeMode(t, polarity, modes[1..], []))
      else Cons(Change(polarity, modes[0], args[0]), ComputeMode(t, polarity, modes[1..], args[1..]))
    else if Bare(t, polarity, modes[0]) then
      Cons(Change(polarity, modes[0], ""), ComputeMode(t, polarity, modes[1..], args))
    else None
  }

  function SplitModes(t: ModeTypes, flags: string, args: seq<string>): Option<seq<Change>> {
    ComputeMode(t, true, flags, args)
  }

  function Flags(ms: seq<Change>, p: bool): string
    decreases |ms|
  {
    if ms == [] then ""
    else if ms[0].on == p then [ms[0].mode] + Flags(ms[1..], p)
    else if ms[0].on then ['+', ms[0].mode] + Flags(ms[1..], true)
    else ['-', ms[0].mode] + Flags(ms[1..], false)
  }

  /** The nonempty parameters, in order. */
  function Args(ms: seq<Change>): seq<string> {
    if ms == [] then [] else (if ms[0].arg == "" then [] else [ms[0].arg]) + Args(ms[1..])
  }

  function UnsplitModes(ms: seq<Change>): seq<string> {
    [Flags(ms, true)] + Args(ms)
  }

  /** Read what `UnsplitModes` wrote: the flags, then their arguments. */
  function Resplit(t: ModeTypes, ms: seq<Change>): Option<seq<Change>> {
    SplitModes(t, UnsplitModes(ms)[0], UnsplitModes(ms)[1..])
  }

  // ----- Which letters take an argument -----

  function PrefixLetters(t: ModeTypes): string {
    seq(|t.prefixModes|, i requires 0 <= i < |t.prefixModes| => t.prefixModes[i].0)
  }

  /** List modes, modes that always have an argument and prefix modes take one under both signs, the modes of `setArg`
      only when they are set. */
  function WithArg(t: ModeTypes, on: bool): string {
    t.lists + t.alwaysArg + PrefixLetters(t) + (if on then t.setArg else "")
  }

  /** The letters that are accepted without an argument, when they are not among those that take one. */
  function WithoutArg(t: ModeTypes, on: bool): string {
    t.neverArg + (if on then "" else t.setArg)
  }

  predicate Letter(t: ModeTypes, on: bool, m: char) {
    m in WithArg(t, on) || m in WithoutArg(t, on)
  }

  lemma Kinds(t: ModeTypes, on: bool, m: char)
    ensures TakesArg(t, on, m) <==> m in WithArg(t, on)
    ensures Bare(t, on, m) <==> m !in WithArg(t, on) && m in WithoutArg(t, on)
  {
    var ps := PrefixLetters(t);
    assert IsPrefixMode(t, m) <==> m in ps by {
      if IsPrefixMode(t, m) {
        var i :| 0 <= i < |t.prefixModes| && t.prefixModes[i].0 == m;
        assert ps[i] == m;
      }
    }
  }

  // ----- What is accepted -----

  predicate Known(t: ModeTypes, p: bool, modes: string)
    decreases |modes|
  {
    modes == [] ||
    if modes[0] == '+' then Known(t, true, modes[1..])
    else if modes[0] == '-' then Known(t, false, modes[1..])
    else Letter(t, p, modes[0]) && Known(t, p, modes[1..])
  }

  function Takers(t: ModeTypes, p: bool, modes: string): nat
    decreases |modes|
  {
    if modes == [] then 0
    else if modes[0] == '+' then Takers(t, true, modes[1..])
    else if modes[0] == '-' then Takers(t, false, modes[1..])
    else (if modes[0] in WithArg(t, p) then 1 else 0) + Takers(t, p, modes[1..])
  }

  /** A mode change is accepted exactly when every letter is known under its sign and there are no more arguments than
      letters that take one. */
  lemma {:induction false} Accepted(t: ModeTypes, p: bool, modes: string, args: seq<string>)
    ensures ComputeMode(t, p, modes, args).Some? <==> Known(t, p, modes) && |args| <= Takers(t, p, modes)
    decreases |modes|
  {
    if modes != [] {
      var m := modes[0];
      if m == '+' || m == '-' {
        Accepted(t, m == '+', modes[1..], args);
      } else {
        Kinds(t, p, m);
        Accepted(t, p, modes[1..], if TakesArg(t, p, m) && args != [] then args[1..] else args);
      }
    }
  }

  // ----- Which change each letter becomes -----

  predicate IsSign(m: char) {
    m == '+' || m == '-'
  }

  /** The sign in force at a position: the last one before it, or a plus. */
  function SignAt(flags: string, i: nat): bool
    requires i <= |flags|
  {
    if i == 0 then true else if IsSign(flags[i - 1]) then flags[i - 1] == '+' else SignAt(flags, i - 1)
  }

  /** The letters before a position, and those among them that take an argument. */
  function LettersBefore(flags: string, i: nat): nat
    requires i <= |flags|
  {
    if i == 0 then 0 else LettersBefore(flags, i - 1) + if IsSign(flags[i - 1]) then 0 else 1
  }

  function TakersBefore(t: ModeTypes, flags: string, i: nat): nat
    requires i <= |flags|
  {
    if i == 0 then 0 else TakersBefore(t, flags, i - 1) + if TakerAt(t, flags, i - 1) then 1 else 0
  }

  predicate TakerAt(t: ModeTypes, flags: string, i: nat)
    requires i < |flags|
  {
    !IsSign(flags[i]) && flags[i] in WithArg(t, SignAt(flags, i))
  }

  /** What the letter at a position becomes: it has the sign in force and, if it takes an argument, the first one that
      the letters before it have left over. */
  function ChangeAt(t: ModeTypes, flags: string, args: seq<string>, i: nat): Change
    requires i < |flags|
  {
    var k := TakersBefore(t, flags, i);
    Change(SignAt(flags, i), flags[i], if TakerAt(t, flags, i) && k < |args| then args[k] else "")
  }

  function DropArgs(args: seq<string>, k: nat): seq<string> {
    if k <= |args| then args[k..] else []
  }

  function From(t: ModeTypes, flags: string, args: seq<string>, i: nat): Option<seq<Change>>
    requires i <= |flags|
  {
    ComputeMode(t, SignAt(flags, i), flags[i..], DropArgs(args, TakersBefore(t, flags, i)))
  }

  lemma FromStep(t: ModeTypes, flags: string, args: seq<string>, i: nat)
    requires i < |flags| && From(t, flags, args, i).Some?
    ensures From(t, flags, args, i + 1).Some?
    ensures From(t, flags, args, i).value
         == (if IsSign(flags[i]) then [] else [ChangeAt(t, flags, args, i)]) + From(t, flags, args, i + 1).value
  {
    var m, p := flags[i], SignAt(flags, i);
    assert flags[i..][0] == m && flags[i..][1..] == flags[i + 1..];
    Kinds(t, p, m);
    var k := TakersBefore(t, flags, i);
    if k < |args| { assert args[k..][0] == args[k] && args[k..][1..] == args[k + 1..]; }
  }

  lemma {:induction false} FromAt(t: ModeTypes, flags: string, args: seq<string>, i: nat, j: nat)
    requires i <= |flags| && From(t, flags, args, i).Some?
    ensures LettersBefore(flags, i) + |From(t, flags, args, i).value| == LettersBefore(flags, |flags|)
    ensures i <= j < |flags| && !IsSign(flags[j]) ==>
              && LettersBefore(flags, i) <= LettersBefore(flags, j) < LettersBefore(flags, |flags|)
              && From(t, flags, args, i).value[LettersBefore(flags, j) - LettersBefore(flags, i)]
                 == ChangeAt(t, flags, args, j)
    decreases |flags| - i
  {
    if i < |flags| {
      FromStep(t, flags, args, i);
      FromAt(t, flags, args, i + 1, j);
    }
  }

  /** Every letter becomes one change, in order, with the sign in force; list modes, prefix modes, modes that always
      have an argument and those of `setArg` under a plus take the next argument, as long as there is one, and no other
      letter takes any. */
  lemma SplitMeans(t: ModeTypes, flags: string, args: seq<string>, j: nat)
    requires SplitModes(t, flags, args).Some?
    ensures var ms := SplitModes(t, flags, args).value;
            && |ms| == LettersBefore(flags, |flags|)
            && (j < |flags| && !IsSign(flags[j]) ==>
                  LettersBefore(flags, j) < |ms| && ms[LettersBefore(flags, j)] == ChangeAt(t, flags, args, j))
  {
    assert flags[0..] == flags && args[0..] == args;
    FromAt(t, flags, args, 0, j);
  }

  /** With the modes of an ordinary channel, `-lo bob` removes the limit, which takes no argument, and the operator
      status of `bob`. */
  lemma SetArgExample()
    ensures var t := ModeTypes("eIbq", "k", "flj", "CFLMPQScgimnprstz", [('o', '@'), ('v', '+')]);
            SplitModes(t, "-lo", ["bob"]) == Some([Change(false, 'l', ""), Change(false, 'o', "bob")])
  {
    var t := ModeTypes("eIbq", "k", "flj", "CFLMPQScgimnprstz", [('o', '@'), ('v', '+')]);
    assert "-lo"[1..] == "lo" && "lo"[1..] == "o" && "o"[1..] == "" && ["bob"][1..] == [];
    assert t.setArg[1] == 'l' && !IsPrefixMode(t, 'l') && t.prefixModes[0].0 == 'o';
    assert Bare(t, false, 'l') && TakesArg(t, false, 'o');
    var end := ComputeMode(t, false, "o"[1..], ["bob"][1..]);
    var l, o := Change(false, 'l', ""), Change(false, 'o', "bob");
    assert end == Some([]) && [o] + [] == [o] && [l] + [o] == [l, o];
    assert ComputeMode(t, false, "o", ["bob"]) == Cons(o, end);
    assert ComputeMode(t, false, "lo", ["bob"]) == Cons(l, ComputeMode(t, false, "o", ["bob"]));
  }

  // ----- Round trips -----

  /** The changes a wire message can carry: letters known under their sign, arguments only where one is taken, and once
      an argument is missing all later ones are missing too. */
  predicate Carried(t: ModeTypes, ms: seq<Change>) {
    forall i | 0 <= i < |ms| ::
      var c := ms[i];
      && c.mode != '+' && c.mode != '-'
      && (c.mode in WithArg(t, c.on) || (c.mode in WithoutArg(t, c.on) && c.arg == ""))
      && (c.mode in WithArg(t, c.on) && c.arg == "" ==> Args(ms[i + 1..]) == [])
  }

  lemma CarriedCons(t: ModeTypes, c: Change, ms: seq<Change>)
    ensures Carried(t, [c] + ms) <==>
            && c.mode != '+' && c.mode != '-'
            && (c.mode in WithArg(t, c.on) || (c.mode in WithoutArg(t, c.on) && c.arg == ""))
            && (c.mode in WithArg(t, c.on) && c.arg == "" ==> Args(ms) == [])
            && Carried(t, ms)
  {
    var all := [c] + ms;
    assert all[1..] == ms;
    assert forall i | 0 <= i < |ms| :: all[i + 1] == ms[i] && all[i + 2..] == ms[i + 1..];
    if Carried(t, all) {
      assert all[0] == c;
      forall i | 0 <= i < |ms|
        ensures var d := ms[i];
                && d.mode != '+' && d.mode != '-'
                && (d.mode in WithArg(t, d.on) || (d.mode in WithoutArg(t, d.on) && d.arg == ""))
                && (d.mode in WithArg(t, d.on) && d.arg == "" ==> Args(ms[i + 1..]) == [])
      {
        assert all[i + 1] == ms[i];
      }
    }
  }

  lemma {:induction false} ComputeCarried(t: ModeTypes, p: bool, modes: string, args: seq<string>)
    requires "" !in args
    ensures var r := ComputeMode(t, p, modes, args); r.Some? ==> Carried(t, r.value) && Args(r.value) == args
    decreases |modes|
  {
    if modes != [] {
      var m := modes[0];
      if m == '+' || m == '-' {
        ComputeCarried(t, m == '+', modes[1..], args);
      } else {
        Kinds(t, p, m);
        var took := TakesArg(t, p, m) && args != [];
        var rest := if took then args[1..] else args;
        var c := Change(p, m, if took then args[0] else "");
        ComputeCarried(t, p, modes[1..], rest);
        var r := ComputeMode(t, p, modes[1..], rest);
        if r.Some? {
          CarriedCons(t, c, r.value);
          assert ([c] + r.value)[1..] == r.value;
        }
      }
    }
  }

  lemma {:induction false} ComputeFlags(t: ModeTypes, p: bool, ms: seq<Change>)
    requires Carried(t, ms)
    ensures ComputeMode(t, p, Flags(ms, p), Args(ms)) == Some(ms)
    decreases |ms|
  {
    if ms != [] {
      var c := ms[0];
      Kinds(t, c.on, c.mode);
      assert ms == [c] + ms[1..];
      CarriedCons(t, c, ms[1..]);
      ComputeFlags(t, c.on, ms[1..]);
      var tail := Flags(ms[1..], c.on);
      FlagStep(t, c, tail, Args(ms));
      assert [] + Args(ms[1..]) == Args(ms[1..]);
      assert Args(ms) == if c.arg == "" then Args(ms[1..]) else [c.arg] + Args(ms[1..]);
      assert ([c.mode] + tail)[1..] == tail;
      assert ComputeMode(t, c.on, [c.mode] + tail, Args(ms)) == Cons(c, ComputeMode(t, c.on, tail, Args(ms[1..])));
      assert Flags(ms, p) == if c.on == p then [c.mode] + tail else [if c.on then '+' else '-', c.mode] + tail;
    }
  }

  /** A sign in front of a letter only sets the polarity. */
  lemma FlagStep(t: ModeTypes, c: Change, tail: string, args: seq<string>)
    ensures var sign := if c.on then '+' else '-';
            ComputeMode(t, !c.on, [sign, c.mode] + tail, args) == ComputeMode(t, c.on, [c.mode] + tail, args)
  {
    var sign := if c.on then '+' else '-';
    assert ([sign, c.mode] + tail)[1..] == [c.mode] + tail;
  }

  /** Writing a list of changes and reading it again gives the list back exactly for the lists a message can carry. */
  lemma RoundTrip(t: ModeTypes, ms: seq<Change>)
    ensures Resplit(t, ms) == Some(ms) <==> Carried(t, ms)
  {
    assert UnsplitModes(ms)[1..] == Args(ms);
    if Carried(t, ms) {
      ComputeFlags(t, true, ms);
    } else if Resplit(t, ms) == Some(ms) {
      ArgsNonempty(ms);
      ComputeCarried(t, true, Flags(ms, true), Args(ms));
    }
  }

  lemma {:induction false} ArgsNonempty(ms: seq<Change>)
    ensures "" !in Args(ms)
  {
    if ms != [] { ArgsNonempty(ms[1..]); }
  }

  /** Whatever a user types, if it is accepted (without empty arguments) then it survives being written and read again,
      and its nonempty parameters are the arguments, in order. */
  lemma SplitRoundTrip(t: ModeTypes, flags: string, args: seq<string>)
    requires "" !in args && SplitModes(t, flags, args).Some?
    ensures var ms := SplitModes(t, flags, args).value;
            Resplit(t, ms) == Some(ms) && Args(ms) == args
  {
    ComputeCarried(t, true, flags, args);
    RoundTrip(t, SplitModes(t, flags, args).value);
  }

  lemma {:induction false} SignCost(ms: seq<Change>, p: bool, q: bool)
    ensures |Flags(ms, p)| <= |Flags(ms, q)| + 1
  {}

  lemma {:induction false} ShortestFrom(t: ModeTypes, p: bool, modes: string, args: seq<string>)
    ensures var r := ComputeMode(t, p, modes, args); r.Some? ==> |Flags(r.value, p)| <= |modes|
    decreases |modes|
  {
    var r := ComputeMode(t, p, modes, args);
    if modes != [] && r.Some? {
      var m := modes[0];
      if IsSign(m) {
        ShortestFrom(t, m == '+', modes[1..], args);
        SignCost(r.value, p, m == '+');
      } else {
        var rest := if TakesArg(t, p, m) && args != [] then args[1..] else args;
        ShortestFrom(t, p, modes[1..], rest);
        assert r.value[1..] == ComputeMode(t, p, modes[1..], rest).value;
      }
    }
  }

  /** No text for a list of changes is shorter than the one that is written: signs stand only where they change. */
  lemma FlagsShortest(t: ModeTypes, flags: string, args: seq<string>)
    requires SplitModes(t, flags, args).Some?
    ensures |UnsplitModes(SplitModes(t, flags, args).value)[0]| <= |flags|
  {
    ShortestFrom(t, true, flags, args);
  }

  // ----- Cutting a change into several messages -----

  function ChunksOf<T>(n: nat, xs: seq<T>): seq<seq<T>>
    requires n > 0
    decreases |xs|
  {
    if xs == [] then [] else if |xs| <= n then [xs] else [xs[..n]] + ChunksOf(n, xs[n..])
  }

  /** What the server sees: each message is read on its own, and the changes happen one after the other. */
  function ResplitAll(t: ModeTypes, chunks: seq<seq<Change>>): Option<seq<Change>> {
    if chunks == [] then Some([])
    else
      match (Resplit(t, chunks[0]), ResplitAll(t, chunks[1..]))
      case (Some(a), Some(b)) => Some(a + b)
      case _ => None
  }

  lemma {:induction false} CarriedSuffix(t: ModeTypes, a: seq<Change>, b: seq<Change>)
    requires Carried(t, a + b)
    ensures Carried(t, a) && Carried(t, b)
  {
    if a == [] {
      assert a + b == b;
    } else {
      assert a + b == [a[0]] + (a[1..] + b) && a == [a[0]] + a[1..];
      CarriedCons(t, a[0], a[1..] + b);
      CarriedSuffix(t, a[1..], b);
      CarriedCons(t, a[0], a[1..]);
      ArgsAppend(a[1..], b);
    }
  }

  lemma {:induction false} ArgsAppend(a: seq<Change>, b: seq<Change>)
    ensures Args(a + b) == Args(a) + Args(b)
  {
    if a == [] {
      assert a + b == b;
    } else {
      assert (a + b)[1..] == a[1..] + b;
      ArgsAppend(a[1..], b);
    }
  }

  /** Sending an accepted change in messages of any size has the effect of the whole change. */
  lemma {:induction false} ChunkedRoundTrip(t: ModeTypes, n: nat, ms: seq<Change>)
    requires n > 0 && Carried(t, ms)
    ensures ResplitAll(t, ChunksOf(n, ms)) == Some(ms)
    ensures var chunks := ChunksOf(n, ms);
            forall i | 0 <= i < |chunks| :: 0 < |chunks[i]| <= n && (i < |chunks| - 1 ==> |chunks[i]| == n)
    decreases |ms|
  {
    if ms == [] {
    } else if |ms| <= n {
      RoundTrip(t, ms);
      assert ResplitAll(t, []) == Some([]);
      assert [ms][1..] == [] && ms + [] == ms;
    } else {
      var a, b := ms[..n], ms[n..];
      assert ms == a + b;
      CarriedSuffix(t, a, b);
      RoundTrip(t, a);
      ChunkedRoundTrip(t, n, b);
      assert ([a] + ChunksOf(n, b))[1..] == ChunksOf(n, b);
    }
  }

  lemma SplitThenChunk(t: ModeTypes, flags: string, args: seq<string>, n: nat)
    requires n > 0 && "" !in args && SplitModes(t, flags, args).Some?
    ensures var ms := SplitModes(t, flags, args).value; ResplitAll(t, ChunksOf(n, ms)) == Some(ms)
  {
    ComputeCarried(t, true, flags, args);
    ChunkedRoundTrip(t, n, SplitModes(t, flags, args).value);
  }
}
