/** The command trie (src/Client/Commands/Recognizer.hs): a radix tree whose branches carry compressed prefixes. */
module Recognizers {
  import opened Text

  /** A prefix shared by all keys below, the value of the key that ends here, and the branches by next character. */
  datatype Trie<+A> = Branch(pf: string, val: Option<A>, kids: map<char, Trie<A>>)

  datatype Recognition<+A> = Exact(value: A) | Prefix(suffixes: seq<string>) | Invalid

  /** The longest common prefix. */
  function Common(a: string, b: string): (r: string)
    ensures r <= a && r <= b
    ensures |r| < |a| && |r| < |b| ==> a[|r|] != b[|r|]
  {
    if a == [] || b == [] || a[0] != b[0] then [] else [a[0]] + Common(a[1..], b[1..])
  }

  // ----- What a trie means -----

  /** The value a trie associates with a key. */
  function Lookup<A>(t: Trie<A>, k: string): Option<A>
    decreases |k|, 1
  {
    if !(t.pf <= k) then None else Below(t, k[|t.pf|..])
  }

  /** The same, for what remains of the key below the prefix of the branch. */
  function Below<A>(t: Trie<A>, k: string): Option<A>
    decreases |k|, 0
  {
    if k == [] then t.val
    else if k[0] in t.kids then Lookup(t.kids[k[0]], k[1..])
    else None
  }

  // ----- Union -----

  ghost function MaxOf(s: set<nat>): (m: nat)
    ensures forall x | x in s :: x <= m
  {
    if s == {} then 0
    else
      var x :| x in s;
      var m := MaxOf(s - {x});
      assert forall y | y in s :: y == x || y in s - {x};
      if m < x then x else m
  }

  /** A bound on the length of the keys: what makes the union terminate. */
  ghost function Height<A>(t: Trie<A>): (h: nat)
    ensures h >= |t.pf|
    ensures forall c | c in t.kids :: Height(t.kids[c]) + |t.pf| < h
    decreases t
  {
    var hs := set c | c in t.kids :: Height(t.kids[c]);
    assert forall c | c in t.kids :: Height(t.kids[c]) in hs;
    |t.pf| + 1 + MaxOf(hs)
  }

  function Empty<A>(): Trie<A> {
    Branch("", None, map[])
  }

  predicate IsEmpty<A>(t: Trie<A>) {
    t.pf == "" && t.val.None? && t.kids.Keys == {}
  }

  function Cut<A>(t: Trie<A>, n: nat): Trie<A>
    requires n <= |t.pf|
  {
    Branch(t.pf[n..], t.val, t.kids)
  }

  /** The union, as written when `fixed` is false: the two calls of `insertWith` get combiners that are applied to the
      new branch first, so there the operands change places. With `fixed` the two combiners are exchanged. */
  function Both<A>(fixed: bool, l: Trie<A>, r: Trie<A>): Trie<A>
    decreases Height(l) + Height(r)
  {
    if IsEmpty(l) then r
    else if IsEmpty(r) then l
    else
      var n := |Common(l.pf, r.pf)|;
      var val := if n == |l.pf| && l.val.Some? then l.val else if n == |r.pf| then r.val else None;
      var kids :=
        if n == |l.pf| && n == |r.pf| then
          map c | c in l.kids.Keys + r.kids.Keys ::
            if c !in r.kids then l.kids[c]
            else if c !in l.kids then r.kids[c]
            else Both(fixed, l.kids[c], r.kids[c])
        else if n == |r.pf| then
          InsertL(fixed, l, r, n)
        else if n == |l.pf| then
          InsertR(fixed, l, r, n)
        else
          map[l.pf[n] := Cut(l, n + 1), r.pf[n] := Cut(r, n + 1)];
      Branch(l.pf[..n], val, kids)
  }

  /** The left operand is pushed below the right one. */
  function InsertL<A>(fixed: bool, l: Trie<A>, r: Trie<A>, n: nat): map<char, Trie<A>>
    requires n == |r.pf| < |l.pf|
    decreases Height(l) + Height(r), 0
  {
    var c, new_ := l.pf[n], Cut(l, n + 1);
    if c !in r.kids then r.kids[c := new_]
    else r.kids[c := if fixed then Both(fixed, new_, r.kids[c]) else Both(fixed, r.kids[c], new_)]
  }

  /** The right operand is pushed below the left one. */
  function InsertR<A>(fixed: bool, l: Trie<A>, r: Trie<A>, n: nat): map<char, Trie<A>>
    requires n == |l.pf| < |r.pf|
    decreases Height(l) + Height(r), 0
  {
    var c, new_ := r.pf[n], Cut(r, n + 1);
    if c !in l.kids then l.kids[c := new_]
    else l.kids[c := if fixed then Both(fixed, l.kids[c], new_) else Both(fixed, new_, l.kids[c])]
  }

  // ----- Union is union -----

  /** Where a key continues after `n` characters of the prefix and then `c`. */
  function Down<A>(t: Trie<A>, n: nat, c: char): Option<Trie<A>>
    requires n <= |t.pf|
  {
    if n < |t.pf| then (if c == t.pf[n] then Some(Cut(t, n + 1)) else None)
    else if c in t.kids then Some(t.kids[c])
    else None
  }

  function LookupIn<A>(t: Option<Trie<A>>, k: string): Option<A> {
    match t
    case None => None
    case Some(u) => Lookup(u, k)
  }

  lemma LookupAt<A>(t: Trie<A>, n: nat, k: string)
    requires n <= |t.pf| && t.pf[..n] <= k
    ensures |k| == n ==> Lookup(t, k) == if n == |t.pf| then t.val else None
    ensures |k| > n ==> Lookup(t, k) == LookupIn(Down(t, n, k[n]), k[n + 1..])
  {
    if |k| > n {
      if n < |t.pf| {
        assert t.pf <= k <==> t.pf[n] == k[n] && t.pf[n + 1..] <= k[n + 1..];
        if t.pf <= k {
          var rest := k[|t.pf|..];
          assert k[n + 1..][|t.pf| - n - 1..] == rest;
          assert Below(Cut(t, n + 1), rest) == Below(t, rest);
        }
      } else {
        assert k[n..][1..] == k[n + 1..];
      }
    } else if n < |t.pf| {
      assert !(t.pf <= k);
    } else {
      assert k[n..] == [];
    }
  }

  function Pick<A>(a: Option<A>, b: Option<A>): Option<A> {
    if a.Some? then a else b
  }

  /** How the union continues, in terms of how its operands do. */
  lemma BothDown<A>(fixed: bool, l: Trie<A>, r: Trie<A>, c: char)
    requires !IsEmpty(l) && !IsEmpty(r)
    ensures var n := |Common(l.pf, r.pf)|;
            var b := Both(fixed, l, r);
            && b.pf == Common(l.pf, r.pf)
            && Down(b, n, c) ==
                 var u, v := Down(l, n, c), Down(r, n, c);
                 if u.None? then v
                 else if v.None? then u
                 else if fixed || |l.pf| == |r.pf| then Some(Both(fixed, u.value, v.value))
                 else Some(Both(fixed, v.value, u.value))
  {}

  /** Whether the operands have changed places an odd number of times on the way to a key. They do so at each branch
      where exactly one of the two prefixes ends and both operands go on with the key. */
  predicate Swapped<A>(l: Trie<A>, r: Trie<A>, k: string)
    decreases |k|
  {
    var n := |Common(l.pf, r.pf)|;
    if IsEmpty(l) || IsEmpty(r) || !(Common(l.pf, r.pf) <= k) || |k| == n then false
    else
      var u, v := Down(l, n, k[n]), Down(r, n, k[n]);
      if u.None? || v.None? then false
      else if |l.pf| == |r.pf| then Swapped(u.value, v.value, k[n + 1..])
      else !Swapped(v.value, u.value, k[n + 1..])
  }

  /** What the union associates with a key. As written, the right operand wins a conflict exactly when the operands
      changed places an odd number of times; with the combiners exchanged the left operand always wins. */
  lemma {:induction false} BothLookup<A>(fixed: bool, l: Trie<A>, r: Trie<A>, k: string)
    ensures Lookup(Both(fixed, l, r), k) ==
            if fixed || !Swapped(l, r, k) then Pick(Lookup(l, k), Lookup(r, k)) else Pick(Lookup(r, k), Lookup(l, k))
    decreases |k|
  {
    var common := Common(l.pf, r.pf);
    var n := |common|;
    if IsEmpty(l) || IsEmpty(r) {
      EmptyLookup(l, k);
      EmptyLookup(r, k);
    } else if !(common <= k) {
      OutsideLookup(l, common, k);
      OutsideLookup(r, common, k);
      OutsideLookup(Both(fixed, l, r), common, k);
    } else if |k| == n {
      BothEnds(fixed, l, r, k);
    } else {
      var u, v, rest := Down(l, n, k[n]), Down(r, n, k[n]), k[n + 1..];
      BothStep(fixed, l, r, k);
      SwappedStep(l, r, k);
      if u.None? || v.None? {
      } else if fixed || |l.pf| == |r.pf| {
        BothLookup(fixed, u.value, v.value, rest);
      } else {
        BothLookup(fixed, v.value, u.value, rest);
      }
    }
  }

  lemma SwappedStep<A>(l: Trie<A>, r: Trie<A>, k: string)
    requires !IsEmpty(l) && !IsEmpty(r) && Common(l.pf, r.pf) < k
    ensures var n := |Common(l.pf, r.pf)|;
            var u, v := Down(l, n, k[n]), Down(r, n, k[n]);
            Swapped(l, r, k) ==
              if u.None? || v.None? then false
              else if |l.pf| == |r.pf| then Swapped(u.value, v.value, k[n + 1..])
              else !Swapped(v.value, u.value, k[n + 1..])
  {}

  lemma EmptyLookup<A>(t: Trie<A>, k: string)
    ensures IsEmpty(t) ==> Lookup(t, k) == None
  {}

  lemma OutsideLookup<A>(t: Trie<A>, p: string, k: string)
    requires p <= t.pf && !(p <= k)
    ensures Lookup(t, k) == None
  {}

  lemma BothEnds<A>(fixed: bool, l: Trie<A>, r: Trie<A>, k: string)
    requires !IsEmpty(l) && !IsEmpty(r) && k == Common(l.pf, r.pf)
    ensures Lookup(Both(fixed, l, r), k) == Pick(Lookup(l, k), Lookup(r, k))
  {
    LookupAt(l, |k|, k);
    LookupAt(r, |k|, k);
    LookupAt(Both(fixed, l, r), |k|, k);
  }

  /** One branch of the descent, in the operands and in the union. */
  lemma BothStep<A>(fixed: bool, l: Trie<A>, r: Trie<A>, k: string)
    requires !IsEmpty(l) && !IsEmpty(r)
    requires Common(l.pf, r.pf) < k
    ensures var n := |Common(l.pf, r.pf)|;
            var u, v := Down(l, n, k[n]), Down(r, n, k[n]);
            && Lookup(l, k) == LookupIn(u, k[n + 1..])
            && Lookup(r, k) == LookupIn(v, k[n + 1..])
            && Lookup(Both(fixed, l, r), k) ==
                 if u.None? then LookupIn(v, k[n + 1..])
                 else if v.None? then LookupIn(u, k[n + 1..])
                 else if fixed || |l.pf| == |r.pf| then Lookup(Both(fixed, u.value, v.value), k[n + 1..])
                 else Lookup(Both(fixed, v.value, u.value), k[n + 1..])
  {
    var n := |Common(l.pf, r.pf)|;
    LookupAt(l, n, k);
    LookupAt(r, n, k);
    LookupAt(Both(fixed, l, r), n, k);
    BothDown(fixed, l, r, k[n]);
  }

  /** The keys of the union are the keys of the operands, and each value comes from an operand that binds the key. */
  lemma UnionOfKeys<A>(fixed: bool, l: Trie<A>, r: Trie<A>, k: string)
    ensures var b := Lookup(Both(fixed, l, r), k);
            && (b.Some? <==> Lookup(l, k).Some? || Lookup(r, k).Some?)
            && (b.Some? ==> b == Lookup(l, k) || b == Lookup(r, k))
  {
    BothLookup(fixed, l, r, k);
  }

  /** The documented left bias holds for the exchanged combiners, and for the code as written at exactly the keys where
      the operands did not end up swapped. */
  lemma LeftBias<A>(fixed: bool, l: Trie<A>, r: Trie<A>, k: string)
    requires Lookup(l, k).Some? && Lookup(r, k).Some? && Lookup(l, k) != Lookup(r, k)
    ensures Lookup(Both(fixed, l, r), k) == Lookup(l, k) <==> fixed || !Swapped(l, r, k)
  {
    BothLookup(fixed, l, r, k);
  }

  // ----- Building a trie -----

  function Single<A>(k: string, v: A): Trie<A> {
    Branch(k, Some(v), map[])
  }

  function Pairs<A>(fixed: bool, rs: seq<Trie<A>>): (ps: seq<Trie<A>>)
    ensures 2 * |ps| <= |rs| + 1
  {
    if |rs| < 2 then rs else [Both(fixed, rs[0], rs[1])] + Pairs(fixed, rs[2..])
  }

  function All<A>(fixed: bool, rs: seq<Trie<A>>): Trie<A>
    decreases |rs|
  {
    if rs == [] then Empty()
    else if |rs| == 1 then rs[0]
    else All(fixed, Pairs(fixed, rs))
  }

  function Singles<A>(cmds: seq<(string, A)>): seq<Trie<A>> {
    seq(|cmds|, i requires 0 <= i < |cmds| => Single(cmds[i].0, cmds[i].1))
  }

  function FromCommands<A>(fixed: bool, cmds: seq<(string, A)>): Trie<A> {
    All(fixed, Singles(cmds))
  }

  function AddCommand<A>(fixed: bool, k: string, v: A, t: Trie<A>): Trie<A> {
    Both(fixed, Single(k, v), t)
  }

  /** The first entry of an association list for a key. */
  function Assoc<A>(cmds: seq<(string, A)>, k: string): Option<A> {
    if cmds == [] then None else if cmds[0].0 == k then Some(cmds[0].1) else Assoc(cmds[1..], k)
  }

  /** The value of the first trie that binds the key. */
  function FirstOf<A>(rs: seq<Trie<A>>, k: string): Option<A> {
    if rs == [] then None else Pick(Lookup(rs[0], k), FirstOf(rs[1..], k))
  }

  /** How many tries bind the key. */
  function Binders<A>(rs: seq<Trie<A>>, k: string): nat {
    if rs == [] then 0 else (if Lookup(rs[0], k).Some? then 1 else 0) + Binders(rs[1..], k)
  }

  lemma {:induction false} BoundOrNot<A>(rs: seq<Trie<A>>, k: string)
    ensures Binders(rs, k) == 0 <==> FirstOf(rs, k) == None
  {
    if rs != [] { BoundOrNot(rs[1..], k); }
  }

  /** Merging pairwise neither loses nor invents a binding, and keeps the order of priority when it matters. */
  lemma {:induction false} PairsLookup<A>(fixed: bool, rs: seq<Trie<A>>, k: string)
    ensures Binders(Pairs(fixed, rs), k) <= Binders(rs, k)
    ensures FirstOf(Pairs(fixed, rs), k).Some? <==> FirstOf(rs, k).Some?
    ensures fixed || Binders(rs, k) <= 1 ==> FirstOf(Pairs(fixed, rs), k) == FirstOf(rs, k)
  {
    if |rs| >= 2 {
      var b := Both(fixed, rs[0], rs[1]);
      BothLookup(fixed, rs[0], rs[1], k);
      PairsLookup(fixed, rs[2..], k);
      BoundOrNot(rs[2..], k);
      assert rs[1..][1..] == rs[2..];
      assert Binders(rs, k) == (if Lookup(rs[0], k).Some? then 1 else 0) + Binders(rs[1..], k);
      assert FirstOf(rs, k) == Pick(Lookup(rs[0], k), Pick(Lookup(rs[1], k), FirstOf(rs[2..], k)));
      assert Pairs(fixed, rs)[1..] == Pairs(fixed, rs[2..]);
    }
  }

  lemma {:induction false} AllLookup<A>(fixed: bool, rs: seq<Trie<A>>, k: string)
    ensures Lookup(All(fixed, rs), k).Some? <==> FirstOf(rs, k).Some?
    ensures fixed || Binders(rs, k) <= 1 ==> Lookup(All(fixed, rs), k) == FirstOf(rs, k)
    decreases |rs|
  {
    if rs == [] {
    } else if |rs| == 1 {
      assert FirstOf(rs[1..], k) == None;
    } else {
      AllLookup(fixed, Pairs(fixed, rs), k);
      PairsLookup(fixed, rs, k);
    }
  }

  predicate DistinctKeys<A>(cmds: seq<(string, A)>) {
    forall i, j | 0 <= i < j < |cmds| :: cmds[i].0 != cmds[j].0
  }

  lemma {:induction false} SinglesLookup<A>(cmds: seq<(string, A)>, k: string)
    ensures FirstOf(Singles(cmds), k) == Assoc(cmds, k)
    ensures Assoc(cmds, k).Some? <==> exists i :: 0 <= i < |cmds| && cmds[i].0 == k
    ensures DistinctKeys(cmds) ==> Binders(Singles(cmds), k) <= 1
  {
    if cmds != [] {
      SinglesLookup(cmds[1..], k);
      BoundOrNot(Singles(cmds[1..]), k);
      assert Singles(cmds)[1..] == Singles(cmds[1..]);
      SingleLookup(cmds[0].0, cmds[0].1, k);
      if cmds[0].0 != k && Assoc(cmds[1..], k).Some? {
        var i :| 0 <= i < |cmds[1..]| && cmds[1..][i].0 == k;
        assert cmds[i + 1].0 == k;
      }
      if cmds[0].0 == k && DistinctKeys(cmds) {
        assert forall i :: 0 <= i < |cmds[1..]| ==> cmds[1..][i] == cmds[i + 1];
      }
    }
  }

  lemma SingleLookup<A>(key: string, v: A, k: string)
    ensures Lookup(Single(key, v), k) == if k == key then Some(v) else None
  {
    if key <= k {
      assert k == key + k[|key|..];
    }
  }

  /** A trie built from distinct commands means exactly that association list, through all the pairwise merging; with
      the combiners exchanged it does so for every list, the first entry for a key winning. */
  lemma FromCommandsMeans<A>(fixed: bool, cmds: seq<(string, A)>, k: string)
    ensures Lookup(FromCommands(fixed, cmds), k).Some? <==> exists i :: 0 <= i < |cmds| && cmds[i].0 == k
    ensures fixed || DistinctKeys(cmds) ==> Lookup(FromCommands(fixed, cmds), k) == Assoc(cmds, k)
  {
    AllLookup(fixed, Singles(cmds), k);
    SinglesLookup(cmds, k);
  }

  /** How many tries associate exactly this value with the key. */
  function Holders<A(==)>(rs: seq<Trie<A>>, k: string, v: A): nat {
    if rs == [] then 0 else (if Lookup(rs[0], k) == Some(v) then 1 else 0) + Holders(rs[1..], k, v)
  }

  /** In one round of pairwise merging, the first trie that binds the key is not swapped away by its partner. */
  predicate KeptInRound<A>(rs: seq<Trie<A>>, k: string) {
    |rs| < 2 ||
    if Lookup(rs[0], k).Some? then Lookup(rs[1], k).None? || !Swapped(rs[0], rs[1], k)
    else Lookup(rs[1], k).Some? || KeptInRound(rs[2..], k)
  }

  predicate KeptInAll<A>(rs: seq<Trie<A>>, k: string)
    decreases |rs|
  {
    |rs| < 2 || (KeptInRound(rs, k) && KeptInAll(Pairs(false, rs), k))
  }

  lemma HoldersOfTwo<A>(rs: seq<Trie<A>>, k: string, v: A)
    requires |rs| >= 2
    ensures Holders(rs, k, v) == (if Lookup(rs[0], k) == Some(v) then 1 else 0)
                               + (if Lookup(rs[1], k) == Some(v) then 1 else 0) + Holders(rs[2..], k, v)
    ensures FirstOf(rs, k) == Pick(Lookup(rs[0], k), Pick(Lookup(rs[1], k), FirstOf(rs[2..], k)))
  {
    assert rs[1..][1..] == rs[2..];
  }

  lemma {:induction false} FirstHolds<A>(rs: seq<Trie<A>>, k: string)
    ensures FirstOf(rs, k).Some? ==> Holders(rs, k, FirstOf(rs, k).value) >= 1
  {
    if rs != [] { FirstHolds(rs[1..], k); }
  }

  lemma {:induction false} RoundHolders<A>(rs: seq<Trie<A>>, k: string, v: A)
    ensures Holders(Pairs(false, rs), k, v) <= Holders(rs, k, v)
    ensures FirstOf(rs, k) == Some(v) && Holders(rs, k, v) == 1 ==>
              if KeptInRound(rs, k) then FirstOf(Pairs(false, rs), k) == Some(v) && Holders(Pairs(false, rs), k, v) == 1
              else Holders(Pairs(false, rs), k, v) == 0
  {
    if |rs| >= 2 {
      var b, more := Both(false, rs[0], rs[1]), Pairs(false, rs[2..]);
      BothLookup(false, rs[0], rs[1], k);
      RoundHolders(rs[2..], k, v);
      HoldersOfTwo(rs, k, v);
      FirstHolds(rs[2..], k);
      assert Pairs(false, rs) == [b] + more && ([b] + more)[1..] == more;
      assert Holders([b] + more, k, v) == (if Lookup(b, k) == Some(v) then 1 else 0) + Holders(more, k, v);
      assert FirstOf([b] + more, k) == Pick(Lookup(b, k), FirstOf(more, k));
    }
  }

  lemma {:induction false} AllHolders<A>(rs: seq<Trie<A>>, k: string, v: A)
    requires Holders(rs, k, v) == 0
    ensures Lookup(All(false, rs), k) != Some(v)
    decreases |rs|
  {
    if |rs| >= 2 {
      RoundHolders(rs, k, v);
      AllHolders(Pairs(false, rs), k, v);
    }
  }

  lemma {:induction false} EarliestKept<A>(rs: seq<Trie<A>>, k: string, v: A)
    requires FirstOf(rs, k) == Some(v) && Holders(rs, k, v) == 1
    ensures Lookup(All(false, rs), k) == Some(v) <==> KeptInAll(rs, k)
    decreases |rs|
  {
    if |rs| == 1 {
      assert FirstOf(rs[1..], k) == None;
    } else {
      RoundHolders(rs, k, v);
      if KeptInRound(rs, k) {
        EarliestKept(Pairs(false, rs), k, v);
      } else {
        AllHolders(Pairs(false, rs), k, v);
      }
    }
  }

  // ----- The swaps, in terms of the keys -----

  /** A branch of the trie ends at `p`. */
  predicate EndAt<A>(t: Trie<A>, p: string)
    decreases |p|
  {
    t.pf <= p && (|p| == |t.pf| || (p[|t.pf|] in t.kids && EndAt(t.kids[p[|t.pf|]], p[|t.pf| + 1..])))
  }

  /** Among the prefixes of `k` shorter than `m` there is an odd number where a branch of just one of the tries ends. */
  predicate OddEnds<A>(l: Trie<A>, r: Trie<A>, k: string, m: nat)
    requires m <= |k|
  {
    m > 0 && OddEnds(l, r, k, m - 1) != (EndAt(l, k[..m - 1]) != EndAt(r, k[..m - 1]))
  }

  lemma EndBelow<A>(t: Trie<A>, n: nat, p: string)
    requires n <= |t.pf| && t.pf[..n] <= p && |p| > n
    ensures EndAt(t, p) == (Down(t, n, p[n]).Some? && EndAt(Down(t, n, p[n]).value, p[n + 1..]))
  {
    if n < |t.pf| {
      assert t.pf <= p <==> t.pf[n] == p[n] && t.pf[n + 1..] <= p[n + 1..];
      if t.pf <= p && |p| > |t.pf| {
        assert p[n + 1..][|t.pf| - n - 1] == p[|t.pf|];
        assert p[n + 1..][|t.pf| - n..] == p[|t.pf| + 1..];
      }
    }
  }

  lemma {:induction false} NoEndsYet<A>(l: Trie<A>, r: Trie<A>, k: string, m: nat)
    requires m <= |l.pf| && m <= |r.pf| && m <= |k|
    ensures !OddEnds(l, r, k, m)
  {
    if m > 0 { NoEndsYet(l, r, k, m - 1); }
  }

  lemma {:induction false} EndsBelow<A>(l: Trie<A>, r: Trie<A>, k: string, n: nat, m: nat)
    requires n <= |l.pf| && n <= |r.pf| && l.pf[..n] <= k && r.pf[..n] <= k && n < m <= |k|
    requires Down(l, n, k[n]).Some? && Down(r, n, k[n]).Some?
    ensures OddEnds(l, r, k, m)
         == (((n == |l.pf|) != (n == |r.pf|))
             != OddEnds(Down(l, n, k[n]).value, Down(r, n, k[n]).value, k[n + 1..], m - n - 1))
    decreases m
  {
    var p := k[..m - 1];
    if m == n + 1 {
      NoEndsYet(l, r, k, n);
    } else {
      EndsBelow(l, r, k, n, m - 1);
      EndBelow(l, n, p);
      EndBelow(r, n, p);
      assert p[n + 1..] == k[n + 1..][..m - n - 2];
    }
  }

  lemma {:induction false} EndsSymmetric<A>(l: Trie<A>, r: Trie<A>, k: string, m: nat)
    requires m <= |k|
    ensures OddEnds(l, r, k, m) == OddEnds(r, l, k, m)
  {
    if m > 0 { EndsSymmetric(l, r, k, m - 1); }
  }

  /** Two tries that both bind a key have it in common up to where the first of their branches ends. */
  lemma BothBind<A>(l: Trie<A>, r: Trie<A>, k: string)
    requires Lookup(l, k).Some? && Lookup(r, k).Some?
    ensures var n := |Common(l.pf, r.pf)|;
            && !IsEmpty(l) && !IsEmpty(r) && Common(l.pf, r.pf) <= k && l.pf[..n] <= k && r.pf[..n] <= k
            && n == (if |l.pf| <= |r.pf| then |l.pf| else |r.pf|)
            && (n < |k| ==>
                  && Down(l, n, k[n]).Some? && Lookup(Down(l, n, k[n]).value, k[n + 1..]).Some?
                  && Down(r, n, k[n]).Some? && Lookup(Down(r, n, k[n]).value, k[n + 1..]).Some?)
  {
    var n := |Common(l.pf, r.pf)|;
    EmptyLookup(l, k);
    EmptyLookup(r, k);
    CommonPrefix(l.pf, r.pf, k);
    LookupAt(l, n, k);
    LookupAt(r, n, k);
  }

  lemma OddStep<A>(l: Trie<A>, r: Trie<A>, k: string, n: nat, u: Trie<A>, v: Trie<A>)
    requires n == (if |l.pf| <= |r.pf| then |l.pf| else |r.pf|) && l.pf[..n] <= k && r.pf[..n] <= k && n < |k|
    requires Down(l, n, k[n]) == Some(u) && Down(r, n, k[n]) == Some(v)
    ensures var rest := k[n + 1..];
            OddEnds(l, r, k, |k|)
              == if |l.pf| == |r.pf| then OddEnds(u, v, rest, |rest|) else !OddEnds(v, u, rest, |rest|)
  {
    var rest := k[n + 1..];
    EndsBelow(l, r, k, n, |k|);
    EndsSymmetric(u, v, rest, |rest|);
  }

  /** Where both tries bind a key, the operands end up swapped exactly when an odd number of prefixes of the key are
      branch ends of just one of them. */
  lemma {:induction false} SwappedIsOdd<A>(l: Trie<A>, r: Trie<A>, k: string)
    requires Lookup(l, k).Some? && Lookup(r, k).Some?
    ensures Swapped(l, r, k) == OddEnds(l, r, k, |k|)
    decreases |k|
  {
    var common := Common(l.pf, r.pf);
    var n := |common|;
    BothBind(l, r, k);
    if |k| == n {
      NoEndsYet(l, r, k, n);
    } else {
      var u, v, rest := Down(l, n, k[n]).value, Down(r, n, k[n]).value, k[n + 1..];
      SwappedStep(l, r, k);
      OddStep(l, r, k, n, u, v);
      if |l.pf| == |r.pf| {
        SwappedIsOdd(u, v, rest);
      } else {
        SwappedIsOdd(v, u, rest);
      }
    }
  }

  /** Two prefixes of one text: the shorter is what they have in common. */
  lemma {:induction false} CommonPrefix(a: string, b: string, k: string)
    requires a <= k && b <= k
    ensures Common(a, b) == if |a| <= |b| then a else b
  {
    if a != [] && b != [] {
      CommonPrefix(a[1..], b[1..], k[1..]);
      assert a == [a[0]] + a[1..] && b == [b[0]] + b[1..];
    }
  }

  /** Every branch holds a value or parts in two: the shape that makes a radix tree the only one for its keys. */
  predicate Radix<A>(t: Trie<A>) {
    && (t.val.Some? || exists c, d :: c in t.kids && d in t.kids && c != d)
    && forall c | c in t.kids :: Radix(t.kids[c])
  }

  /** `p` is a key, or two keys go on from it in different ways. */
  ghost predicate Fork(bound: iset<string>, p: string) {
    p in bound || exists a, b :: a in bound && b in bound && Parts(a, b, p)
  }

  predicate Parts(a: string, b: string, p: string) {
    p < a && p < b && a[|p|] != b[|p|]
  }

  ghost function BoundBy<A>(t: Trie<A>): iset<string> {
    iset k: string | Lookup(t, k).Some?
  }

  lemma {:induction false} RadixKey<A>(t: Trie<A>) returns (k: string)
    requires Radix(t)
    ensures t.pf <= k && Lookup(t, k).Some?
  {
    if t.val.Some? {
      k := t.pf;
    } else {
      var c :| c in t.kids;
      k := KeyThrough(t, c);
    }
  }

  lemma {:induction false} KeyThrough<A>(t: Trie<A>, c: char) returns (k: string)
    requires c in t.kids && Radix(t.kids[c])
    ensures t.pf < k && k[|t.pf|] == c && Lookup(t, k).Some?
  {
    var below := RadixKey(t.kids[c]);
    k := t.pf + [c] + below;
    assert k[|t.pf|..] == [c] + below;
  }

  lemma Through<A>(t: Trie<A>, c: char, x: string)
    requires c in t.kids
    ensures Lookup(t, t.pf + [c] + x) == Lookup(t.kids[c], x)
  {
    var k := t.pf + [c] + x;
    assert k[|t.pf|..] == [c] + x && ([c] + x)[1..] == x;
  }

  lemma {:induction false} ForkOfEnd<A>(t: Trie<A>, p: string)
    requires Radix(t) && EndAt(t, p)
    ensures Fork(BoundBy(t), p)
    decreases |p|
  {
    var n := |t.pf|;
    if |p| == n {
      assert p == t.pf;
      if t.val.Some? {
        assert p[n..] == [] && Lookup(t, p) == t.val;
        assert p in BoundBy(t);
      } else {
        var c, d :| c in t.kids && d in t.kids && c != d;
        var a := KeyThrough(t, c);
        var b := KeyThrough(t, d);
        assert a in BoundBy(t) && b in BoundBy(t) && Parts(a, b, p);
      }
    } else {
      var c, rest := p[n], p[n + 1..];
      var kid := t.kids[c];
      ForkOfEnd(kid, rest);
      assert p == t.pf + [c] + rest;
      Through(t, c, rest);
      if rest !in BoundBy(kid) {
        var a, b :| a in BoundBy(kid) && b in BoundBy(kid) && Parts(a, b, rest);
        Through(t, c, a);
        Through(t, c, b);
        PartsBelow(t.pf + [c], a, b, rest);
        assert t.pf + [c] + a in BoundBy(t) && t.pf + [c] + b in BoundBy(t);
      }
    }
  }

  lemma PartsBelow(q: string, a: string, b: string, p: string)
    ensures Parts(q + a, q + b, q + p) <==> Parts(a, b, p)
  {
    assert (q + a)[..|q|] == q && (q + a)[|q|..] == a;
    assert (q + b)[..|q|] == q && (q + b)[|q|..] == b;
    assert p < a ==> q + p < q + a;
    assert p < b ==> q + p < q + b;
    assert q + p < q + a ==> a[..|p|] == (q + a)[..|q + p|][|q|..] == p;
    assert q + p < q + b ==> b[..|p|] == (q + b)[..|q + p|][|q|..] == p;
  }

  lemma {:induction false} KeyIsEnd<A>(t: Trie<A>, p: string)
    requires Lookup(t, p).Some?
    ensures EndAt(t, p)
    decreases |p|
  {
    var n := |t.pf|;
    if |p| > n {
      assert p[n..][1..] == p[n + 1..];
      KeyIsEnd(t.kids[p[n]], p[n + 1..]);
    }
  }

  lemma {:induction false} PartingIsEnd<A>(t: Trie<A>, p: string, a: string, b: string)
    requires Lookup(t, a).Some? && Lookup(t, b).Some? && Parts(a, b, p)
    ensures EndAt(t, p)
    decreases |p|
  {
    var n := |t.pf|;
    assert t.pf <= a && t.pf <= b && p == a[..|p|];
    assert forall k | 0 <= k < n :: a[k] == t.pf[k] == b[k];
    assert t.pf <= p;
    if |p| > n {
      assert a[n] == p[n] && b[n] == p[n];
      assert a[n..][1..] == a[n + 1..] && b[n..][1..] == b[n + 1..];
      var q := t.pf + [p[n]];
      assert a == q + a[n + 1..] && b == q + b[n + 1..] && p == q + p[n + 1..];
      PartsBelow(q, a[n + 1..], b[n + 1..], p[n + 1..]);
      PartingIsEnd(t.kids[p[n]], p[n + 1..], a[n + 1..], b[n + 1..]);
    }
  }

  /** The branch ends of a radix tree are determined by its keys. */
  lemma EndIsFork<A>(t: Trie<A>, p: string)
    requires Radix(t)
    ensures EndAt(t, p) <==> Fork(BoundBy(t), p)
  {
    if EndAt(t, p) {
      ForkOfEnd(t, p);
    }
    if p in BoundBy(t) {
      KeyIsEnd(t, p);
    } else if Fork(BoundBy(t), p) {
      var a, b :| a in BoundBy(t) && b in BoundBy(t) && Parts(a, b, p);
      PartingIsEnd(t, p, a, b);
    }
  }

  lemma {:induction false} BothRadix<A>(fixed: bool, l: Trie<A>, r: Trie<A>)
    requires Radix(l) && Radix(r)
    ensures Radix(Both(fixed, l, r))
    decreases Height(l) + Height(r)
  {
    var n := |Common(l.pf, r.pf)|;
    var b := Both(fixed, l, r);
    forall c | c in b.kids
      ensures Radix(b.kids[c])
    {
      BothDown(fixed, l, r, c);
      assert Down(b, n, c) == Some(b.kids[c]);
      DownRadix(l, n, c);
      DownRadix(r, n, c);
      var u, v := Down(l, n, c), Down(r, n, c);
      if u.Some? && v.Some? {
        if fixed || |l.pf| == |r.pf| {
          BothRadix(fixed, u.value, v.value);
        } else {
          BothRadix(fixed, v.value, u.value);
        }
      }
    }
    BothForks(fixed, l, r);
  }

  lemma DownRadix<A>(t: Trie<A>, n: nat, c: char)
    requires Radix(t) && n <= |t.pf|
    ensures var u := Down(t, n, c); u.Some? ==> Radix(u.value) && Height(u.value) < Height(t)
  {}

  lemma BothForks<A>(fixed: bool, l: Trie<A>, r: Trie<A>)
    requires Radix(l) && Radix(r)
    ensures var b := Both(fixed, l, r); b.val.Some? || exists c, d :: c in b.kids && d in b.kids && c != d
  {
    var b := Both(fixed, l, r);
    var n := |Common(l.pf, r.pf)|;
    if n < |l.pf| && n < |r.pf| {
      assert l.pf[n] in b.kids && r.pf[n] in b.kids;
    } else if n == |l.pf| && l.val.None? {
      var c, d :| c in l.kids && d in l.kids && c != d;
      BothDown(fixed, l, r, c);
      BothDown(fixed, l, r, d);
      assert c in b.kids && d in b.kids;
    } else if n < |l.pf| && r.val.None? {
      var c, d :| c in r.kids && d in r.kids && c != d;
      BothDown(fixed, l, r, c);
      BothDown(fixed, l, r, d);
      assert c in b.kids && d in b.kids;
    }
  }

  // ----- Blocks of the command list -----

  predicate Has<A>(cmds: seq<(string, A)>, k: string) {
    exists i :: 0 <= i < |cmds| && cmds[i].0 == k
  }

  /** `p` is a command, or two commands go on from it in different ways. */
  predicate ForksAt<A>(cmds: seq<(string, A)>, p: string) {
    Has(cmds, p) || exists i, j :: 0 <= i < |cmds| && 0 <= j < |cmds| && Parts(cmds[i].0, cmds[j].0, p)
  }

  /** Among the prefixes of `k` shorter than `m` there is an odd number where just one of the two lists forks. */
  predicate OddForks<A>(a: seq<(string, A)>, b: seq<(string, A)>, k: string, m: nat)
    requires m <= |k|
  {
    m > 0 && OddForks(a, b, k, m - 1) != (ForksAt(a, k[..m - 1]) != ForksAt(b, k[..m - 1]))
  }

  /** Neighbouring blocks joined two by two. */
  function Join<A>(bs: seq<seq<(string, A)>>): (r: seq<seq<(string, A)>>)
    ensures 2 * |r| <= |bs| + 1
  {
    if |bs| < 2 then bs else [bs[0] + bs[1]] + Join(bs[2..])
  }

  /** In one round of joining, the first block with the command `k` is not joined with one that has it too and swaps it
      away. */
  predicate KeptJoining<A>(bs: seq<seq<(string, A)>>, k: string) {
    |bs| < 2 ||
    if Has(bs[0], k) then Has(bs[1], k) ==> !OddForks(bs[0], bs[1], k, |k|)
    else Has(bs[1], k) || KeptJoining(bs[2..], k)
  }

  predicate KeptInBlocks<A>(bs: seq<seq<(string, A)>>, k: string)
    decreases |bs|
  {
    |bs| < 2 || (KeptJoining(bs, k) && KeptInBlocks(Join(bs), k))
  }

  /** Each command on its own. */
  function Alone<A>(cmds: seq<(string, A)>): seq<seq<(string, A)>> {
    seq(|cmds|, i requires 0 <= i < |cmds| => [cmds[i]])
  }

  /** The trie has the commands of the block. */
  ghost predicate Holds<A>(t: Trie<A>, cmds: seq<(string, A)>) {
    Radix(t) && forall k :: Lookup(t, k).Some? <==> Has(cmds, k)
  }

  lemma HoldsForks<A>(t: Trie<A>, cmds: seq<(string, A)>, p: string)
    requires Holds(t, cmds)
    ensures EndAt(t, p) <==> ForksAt(cmds, p)
  {
    EndIsFork(t, p);
    var bound := BoundBy(t);
    if a, b :| a in bound && b in bound && Parts(a, b, p) {
      var i :| 0 <= i < |cmds| && cmds[i].0 == a;
      var j :| 0 <= j < |cmds| && cmds[j].0 == b;
      assert Parts(cmds[i].0, cmds[j].0, p);
    }
    if i, j :| 0 <= i < |cmds| && 0 <= j < |cmds| && Parts(cmds[i].0, cmds[j].0, p) {
      assert Has(cmds, cmds[i].0) && Has(cmds, cmds[j].0);
      assert cmds[i].0 in bound && cmds[j].0 in bound;
    }
  }

  lemma {:induction false} HoldsOdd<A>(l: Trie<A>, r: Trie<A>, a: seq<(string, A)>, b: seq<(string, A)>, k: string,
                                       m: nat)
    requires Holds(l, a) && Holds(r, b) && m <= |k|
    ensures OddEnds(l, r, k, m) == OddForks(a, b, k, m)
  {
    if m > 0 {
      HoldsOdd(l, r, a, b, k, m - 1);
      HoldsForks(l, a, k[..m - 1]);
      HoldsForks(r, b, k[..m - 1]);
    }
  }

  lemma HasAppend<A>(a: seq<(string, A)>, b: seq<(string, A)>, k: string)
    ensures Has(a + b, k) <==> Has(a, k) || Has(b, k)
  {
    if i :| 0 <= i < |a| && a[i].0 == k { assert (a + b)[i].0 == k; }
    if i :| 0 <= i < |b| && b[i].0 == k { assert (a + b)[|a| + i].0 == k; }
  }

  lemma HoldsBoth<A>(l: Trie<A>, r: Trie<A>, a: seq<(string, A)>, b: seq<(string, A)>)
    requires Holds(l, a) && Holds(r, b)
    ensures Holds(Both(false, l, r), a + b)
  {
    BothRadix(false, l, r);
    forall k
      ensures Lookup(Both(false, l, r), k).Some? <==> Has(a + b, k)
    {
      UnionOfKeys(false, l, r, k);
      HasAppend(a, b, k);
    }
  }

  ghost predicate AllHold<A>(rs: seq<Trie<A>>, bs: seq<seq<(string, A)>>) {
    |rs| == |bs| && forall i | 0 <= i < |rs| :: Holds(rs[i], bs[i])
  }

  lemma {:induction false} PairsHold<A>(rs: seq<Trie<A>>, bs: seq<seq<(string, A)>>)
    requires AllHold(rs, bs)
    ensures AllHold(Pairs(false, rs), Join(bs))
  {
    if |rs| >= 2 {
      HoldsBoth(rs[0], rs[1], bs[0], bs[1]);
      PairsHold(rs[2..], bs[2..]);
    }
  }

  lemma {:induction false} RoundInBlocks<A>(rs: seq<Trie<A>>, bs: seq<seq<(string, A)>>, k: string)
    requires AllHold(rs, bs)
    ensures KeptInRound(rs, k) == KeptJoining(bs, k)
  {
    if |rs| >= 2 {
      assert Holds(rs[0], bs[0]) && Holds(rs[1], bs[1]);
      if Has(bs[0], k) && Has(bs[1], k) {
        SwappedIsOdd(rs[0], rs[1], k);
        HoldsOdd(rs[0], rs[1], bs[0], bs[1], k, |k|);
      }
      RoundInBlocks(rs[2..], bs[2..], k);
    }
  }

  lemma {:induction false} AllInBlocks<A>(rs: seq<Trie<A>>, bs: seq<seq<(string, A)>>, k: string)
    requires AllHold(rs, bs)
    ensures KeptInAll(rs, k) == KeptInBlocks(bs, k)
    decreases |rs|
  {
    if |rs| >= 2 {
      RoundInBlocks(rs, bs, k);
      PairsHold(rs, bs);
      AllInBlocks(Pairs(false, rs), Join(bs), k);
    }
  }

  lemma SinglesHold<A>(cmds: seq<(string, A)>)
    ensures AllHold(Singles(cmds), Alone(cmds))
  {
    forall i | 0 <= i < |cmds|
      ensures Holds(Singles(cmds)[i], Alone(cmds)[i])
    {
      var one := [cmds[i]];
      forall k
        ensures Lookup(Singles(cmds)[i], k).Some? <==> Has(one, k)
      {
        SingleLookup(cmds[i].0, cmds[i].1, k);
        assert one[0].0 == k ==> Has(one, k);
      }
    }
  }

  /** The first binding of a key, with a value no later binding has. */
  predicate Earliest<A(==)>(cmds: seq<(string, A)>, i: nat) {
    && i < |cmds|
    && (forall j | 0 <= j < i :: cmds[j].0 != cmds[i].0)
    && (forall j | i < j < |cmds| :: cmds[j] != cmds[i])
  }

  lemma {:induction false} EarliestHolder<A>(cmds: seq<(string, A)>, i: nat)
    requires Earliest(cmds, i)
    ensures FirstOf(Singles(cmds), cmds[i].0) == Some(cmds[i].1)
    ensures Holders(Singles(cmds), cmds[i].0, cmds[i].1) == 1
    decreases |cmds|
  {
    var (k, v) := cmds[i];
    assert Singles(cmds)[1..] == Singles(cmds[1..]);
    SingleLookup(cmds[0].0, cmds[0].1, k);
    if i > 0 {
      EarliestHolder(cmds[1..], i - 1);
    } else {
      assert forall j :: 0 <= j < |cmds[1..]| ==> cmds[1..][j] == cmds[j + 1];
      NoHolder(cmds[1..], k, v);
    }
  }

  lemma {:induction false} NoHolder<A>(cmds: seq<(string, A)>, k: string, v: A)
    requires forall j | 0 <= j < |cmds| :: cmds[j] != (k, v)
    ensures Holders(Singles(cmds), k, v) == 0
  {
    if cmds != [] {
      assert Singles(cmds)[1..] == Singles(cmds[1..]);
      SingleLookup(cmds[0].0, cmds[0].1, k);
      NoHolder(cmds[1..], k, v);
    }
  }

  /** `fromCommands` promises that the earliest of several values for a key is used. As written it is used exactly when,
      joining the list two by two into ever larger blocks, its block never meets another one with the key such that an
      odd number of the key's prefixes are forks of just one of the two. */
  lemma EarliestWins<A>(cmds: seq<(string, A)>, i: nat)
    requires Earliest(cmds, i)
    ensures Lookup(FromCommands(false, cmds), cmds[i].0) == Some(cmds[i].1) <==> KeptInBlocks(Alone(cmds), cmds[i].0)
  {
    EarliestHolder(cmds, i);
    EarliestKept(Singles(cmds), cmds[i].0, cmds[i].1);
    SinglesHold(cmds);
    AllInBlocks(Singles(cmds), Alone(cmds), cmds[i].0);
  }

  // ----- Where the documented bias fails -----

  /** Whether the branch that binds a key lies an odd number of steps below the root. */
  predicate OddDepth<A>(t: Trie<A>, k: string)
    decreases |k|
  {
    t.pf < k && k[|t.pf|] in t.kids && !OddDepth(t.kids[k[|t.pf|]], k[|t.pf| + 1..])
  }

  lemma {:induction false} SwappedSingle<A>(v: A, t: Trie<A>, k: string)
    requires Lookup(t, k).Some?
    ensures Swapped(Single(k, v), t, k) == Swapped(t, Single(k, v), k) == OddDepth(t, k)
    decreases |k|
  {
    var s := Single(k, v);
    var n := |t.pf|;
    CommonOfPrefix(t.pf, k);
    if t.pf != k {
      var u, rest := t.kids[k[n]], k[n + 1..];
      assert Cut(s, n + 1) == Single(rest, v);
      LookupAt(t, n, k);
      SwappedSingle(v, u, rest);
      assert !IsEmpty(t) && !IsEmpty(s);
      assert Down(t, n, k[n]) == Some(u) && Down(s, n, k[n]) == Some(Single(rest, v));
      SwappedStep(s, t, k);
      SwappedStep(t, s, k);
    }
  }

  lemma {:induction false} CommonOfPrefix(p: string, k: string)
    requires p <= k
    ensures Common(p, k) == Common(k, p) == p
  {
    if p != [] { CommonOfPrefix(p[1..], k[1..]); }
  }

  /** `addCommand` promises to override a value that is already present. As written it keeps the old value exactly when
      the branch of the key lies an odd number of steps below the root. Other keys are never touched. */
  lemma AddCommandOverrides<A>(fixed: bool, k: string, v: A, t: Trie<A>, other: string)
    ensures Lookup(AddCommand(fixed, k, v, t), k) ==
            if fixed || Lookup(t, k).None? || !OddDepth(t, k) then Some(v) else Lookup(t, k)
    ensures other != k ==> Lookup(AddCommand(fixed, k, v, t), other) == Lookup(t, other)
  {
    BothLookup(fixed, Single(k, v), t, k);
    BothLookup(fixed, Single(k, v), t, other);
    SingleLookup(k, v, k);
    SingleLookup(k, v, other);
    if Lookup(t, k).Some? {
      SwappedSingle(v, t, k);
    }
  }

  /** The smallest failing case: `ab` added to a trie that holds `a` and `ab` keeps its old value. */
  lemma OverrideFails()
    ensures var t := FromCommands(false, [("a", 1), ("ab", 2)]);
            Lookup(AddCommand(false, "ab", 3, t), "ab") == Some(2)
  {
    var cmds := [("a", 1), ("ab", 2)];
    var t := FromCommands(false, cmds);
    var a, b := Single("a", 1), Single("ab", 2);
    FromCommandsMeans(false, cmds, "ab");
    assert cmds[1].0 == "ab" && Assoc(cmds[1..], "ab") == Some(2);
    assert Singles(cmds) == [a, b] && Pairs(false, [a, b]) == [Both(false, a, b)];
    CommonOfPrefix("a", "ab");
    assert t.pf == "a" && 'b' in t.kids && t.kids['b'] == Single("", 2);
    assert "ab"[2..] == "";
    AddCommandOverrides(false, "ab", 3, t, "");
  }

  /** And for a list: of three commands, two of them `ab`, the later value is the one that is found. */
  lemma EarliestFails()
    ensures Lookup(FromCommands(false, [("ab", 1), ("a", 2), ("ab", 3)]), "ab") == Some(3)
  {
    var cmds := [("ab", 1), ("a", 2), ("ab", 3)];
    var x, y, z := Single("ab", 1), Single("a", 2), Single("ab", 3);
    var t := Both(false, x, y);
    CommonOfPrefix("a", "ab");
    assert Singles(cmds) == [x, y, z];
    assert Pairs(false, [x, y, z]) == [t] + Pairs(false, [z]) == [t, z];
    assert Pairs(false, [t, z]) == [Both(false, t, z)];
    assert t.pf == "a" && 'b' in t.kids && t.kids['b'] == Branch("", Some(1), map[]);
    assert "ab"[2..] == "";
    BothLookup(false, x, y, "ab");
    SingleLookup("ab", 1, "ab");
    SwappedSingle(3, t, "ab");
    BothLookup(false, t, z, "ab");
    SingleLookup("ab", 3, "ab");
  }

  // ----- No dead branches -----

  /** Below the root every branch leads to some key. */
  predicate Good<A>(t: Trie<A>) {
    forall c | c in t.kids :: Live(t.kids[c]) && Good(t.kids[c])
  }

  predicate Live<A>(t: Trie<A>) {
    t.val.Some? || t.kids.Keys != {}
  }

  predicate Proper<A>(t: Trie<A>) {
    Good(t) && (Live(t) || t.pf == "")
  }

  lemma {:induction false} LiveHasKey<A>(t: Trie<A>) returns (k: string)
    requires Good(t) && Live(t)
    ensures t.pf <= k && Lookup(t, k).Some?
  {
    if t.val.Some? {
      k := t.pf;
    } else {
      var c :| c in t.kids;
      var below := LiveHasKey(t.kids[c]);
      k := t.pf + [c] + below;
      assert k[|t.pf|..] == [c] + below;
    }
  }

  lemma {:induction false} BothProper<A>(fixed: bool, l: Trie<A>, r: Trie<A>)
    requires Proper(l) && Proper(r)
    ensures Proper(Both(fixed, l, r))
    ensures Live(l) || Live(r) ==> Live(Both(fixed, l, r))
    decreases Height(l) + Height(r)
  {
    if !IsEmpty(l) && !IsEmpty(r) {
      var n := |Common(l.pf, r.pf)|;
      var b := Both(fixed, l, r);
      forall c | c in b.kids
        ensures Live(b.kids[c]) && Good(b.kids[c])
      {
        BothDown(fixed, l, r, c);
        assert Down(b, n, c) == Some(b.kids[c]);
        DownProper(l, n, c);
        DownProper(r, n, c);
        var u, v := Down(l, n, c), Down(r, n, c);
        if u.Some? && v.Some? {
          if fixed || |l.pf| == |r.pf| {
            BothProper(fixed, u.value, v.value);
          } else {
            BothProper(fixed, v.value, u.value);
          }
        }
      }
      BothLive(fixed, l, r);
    }
  }

  lemma DownProper<A>(t: Trie<A>, n: nat, c: char)
    requires Proper(t) && n <= |t.pf|
    ensures var u := Down(t, n, c); u.Some? ==> Good(u.value) && Live(u.value) && Height(u.value) < Height(t)
  {}

  lemma BothLive<A>(fixed: bool, l: Trie<A>, r: Trie<A>)
    requires Proper(l) && Proper(r) && !IsEmpty(l) && !IsEmpty(r)
    ensures Live(Both(fixed, l, r))
  {
    var b := Both(fixed, l, r);
    var n := |Common(l.pf, r.pf)|;
    if n < |l.pf| {
      BothDown(fixed, l, r, l.pf[n]);
    } else if n < |r.pf| {
      BothDown(fixed, l, r, r.pf[n]);
    } else if l.val.None? {
      var c :| c in l.kids;
      BothDown(fixed, l, r, c);
    }
  }

  lemma {:induction false} PairsProper<A>(fixed: bool, rs: seq<Trie<A>>)
    requires forall i | 0 <= i < |rs| :: Proper(rs[i])
    ensures forall i | 0 <= i < |Pairs(fixed, rs)| :: Proper(Pairs(fixed, rs)[i])
  {
    if |rs| >= 2 {
      BothProper(fixed, rs[0], rs[1]);
      PairsProper(fixed, rs[2..]);
    }
  }

  lemma {:induction false} AllProper<A>(fixed: bool, rs: seq<Trie<A>>)
    requires forall i | 0 <= i < |rs| :: Proper(rs[i])
    ensures Proper(All(fixed, rs))
    decreases |rs|
  {
    if |rs| >= 2 {
      PairsProper(fixed, rs);
      AllProper(fixed, Pairs(fixed, rs));
    }
  }

  // ----- Listing and recognizing -----

  predicate NoDup<T(==)>(xs: seq<T>) {
    forall i, j | 0 <= i < j < |xs| :: xs[i] != xs[j]
  }

  /** The order in which a hash map lists its entries is unspecified: any function that lists each key once will do. */
  ghost predicate Enumerates<A(!new)>(toList: map<char, Trie<A>> -> seq<char>) {
    forall m :: NoDup(toList(m)) && forall c :: c in toList(m) <==> c in m
  }

  function PrependAll(p: string, ks: seq<string>): seq<string> {
    seq(|ks|, i requires 0 <= i < |ks| => p + ks[i])
  }

  function Keys<A(!new)>(t: Trie<A>, toList: map<char, Trie<A>> -> seq<char>): seq<string>
    requires Enumerates(toList)
    decreases t, 1, 0
  {
    (if t.val.Some? then [t.pf] else []) + PrependAll(t.pf, ChildKeys(t, toList(t.kids), toList))
  }

  function ChildKeys<A(!new)>(t: Trie<A>, cs: seq<char>, toList: map<char, Trie<A>> -> seq<char>): seq<string>
    requires Enumerates(toList)
    requires forall i | 0 <= i < |cs| :: cs[i] in t.kids
    decreases t, 0, |cs|
  {
    if cs == [] then []
    else PrependAll([cs[0]], Keys(t.kids[cs[0]], toList)) + ChildKeys(t, cs[1..], toList)
  }

  lemma PrependAllKeys(p: string, ks: seq<string>)
    requires NoDup(ks)
    ensures NoDup(PrependAll(p, ks))
    ensures forall k :: k in PrependAll(p, ks) <==> p <= k && k[|p|..] in ks
  {
    var ps := PrependAll(p, ks);
    forall k
      ensures k in ps <==> p <= k && k[|p|..] in ks
    {
      if k in ps {
        var i :| 0 <= i < |ps| && ps[i] == k;
        assert k[|p|..] == ks[i];
      }
      if p <= k && k[|p|..] in ks {
        var i :| 0 <= i < |ks| && ks[i] == k[|p|..];
        assert k == p + k[|p|..] == ps[i];
      }
    }
    forall i, j | 0 <= i < j < |ps|
      ensures ps[i] != ps[j]
    {
      assert ps[i][|p|..] == ks[i] && ps[j][|p|..] == ks[j];
    }
  }

  lemma ConcatNoDup<T>(a: seq<T>, b: seq<T>)
    requires NoDup(a) && NoDup(b) && forall x :: x in a ==> x !in b
    ensures NoDup(a + b)
  {
    forall i, j | 0 <= i < j < |a + b|
      ensures (a + b)[i] != (a + b)[j]
    {
      if i < |a| <= j { assert a[i] in a && b[j - |a|] in b; }
    }
  }

  lemma {:induction false} ChildKeysExact<A(!new)>(t: Trie<A>, cs: seq<char>, toList: map<char, Trie<A>> -> seq<char>)
    requires Enumerates(toList) && NoDup(cs)
    requires forall i | 0 <= i < |cs| :: cs[i] in t.kids
    ensures NoDup(ChildKeys(t, cs, toList))
    ensures forall k :: k in ChildKeys(t, cs, toList) <==> k != "" && k[0] in cs && Below(t, k).Some?
    decreases t, 0, |cs|
  {
    if cs != [] {
      var c, u := cs[0], t.kids[cs[0]];
      KeysExact(u, toList);
      PrependAllKeys([c], Keys(u, toList));
      ChildKeysExact(t, cs[1..], toList);
      var mine, others := PrependAll([c], Keys(u, toList)), ChildKeys(t, cs[1..], toList);
      assert c !in cs[1..];
      assert forall k :: k in mine ==> k[0] == c;
      ConcatNoDup(mine, others);
      forall k
        ensures k in mine + others <==> k != "" && k[0] in cs && Below(t, k).Some?
      {
        if k != "" {
          assert [c] <= k <==> k[0] == c;
          assert k[0] in cs <==> k[0] == c || k[0] in cs[1..];
        }
      }
    }
  }

  /** `keys` lists exactly the keys of the trie, each once. */
  lemma {:induction false} KeysExact<A(!new)>(t: Trie<A>, toList: map<char, Trie<A>> -> seq<char>)
    requires Enumerates(toList)
    ensures NoDup(Keys(t, toList))
    ensures forall k :: k in Keys(t, toList) <==> Lookup(t, k).Some?
    decreases t, 1, 0
  {
    var below := ChildKeys(t, toList(t.kids), toList);
    ChildKeysExact(t, toList(t.kids), toList);
    PrependAllKeys(t.pf, below);
    var own := if t.val.Some? then [t.pf] else [];
    ConcatNoDup(own, PrependAll(t.pf, below));
    forall k
      ensures k in Keys(t, toList) <==> Lookup(t, k).Some?
    {
      if t.pf <= k {
        assert k == t.pf <==> k[|t.pf|..] == [];
      }
    }
  }

  function Recognize<A(!new)>(tx: string, t: Trie<A>, toList: map<char, Trie<A>> -> seq<char>): Recognition<A>
    requires Enumerates(toList)
    decreases |tx|
  {
    var n := |Common(t.pf, tx)|;
    if n == |tx| then
      if n == |t.pf| && t.val.Some? then Exact(t.val.value) else Prefix(Keys(Cut(t, n), toList))
    else if n == |t.pf| && tx[n] in t.kids then Recognize(tx[n + 1..], t.kids[tx[n]], toList)
    else Invalid
  }

  /** What a recognition tells about a text, given what the trie associates with its extensions. */
  ghost predicate Describes<A(!new)>(r: Recognition<A>, tx: string, t: Trie<A>) {
    match r
    case Exact(v) => Lookup(t, tx) == Some(v)
    case Prefix(ss) => Lookup(t, tx).None? && NoDup(ss) && forall s :: s in ss <==> Lookup(t, tx + s).Some?
    case Invalid => forall s :: Lookup(t, tx + s).None?
  }

  lemma {:induction false} RecognizeDescribes<A(!new)>(tx: string, t: Trie<A>, toList: map<char, Trie<A>> -> seq<char>)
    requires Enumerates(toList)
    ensures Describes(Recognize(tx, t, toList), tx, t)
    decreases |tx|
  {
    var n := |Common(t.pf, tx)|;
    if n == |tx| {
      KeysExact(Cut(t, n), toList);
      assert t.pf[..n] == tx;
      LookupAt(t, n, tx);
      forall s
        ensures Lookup(t, tx + s) == Lookup(Cut(t, n), s)
      {
        CutLookup(t, n, tx + s);
        assert (tx + s)[n..] == s;
      }
      if n < |t.pf| { assert !(t.pf <= tx); }
      assert tx + "" == tx;
    } else {
      assert t.pf[..n] == tx[..n];
      var rest := tx[n + 1..];
      forall s
        ensures Lookup(t, tx + s) == LookupIn(Down(t, n, tx[n]), rest + s)
      {
        assert (tx + s)[..n] == tx[..n];
        LookupAt(t, n, tx + s);
        assert (tx + s)[n + 1..] == rest + s;
      }
      assert tx + "" == tx && rest + "" == rest;
      if n == |t.pf| && tx[n] in t.kids {
        RecognizeDescribes(rest, t.kids[tx[n]], toList);
      }
    }
  }

  lemma CutLookup<A>(t: Trie<A>, n: nat, k: string)
    requires n <= |t.pf| && t.pf[..n] <= k
    ensures Lookup(t, k) == Lookup(Cut(t, n), k[n..])
  {
    assert t.pf <= k <==> t.pf[n..] <= k[n..];
    if t.pf <= k {
      var rest := k[|t.pf|..];
      assert k[n..][|t.pf| - n..] == rest;
      assert Below(Cut(t, n), rest) == Below(t, rest);
    }
  }

  lemma {:induction false} PrefixHasKeys<A(!new)>(tx: string, t: Trie<A>, toList: map<char, Trie<A>> -> seq<char>)
    requires Enumerates(toList) && Proper(t)
    requires Recognize(tx, t, toList).Prefix?
    ensures Recognize(tx, t, toList).suffixes != [] <==> !(IsEmpty(t) && tx == "")
    decreases |tx|
  {
    var n := |Common(t.pf, tx)|;
    RecognizeDescribes(tx, t, toList);
    if IsEmpty(t) {
      if tx == "" {
        var ss := Recognize(tx, t, toList).suffixes;
        assert |ss| > 0 ==> ss[0] in ss;
        forall s
          ensures s !in Recognize(tx, t, toList).suffixes
        {
          EmptyLookup(t, tx + s);
        }
      }
    } else if n == |tx| {
      var k := LiveHasKey(t);
      assert tx <= k;
      assert k == tx + k[n..];
      assert k[n..] in Recognize(tx, t, toList).suffixes;
    } else {
      PrefixHasKeys(tx[n + 1..], t.kids[tx[n]], toList);
    }
  }

  /** The recognizer of a command list: a text is recognized exactly when it is a command, a prefix when it is not but
      some commands extend it, and then the answer lists each missing suffix once; otherwise it is invalid. The one
      exception is the empty command list, where the empty text is a prefix of nothing. */
  lemma RecognizeCommands<A(!new)>(cmds: seq<(string, A)>, tx: string, toList: map<char, Trie<A>> -> seq<char>)
    requires Enumerates(toList) && DistinctKeys(cmds)
    ensures var r := Recognize(tx, FromCommands(false, cmds), toList);
            && (forall v :: r == Exact(v) <==> Assoc(cmds, tx) == Some(v))
            && (r.Prefix? ==> NoDup(r.suffixes) && forall s :: s in r.suffixes <==> Assoc(cmds, tx + s).Some?)
            && (r.Invalid? <==> (forall s :: Assoc(cmds, tx + s).None?) && !(cmds == [] && tx == ""))
  {
    var t := FromCommands(false, cmds);
    var r := Recognize(tx, t, toList);
    ExtensionsMean(cmds, tx);
    RecognizeDescribes(tx, t, toList);
    assert tx + "" == tx;
    if r.Prefix? {
      AllProper(false, Singles(cmds));
      PrefixHasKeys(tx, t, toList);
      EmptyCommands(cmds);
      if r.suffixes != [] { assert r.suffixes[0] in r.suffixes; }
    } else if r.Exact? {
      assert Assoc(cmds, tx + "").Some?;
    }
  }

  lemma ExtensionsMean<A>(cmds: seq<(string, A)>, tx: string)
    requires DistinctKeys(cmds)
    ensures forall s :: Lookup(FromCommands(false, cmds), tx + s) == Assoc(cmds, tx + s)
  {
    forall s
      ensures Lookup(FromCommands(false, cmds), tx + s) == Assoc(cmds, tx + s)
    {
      FromCommandsMeans(false, cmds, tx + s);
    }
  }

  lemma EmptyCommands<A>(cmds: seq<(string, A)>)
    ensures IsEmpty(FromCommands(false, cmds)) <==> cmds == []
  {
    if cmds != [] {
      EmptyLookup(FromCommands(false, cmds), cmds[0].0);
      FromCommandsMeans(false, cmds, cmds[0].0);
    }
  }
}
