/** Server settings that inherit from each other by name (`buildServerMap`, src/Client/Configuration.hs). */
module ServerMaps {
  import opened Text

  /** A configuration entry: the name it extends, if any, the name it gives itself, and the changes it makes. */
  datatype Update<!S> = Update(ext: Option<string>, name: string, f: S -> S)

  predicate DistinctNames<S>(ups: seq<Update<S>>) {
    forall i, j | 0 <= i < j < |ups| :: ups[i].name != ups[j].name
  }

  /** Whatever settings an entry is applied to, the result carries the entry's own name. */
  ghost predicate OwnNames<S(!new)>(ups: seq<Update<S>>, nameOf: S -> string) {
    forall i, s | 0 <= i < |ups| :: nameOf(ups[i].f(s)) == ups[i].name
  }

  // ----- Chains of inheritance -----

  /** A path of entries from the root: the first extends nothing, each other one the one before it. */
  predicate Chain<S>(ups: seq<Update<S>>, path: seq<nat>) {
    && (forall i | 0 <= i < |path| :: path[i] < |ups|)
    && (path != [] ==> ups[path[0]].ext == None)
    && (forall i | 0 < i < |path| :: ups[path[i]].ext == Some(ups[path[i - 1]].name))
  }

  /** The name the next entry of a path has to extend. */
  function End<S>(ups: seq<Update<S>>, path: seq<nat>): Option<string>
    requires Chain(ups, path)
  {
    if path == [] then None else Some(ups[path[|path| - 1]].name)
  }

  /** The updates along the path, applied to the defaults in order. */
  function Compose<S>(ups: seq<Update<S>>, def: S, path: seq<nat>): S
    requires Chain(ups, path)
  {
    if path == [] then def
    else ups[path[|path| - 1]].f(Compose(ups, def, path[..|path| - 1]))
  }

  lemma {:induction false} ChainUnique<S>(ups: seq<Update<S>>, p: seq<nat>, q: seq<nat>)
    requires DistinctNames(ups) && Chain(ups, p) && Chain(ups, q)
    requires p != [] && q != [] && p[|p| - 1] == q[|q| - 1]
    ensures p == q
    decreases |p|
  {
    var m, n := |p| - 1, |q| - 1;
    assert m > 0 ==> ups[p[m]].ext == Some(ups[p[m - 1]].name);
    assert n > 0 ==> ups[q[n]].ext == Some(ups[q[n - 1]].name);
    if m > 0 && n > 0 {
      ChainUnique(ups, p[..m], q[..n]);
      assert p == p[..m] + [p[m]] && q == q[..n] + [q[n]];
    }
  }

  lemma {:induction false} Bounded(xs: seq<nat>, n: nat)
    requires forall i | 0 <= i < |xs| :: xs[i] < n
    requires forall i, j | 0 <= i < j < |xs| :: xs[i] != xs[j]
    ensures |xs| <= n
    decreases n
  {
    if xs != [] {
      assert 0 <= xs[0] < n;
      if k :| 0 <= k < |xs| && xs[k] == n - 1 {
        var ys := xs[..k] + xs[k + 1..];
        assert forall i | 0 <= i < |ys| :: ys[i] == xs[if i < k then i else i + 1];
        Bounded(ys, n - 1);
      } else {
        Bounded(xs, n - 1);
      }
    }
  }

  /** A path visits no entry twice, so it is no longer than the list of entries. */
  lemma ChainShort<S>(ups: seq<Update<S>>, path: seq<nat>)
    requires DistinctNames(ups) && Chain(ups, path)
    ensures |path| <= |ups|
  {
    forall i, j | 0 <= i < j < |path|
      ensures path[i] != path[j]
    {
      if path[i] == path[j] { ChainUnique(ups, path[..i + 1], path[..j + 1]); }
    }
    Bounded(path, |ups|);
  }

  // ----- The algorithm -----

  /** The entries that extend a name, latest first: the grouping map puts new entries in front. */
  function Nexts<S>(ups: seq<Update<S>>, parent: Option<string>, k: nat): (r: seq<nat>)
    requires k <= |ups|
    ensures |r| <= k
    ensures forall i | i in r :: i < k && ups[i].ext == parent
    ensures forall i: nat | i < k && ups[i].ext == parent :: i in r
  {
    if k == 0 then []
    else if ups[k - 1].ext == parent then [k - 1] + Nexts(ups, parent, k - 1)
    else Nexts(ups, parent, k - 1)
  }

  predicate AllExtend<S>(ups: seq<Update<S>>, nexts: seq<nat>, parent: Option<string>) {
    forall k | 0 <= k < |nexts| :: nexts[k] < |ups| && ups[nexts[k]].ext == parent
  }

  function Go<S(!new)>(ups: seq<Update<S>>, nameOf: S -> string, acc: map<string, S>, prev: S, ghost path: seq<nat>,
                       parent: Option<string>): map<string, S>
    requires DistinctNames(ups) && OwnNames(ups, nameOf) && Chain(ups, path) && End(ups, path) == parent
    decreases |ups| - |path|, |ups| + 1
  {
    ChainShort(ups, path);
    AddAll(ups, nameOf, acc, prev, path, parent, Nexts(ups, parent, |ups|))
  }

  /** The entry is added unless its name is there already. */
  function WithEntry<S>(acc: map<string, S>, name: string, ss: S): map<string, S> {
    if name in acc then acc else acc[name := ss]
  }

  /** The fold over the entries that extend one name. */
  function AddAll<S(!new)>(ups: seq<Update<S>>, nameOf: S -> string, acc: map<string, S>, prev: S, ghost path: seq<nat>,
                           ghost parent: Option<string>, nexts: seq<nat>): map<string, S>
    requires DistinctNames(ups) && OwnNames(ups, nameOf) && Chain(ups, path) && End(ups, path) == parent
    requires AllExtend(ups, nexts, parent)
    decreases |ups| - |path|, |nexts|
  {
    if nexts == [] then acc
    else
      var i := nexts[0];
      var ss := ups[i].f(prev);
      var me := nameOf(ss);
      ChainShort(ups, path + [i]);
      var inner := Go(ups, nameOf, WithEntry(acc, me, ss), ss, path + [i], Some(me));
      AddAll(ups, nameOf, inner, prev, path, parent, nexts[1..])
  }

  function BuildServerMap<S(!new)>(def: S, ups: seq<Update<S>>, nameOf: S -> string): map<string, S>
    requires DistinctNames(ups) && OwnNames(ups, nameOf)
  {
    Go(ups, nameOf, map[], def, [], None)
  }

  // ----- What the map holds -----

  predicate Names<S>(ups: seq<Update<S>>, path: seq<nat>, name: string) {
    Chain(ups, path) && path != [] && ups[path[|path| - 1]].name == name
  }

  /** Every entry of the map is the composition along a path that ends in its name. */
  ghost predicate Sound<S>(ups: seq<Update<S>>, def: S, m: map<string, S>) {
    forall name | name in m :: Derived(ups, def, name, m[name])
  }

  ghost predicate Derived<S>(ups: seq<Update<S>>, def: S, name: string, v: S) {
    exists path :: Names(ups, path, name) && v == Compose(ups, def, path)
  }

  /** A path that goes on from `path` with one of `nexts`. */
  predicate GoesOn<S>(ups: seq<Update<S>>, q: seq<nat>, path: seq<nat>, nexts: seq<nat>) {
    Chain(ups, q) && path < q && q[|path|] in nexts
  }

  /** The map has the end of every path that goes on from `path` with one of `nexts`. */
  ghost predicate Covers<S>(ups: seq<Update<S>>, m: map<string, S>, path: seq<nat>, nexts: seq<nat>) {
    forall q | GoesOn(ups, q, path, nexts) :: ups[q[|q| - 1]].name in m
  }

  lemma CoversStep<S>(ups: seq<Update<S>>, inner: map<string, S>, m: map<string, S>, path: seq<nat>, nexts: seq<nat>)
    requires nexts != [] && nexts[0] < |ups| && Chain(ups, path + [nexts[0]])
    requires ups[nexts[0]].name in inner && inner.Keys <= m.Keys
    requires Covers(ups, inner, path + [nexts[0]], Nexts(ups, Some(ups[nexts[0]].name), |ups|))
    requires Covers(ups, m, path, nexts[1..])
    ensures Covers(ups, m, path, nexts)
  {
    var i, path' := nexts[0], path + [nexts[0]];
    forall q | GoesOn(ups, q, path, nexts)
      ensures ups[q[|q| - 1]].name in m
    {
      if q[|path|] != i {
        assert q[|path|] in nexts[1..];
        assert GoesOn(ups, q, path, nexts[1..]);
      } else if |q| > |path'| {
        var k := |path'|;
        assert ups[q[k]].ext == Some(ups[q[k - 1]].name);
        assert q[k] in Nexts(ups, Some(ups[i].name), |ups|);
        assert GoesOn(ups, q, path', Nexts(ups, Some(ups[i].name), |ups|));
      }
    }
  }

  lemma SoundInsert<S(!new)>(ups: seq<Update<S>>, def: S, acc: map<string, S>, path: seq<nat>, name: string)
    requires Sound(ups, def, acc) && Names(ups, path, name)
    ensures Sound(ups, def, WithEntry(acc, name, Compose(ups, def, path)))
  {
    assert Derived(ups, def, name, Compose(ups, def, path));
  }

  lemma {:induction false} GoMeans<S(!new)>(ups: seq<Update<S>>, nameOf: S -> string, def: S, acc: map<string, S>,
                                            path: seq<nat>)
    requires DistinctNames(ups) && OwnNames(ups, nameOf) && Chain(ups, path) && Sound(ups, def, acc)
    ensures var parent := End(ups, path);
            var m := Go(ups, nameOf, acc, Compose(ups, def, path), path, parent);
            Sound(ups, def, m) && acc.Keys <= m.Keys && Covers(ups, m, path, Nexts(ups, parent, |ups|))
    decreases |ups| - |path|, |ups| + 1
  {
    ChainShort(ups, path);
    AddAllMeans(ups, nameOf, def, acc, path, Nexts(ups, End(ups, path), |ups|));
  }

  lemma {:induction false} AddAllMeans<S(!new)>(ups: seq<Update<S>>, nameOf: S -> string, def: S, acc: map<string, S>,
                                                path: seq<nat>, nexts: seq<nat>)
    requires DistinctNames(ups) && OwnNames(ups, nameOf) && Chain(ups, path) && Sound(ups, def, acc)
    requires AllExtend(ups, nexts, End(ups, path))
    ensures var m := AddAll(ups, nameOf, acc, Compose(ups, def, path), path, End(ups, path), nexts);
            Sound(ups, def, m) && acc.Keys <= m.Keys && Covers(ups, m, path, nexts)
    decreases |ups| - |path|, |nexts|
  {
    if nexts != [] {
      var i := nexts[0];
      ChildPath(ups, def, path, i);
      ChainShort(ups, path + [i]);
      ChildMeans(ups, nameOf, def, acc, path, i);
      var inner := Go(ups, nameOf, WithEntry(acc, ups[i].name, Compose(ups, def, path + [i])),
                      Compose(ups, def, path + [i]), path + [i], Some(ups[i].name));
      AddAllMeans(ups, nameOf, def, inner, path, nexts[1..]);
      AddAllUnfold(ups, nameOf, acc, Compose(ups, def, path), path, nexts);
      Unfolded(ups, def, acc, inner,
               AddAll(ups, nameOf, acc, Compose(ups, def, path), path, End(ups, path), nexts), path, nexts);
    }
  }

  lemma {:induction false} ChildMeans<S(!new)>(ups: seq<Update<S>>, nameOf: S -> string, def: S, acc: map<string, S>,
                                               path: seq<nat>, i: nat)
    requires DistinctNames(ups) && OwnNames(ups, nameOf) && Chain(ups, path) && Sound(ups, def, acc)
    requires i < |ups| && ups[i].ext == End(ups, path) && |path| < |ups|
    ensures Chain(ups, path + [i]) && End(ups, path + [i]) == Some(ups[i].name)
    ensures var name, ss := ups[i].name, Compose(ups, def, path + [i]);
            var m := Go(ups, nameOf, WithEntry(acc, name, ss), ss, path + [i], Some(name));
            && Sound(ups, def, m) && acc.Keys <= m.Keys && name in m
            && Covers(ups, m, path + [i], Nexts(ups, Some(name), |ups|))
    decreases |ups| - |path|, 0
  {
    ChildPath(ups, def, path, i);
    SoundInsert(ups, def, acc, path + [i], ups[i].name);
    GoMeans(ups, nameOf, def, WithEntry(acc, ups[i].name, Compose(ups, def, path + [i])), path + [i]);
  }

  lemma Unfolded<S(!new)>(ups: seq<Update<S>>, def: S, acc: map<string, S>, inner: map<string, S>, m: map<string, S>,
                          path: seq<nat>, nexts: seq<nat>)
    requires nexts != [] && nexts[0] < |ups| && Chain(ups, path + [nexts[0]])
    requires ups[nexts[0]].name in inner && acc.Keys <= inner.Keys <= m.Keys
    requires Covers(ups, inner, path + [nexts[0]], Nexts(ups, Some(ups[nexts[0]].name), |ups|))
    requires Covers(ups, m, path, nexts[1..])
    ensures acc.Keys <= m.Keys && Covers(ups, m, path, nexts)
  {
    CoversStep(ups, inner, m, path, nexts);
  }

  lemma AddAllUnfold<S(!new)>(ups: seq<Update<S>>, nameOf: S -> string, acc: map<string, S>, prev: S, path: seq<nat>,
                              nexts: seq<nat>)
    requires DistinctNames(ups) && OwnNames(ups, nameOf) && Chain(ups, path)
    requires AllExtend(ups, nexts, End(ups, path)) && nexts != []
    ensures var i := nexts[0];
            var ss := ups[i].f(prev);
            var acc' := WithEntry(acc, ups[i].name, ss);
            && Chain(ups, path + [i]) && End(ups, path + [i]) == Some(ups[i].name)
            && AddAll(ups, nameOf, acc, prev, path, End(ups, path), nexts)
            == AddAll(ups, nameOf, Go(ups, nameOf, acc', ss, path + [i], Some(ups[i].name)), prev, path, End(ups, path),
                      nexts[1..])
  {
    assert nameOf(ups[nexts[0]].f(prev)) == ups[nexts[0]].name;
  }

  lemma ChildPath<S>(ups: seq<Update<S>>, def: S, path: seq<nat>, i: nat)
    requires Chain(ups, path) && i < |ups| && ups[i].ext == End(ups, path)
    ensures Names(ups, path + [i], ups[i].name) && End(ups, path + [i]) == Some(ups[i].name)
    ensures Compose(ups, def, path + [i]) == ups[i].f(Compose(ups, def, path))
  {
    assert (path + [i])[..|path|] == path;
  }

  /** When every entry sets its own distinct name, the map has exactly the names of the entries that lead back to the
      root through what they extend, each with the changes along that path applied to the defaults. */
  lemma BuildServerMapMeans<S(!new)>(def: S, ups: seq<Update<S>>, nameOf: S -> string, name: string)
    requires DistinctNames(ups) && OwnNames(ups, nameOf)
    ensures name in BuildServerMap(def, ups, nameOf) <==> exists path :: Names(ups, path, name)
    ensures forall path | Names(ups, path, name) :: BuildServerMap(def, ups, nameOf)[name] == Compose(ups, def, path)
  {
    var m := BuildServerMap(def, ups, nameOf);
    GoMeans(ups, nameOf, def, map[], []);
    forall path | Names(ups, path, name)
      ensures name in m && m[name] == Compose(ups, def, path)
    {
      assert GoesOn(ups, path, [], Nexts(ups, None, |ups|));
      assert name in m;
      assert Derived(ups, def, name, m[name]);
      var other :| Names(ups, other, name) && m[name] == Compose(ups, def, other);
      ChainUnique(ups, path, other);
    }
  }

  /** Entries that extend each other in a circle, or a name nobody has, are left out together with all that extend them:
      no member of a group whose members only extend members of the group is in the map. */
  lemma {:induction false} OrphansAreAbsent<S(!new)>(def: S, ups: seq<Update<S>>, nameOf: S -> string, group: set<nat>,
                                                     i: nat)
    requires DistinctNames(ups) && OwnNames(ups, nameOf)
    requires forall k | k in group :: k < |ups| && ups[k].ext.Some?
    requires forall k, p: nat | k in group && p < |ups| && ups[k].ext == Some(ups[p].name) :: p in group
    requires i in group
    ensures ups[i].name !in BuildServerMap(def, ups, nameOf)
  {
    BuildServerMapMeans(def, ups, nameOf, ups[i].name);
    if path :| Names(ups, path, ups[i].name) {
      NotRooted(ups, group, path);
    }
  }

  lemma {:induction false} NotRooted<S>(ups: seq<Update<S>>, group: set<nat>, path: seq<nat>)
    requires Chain(ups, path) && path != []
    requires forall k | k in group :: k < |ups| && ups[k].ext.Some?
    requires forall k, p: nat | k in group && p < |ups| && ups[k].ext == Some(ups[p].name) :: p in group
    ensures path[|path| - 1] !in group
  {
    var m := |path| - 1;
    if m > 0 {
      NotRooted(ups, group, path[..m]);
      assert ups[path[m]].ext == Some(ups[path[m - 1]].name);
    }
  }
}
