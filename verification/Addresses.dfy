/** Which addresses a connection tries, and in what order (hookup/src/Hookup.hs, section 4 of RFC 8305). */
module Addresses {
  import opened Text

  datatype Family = Inet6 | Other(id: nat)
  datatype AddrInfo = AddrInfo(family: Family, address: nat)

  /** An optional local address to bind, and the destination. */
  type Attempt = (Option<nat>, AddrInfo)

  function FirstOf(f: Family, src: seq<AddrInfo>): Option<nat> {
    if src == [] then None else if src[0].family == f then Some(src[0].address) else FirstOf(f, src[1..])
  }

  function MatchBindAddrs(src: Option<seq<AddrInfo>>, dst: seq<AddrInfo>): seq<Attempt>
    decreases |dst|
  {
    if dst == [] then []
    else
      var rest := MatchBindAddrs(src, dst[1..]);
      match src
      case None => [(None, dst[0])] + rest
      case Some(addrs) =>
        match FirstOf(dst[0].family, addrs)
        case None => rest
        case Some(a) => [(Some(a), dst[0])] + rest
  }

  predicate Is6(x: Attempt) {
    x.1.family == Inet6
  }

  function Filter(six: bool, xs: seq<Attempt>): seq<Attempt> {
    if xs == [] then [] else (if Is6(xs[0]) == six then [xs[0]] else []) + Filter(six, xs[1..])
  }

  function Interleave(xs: seq<Attempt>, ys: seq<Attempt>): seq<Attempt>
    decreases |xs|
  {
    if xs == [] then ys
    else if ys == [] then xs
    else [xs[0], ys[0]] + Interleave(xs[1..], ys[1..])
  }

  function InterleaveAddressFamilies(xs: seq<Attempt>): seq<Attempt> {
    Interleave(Filter(true, xs), Filter(false, xs))
  }

  predicate All6(six: bool, xs: seq<Attempt>) {
    forall i | 0 <= i < |xs| :: Is6(xs[i]) == six
  }

  lemma {:induction false} FilterAll(six: bool, xs: seq<Attempt>)
    ensures All6(six, Filter(six, xs))
    ensures All6(six, xs) ==> Filter(six, xs) == xs
    ensures All6(!six, xs) ==> Filter(six, xs) == []
  {
    if xs != [] {
      FilterAll(six, xs[1..]);
      assert xs == [xs[0]] + xs[1..];
    }
  }

  lemma FilterCons(six: bool, x: Attempt, rest: seq<Attempt>)
    ensures Filter(six, [x] + rest) == (if Is6(x) == six then [x] else []) + Filter(six, rest)
  {
    assert ([x] + rest)[1..] == rest;
  }

  /** Interleaving keeps both lists, in their order. */
  lemma {:induction false} InterleaveKeeps(six: bool, xs: seq<Attempt>, ys: seq<Attempt>)
    requires All6(true, xs) && All6(false, ys)
    ensures Filter(six, Interleave(xs, ys)) == if six then xs else ys
    decreases |xs|
  {
    if xs == [] || ys == [] {
      FilterAll(six, xs);
      FilterAll(six, ys);
    } else {
      InterleaveKeeps(six, xs[1..], ys[1..]);
      FilterTwo(six, xs[0], ys[0], Interleave(xs[1..], ys[1..]));
      assert xs == [xs[0]] + xs[1..] && ys == [ys[0]] + ys[1..];
    }
  }

  lemma FilterTwo(six: bool, x: Attempt, y: Attempt, rest: seq<Attempt>)
    requires Is6(x) && !Is6(y)
    ensures Filter(six, [x, y] + rest) == [if six then x else y] + Filter(six, rest)
  {
    var tail := [y] + rest;
    assert [x, y] + rest == [x] + tail;
    FilterCons(six, x, tail);
    FilterCons(six, y, rest);
  }

  /** It alternates between them as long as both last. */
  lemma {:induction false} InterleaveAlternates(xs: seq<Attempt>, ys: seq<Attempt>, i: nat)
    ensures |Interleave(xs, ys)| == |xs| + |ys|
    ensures i < |xs| && i < |ys| ==> Interleave(xs, ys)[2 * i] == xs[i] && Interleave(xs, ys)[2 * i + 1] == ys[i]
    decreases |xs|
  {
    if xs != [] && ys != [] {
      var rest := Interleave(xs[1..], ys[1..]);
      InterleaveAlternates(xs[1..], ys[1..], if i > 0 then i - 1 else 0);
      if i > 0 && i < |xs| && i < |ys| {
        assert rest[2 * (i - 1)] == xs[i] && rest[2 * (i - 1) + 1] == ys[i];
      }
    }
  }

  /** The order in which addresses are tried: nothing is lost, each family keeps its order, IPv6 comes first, and the
      families alternate as long as both last. */
  lemma FamiliesAlternate(xs: seq<Attempt>, i: nat)
    ensures var r, sixes, others := InterleaveAddressFamilies(xs), Filter(true, xs), Filter(false, xs);
            && Filter(true, r) == sixes && Filter(false, r) == others
            && |r| == |sixes| + |others|
            && (i < |sixes| && i < |others| ==> r[2 * i] == sixes[i] && r[2 * i + 1] == others[i])
  {
    FilterAll(true, xs);
    FilterAll(false, xs);
    InterleaveKeeps(true, Filter(true, xs), Filter(false, xs));
    InterleaveKeeps(false, Filter(true, xs), Filter(false, xs));
    InterleaveAlternates(Filter(true, xs), Filter(false, xs), i);
  }

  /** With bind addresses, a destination is kept exactly when some bind address has its family, and is tried from the
      first such address; without, every destination is tried unbound. */
  lemma {:induction false} MatchBindExactly(src: Option<seq<AddrInfo>>, dst: seq<AddrInfo>, d: AddrInfo,
                                            from: Option<nat>)
    ensures (from, d) in MatchBindAddrs(src, dst) <==>
            d in dst && (if src.None? then from == None else from.Some? && from == FirstOf(d.family, src.value))
  {
    if dst != [] {
      MatchBindExactly(src, dst[1..], d, from);
      assert d in dst <==> d == dst[0] || d in dst[1..];
    }
  }

  /** As addresses: the result has the same attempts, and as long as there are both kinds left, the even positions hold
      the IPv6 addresses and the odd ones the others. */
  lemma SixesFirst(xs: seq<Attempt>, i: nat)
    ensures multiset(InterleaveAddressFamilies(xs)) == multiset(xs)
    ensures var r := InterleaveAddressFamilies(xs);
            i < |Filter(true, xs)| && i < |Filter(false, xs)| ==>
              2 * i + 1 < |r| && r[2 * i].1.family == Inet6 && r[2 * i + 1].1.family != Inet6
    ensures Filter(true, xs) == [] <==> forall j | 0 <= j < |xs| :: xs[j].1.family != Inet6
  {
    var sixes, others := Filter(true, xs), Filter(false, xs);
    FamiliesAlternate(xs, i);
    InterleavePermutes(sixes, others);
    FilterPermutes(xs);
    FilterAll(true, xs);
    FilterAll(false, xs);
    if sixes == [] { assert All6(false, xs) by { NoSixes(xs); } }
  }

  lemma {:induction false} NoSixes(xs: seq<Attempt>)
    requires Filter(true, xs) == []
    ensures All6(false, xs)
  {
    if xs != [] {
      NoSixes(xs[1..]);
      assert xs == [xs[0]] + xs[1..];
    }
  }

  lemma {:induction false} FilterPermutes(xs: seq<Attempt>)
    ensures multiset(Filter(true, xs)) + multiset(Filter(false, xs)) == multiset(xs)
  {
    if xs != [] {
      FilterPermutes(xs[1..]);
      assert xs == [xs[0]] + xs[1..];
    }
  }

  lemma {:induction false} InterleavePermutes(xs: seq<Attempt>, ys: seq<Attempt>)
    ensures multiset(Interleave(xs, ys)) == multiset(xs) + multiset(ys)
    decreases |xs|
  {
    if xs != [] && ys != [] {
      InterleavePermutes(xs[1..], ys[1..]);
      assert xs == [xs[0]] + xs[1..] && ys == [ys[0]] + ys[1..];
    }
  }

  /** The bind address for a family is that of its first address in the list. */
  lemma {:induction false} FirstOfMeans(f: Family, src: seq<AddrInfo>)
    ensures FirstOf(f, src).None? <==> forall i | 0 <= i < |src| :: src[i].family != f
    ensures FirstOf(f, src).Some? ==>
              exists i :: 0 <= i < |src| && src[i].family == f && src[i].address == FirstOf(f, src).value
                          && forall j | 0 <= j < i :: src[j].family != f
  {
    if src != [] && src[0].family != f {
      FirstOfMeans(f, src[1..]);
      if FirstOf(f, src).Some? {
        var i :| 0 <= i < |src[1..]| && src[1..][i].family == f && src[1..][i].address == FirstOf(f, src).value
                 && forall j | 0 <= j < i :: src[1..][j].family != f;
        assert src[i + 1].family == f;
        assert forall j | 0 < j < i + 1 :: src[j] == src[1..][j - 1];
      }
    }
  }

  /** The destinations that are tried, in order. */
  function Destinations(xs: seq<Attempt>): seq<AddrInfo> {
    seq(|xs|, i requires 0 <= i < |xs| => xs[i].1)
  }

  predicate HasFamily(f: Family, src: seq<AddrInfo>) {
    exists i :: 0 <= i < |src| && src[i].family == f
  }

  /** The destinations that a bind address is there for. */
  function Reachable(src: Option<seq<AddrInfo>>, dst: seq<AddrInfo>): seq<AddrInfo> {
    if dst == [] then []
    else
      (if src.None? || HasFamily(dst[0].family, src.value) then [dst[0]] else []) + Reachable(src, dst[1..])
  }

  /** Destinations are tried in the order they are given in. */
  lemma {:induction false} DestinationOrder(src: Option<seq<AddrInfo>>, dst: seq<AddrInfo>)
    ensures Destinations(MatchBindAddrs(src, dst)) == Reachable(src, dst)
  {
    if dst != [] {
      DestinationOrder(src, dst[1..]);
      var rest := MatchBindAddrs(src, dst[1..]);
      if src.Some? { FirstOfMeans(dst[0].family, src.value); }
      if src.None? || HasFamily(dst[0].family, src.value) {
        var all := MatchBindAddrs(src, dst);
        assert all == [all[0]] + rest && all[0].1 == dst[0];
        assert Destinations(all) == [dst[0]] + Destinations(rest);
      }
    }
  }
}
