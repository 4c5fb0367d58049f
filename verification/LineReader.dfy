/** The buffered line reader of a connection (hookup/src/Hookup.hs): the lines it returns are those of the stream,
    however the network cuts the bytes into chunks. Only whether a line of n to 2n-2 bytes is returned depends on the
    chunks. */
module LineReader {
  import opened Text
  import opened Identifiers

  type Bytes = seq<byte>

  const NL: byte := 0x0A
  const CR: byte := 0x0D

  /** `Failed` is any exception of the network itself. */
  datatype Outcome = Line(line: Bytes) | EndOfStream | LineTooLong | LineTruncated | Failed

  function ElemIndex(c: byte, s: Bytes): (r: Option<nat>)
    ensures r.None? ==> c !in s
    ensures r.Some? ==> r.value < |s| && s[r.value] == c && c !in s[..r.value]
  {
    if s == [] then None
    else if s[0] == c then Some(0)
    else
      match ElemIndex(c, s[1..])
      case None => None
      case Some(i) =>
        assert s[..i + 1] == [s[0]] + s[1..][..i];
        Some(i + 1)
  }

  /** Remove one trailing carriage return. */
  function CleanEnd(s: Bytes): Bytes {
    if s == [] || s[|s| - 1] != CR then s else s[..|s| - 1]
  }

  /** The line that a call returns for the bytes `raw` before a newline: one trailing carriage return is not part of it,
      and everything else is. */
  predicate Stripped(raw: Bytes, line: Bytes) {
    raw == line + [0x0D] || (raw == line && (raw == [] || raw[|raw| - 1] != 0x0D))
  }

  lemma CleanEndStrips(raw: Bytes, line: Bytes)
    ensures Stripped(raw, line) <==> line == CleanEnd(raw)
  {
    if raw != [] { assert raw == raw[..|raw| - 1] + [raw[|raw| - 1]]; }
    assert (line + [0x0D])[..|line|] == line;
  }

  /** Chunks are kept newest first. */
  function Assemble(chunks: seq<Bytes>): Bytes {
    if chunks == [] then [] else Assemble(chunks[1..]) + chunks[0]
  }

  /** What one call does, in terms of the bytes buffered (`b`) and still to come before the peer closes (`s`). */
  ghost predicate RecvLineSpec(n: int, b: Bytes, s: Bytes, r: Outcome, b': Bytes, s': Bytes) {
    match r
    case Line(line) => exists raw :: FirstLine(b + s, raw, b' + s') && Stripped(raw, line) && InBounds(n, b, raw, b')
    case EndOfStream => b + s == [] && b' == [] && s' == []
    case LineTooLong => b' == b && Late(n, b + s) && Suffix(s', s)
    case LineTruncated => b' == b && NL !in b + s && 0 < |b + s| < n && s' == []
    case Failed => b' == b && Suffix(s', s)
  }

  /** The bytes `t` are a line `raw`, its newline, and `rest`. */
  predicate FirstLine(t: Bytes, raw: Bytes, rest: Bytes) {
    NL !in raw && t == raw + [NL] + rest
  }

  /** From a buffer below the limit, the line is below twice the limit and what stays buffered is below the limit. */
  predicate InBounds(n: int, b: Bytes, raw: Bytes, b': Bytes) {
    |b| < n ==> |raw| <= 2 * n - 2 && |b'| < n
  }

  /** No line ends within the first `n` bytes. */
  predicate Late(n: int, t: Bytes) {
    |t| >= n && (n > 0 ==> NL !in t[..n])
  }

  predicate Suffix(t: Bytes, s: Bytes) {
    |t| <= |s| && s[|s| - |t|..] == t
  }

  lemma FoundSpec(n: int, b: Bytes, s: Bytes, pre: Bytes, bs: Bytes, i: nat, inc: Bytes)
    requires pre + bs + inc == b + s && NL !in pre
    requires ElemIndex(NL, bs) == Some(i)
    requires (pre == [] && bs == b) || (|pre| < n && |bs| <= n)
    ensures RecvLineSpec(n, b, s, Line(CleanEnd(pre + bs[..i])), bs[i..][1..], inc)
  {
    var raw, rest := pre + bs[..i], bs[i..][1..];
    CutLine(pre, bs, i, inc);
    CleanEndStrips(raw, CleanEnd(raw));
    assert InBounds(n, b, raw, rest);
  }

  lemma CutLine(pre: Bytes, bs: Bytes, i: nat, inc: Bytes)
    requires NL !in pre && i < |bs| && bs[i] == NL && NL !in bs[..i]
    ensures FirstLine(pre + bs + inc, pre + bs[..i], bs[i..][1..] + inc)
  {
    assert bs == bs[..i] + [NL] + bs[i..][1..];
  }

  lemma LateSpec(n: int, b: Bytes, s: Bytes, sofar: Bytes, inc: Bytes)
    requires sofar + inc == b + s && NL !in sofar && |sofar| >= n && Suffix(inc, s)
    ensures RecvLineSpec(n, b, s, LineTooLong, b, inc)
  {
    if n > 0 {
      assert (b + s)[..n] == sofar[..n];
    }
  }

  lemma PulledSuffix(more: Bytes, inc: Bytes, before: Bytes, s: Bytes)
    requires more + inc == before && Suffix(before, s)
    ensures Suffix(inc, s)
  {
    assert s[|s| - |inc|..] == before[|more|..];
  }

  // ----- One call, with the chunks it is given -----

  /** The bytes of the chunks, in order. */
  function Flat(chunks: seq<Bytes>): Bytes {
    if chunks == [] then [] else chunks[0] + Flat(chunks[1..])
  }

  /** A chunk that may arrive: not empty, and no longer than asked for (with a limit below one nothing is asked for). */
  predicate Fits(n: int, chunk: Bytes) {
    chunk != [] && (n > 0 ==> |chunk| <= n)
  }

  /** The network delivers `s` in these chunks. */
  predicate Chunking(n: int, chunks: seq<Bytes>, s: Bytes) {
    Flat(chunks) == s && forall i | 0 <= i < |chunks| :: Fits(n, chunks[i])
  }

  /** What a call returns that has `sofar` behind it, looks at `bs` and then pulls these chunks. */
  function Receive(n: int, sofar: Bytes, bs: Bytes, chunks: seq<Bytes>): Outcome
    decreases |chunks|
  {
    match ElemIndex(NL, bs)
    case Some(i) => Line(CleanEnd(sofar + bs[..i]))
    case None =>
      if |sofar + bs| >= n then LineTooLong
      else if chunks == [] then (if sofar + bs == [] then EndOfStream else LineTruncated)
      else Receive(n, sofar + bs, chunks[0], chunks[1..])
  }

  /** Some way to cut the bytes: one by one. */
  function Bytewise(s: Bytes): seq<Bytes> {
    if s == [] then [] else [[s[0]]] + Bytewise(s[1..])
  }

  lemma {:induction false} BytewiseChunks(n: int, s: Bytes)
    ensures Chunking(n, Bytewise(s), s)
  {
    if s != [] {
      BytewiseChunks(n, s[1..]);
      assert s == [s[0]] + s[1..];
    }
  }

  lemma {:induction false} FlatAppend(a: seq<Bytes>, b: seq<Bytes>)
    ensures Flat(a + b) == Flat(a) + Flat(b)
  {
    if a == [] {
      assert a + b == b;
    } else {
      assert (a + b)[1..] == a[1..] + b;
      FlatAppend(a[1..], b);
    }
  }

  /** After the chunks `pulled` a call that began with the buffer `b` has `sofar` behind it and looks at `bs`; the bytes
      `inc` are still to come. */
  ghost predicate Pulled(n: int, b: Bytes, s: Bytes, pulled: seq<Bytes>, inc: Bytes, sofar: Bytes, bs: Bytes)
    decreases |pulled|
  {
    if pulled == [] then sofar == [] && bs == b && inc == s
    else
      var k := |pulled| - 1;
      && bs == pulled[k] && Fits(n, bs)
      && exists before, last ::
        && sofar == before + last && ElemIndex(NL, last).None? && |sofar| < n
        && Pulled(n, b, s, pulled[..k], bs + inc, before, last)
  }

  lemma {:induction false} PulledEnds(n: int, b: Bytes, s: Bytes, pulled: seq<Bytes>, inc: Bytes, sofar: Bytes,
                                      bs: Bytes, rest: seq<Bytes>)
    requires Pulled(n, b, s, pulled, inc, sofar, bs)
    ensures Receive(n, [], b, pulled + rest) == Receive(n, sofar, bs, rest)
    ensures Chunking(n, rest, inc) ==> Chunking(n, pulled + rest, s)
    decreases |pulled|
  {
    if pulled == [] {
      assert [] + rest == rest;
    } else {
      var k := |pulled| - 1;
      var before, last :| sofar == before + last && ElemIndex(NL, last).None? && |sofar| < n
        && Pulled(n, b, s, pulled[..k], bs + inc, before, last);
      var rest' := [bs] + rest;
      assert rest'[1..] == rest;
      assert pulled + rest == pulled[..k] + rest';
      PulledEnds(n, b, s, pulled[..k], bs + inc, before, last, rest');
    }
  }

  lemma OneMoreChunk(n: int, b: Bytes, s: Bytes, pulled: seq<Bytes>, before: Bytes, sofar: Bytes, bs: Bytes,
                     more: Bytes, inc: Bytes)
    requires Pulled(n, b, s, pulled, before, sofar, bs) && more + inc == before && Fits(n, more)
    requires ElemIndex(NL, bs).None? && |sofar + bs| < n
    ensures Pulled(n, b, s, pulled + [more], inc, sofar + bs, more)
  {
    assert (pulled + [more])[..|pulled|] == pulled;
  }

  /** Some way to cut the bytes that come gives this outcome. */
  ghost predicate Possible(n: int, b: Bytes, s: Bytes, r: Outcome) {
    exists chunks :: Chunking(n, chunks, s) && r == Receive(n, [], b, chunks)
  }

  lemma StopsHere(n: int, b: Bytes, s: Bytes, pulled: seq<Bytes>, inc: Bytes, sofar: Bytes, bs: Bytes)
    requires Pulled(n, b, s, pulled, inc, sofar, bs)
    requires ElemIndex(NL, bs).Some? || |sofar + bs| >= n || inc == []
    ensures Possible(n, b, s, Receive(n, sofar, bs, []))
  {
    var rest := Bytewise(inc);
    BytewiseChunks(n, inc);
    PulledEnds(n, b, s, pulled, inc, sofar, bs, rest);
  }

  lemma {:induction false} PulledFacts(n: int, b: Bytes, s: Bytes, pulled: seq<Bytes>, inc: Bytes, sofar: Bytes,
                                       bs: Bytes)
    requires Pulled(n, b, s, pulled, inc, sofar, bs)
    ensures sofar + bs + inc == b + s && NL !in sofar && Suffix(inc, s)
    ensures if pulled == [] then sofar == [] && bs == b else |sofar| < n && |bs| <= n
    decreases |pulled|
  {
    if pulled == [] {
      assert [] + b == b;
    } else {
      var k := |pulled| - 1;
      var before, last :| sofar == before + last && ElemIndex(NL, last).None? && |sofar| < n
        && Pulled(n, b, s, pulled[..k], bs + inc, before, last);
      PulledFacts(n, b, s, pulled[..k], bs + inc, before, last);
      PulledSuffix(bs, inc, bs + inc, s);
      Regroup(before, last, bs, inc);
    }
  }

  lemma EndsFound(n: int, b: Bytes, s: Bytes, pulled: seq<Bytes>, inc: Bytes, sofar: Bytes, bs: Bytes, i: nat)
    requires Pulled(n, b, s, pulled, inc, sofar, bs) && ElemIndex(NL, bs) == Some(i)
    ensures var r := Line(CleanEnd(sofar + bs[..i]));
            RecvLineSpec(n, b, s, r, bs[i..][1..], inc) && Possible(n, b, s, r)
  {
    PulledFacts(n, b, s, pulled, inc, sofar, bs);
    FoundSpec(n, b, s, sofar, bs, i, inc);
    StopsHere(n, b, s, pulled, inc, sofar, bs);
  }

  lemma EndsTooLong(n: int, b: Bytes, s: Bytes, pulled: seq<Bytes>, inc: Bytes, sofar: Bytes, bs: Bytes)
    requires Pulled(n, b, s, pulled, inc, sofar, bs) && ElemIndex(NL, bs).None? && |sofar + bs| >= n
    ensures RecvLineSpec(n, b, s, LineTooLong, b, inc) && Possible(n, b, s, LineTooLong)
  {
    PulledFacts(n, b, s, pulled, inc, sofar, bs);
    LateSpec(n, b, s, sofar + bs, inc);
    StopsHere(n, b, s, pulled, inc, sofar, bs);
  }

  lemma ClosedSpec(n: int, b: Bytes, s: Bytes, sofar: Bytes, bs: Bytes)
    requires sofar + bs + [] == b + s && NL !in sofar && NL !in bs && |sofar + bs| < n && Suffix([], s)
    ensures var r := if sofar + bs == [] then EndOfStream else LineTruncated;
            RecvLineSpec(n, b, s, r, if r.EndOfStream? then [] else b, [])
  {
    var t := sofar + bs;
    assert t == b + s && NL !in t;
  }

  lemma EndsClosed(n: int, b: Bytes, s: Bytes, pulled: seq<Bytes>, sofar: Bytes, bs: Bytes)
    requires Pulled(n, b, s, pulled, [], sofar, bs) && ElemIndex(NL, bs).None? && |sofar + bs| < n
    ensures var r := if sofar + bs == [] then EndOfStream else LineTruncated;
            RecvLineSpec(n, b, s, r, if r.EndOfStream? then [] else b, []) && Possible(n, b, s, r)
  {
    PulledFacts(n, b, s, pulled, [], sofar, bs);
    ClosedSpec(n, b, s, sofar, bs);
    StopsHere(n, b, s, pulled, [], sofar, bs);
  }

  // ----- When the chunks matter -----

  /** All ways to cut the bytes give the same outcome. */
  ghost predicate Steady(n: int, b: Bytes, s: Bytes) {
    forall c, d | Chunking(n, c, s) && Chunking(n, d, s) :: Receive(n, [], b, c) == Receive(n, [], b, d)
  }

  /** What a call returns when the chunks do not matter. */
  function Settled(n: int, t: Bytes): Outcome {
    match ElemIndex(NL, t)
    case Some(i) => if i < n then Line(CleanEnd(t[..i])) else LineTooLong
    case None => if |t| >= n then LineTooLong else if t == [] then EndOfStream else LineTruncated
  }

  /** The first line is too short or too long for the chunks to matter. */
  predicate Clear(n: int, t: Bytes) {
    var i := ElemIndex(NL, t);
    i.None? || i.value < n || i.value > 2 * n - 2
  }

  lemma IndexIn(a: Bytes, b: Bytes, c: Bytes)
    requires NL !in a && NL in b
    ensures var (i, j) := (ElemIndex(NL, a + b + c), ElemIndex(NL, b));
            j.Some? && i == Some(|a| + j.value) && (a + b + c)[..i.value] == a + b[..j.value]
  {
    var j := ElemIndex(NL, b).value;
    CutLine(a, b, j, c);
    ElemIndexFirst(NL, a + b[..j], b[j..][1..] + c);
  }

  lemma IndexOf(a: Bytes, b: Bytes, c: Bytes)
    requires NL !in a
    ensures var (i, j) := (ElemIndex(NL, a + b + c), ElemIndex(NL, b));
            && (j.Some? ==> i == Some(|a| + j.value) && (a + b + c)[..i.value] == a + b[..j.value])
            && (j.None? ==> i == match ElemIndex(NL, c) case None => None case Some(k) => Some(|a| + |b| + k))
  {
    if NL in b {
      IndexIn(a, b, c);
    } else if NL in c {
      assert a + b + c + [] == a + b + c;
      IndexIn(a + b, c, []);
    }
  }

  lemma {:induction false} LaterChunks(n: int, sofar: Bytes, bs: Bytes, chunks: seq<Bytes>, s: Bytes)
    requires NL !in sofar && |sofar| < n && Fits(n, bs) && Chunking(n, chunks, s)
    requires Clear(n, sofar + bs + s)
    ensures Receive(n, sofar, bs, chunks) == Settled(n, sofar + bs + s)
    decreases |chunks|
  {
    IndexOf(sofar, bs, s);
    if ElemIndex(NL, bs).None? && |sofar + bs| < n {
      if chunks == [] {
        assert sofar + bs + s == sofar + bs;
      } else {
        assert sofar + bs + s == (sofar + bs) + chunks[0] + Flat(chunks[1..]);
        LaterChunks(n, sofar + bs, chunks[0], chunks[1..], Flat(chunks[1..]));
      }
    }
  }

  lemma SteadyOutcome(n: int, b: Bytes, s: Bytes, chunks: seq<Bytes>)
    requires NL !in b && |b| < n && Clear(n, b + s) && Chunking(n, chunks, s)
    ensures Receive(n, [], b, chunks) == Settled(n, b + s)
  {
    assert [] + b == b;
    if chunks == [] {
      assert b + s == b;
    } else {
      assert b + s == b + chunks[0] + Flat(chunks[1..]);
      LaterChunks(n, b, chunks[0], chunks[1..], Flat(chunks[1..]));
    }
  }

  /** Chunks in front, and the bytes after them one by one. */
  lemma InFront(n: int, front: seq<Bytes>, tail: Bytes)
    requires forall i | 0 <= i < |front| :: Fits(n, front[i])
    ensures Chunking(n, front + Bytewise(tail), Flat(front) + tail)
  {
    BytewiseChunks(n, tail);
    FlatAppend(front, Bytewise(tail));
  }

  lemma StopsIn(n: int, pre: Bytes, x: Bytes, tail: Bytes, z: seq<Bytes>, i: nat)
    requires NL !in pre && ElemIndex(NL, pre + x + tail) == Some(i) && i < |pre + x|
    ensures Receive(n, pre, x, z) == Line(CleanEnd((pre + x + tail)[..i]))
  {
    IndexOf(pre, x, tail);
  }

  lemma TwoChunks(n: int, b: Bytes, y: Bytes, x: Bytes, z: seq<Bytes>)
    requires NL !in b && NL !in y && |b + y| < n
    ensures Receive(n, [], b, if y == [] then [x] + z else [y, x] + z) == Receive(n, b + y, x, z)
  {
    var rest := [x] + z;
    assert rest[1..] == z && [] + b == b;
    if y == [] {
      assert b + y == b;
    } else {
      assert [y, x] + z == [y] + rest && ([y] + rest)[1..] == rest;
    }
  }

  lemma FlatTwo(y: Bytes, x: Bytes)
    ensures Flat([x]) == x && Flat([y, x]) == y + x
  {
    assert [x][1..] == [] && [y, x][1..] == [x];
    assert x + [] == x;
  }

  lemma Bridged(n: int, b: Bytes, y: Bytes, x: Bytes, tail: Bytes, i: nat)
    requires NL !in b && NL !in y && |b + y| < n && (y != [] ==> Fits(n, y)) && Fits(n, x)
    requires ElemIndex(NL, b + y + x + tail) == Some(i) && i < |b + y + x|
    ensures Possible(n, b, y + x + tail, Line(CleanEnd((b + y + x + tail)[..i])))
  {
    var front := if y == [] then [x] else [y, x];
    FlatTwo(y, x);
    assert Flat(front) == y + x;
    InFront(n, front, tail);
    TwoChunks(n, b, y, x, Bytewise(tail));
    StopsIn(n, b + y, x, tail, Bytewise(tail), i);
  }

  lemma Prefixed(a: Bytes, b: Bytes, k: nat)
    requires k <= |b| && (ElemIndex(NL, a + b).None? || |a| + k <= ElemIndex(NL, a + b).value)
    ensures NL !in b[..k]
  {
    forall j | 0 <= j < k ensures b[j] != NL {
      assert (a + b)[|a| + j] == b[j];
      if ElemIndex(NL, a + b).Some? { assert (a + b)[..ElemIndex(NL, a + b).value][|a| + j] == b[j]; }
    }
  }

  /** A first line of n to 2n-2 bytes is returned when a chunk brings it from below the limit to its end ... */
  lemma CanReturn(n: int, b: Bytes, s: Bytes)
    requires NL !in b && |b| < n && !Clear(n, b + s)
    ensures Possible(n, b, s, Line(CleanEnd((b + s)[..ElemIndex(NL, b + s).value])))
  {
    var i, a := ElemIndex(NL, b + s).value, n - 1 - |b|;
    var e := if a + n <= |s| then a + n else |s|;
    var y, x, tail := s[..a], s[a..e], s[e..];
    Prefixed(b, s, a);
    ThreeSlices(b, s, a, e);
    Bridged(n, b, y, x, tail, i);
  }

  lemma ThreeSlices(b: Bytes, s: Bytes, a: nat, e: nat)
    requires a <= e <= |s|
    ensures s[..a] + s[a..e] + s[e..] == s && b + s[..a] + s[a..e] + s[e..] == b + s
  {
    Regroup(b, s[..a], s[a..e], s[e..]);
    assert s[..a] + s[a..e] + s[e..] == s[..a] + (s[a..e] + s[e..]) == s;
  }

  /** ... and rejected when a chunk ends between the limit and its end. */
  lemma CanReject(n: int, b: Bytes, s: Bytes)
    requires NL !in b && |b| < n && !Clear(n, b + s)
    ensures Possible(n, b, s, LineTooLong)
  {
    var a := n - |b|;
    var y, z := s[..a], Bytewise(s[a..]);
    Prefixed(b, s, a);
    FlatTwo([], y);
    InFront(n, [y], s[a..]);
    assert y + s[a..] == s;
    assert [] + b == b && ([y] + z)[1..] == z;
    assert Receive(n, [], b, [y] + z) == Receive(n, b, y, z);
  }

  /** Exactly when the outcome of a call does not depend on how the network cuts the bytes: the buffer decides already,
      or the first line has fewer than n or more than 2n-2 bytes, or no line ends at all. A line in between can be
      returned and can be rejected, though n is called the maximum line length. */
  lemma ChunksMatter(n: int, b: Bytes, s: Bytes)
    ensures Steady(n, b, s) <==> NL in b || |b| >= n || Clear(n, b + s)
  {
    assert [] + b == b;
    if NL !in b && |b| < n {
      if Clear(n, b + s) {
        forall c | Chunking(n, c, s) ensures Receive(n, [], b, c) == Settled(n, b + s) { SteadyOutcome(n, b, s, c); }
      } else {
        CanReturn(n, b, s);
        CanReject(n, b, s);
        var i := ElemIndex(NL, b + s).value;
        var c :| Chunking(n, c, s) && Receive(n, [], b, c) == Line(CleanEnd((b + s)[..i]));
        var d :| Chunking(n, d, s) && Receive(n, [], b, d) == LineTooLong;
      }
    }
  }

  class Connection {
    var buf: Bytes
    /** What the peer has still to send before closing: the environment, cut into chunks by `NetworkRecv`. */
    var incoming: Bytes

    constructor (peer: Bytes)
      ensures buf == [] && incoming == peer
    {
      buf, incoming := [], peer;
    }

    /** Any nonempty chunk of at most `n` bytes, nothing once the peer has closed, or an exception. */
    method NetworkRecv(n: nat) returns (r: Option<Bytes>)
      requires n > 0
      modifies this`incoming
      ensures r.None? ==> incoming == old(incoming)
      ensures r.Some? ==> r.value + incoming == old(incoming) && |r.value| <= n
      ensures r.Some? ==> (r.value == [] <==> old(incoming) == [])
    {
      var fails: bool := *;
      if fails { return None; }
      if incoming == [] { return Some([]); }
      var k :| 1 <= k <= n && k <= |incoming|;
      r := Some(incoming[..k]);
      incoming := incoming[k..];
    }

    /** The next chunk: the buffer if there is one, otherwise from the network. */
    method Recv(n: nat) returns (r: Option<Bytes>)
      requires n > 0
      modifies this
      ensures r.Some? ==> r.value + (buf + incoming) == old(buf + incoming) && buf == []
      ensures r.Some? && r.value == [] ==> old(buf + incoming) == []
      ensures r.None? ==> buf == old(buf) && incoming == old(incoming)
    {
      if buf == [] {
        r := NetworkRecv(n);
      } else {
        r := Some(buf);
        buf := [];
      }
    }

    /** Push bytes back in front of the buffer. */
    method PutBuf(bs: Bytes)
      modifies this`buf
      ensures buf == bs + old(buf)
    {
      buf := bs + buf;
    }

    /** Receive a line. An exception leaves the buffer as it was and loses what was pulled in this call. */
    method RecvLine(n: int) returns (r: Outcome)
      modifies this
      ensures RecvLineSpec(n, old(buf), old(incoming), r, buf, incoming)
      ensures r.Failed? || Possible(n, old(buf), old(incoming), r)
    {
      var bs, bss, bsn := buf, [], |buf|;
      ghost var b, s, pulled: seq<Bytes> := buf, incoming, [];
      while true
        invariant buf == b
        invariant bsn == |Assemble(bss)| + |bs|
        invariant Pulled(n, b, s, pulled, incoming, Assemble(bss), bs)
        decreases |incoming|
      {
        match ElemIndex(NL, bs)
        case Some(i) =>
          var a, rest := bs[..i], bs[i..];
          EndsFound(n, b, s, pulled, incoming, Assemble(bss), bs, i);
          assert ([a] + bss)[1..] == bss && Assemble([a] + bss) == Assemble(bss) + a;
          r := Line(CleanEnd(Assemble([a] + bss)));
          buf := rest[1..];
          return;
        case None =>
          if bsn >= n {
            EndsTooLong(n, b, s, pulled, incoming, Assemble(bss), bs);
            return LineTooLong;
          }
          ghost var before := incoming;
          var more := NetworkRecv(n);
          if more.None? {
            PulledFacts(n, b, s, pulled, incoming, Assemble(bss), bs);
            return Failed;
          }
          if more.value == [] {
            EndsClosed(n, b, s, pulled, Assemble(bss), bs);
            if bsn == 0 {
              buf := [];
              return EndOfStream;
            }
            return LineTruncated;
          }
          OneMoreChunk(n, b, s, pulled, before, Assemble(bss), bs, more.value, incoming);
          pulled := pulled + [more.value];
          assert ([bs] + bss)[1..] == bss;
          bs, bss, bsn := more.value, [bs] + bss, bsn + |more.value|;
      }
    }
  }

  // ----- Runs of successful calls -----

  /** The complete lines of a byte stream, without their newlines. */
  function LinesOf(t: Bytes): seq<Bytes>
    decreases |t|
  {
    match ElemIndex(NL, t)
    case None => []
    case Some(i) => [t[..i]] + LinesOf(t[i + 1..])
  }

  function Unlines(lines: seq<Bytes>): Bytes {
    if lines == [] then [] else lines[0] + [NL] + Unlines(lines[1..])
  }

  /** Calls that all return a line take the connection from `b`, `s` to `b'`, `s'`. */
  ghost predicate Run(n: int, b: Bytes, s: Bytes, lines: seq<Bytes>, b': Bytes, s': Bytes)
    decreases |lines|
  {
    if lines == [] then b' == b && s' == s
    else exists bm, sm :: RecvLineSpec(n, b, s, Line(lines[0]), bm, sm) && Run(n, bm, sm, lines[1..], b', s')
  }

  lemma {:induction false} ElemIndexFirst(c: byte, a: Bytes, b: Bytes)
    requires c !in a
    ensures ElemIndex(c, a + [c] + b) == Some(|a|)
  {
    if a == [] {
      assert (a + [c] + b)[0] == c;
    } else {
      assert a[0] in a;
      assert (a + [c] + b)[1..] == a[1..] + [c] + b;
      assert forall x | x in a[1..] :: x in a;
      ElemIndexFirst(c, a[1..], b);
    }
  }

  lemma LinesStep(t: Bytes, raw: Bytes, rest: Bytes)
    requires FirstLine(t, raw, rest)
    ensures LinesOf(t) == [raw] + LinesOf(rest)
  {
    ElemIndexFirst(NL, raw, rest);
    assert t[..|raw|] == raw && t[|raw| + 1..] == rest;
  }

  /** What follows the first `k` lines. */
  function After(t: Bytes, k: nat): Bytes
    requires k <= |LinesOf(t)|
    decreases k
  {
    if k == 0 then t
    else
      var i := ElemIndex(NL, t).value;
      assert LinesOf(t)[1..] == LinesOf(t[i + 1..]);
      After(t[i + 1..], k - 1)
  }

  lemma {:induction false} AfterLines(t: Bytes, k: nat)
    requires k <= |LinesOf(t)|
    ensures LinesOf(After(t, k)) == LinesOf(t)[k..]
    decreases k
  {
    if k > 0 {
      var rest := t[ElemIndex(NL, t).value + 1..];
      assert LinesOf(t)[1..] == LinesOf(rest);
      AfterLines(rest, k - 1);
      assert LinesOf(t)[k..] == LinesOf(t)[1..][k - 1..];
    }
  }

  lemma UnlinesFirst(raw: seq<Bytes>, k: nat)
    requires 0 < k <= |raw|
    ensures Unlines(raw[..k]) == raw[0] + [NL] + Unlines(raw[1..][..k - 1])
  {
    assert raw[..k][1..] == raw[1..][..k - 1];
  }

  /** Lines and the bytes after them are together the stream. */
  lemma {:induction false} UnlinesAfter(t: Bytes, k: nat)
    requires k <= |LinesOf(t)|
    ensures Unlines(LinesOf(t)[..k]) + After(t, k) == t
    decreases k
  {
    if k == 0 {
      assert LinesOf(t)[..0] == [];
    } else {
      var i := ElemIndex(NL, t).value;
      var rest := t[i + 1..];
      assert LinesOf(t)[1..] == LinesOf(rest);
      UnlinesFirst(LinesOf(t), k);
      UnlinesAfter(rest, k - 1);
      Regroup(t[..i], [NL], Unlines(LinesOf(rest)[..k - 1]), After(rest, k - 1));
      CutAt(t, i);
    }
  }

  lemma CutAt(t: Bytes, i: nat)
    requires i < |t| && t[i] == NL
    ensures t[..i] + [NL] + t[i + 1..] == t
  {}

  lemma Regroup(a: Bytes, b: Bytes, c: Bytes, d: Bytes)
    ensures a + b + c + d == a + b + (c + d)
  {}

  predicate AllStripped(raws: seq<Bytes>, lines: seq<Bytes>) {
    |lines| <= |raws| && forall j | 0 <= j < |lines| :: Stripped(raws[j], lines[j])
  }

  /** `lines` are the first lines of `t`, each with at most one carriage return removed, and `t'` is the rest. */
  predicate Delivered(t: Bytes, lines: seq<Bytes>, t': Bytes) {
    && AllStripped(LinesOf(t), lines)
    && t' == After(t, |lines|)
  }

  lemma DeliveredStep(t: Bytes, first: Bytes, tm: Bytes, lines: seq<Bytes>, t': Bytes)
    requires FirstLine(t, first, tm)
    requires lines != [] && Stripped(first, lines[0]) && Delivered(tm, lines[1..], t')
    ensures LinesOf(t) == [first] + LinesOf(tm) && Delivered(t, lines, t')
  {
    LinesStep(t, first, tm);
    StrippedCons(first, LinesOf(tm), lines);
  }

  lemma StrippedCons(first: Bytes, raws: seq<Bytes>, lines: seq<Bytes>)
    requires lines != [] && Stripped(first, lines[0]) && AllStripped(raws, lines[1..])
    ensures AllStripped([first] + raws, lines)
  {
    forall j | 0 <= j < |lines|
      ensures Stripped(([first] + raws)[j], lines[j])
    {
      if j > 0 {
        assert lines[j] == lines[1..][j - 1];
        assert Stripped(raws[j - 1], lines[1..][j - 1]);
      }
    }
  }

  /** However the bytes arrive, the calls return the lines of the stream in order, each with at most one carriage return
      removed, and leave exactly the bytes after those lines. From a buffer below the limit no delivered line reaches
      twice the limit, and the buffer stays below it. */
  lemma {:induction false} RunDelivers(n: int, b: Bytes, s: Bytes, lines: seq<Bytes>, b': Bytes, s': Bytes)
    requires Run(n, b, s, lines, b', s')
    ensures Delivered(b + s, lines, b' + s')
    ensures |b| < n ==> |b'| < n && forall j | 0 <= j < |lines| :: |LinesOf(b + s)[j]| <= 2 * n - 2
    decreases |lines|
  {
    if lines != [] {
      var bm, sm, first := FirstOfRun(n, b, s, lines, b', s');
      RunDelivers(n, bm, sm, lines[1..], b', s');
      DeliveredStep(b + s, first, bm + sm, lines, b' + s');
      BoundedStep(n, first, LinesOf(bm + sm), |lines|);
    }
  }

  lemma FirstOfRun(n: int, b: Bytes, s: Bytes, lines: seq<Bytes>, b': Bytes, s': Bytes)
    returns (bm: Bytes, sm: Bytes, first: Bytes)
    requires lines != [] && Run(n, b, s, lines, b', s')
    ensures Run(n, bm, sm, lines[1..], b', s') && FirstLine(b + s, first, bm + sm)
    ensures Stripped(first, lines[0]) && InBounds(n, b, first, bm)
  {
    bm, sm :| RecvLineSpec(n, b, s, Line(lines[0]), bm, sm) && Run(n, bm, sm, lines[1..], b', s');
    first :| FirstLine(b + s, first, bm + sm) && Stripped(first, lines[0]) && InBounds(n, b, first, bm);
  }

  lemma BoundedStep(n: int, first: Bytes, rest: seq<Bytes>, k: nat)
    requires 0 < k <= |rest| + 1
    ensures |first| <= 2 * n - 2 && (forall j | 0 <= j < k - 1 :: |rest[j]| <= 2 * n - 2) ==>
              forall j | 0 <= j < k :: |([first] + rest)[j]| <= 2 * n - 2
  {}

  /** Lines delivered and bytes left over are together exactly the bytes received. */
  lemma RunConserves(n: int, b: Bytes, s: Bytes, lines: seq<Bytes>, b': Bytes, s': Bytes)
    requires Run(n, b, s, lines, b', s')
    ensures |lines| <= |LinesOf(b + s)|
    ensures b + s == Unlines(LinesOf(b + s)[..|lines|]) + (b' + s')
    ensures LinesOf(b' + s') == LinesOf(b + s)[|lines|..]
  {
    RunDelivers(n, b, s, lines, b', s');
    AfterLines(b + s, |lines|);
    UnlinesAfter(b + s, |lines|);
  }

  lemma NoLines(t: Bytes)
    ensures LinesOf(t) == [] <==> NL !in t
  {}

  /** How a run ends: the end of the stream is reported only when every line has been delivered and nothing is left, a
      truncated line only when an unterminated rest is left, and a line is rejected only when it does not end within
      its first `n` bytes. */
  lemma RunEnds(n: int, b: Bytes, s: Bytes, lines: seq<Bytes>, bm: Bytes, sm: Bytes, r: Outcome, b': Bytes, s': Bytes)
    requires Run(n, b, s, lines, bm, sm) && RecvLineSpec(n, bm, sm, r, b', s')
    ensures var raw := LinesOf(b + s);
            && (r.EndOfStream? ==> |lines| == |raw| && b + s == Unlines(raw))
            && (r.LineTruncated? ==> |lines| == |raw| && bm + sm != [] && b + s == Unlines(raw) + (bm + sm))
            && (r.LineTooLong? ==> |bm + sm| >= n && (|lines| < |raw| ==> |raw[|lines|]| >= n))
  {
    RunConserves(n, b, s, lines, bm, sm);
    var raw, t := LinesOf(b + s), bm + sm;
    NoLines(t);
    if r.EndOfStream? || r.LineTruncated? {
      assert |raw[|lines|..]| == 0;
      assert raw[..|lines|] == raw;
    } else if r.LineTooLong? && |lines| < |raw| {
      assert raw[|lines|] == LinesOf(t)[0];
      if |raw[|lines|]| < n { EarlyLine(n, t); }
    }
  }

  lemma EarlyLine(n: int, t: Bytes)
    requires LinesOf(t) != [] && |LinesOf(t)[0]| < n
    ensures !Late(n, t)
  {
    var i := ElemIndex(NL, t).value;
    if n <= |t| { assert t[..n][i] == NL; }
  }

  /** A line shorter than the limit is never rejected: the call returns it unless the network itself fails. */
  lemma ShortLineAccepted(n: int, b: Bytes, s: Bytes, r: Outcome, b': Bytes, s': Bytes)
    requires RecvLineSpec(n, b, s, r, b', s')
    requires LinesOf(b + s) != [] && |LinesOf(b + s)[0]| < n
    ensures (r.Line? && Stripped(LinesOf(b + s)[0], r.line)) || r.Failed?
  {
    var t := b + s;
    NoLines(t);
    if r.Line? {
      var raw :| FirstLine(t, raw, b' + s') && Stripped(raw, r.line) && InBounds(n, b, raw, b');
      LinesStep(t, raw, b' + s');
    }
    EarlyLine(n, t);
  }

  // ----- The bytes that end a line -----

  /** One line as a peer sends it, with the carriage return or without. */
  function Terminated(body: Bytes, cr: bool): Bytes {
    body + (if cr then [0x0D, 0x0A] else [0x0A])
  }

  /** The body of a line has no line feed, and when it is sent without a carriage return it does not end in one. */
  predicate IsBody(body: Bytes, cr: bool) {
    0x0A !in body && (!cr ==> body == [] || body[|body| - 1] != 0x0D)
  }

  /** Both ways to end a line are recognized: a call that returns a line returns exactly the bytes before the carriage
      return and line feed, or before the line feed alone, and leaves the bytes after it. */
  lemma LineEndings(n: int, b: Bytes, s: Bytes, line: Bytes, b': Bytes, s': Bytes, body: Bytes, cr: bool, rest: Bytes)
    requires RecvLineSpec(n, b, s, Line(line), b', s')
    requires IsBody(body, cr) && b + s == Terminated(body, cr) + rest
    ensures line == body && b' + s' == rest
  {
    var raw :| FirstLine(b + s, raw, b' + s') && Stripped(raw, line) && InBounds(n, b, raw, b');
    var sent := if cr then body + [0x0D] else body;
    assert b + s == sent + [0x0A] + rest;
    SameLine(raw, b' + s', sent, rest);
    CleanEndStrips(raw, line);
    CleanEndStrips(raw, body);
  }

  lemma SameLine(a: Bytes, b: Bytes, c: Bytes, d: Bytes)
    requires NL !in a && NL !in c && a + [NL] + b == c + [NL] + d
    ensures a == c && b == d
  {
    ElemIndexFirst(NL, a, b);
    ElemIndexFirst(NL, c, d);
    var t := a + [NL] + b;
    assert t[..|a|] == a && t[|a| + 1..] == b;
    assert t == c + [NL] + d && t[..|c|] == c && t[|c| + 1..] == d;
  }

  /** Lines as a peer sends them. */
  function Sent(bodies: seq<Bytes>, crs: seq<bool>): Bytes
    requires |crs| == |bodies|
  {
    if bodies == [] then [] else Terminated(bodies[0], crs[0]) + Sent(bodies[1..], crs[1..])
  }

  /** From line to line: however the bytes arrive and whichever line endings the peer mixes, the calls return the bodies
      of the lines it sent, in order, and leave the lines that follow. */
  lemma {:induction false} RunReadsSent(n: int, b: Bytes, s: Bytes, lines: seq<Bytes>, b': Bytes, s': Bytes,
                                        bodies: seq<Bytes>, crs: seq<bool>, rest: Bytes)
    requires Run(n, b, s, lines, b', s') && |crs| == |bodies| && |lines| <= |bodies|
    requires forall j | 0 <= j < |bodies| :: IsBody(bodies[j], crs[j])
    requires b + s == Sent(bodies, crs) + rest
    ensures lines == bodies[..|lines|]
    ensures b' + s' == Sent(bodies[|lines|..], crs[|lines|..]) + rest
    decreases |lines|
  {
    if lines == [] {
      assert bodies[0..] == bodies && crs[0..] == crs;
    } else {
      var bm, sm := FirstSent(n, b, s, lines, b', s', bodies, crs, rest);
      RunReadsSent(n, bm, sm, lines[1..], b', s', bodies[1..], crs[1..], rest);
      Onwards(bodies, |lines|);
      Onwards(crs, |lines|);
      assert lines == [lines[0]] + lines[1..];
    }
  }

  lemma FirstSent(n: int, b: Bytes, s: Bytes, lines: seq<Bytes>, b': Bytes, s': Bytes,
                  bodies: seq<Bytes>, crs: seq<bool>, rest: Bytes) returns (bm: Bytes, sm: Bytes)
    requires Run(n, b, s, lines, b', s') && lines != [] && bodies != [] && |crs| == |bodies|
    requires IsBody(bodies[0], crs[0]) && b + s == Sent(bodies, crs) + rest
    ensures Run(n, bm, sm, lines[1..], b', s')
    ensures lines[0] == bodies[0] && bm + sm == Sent(bodies[1..], crs[1..]) + rest
  {
    bm, sm :| RecvLineSpec(n, b, s, Line(lines[0]), bm, sm) && Run(n, bm, sm, lines[1..], b', s');
    var tail := Sent(bodies[1..], crs[1..]) + rest;
    assert b + s == Terminated(bodies[0], crs[0]) + tail;
    LineEndings(n, b, s, lines[0], bm, sm, bodies[0], crs[0], tail);
  }

  lemma Onwards<T>(xs: seq<T>, k: nat)
    requires 0 < k <= |xs|
    ensures xs[1..][k - 1..] == xs[k..] && xs[..k] == [xs[0]] + xs[1..][..k - 1]
  {}
}
