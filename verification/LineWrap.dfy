/** Greedy word wrap of chat messages (src/Client/Image/LineWrap.hs), on text whose characters are one column wide. */
module LineWrap {
  import opened Text

  // ----- The algorithm -----

  /** Cut at every space. */
  function Split(t: string): (r: seq<string>)
    ensures r != []
    decreases |t|
  {
    var (word, rest) := Span({' '}, t);
    if rest == [] then [word] else [word] + Split(rest[1..])
  }

  function Lengths(words: seq<string>): seq<nat> {
    seq(|words|, i requires 0 <= i < |words| => |words[i]|)
  }

  /** Running sums, one more for each space between. */
  function Scan(x: nat, ls: seq<nat>): seq<nat>
    decreases |ls|
  {
    if ls == [] then [x] else [x] + Scan(1 + x + ls[0], ls[1..])
  }

  function DropZeros(xs: seq<nat>): seq<nat> {
    if xs != [] && xs[0] == 0 then DropZeros(xs[1..]) else xs
  }

  /** The widths at which a line can be broken between words. */
  function SplitOptions(t: string): seq<nat> {
    var ls := Lengths(Split(t));
    DropZeros(Scan(ls[0], ls[1..]))
  }

  function Go(w: nat, y: nat, zs: seq<nat>): nat
    decreases |zs|
  {
    if zs == [] then (if y < w then y else w)
    else if zs[0] - y > w then w
    else if zs[0] > w then y
    else Go(w, zs[0], zs[1..])
  }

  /** How much of a text that does not fit goes on the first line. */
  function Width(w: nat, t: string): nat {
    var options := SplitOptions(t);
    if options == [] then w
    else if options[0] <= w then Go(w, options[0], options[1..]) else w
  }

  function WrapRest(w: nat, t: string): seq<string>
    requires w > 0
    decreases |t|
  {
    if |t| == 0 then []
    else if |t| <= w then [t]
    else
      var b := Width(w, t);
      WidthBest(w, t);
      [t[..b]] + WrapRest(w, SkipSpaces(t[b..]))
  }

  function LineWrap(w: nat, t: string): seq<string>
    requires w > 0
  {
    if |t| <= w then [t] else WrapRest(w, t)
  }

  // ----- The break options are the spaces -----

  /** The positions from `i` on where a word may end: the spaces and the end of the text. */
  function Ends(t: string, i: nat): (r: seq<nat>)
    requires i <= |t|
    ensures r != []
    decreases |t| - i
  {
    if i == |t| then [i] else if t[i] == ' ' then [i] + Ends(t, i + 1) else Ends(t, i + 1)
  }

  lemma {:induction false} EndsSkip(t: string, i: nat, j: nat)
    requires i <= j <= |t| && forall k | i <= k < j :: t[k] != ' '
    ensures Ends(t, i) == Ends(t, j)
    decreases j - i
  {
    if i < j { EndsSkip(t, i + 1, j); }
  }

  lemma {:induction false} ScanIsEnds(t: string, i: nat)
    requires i <= |t|
    ensures var ls := Lengths(Split(t[i..])); Scan(i + ls[0], ls[1..]) == Ends(t, i)
    decreases |t| - i
  {
    var s := t[i..];
    var (word, rest) := Span({' '}, s);
    var ls := Lengths(Split(s));
    var j := i + |word|;
    assert forall k | i <= k < j :: t[k] == word[k - i];
    EndsSkip(t, i, j);
    if rest == [] {
      assert ls[1..] == [];
    } else {
      assert t[j] == rest[0] == ' ';
      assert t[j + 1..] == rest[1..];
      ScanIsEnds(t, j + 1);
      var more := Lengths(Split(rest[1..]));
      assert ls == [|word|] + more;
      assert ls[1..] == more;
    }
  }

  lemma OptionsAreEnds(t: string)
    requires t != []
    ensures SplitOptions(t) == Ends(t, 1)
  {
    ScanIsEnds(t, 0);
    assert t[0..] == t;
    EndsPositive(t, 1);
    assert DropZeros(Ends(t, 1)) == Ends(t, 1);
    if t[0] == ' ' {
      assert Ends(t, 0) == [0] + Ends(t, 1);
      assert Ends(t, 0)[1..] == Ends(t, 1);
    }
  }

  lemma {:induction false} EndsPositive(t: string, i: nat)
    requires i <= |t|
    ensures i <= Ends(t, i)[0] <= |t|
    ensures forall k | i <= k < Ends(t, i)[0] :: t[k] != ' '
    ensures Ends(t, i)[0] < |t| ==> t[Ends(t, i)[0]] == ' ' && Ends(t, i)[1..] == Ends(t, Ends(t, i)[0] + 1)
    decreases |t| - i
  {
    if i < |t| && t[i] != ' ' { EndsPositive(t, i + 1); }
  }

  // ----- The width it chooses -----

  /** The last space among the positions 1 to `w`, or 0. */
  function LastSpace(w: nat, t: string): (p: nat)
    requires w < |t|
    ensures p <= w && (p > 0 ==> t[p] == ' ')
    ensures forall k | p < k <= w :: t[k] != ' '
  {
    if w == 0 then 0 else if t[w] == ' ' then w else LastSpace(w - 1, t)
  }

  /** Where the word after position `p` ends. */
  function NextEnd(t: string, p: nat): (z: nat)
    requires p < |t|
    ensures p < z <= |t| && (z < |t| ==> t[z] == ' ')
    ensures forall k | p < k < z :: t[k] != ' '
  {
    EndsPositive(t, p + 1);
    Ends(t, p + 1)[0]
  }

  /** The specification: break at the last space that fits, unless there is none or the next word would overflow even a
      line of its own; then fill the line. */
  function Best(w: nat, t: string): (b: nat)
    requires w < |t|
    ensures w > 0 ==> 0 < b <= w
  {
    var p := LastSpace(w, t);
    if p == 0 || NextEnd(t, p) - p > w then w else p
  }

  lemma LastSpaceUnique(w: nat, t: string, p: nat)
    requires w < |t| && p <= w && (p > 0 ==> t[p] == ' ')
    requires forall k | p < k <= w :: t[k] != ' '
    ensures LastSpace(w, t) == p
  {}

  lemma {:induction false} GoBest(w: nat, t: string, y: nat)
    requires 0 < y <= w < |t| && t[y] == ' '
    ensures Go(w, y, Ends(t, y + 1)) == Best(w, t)
    decreases w - y
  {
    EndsPositive(t, y + 1);
    var z := Ends(t, y + 1)[0];
    if z <= w {
      GoBest(w, t, z);
    } else {
      LastSpaceUnique(w, t, y);
    }
  }

  lemma WidthBest(w: nat, t: string)
    requires 0 < w < |t|
    ensures Width(w, t) == Best(w, t)
  {
    OptionsAreEnds(t);
    EndsPositive(t, 1);
    var x := Ends(t, 1)[0];
    if x <= w {
      GoBest(w, t, x);
    } else {
      LastSpaceUnique(w, t, 0);
    }
  }

  // ----- What wrapping guarantees -----

  /** A break at `p` cuts into a word of at least `w` characters. */
  ghost predicate InLongWord(w: nat, t: string, p: nat) {
    exists a, b :: 0 <= a < p < b <= |t| && b - a >= w && Free({' '}, t[a..b])
  }

  /** The first position from `i` on that is not a space. */
  function NonSpace(t: string, i: nat): (p: nat)
    requires i <= |t|
    ensures i <= p <= |t| && (p < |t| ==> t[p] != ' ')
    ensures forall k | i <= k < p :: t[k] == ' '
    decreases |t| - i
  {
    if i < |t| && t[i] == ' ' then NonSpace(t, i + 1) else i
  }

  lemma {:induction false} SkipFrom(t: string, i: nat)
    requires i <= |t|
    ensures SkipSpaces(t[i..]) == t[NonSpace(t, i)..]
    decreases |t| - i
  {
    if i < |t| && t[i] == ' ' {
      assert t[i..][1..] == t[i + 1..];
      SkipFrom(t, i + 1);
    }
  }

  /** Where the lines start in the text, and where it ends. */
  function Starts(w: nat, t: string): (at: seq<nat>)
    requires w > 0
    decreases |t|
  {
    if |t| == 0 then [0]
    else if |t| <= w then [0, |t|]
    else
      var b := Width(w, t);
      WidthBest(w, t);
      var next := NonSpace(t, b);
      [0] + Shift(next, Starts(w, t[next..]))
  }

  function Shift(off: nat, xs: seq<nat>): seq<nat> {
    seq(|xs|, i requires 0 <= i < |xs| => off + xs[i])
  }

  /** A line is the text at `a`, fits, and only spaces are dropped before `next`. */
  predicate LineAt(w: nat, t: string, line: string, a: nat, next: nat) {
    && |line| <= w
    && a + |line| <= next <= |t|
    && line == t[a..a + |line|]
    && (forall k | a + |line| <= k < next :: t[k] == ' ')
  }

  /** A break that is followed by a line: that line starts with a word, this one is as long as `Best` says, and it ends
      inside a word only if that word has at least `w` characters. */
  ghost predicate BreakAt(w: nat, t: string, line: string, a: nat, next: nat)
    requires LineAt(w, t, line, a, next)
  {
    && next < |t| && t[next] != ' '
    && a + w < |t| && |line| == Best(w, t[a..])
    && (a + |line| == next && line != [] && line[|line| - 1] != ' ' ==> InLongWord(w, t, next))
  }

  ghost predicate Layout(w: nat, t: string, lines: seq<string>, at: seq<nat>) {
    && |at| == |lines| + 1 && at[0] == 0 && at[|lines|] == |t|
    && forall i | 0 <= i < |lines| :: Line(w, t, lines, at, i)
  }

  ghost predicate Line(w: nat, t: string, lines: seq<string>, at: seq<nat>, i: nat)
    requires |at| == |lines| + 1 && i < |lines|
  {
    && LineAt(w, t, lines[i], at[i], at[i + 1])
    && (i < |lines| - 1 ==> BreakAt(w, t, lines[i], at[i], at[i + 1]))
  }

  lemma ShiftLine(w: nat, t: string, off: nat, line: string, a: nat, next: nat)
    requires off <= |t| && LineAt(w, t[off..], line, a, next)
    ensures LineAt(w, t, line, off + a, off + next)
    ensures BreakAt(w, t[off..], line, a, next) ==> BreakAt(w, t, line, off + a, off + next)
  {
    var r := t[off..];
    assert r[a..a + |line|] == t[off + a..off + a + |line|];
    assert forall k | a + |line| <= k < next :: t[off + k] == r[k];
    assert forall k | off + a + |line| <= k < off + next :: t[k] == r[k - off];
    assert r[a..] == t[off + a..];
    if InLongWord(w, r, next) {
      var x, y :| 0 <= x < next < y <= |r| && y - x >= w && Free({' '}, r[x..y]);
      assert r[x..y] == t[off + x..off + y];
    }
  }

  /** The first break of a text that does not fit. */
  lemma FirstBreak(w: nat, t: string, off: nat)
    requires 0 < w < |t|
    requires off == NonSpace(t, Best(w, t))
    ensures LineAt(w, t, t[..Best(w, t)], 0, off)
    ensures off < |t| ==> BreakAt(w, t, t[..Best(w, t)], 0, off)
  {
    var b := Best(w, t);
    assert t[0..] == t;
    if off == b && t[b - 1] != ' ' && off < |t| {
      LongWord(w, t);
    }
  }

  lemma LongWord(w: nat, t: string)
    requires 0 < w < |t|
    requires var b := Best(w, t); t[b - 1] != ' ' && t[b] != ' '
    ensures InLongWord(w, t, Best(w, t))
  {
    var b, p := Best(w, t), LastSpace(w, t);
    assert b == w;
    var z := NextEnd(t, p);
    var a := if p == 0 && t[0] != ' ' then 0 else p + 1;
    var e := if z > w then z else w + 1;
    assert Free({' '}, t[a..e]);
    assert 0 <= a < b < e <= |t| && e - a >= w;
  }

  lemma LayoutCons(w: nat, t: string, line: string, off: nat, lines: seq<string>, at: seq<nat>)
    requires off <= |t| && Layout(w, t[off..], lines, at)
    requires LineAt(w, t, line, 0, off) && (off < |t| ==> BreakAt(w, t, line, 0, off))
    requires lines != [] ==> off < |t|
    ensures Layout(w, t, [line] + lines, [0] + Shift(off, at))
  {
    var lines', at' := [line] + lines, [0] + Shift(off, at);
    assert Line(w, t, lines', at', 0) by { assert at'[1] == off; }
    forall i | 0 < i < |lines'|
      ensures Line(w, t, lines', at', i)
    {
      assert Line(w, t[off..], lines, at, i - 1);
      ShiftNumbered(w, t, off, line, lines, at, i - 1);
    }
  }

  lemma ShiftNumbered(w: nat, t: string, off: nat, line: string, lines: seq<string>, at: seq<nat>, i: nat)
    requires off <= |t| && |at| == |lines| + 1 && i < |lines|
    requires Line(w, t[off..], lines, at, i)
    ensures Line(w, t, [line] + lines, [0] + Shift(off, at), i + 1)
  {
    var at' := [0] + Shift(off, at);
    assert at'[i + 1] == off + at[i] && at'[i + 2] == off + at[i + 1];
    ShiftLine(w, t, off, lines[i], at[i], at[i + 1]);
  }

  lemma {:induction false} WrapRestLayout(w: nat, t: string)
    requires w > 0
    ensures Layout(w, t, WrapRest(w, t), Starts(w, t))
    decreases |t|
  {
    if |t| > w {
      WidthBest(w, t);
      var b := Best(w, t);
      SkipFrom(t, b);
      var off := NonSpace(t, b);
      FirstBreak(w, t, off);
      WrapRestLayout(w, t[off..]);
      LayoutCons(w, t, t[..b], off, WrapRest(w, t[off..]), Starts(w, t[off..]));
    }
  }

  /** Wrapping keeps the text: every line is a piece of it that fits the width, the pieces are in order, and only
      spaces are lost, at the breaks and at the end. Every break leaves a next line that does not start with a space, is
      the one the greedy specification asks for, and cuts into a word only if the word has at least `w` characters. */
  lemma WrapLayout(w: nat, t: string)
    requires w > 0
    ensures Layout(w, t, LineWrap(w, t), if |t| <= w then [0, |t|] else Starts(w, t))
  {
    if |t| <= w {
      assert t[0..|t|] == t;
      assert LineAt(w, t, t, 0, |t|);
      assert Line(w, t, [t], [0, |t|], 0);
    } else {
      WrapRestLayout(w, t);
    }
  }
}
