/** Nicknames and channel names, compared after folding their case (lib/src/Irc/Identifier.hs). */
module Identifiers {

  newtype byte = x: int | 0 <= x < 256

  /** The case table: Latin letters are capitalized and `{|}~` become `[\]^`. */
  function CaseMap(b: byte): byte {
    if 0x61 <= b <= 0x7E then b - 0x20 else b
  }

  /** The case table from `a` on. */
  const CAPITALS := "ABCDEFGHIJKLMNOPQRSTUVWXYZ[\\]^"

  lemma FirstCapitals()
    ensures forall k | 0 <= k < 15 :: CAPITALS[k] as int == 0x41 + k
  {
    var t := CAPITALS;
    assert t[0] == 'A' && t[1] == 'B' && t[2] == 'C' && t[3] == 'D' && t[4] == 'E' && t[5] == 'F' && t[6] == 'G';
    assert t[7] == 'H' && t[8] == 'I' && t[9] == 'J' && t[10] == 'K' && t[11] == 'L' && t[12] == 'M' && t[13] == 'N';
    assert t[14] == 'O';
  }

  lemma LastCapitals()
    ensures forall k | 15 <= k < 30 :: CAPITALS[k] as int == 0x41 + k
  {
    var t := CAPITALS;
    assert t[15] == 'P' && t[16] == 'Q' && t[17] == 'R' && t[18] == 'S' && t[19] == 'T' && t[20] == 'U' && t[21] == 'V';
    assert t[22] == 'W' && t[23] == 'X' && t[24] == 'Y' && t[25] == 'Z' && t[26] == '[' && t[27] == '\\';
    assert t[28] == ']' && t[29] == '^';
  }

  /** Small letters become capitals, and the four characters behind them their counterparts; nothing else changes. */
  lemma CaseTable(b: byte, c: char)
    ensures CaseMap(b) as int == if 0x61 <= b <= 0x7E then CAPITALS[b - 0x61] as int else b as int
    ensures FoldChar(c) == if 'a' <= c <= '~' then CAPITALS[c as int - 0x61] else c
  {
    FirstCapitals();
    LastCapitals();
  }

  function FoldBytes(bs: seq<byte>): seq<byte> {
    seq(|bs|, i requires 0 <= i < |bs| => CaseMap(bs[i]))
  }

  /** Fill a fresh array with the folded bytes. */
  method IrcFoldCase(bs: seq<byte>) returns (a: array<byte>)
    ensures fresh(a)
    ensures a[..] == FoldBytes(bs)
  {
    a := new byte[|bs|];
    for i := 0 to |bs|
      invariant forall k | 0 <= k < i :: a[k] == CaseMap(bs[k])
    {
      a[i] := CaseMap(bs[i]);
    }
  }

  // ----- Folding text -----

  function FoldChar(c: char): char {
    if 'a' <= c <= '~' then (c as int - 0x20) as char else c
  }

  function Fold(s: string): (r: string)
    ensures |r| == |s|
  {
    seq(|s|, i requires 0 <= i < |s| => FoldChar(s[i]))
  }

  /** UTF-8, section 3 of RFC 3629. */
  function EncodeChar(c: char): seq<byte> {
    var n := c as int;
    if n < 0x80 then [n as byte]
    else if n < 0x800 then [(0xC0 + n / 0x40) as byte, (0x80 + n % 0x40) as byte]
    else if n < 0x10000 then
      [(0xE0 + n / 0x1000) as byte, (0x80 + n / 0x40 % 0x40) as byte, (0x80 + n % 0x40) as byte]
    else
      [(0xF0 + n / 0x40000) as byte, (0x80 + n / 0x1000 % 0x40) as byte,
       (0x80 + n / 0x40 % 0x40) as byte, (0x80 + n % 0x40) as byte]
  }

  function Encode(s: string): seq<byte> {
    if s == [] then [] else EncodeChar(s[0]) + Encode(s[1..])
  }

  lemma FoldEncodeChar(c: char)
    ensures FoldBytes(EncodeChar(c)) == EncodeChar(FoldChar(c))
  {}

  /** Folding the encoded bytes of a text is the same as folding its characters: no byte of a longer sequence is in the
      table's range, so the folded bytes are again the encoding of a text. */
  lemma {:induction false} FoldCommutes(s: string)
    ensures FoldBytes(Encode(s)) == Encode(Fold(s))
  {
    if s != [] {
      FoldEncodeChar(s[0]);
      FoldCommutes(s[1..]);
      assert Fold(s)[1..] == Fold(s[1..]);
      FoldJoined(EncodeChar(s[0]), Encode(s[1..]));
    }
  }

  lemma FoldJoined(a: seq<byte>, b: seq<byte>)
    ensures FoldBytes(a + b) == FoldBytes(a) + FoldBytes(b)
  {}

  /** The table of section 3 of RFC 3629, from the bytes of a character to its number. */
  predicate IsUtf8(e: seq<byte>, n: int) {
    && (forall i | 0 < i < |e| :: 0x80 <= e[i] < 0xC0)
    && match |e|
       case 1 => e[0] < 0x80 && n == e[0] as int
       case 2 =>
         0xC0 <= e[0] < 0xE0 && 0x80 <= n < 0x800 && n == 0x40 * (e[0] as int - 0xC0) + (e[1] as int - 0x80)
       case 3 =>
         0xE0 <= e[0] < 0xF0 && 0x800 <= n < 0x10000
         && n == 0x1000 * (e[0] as int - 0xE0) + 0x40 * (e[1] as int - 0x80) + (e[2] as int - 0x80)
       case 4 =>
         0xF0 <= e[0] < 0xF8 && 0x10000 <= n
         && n == 0x40000 * (e[0] as int - 0xF0) + 0x1000 * (e[1] as int - 0x80) + 0x40 * (e[2] as int - 0x80)
                 + (e[3] as int - 0x80)
       case _ => false
  }

  lemma Six(n: nat)
    ensures n == 0x40 * (n / 0x40) + n % 0x40 && 0 <= n % 0x40 < 0x40
    ensures n / 0x1000 == n / 0x40 / 0x40 && n / 0x40000 == n / 0x1000 / 0x40
  {}

  lemma Utf8Four(c: char)
    requires c as int >= 0x10000
    ensures IsUtf8(EncodeChar(c), c as int)
  {
    var n := c as int;
    Six(n);
    Six(n / 0x40);
    Six(n / 0x1000);
  }

  lemma Utf8Three(c: char)
    requires 0x800 <= c as int < 0x10000
    ensures IsUtf8(EncodeChar(c), c as int)
  {
    Six(c as int);
    Six(c as int / 0x40);
  }

  lemma Utf8(c: char)
    ensures IsUtf8(EncodeChar(c), c as int)
  {
    var n := c as int;
    if n >= 0x10000 {
      Utf8Four(c);
    } else if n >= 0x800 {
      Utf8Three(c);
    } else {
      Six(n);
    }
  }

  lemma FirstCharacter(a: char, b: char, x: seq<byte>, y: seq<byte>)
    requires EncodeChar(a) + x == EncodeChar(b) + y
    ensures a == b && x == y
  {
    var e, f := EncodeChar(a), EncodeChar(b);
    Utf8(a);
    Utf8(b);
    assert (e + x)[0] == e[0] && (f + y)[0] == f[0];
    assert |e| == |f|;
    assert e == (e + x)[..|e|] == (f + y)[..|f|] == f;
    assert x == (e + x)[|e|..] == (f + y)[|f|..] == y;
  }

  lemma {:induction false} EncodeInjective(s: string, t: string)
    requires Encode(s) == Encode(t)
    ensures s == t
  {
    if s != [] && t != [] {
      FirstCharacter(s[0], t[0], Encode(s[1..]), Encode(t[1..]));
      EncodeInjective(s[1..], t[1..]);
      assert s == [s[0]] + s[1..] && t == [t[0]] + t[1..];
    }
  }

  /** Identifiers, which are compared by their folded bytes, are the same exactly when their texts are the same after
      folding each character. */
  lemma SameIdentifier(s: string, t: string)
    ensures FoldBytes(Encode(s)) == FoldBytes(Encode(t)) <==> Fold(s) == Fold(t)
  {
    FoldCommutes(s);
    FoldCommutes(t);
    if Encode(Fold(s)) == Encode(Fold(t)) { EncodeInjective(Fold(s), Fold(t)); }
  }

  // ----- Comparison -----

  datatype Ordering = LT | EQ | GT

  /** The first difference decides, then the length. */
  function Compare(x: seq<byte>, y: seq<byte>): Ordering {
    if x == [] && y == [] then EQ
    else if x == [] then LT
    else if y == [] then GT
    else if x[0] < y[0] then LT
    else if x[0] > y[0] then GT
    else Compare(x[1..], y[1..])
  }

  /** The byte order: the first difference decides, and a text comes after its beginnings. */
  lemma {:induction false} CompareMeans(x: seq<byte>, y: seq<byte>)
    ensures Compare(x, y) == LT <==>
              exists k :: 0 <= k <= |x| && k < |y| && x[..k] == y[..k] && (k == |x| || x[k] < y[k])
  {
    if x != [] && y != [] {
      CompareMeans(x[1..], y[1..]);
      if x[0] == y[0] && Compare(x, y) == LT {
        var k :| 0 <= k <= |x[1..]| && k < |y[1..]| && x[1..][..k] == y[1..][..k]
                 && (k == |x[1..]| || x[1..][k] < y[1..][k]);
        assert x[..k + 1] == [x[0]] + x[1..][..k] && y[..k + 1] == [y[0]] + y[1..][..k];
      }
      if k :| 0 <= k <= |x| && k < |y| && x[..k] == y[..k] && (k == |x| || x[k] < y[k]) {
        if k > 0 {
          assert x[..k][0] == x[0] && y[..k][0] == y[0];
          assert x[1..][..k - 1] == x[..k][1..] && y[1..][..k - 1] == y[..k][1..];
        }
      }
    } else if x == [] && y != [] {
      assert x[..0] == y[..0];
    }
  }

  predicate Leq(x: seq<byte>, y: seq<byte>) {
    Compare(x, y) != GT
  }

  /** Comparison is a total order whose equality is equality of the folded bytes. */
  lemma {:induction false} CompareTotal(x: seq<byte>, y: seq<byte>)
    ensures Compare(x, y) == EQ <==> x == y
    ensures Compare(x, y) == LT <==> Compare(y, x) == GT
  {
    if x != [] && y != [] {
      CompareTotal(x[1..], y[1..]);
      assert x == [x[0]] + x[1..] && y == [y[0]] + y[1..];
    }
  }

  lemma {:induction false} LeqTransitive(x: seq<byte>, y: seq<byte>, z: seq<byte>)
    requires Leq(x, y) && Leq(y, z)
    ensures Leq(x, z)
  {
    if x != [] && y != [] && z != [] {
      if x[0] == y[0] == z[0] {
        LeqTransitive(x[1..], y[1..], z[1..]);
      }
    }
  }

  /** The law tab completion relies on: a prefix never comes after the text it is a prefix of. */
  lemma {:induction false} PrefixIsLeq(x: seq<byte>, y: seq<byte>)
    requires x <= y
    ensures Leq(x, y)
  {
    if x != [] {
      PrefixIsLeq(x[1..], y[1..]);
    }
  }
}
