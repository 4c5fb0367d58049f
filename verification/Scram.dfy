/** The SCRAM client (src/Client/Authentication/Scram.hs) against a server that follows sections 2.2, 3, 5 and 7 of
    RFC 5802. The digest, HMAC and base64 functions are parameters; only the laws in `Lawful` are used. */
module Scram {
  import opened Text

  type Bytes = seq<bv8>

  const COMMA: bv8 := 0x2C
  const EQUALS: bv8 := 0x3D
  const NUL: bv8 := 0
  const GS2_N: Bytes := [0x6E, 0x2C]
  const A_EQUALS: Bytes := [0x61, 0x3D]
  const ATTR_N: Bytes := [0x6E]
  const ATTR_R: Bytes := [0x72]
  const ATTR_S: Bytes := [0x73]
  const ATTR_I: Bytes := [0x69]
  const ATTR_C: Bytes := [0x63]
  const ATTR_P: Bytes := [0x70]
  const ATTR_V: Bytes := [0x76]
  const CLIENT_KEY: Bytes := [0x43, 0x6C, 0x69, 0x65, 0x6E, 0x74, 0x20, 0x4B, 0x65, 0x79]
  const SERVER_KEY: Bytes := [0x53, 0x65, 0x72, 0x76, 0x65, 0x72, 0x20, 0x4B, 0x65, 0x79]
  const INT1: Bytes := [0, 0, 0, 1]

  datatype Crypto = Crypto(
    size: nat,
    hash: Bytes -> Bytes,
    hmac: (Bytes, Bytes) -> Bytes,
    encode64: Bytes -> Bytes,
    decode64: Bytes -> Option<Bytes>)

  /** Digests have a fixed length; base64 is undone by its decoder and does not use the comma. */
  ghost predicate Lawful(c: Crypto) {
    && (forall x :: |c.hash(x)| == c.size)
    && (forall k, x :: |c.hmac(k, x)| == c.size)
    && (forall x :: c.decode64(c.encode64(x)) == Some(x))
    && (forall x :: COMMA !in c.encode64(x))
  }

  // ----- The client -----

  function XorBS(x: Bytes, y: Bytes): Bytes {
    seq(if |x| < |y| then |x| else |y|, i requires 0 <= i < |x| && i < |y| => x[i] ^ y[i])
  }

  /** Up to the first occurrence of a byte, and from it on. */
  function Break(c: bv8, s: Bytes): (r: (Bytes, Bytes))
    ensures s == r.0 + r.1 && c !in r.0
    ensures |r.1| <= |s| && (r.1 != [] ==> r.1[0] == c)
  {
    if s == [] || s[0] == c then ([], s)
    else
      var (a, b) := Break(c, s[1..]);
      ([s[0]] + a, b)
  }

  function SplitFields(s: Bytes): seq<Bytes>
    decreases |s|
  {
    var (a, b) := Break(COMMA, s);
    if b == [] then [a] else [a] + SplitFields(b[1..])
  }

  function KeyValue(entry: Bytes): (Bytes, Bytes) {
    var (key, value) := Break(EQUALS, entry);
    (key, if value == [] then [] else value[1..])
  }

  /** The key-value pairs of a message; the empty message has none. */
  function ParseMessage(msg: Bytes): seq<(Bytes, Bytes)> {
    if msg == [] then []
    else
      var fields := SplitFields(msg);
      seq(|fields|, i requires 0 <= i < |fields| => KeyValue(fields[i]))
  }

  function EncodeUsername(u: Bytes): (r: Bytes)
    ensures COMMA !in r
  {
    if u == [] then []
    else (if u[0] == COMMA then [EQUALS, 0x32, 0x43] else if u[0] == EQUALS then [EQUALS, 0x33, 0x44] else [u[0]])
         + EncodeUsername(u[1..])
  }

  predicate IsDigit(b: bv8) {
    0x30 <= b <= 0x39
  }

  function DigitValue(b: bv8): nat
    requires IsDigit(b)
  {
    match b
    case 0x30 => 0 case 0x31 => 1 case 0x32 => 2 case 0x33 => 3 case 0x34 => 4
    case 0x35 => 5 case 0x36 => 6 case 0x37 => 7 case 0x38 => 8 case _ => 9
  }

  /** The decimal digits at the front, as a number, and what follows them. */
  function ReadDigits(acc: nat, s: Bytes): (nat, Bytes)
    decreases |s|
  {
    if s != [] && IsDigit(s[0]) then ReadDigits(10 * acc + DigitValue(s[0]), s[1..]) else (acc, s)
  }

  /** An optional sign and at least one digit. */
  function ReadInt(s: Bytes): Option<(int, Bytes)> {
    var digits := if s != [] && (s[0] == 0x2B || s[0] == 0x2D) then s[1..] else s;
    if digits != [] && IsDigit(digits[0]) then
      var (n: int, rest) := ReadDigits(0, digits);
      Some((if s[0] == 0x2D then -n else n, rest))
    else None
  }

  /** The first `n` iterates of the keyed hash. */
  function Iterates(c: Crypto, str: Bytes, u: Bytes, n: nat): (r: seq<Bytes>)
    ensures |r| == n
    decreases n
  {
    if n == 0 then [] else [u] + Iterates(c, str, c.hmac(str, u), n - 1)
  }

  function FoldXor(acc: Bytes, us: seq<Bytes>): Bytes
    decreases |us|
  {
    if us == [] then acc else FoldXor(XorBS(acc, us[0]), us[1..])
  }

  /** Key derivation; there is nothing to fold when the count is not positive. */
  function Hi(c: Crypto, str: Bytes, salt: Bytes, n: int): Option<Bytes> {
    if n <= 0 then None
    else
      var us := Iterates(c, str, c.hmac(str, salt + INT1), n);
      Some(FoldXor(us[0], us[1..]))
  }

  /** Client proof and server signature. */
  function CryptoStep(c: Crypto, salted: Bytes, authMessage: Bytes): (Bytes, Bytes) {
    var clientKey := c.hmac(salted, CLIENT_KEY);
    var storedKey := c.hash(clientKey);
    var clientSignature := c.hmac(storedKey, authMessage);
    var serverKey := c.hmac(salted, SERVER_KEY);
    (XorBS(clientKey, clientSignature), c.hmac(serverKey, authMessage))
  }

  datatype Phase1 = Phase1(password: Bytes, cbindInput: Bytes, nonce: Bytes, clientFirstBare: Bytes)
  datatype Phase2 = Phase2(serverSignature: Bytes)

  /** `Rejected` is a refused server message, `Undefined` the fold over no iterations. */
  datatype Outcome<+T> = Done(value: T) | Rejected | Undefined

  function Attribute(name: Bytes, value: Bytes): Bytes {
    name + [EQUALS] + value
  }

  function InitiateScram(c: Crypto, user: Bytes, authzid: Bytes, pass: Bytes, nonce: Bytes): (Bytes, Phase1) {
    var gs2Header := GS2_N + EncodeUsername(authzid) + [COMMA];
    var bare := Attribute(ATTR_N, EncodeUsername(user)) + [COMMA] + Attribute(ATTR_R, nonce);
    (gs2Header + bare, Phase1(pass, c.encode64(gs2Header), nonce, bare))
  }

  function AddServerFirst(c: Crypto, p: Phase1, serverFirst: Bytes): Outcome<(Bytes, Phase2)> {
    var attrs := ParseMessage(serverFirst);
    if |attrs| < 3 || attrs[0].0 != ATTR_R || attrs[1].0 != ATTR_S || attrs[2].0 != ATTR_I then Rejected
    else
      var nonce := attrs[0].1;
      match (c.decode64(attrs[1].1), ReadInt(attrs[2].1))
      case (Some(salt), Some((iterations, rest))) =>
        if rest != [] || !(p.nonce <= nonce) || p.nonce == nonce then Rejected
        else
          var withoutProof := Attribute(ATTR_C, p.cbindInput) + [COMMA] + Attribute(ATTR_R, nonce);
          var authMessage := p.clientFirstBare + [COMMA] + serverFirst + [COMMA] + withoutProof;
          (match Hi(c, p.password, salt, iterations)
           case None => Undefined
           case Some(salted) =>
             var (proof, signature) := CryptoStep(c, salted, authMessage);
             Done((withoutProof + [COMMA] + Attribute(ATTR_P, c.encode64(proof)), Phase2(c.encode64(signature)))))
      case _ => Rejected
  }

  predicate AddServerFinal(p: Phase2, serverFinal: Bytes) {
    var attrs := ParseMessage(serverFinal);
    attrs != [] && attrs[0].0 == ATTR_V && attrs[0].1 == p.serverSignature
  }

  // ----- A server, as RFC 5802 describes it -----

  /** The bytes of a text in ASCII. */
  function Ascii(s: string): Bytes {
    seq(|s|, i requires 0 <= i < |s| => if ' ' <= s[i] <= '~' then (s[i] as int) as bv8 else 0)
  }

  /** Section 2.2, exclusive or: the bits set in one of the operands and not in both. */
  function OneOf(x: bv8, y: bv8): bv8 {
    (x | y) & !(x & y)
  }

  function Combine(x: Bytes, y: Bytes): Bytes {
    seq(if |x| <= |y| then |x| else |y|, i requires 0 <= i < |x| && i < |y| => OneOf(x[i], y[i]))
  }

  /** Section 2.2: the iterations are combined one after the other. */
  function HiSpec(c: Crypto, str: Bytes, salt: Bytes, i: nat): Bytes
    requires i >= 1
  {
    if i == 1 then U(c, str, salt, 1) else Combine(HiSpec(c, str, salt, i - 1), U(c, str, salt, i))
  }

  function U(c: Crypto, str: Bytes, salt: Bytes, i: nat): Bytes
    requires i >= 1
  {
    if i == 1 then c.hmac(str, salt + [0, 0, 0, 1]) else c.hmac(str, U(c, str, salt, i - 1))
  }

  /** Section 3: what the proof and the signature of an exchange are. */
  function Proof(c: Crypto, salted: Bytes, authMessage: Bytes): Bytes {
    var clientKey := c.hmac(salted, Ascii("Client Key"));
    Combine(clientKey, c.hmac(c.hash(clientKey), authMessage))
  }

  function Signature(c: Crypto, salted: Bytes, authMessage: Bytes): Bytes {
    c.hmac(c.hmac(salted, Ascii("Server Key")), authMessage)
  }

  /** Section 3: the messages that are signed, and the client's final message without its proof. */
  function AuthMessage(bare: Bytes, serverFirst: Bytes, withoutProof: Bytes): Bytes {
    bare + Ascii(",") + serverFirst + Ascii(",") + withoutProof
  }

  function WithoutProof(cbind: Bytes, nonce: Bytes): Bytes {
    Ascii("c=") + cbind + Ascii(",r=") + nonce
  }

  /** What the server keeps about a user. */
  datatype Record = Record(salt: Bytes, iterations: nat, storedKey: Bytes, serverKey: Bytes)

  function Enroll(c: Crypto, pass: Bytes, salt: Bytes, iterations: nat): Record
    requires iterations >= 1
  {
    var salted := HiSpec(c, pass, salt, iterations);
    Record(salt, iterations, c.hash(c.hmac(salted, Ascii("Client Key"))), c.hmac(salted, Ascii("Server Key")))
  }

  function Digit(d: nat): (b: bv8)
    requires d < 10
    ensures IsDigit(b) && DigitValue(b) == d
  {
    match d
    case 0 => 0x30 case 1 => 0x31 case 2 => 0x32 case 3 => 0x33 case 4 => 0x34
    case 5 => 0x35 case 6 => 0x36 case 7 => 0x37 case 8 => 0x38 case _ => 0x39
  }

  function Decimal(n: nat): Bytes {
    if n < 10 then [Digit(n)] else Decimal(n / 10) + [Digit(n % 10)]
  }

  function ServerFirst(c: Crypto, r: Record, nonce: Bytes): Bytes {
    Ascii("r=") + nonce + Ascii(",s=") + c.encode64(r.salt) + Ascii(",i=") + Decimal(r.iterations)
  }

  /** The inverse of the username encoding; other uses of the equals sign are refused. */
  function DecodeUsername(s: Bytes): Option<Bytes> {
    if s == [] then Some([])
    else if s[0] == EQUALS then
      if |s| < 3 || (s[1..3] != [0x32, 0x43] && s[1..3] != [0x33, 0x44]) then None
      else
        match DecodeUsername(s[3..])
        case None => None
        case Some(u) => Some([if s[1..3] == [0x32, 0x43] then COMMA else EQUALS] + u)
    else
      match DecodeUsername(s[1..])
      case None => None
      case Some(u) => Some([s[0]] + u)
  }

  /** Section 7: a nonempty name without NUL, its commas and equals signs written `=2C` and `=3D`. */
  function ReadName(s: Bytes): Option<Bytes> {
    if s == [] || NUL in s then None else DecodeUsername(s)
  }

  /** Section 7: the authorization identity is left out, or is a name after `a=`. */
  function ReadAuthzid(field: Bytes): Option<Bytes> {
    if field == [] then Some([])
    else if A_EQUALS <= field then ReadName(field[2..])
    else None
  }

  /** Section 7: at least one visible ASCII character, none a comma. */
  predicate Printable(s: Bytes) {
    s != [] && forall i | 0 <= i < |s| :: 0x21 <= s[i] <= 0x7E && s[i] != COMMA
  }

  datatype ClientFirst = ClientFirst(authzid: Bytes, user: Bytes, nonce: Bytes, gs2Header: Bytes, bare: Bytes)

  /** Section 7: read `n,[a=authzid],n=user,r=nonce`, the first message of a client without channel binding. */
  function ReadClientFirst(msg: Bytes): Option<ClientFirst> {
    var (flag, r1) := Break(COMMA, msg);
    if r1 == [] || flag != ATTR_N then None
    else
      var (field, r2) := Break(COMMA, r1[1..]);
      if r2 == [] then None
      else
        var bare := r2[1..];
        var attrs := ParseMessage(bare);
        if |attrs| != 2 || attrs[0].0 != ATTR_N || attrs[1].0 != ATTR_R || !Printable(attrs[1].1) then None
        else
          match (ReadAuthzid(field), ReadName(attrs[0].1))
          case (Some(a), Some(u)) => Some(ClientFirst(a, u, attrs[1].1, GS2_N + field + [COMMA], bare))
          case _ => None
  }

  /** Section 3: check the channel binding, which has to be the header of the first message, the nonce, and the proof of
      the client's final message; the signature is what the server answers. */
  function ServerCheck(c: Crypto, r: Record, gs2Header: Bytes, bare: Bytes, nonce: Bytes, serverFirst: Bytes,
                       clientFinal: Bytes): Option<Bytes>
  {
    var attrs := ParseMessage(clientFinal);
    if |attrs| != 3 || attrs[0].0 != ATTR_C || attrs[1] != (ATTR_R, nonce) || attrs[2].0 != ATTR_P then None
    else if c.decode64(attrs[0].1) != Some(gs2Header) then None
    else
      var authMessage := AuthMessage(bare, serverFirst, WithoutProof(attrs[0].1, nonce));
      match c.decode64(attrs[2].1)
      case None => None
      case Some(proof) =>
        var clientKey := Combine(proof, c.hmac(r.storedKey, authMessage));
        if c.hash(clientKey) != r.storedKey then None else Some(c.hmac(r.serverKey, authMessage))
  }

  function ServerFinal(c: Crypto, signature: Bytes): Bytes {
    Ascii("v=") + c.encode64(signature)
  }

  // ----- The client's bytes are the standard's -----

  /** The client's constants are the texts of the standard. */
  lemma Texts()
    ensures GS2_N == Ascii("n,") && A_EQUALS == Ascii("a=")
    ensures [COMMA] == Ascii(",") && [EQUALS] == Ascii("=")
    ensures INT1 == [0, 0, 0, 1] && NUL == 0
  {}

  lemma LetterTexts()
    ensures ATTR_N == Ascii("n") && ATTR_R == Ascii("r") && ATTR_S == Ascii("s") && ATTR_I == Ascii("i")
    ensures ATTR_C == Ascii("c") && ATTR_P == Ascii("p") && ATTR_V == Ascii("v")
  {}

  lemma ClientKeyText()
    ensures CLIENT_KEY == Ascii("Client Key")
  {}

  lemma ServerKeyText()
    ensures SERVER_KEY == Ascii("Server Key")
  {}

  /** An attribute as it stands in a message, and behind a comma. */
  lemma AttributeText(name: char, value: Bytes)
    requires ' ' <= name <= '~'
    ensures Ascii([name, '=']) + value == Attribute(Ascii([name]), value)
    ensures Ascii([',', name, '=']) + value == [COMMA] + Attribute(Ascii([name]), value)
  {
    Texts();
    assert Ascii([name, '=']) == Ascii([name]) + [EQUALS];
    assert Ascii([',', name, '=']) == [COMMA] + (Ascii([name]) + [EQUALS]);
    Regroup([COMMA], Ascii([name]) + [EQUALS], value);
  }

  lemma XorByte(x: bv8, y: bv8)
    ensures x ^ y == OneOf(x, y)
  {}

  lemma MaskedBit(x: bv8, y: bv8, mask: bv8)
    requires mask & (mask - 1) == 0
    ensures (x ^ y) & mask != 0 <==> (x & mask != 0) != (y & mask != 0)
  {}

  /** The client combines bytes as the standard does ... */
  lemma XorIsCombine(x: Bytes, y: Bytes)
    ensures XorBS(x, y) == Combine(x, y)
  {
    forall i: nat | i < |x| && i < |y|
      ensures XorBS(x, y)[i] == Combine(x, y)[i]
    {
      XorByte(x[i], y[i]);
    }
  }

  /** ... so a bit of the result is set exactly when it is set in one operand and not in the other, and the result is as
      long as the shorter operand. */
  lemma XorBits(x: Bytes, y: Bytes, i: nat, bit: bv8)
    requires bit in {0x01, 0x02, 0x04, 0x08, 0x10, 0x20, 0x40, 0x80}
    ensures |XorBS(x, y)| == if |x| <= |y| then |x| else |y|
    ensures i < |x| && i < |y| ==> (XorBS(x, y)[i] & bit != 0 <==> (x[i] & bit != 0) != (y[i] & bit != 0))
  {
    SingleBit(bit);
    if i < |x| && i < |y| { MaskedBit(x[i], y[i], bit); }
  }

  lemma SingleBit(bit: bv8)
    requires bit in {0x01, 0x02, 0x04, 0x08, 0x10, 0x20, 0x40, 0x80}
    ensures bit & (bit - 1) == 0
  {}

  lemma StepIsStandard(c: Crypto, salted: Bytes, authMessage: Bytes)
    ensures CryptoStep(c, salted, authMessage) == (Proof(c, salted, authMessage), Signature(c, salted, authMessage))
  {
    ClientKeyText();
    ServerKeyText();
    XorIsCombine(c.hmac(salted, CLIENT_KEY), c.hmac(c.hash(c.hmac(salted, CLIENT_KEY)), authMessage));
  }

  // ----- Messages read back -----

  lemma {:induction false} BreakUnique(c: bv8, a: Bytes, b: Bytes)
    requires c !in a && (b != [] ==> b[0] == c)
    ensures Break(c, a + b) == (a, b)
  {
    if a == [] {
      assert a + b == b;
    } else {
      assert a[0] in a && (forall x | x in a[1..] :: x in a);
      assert (a + b)[1..] == a[1..] + b;
      BreakUnique(c, a[1..], b);
      assert a == [a[0]] + a[1..];
    }
  }

  lemma KeyValueBack(name: Bytes, value: Bytes)
    requires EQUALS !in name
    ensures KeyValue(Attribute(name, value)) == (name, value)
  {
    assert Attribute(name, value) == name + ([EQUALS] + value);
    BreakUnique(EQUALS, name, [EQUALS] + value);
  }

  lemma FieldsCons(a: Bytes, rest: Bytes)
    requires COMMA !in a
    ensures SplitFields(a + [COMMA] + rest) == [a] + SplitFields(rest)
    ensures SplitFields(a) == [a]
  {
    assert a + [COMMA] + rest == a + ([COMMA] + rest);
    BreakUnique(COMMA, a, [COMMA] + rest);
    assert ([COMMA] + rest)[1..] == rest;
    assert a + [] == a;
    BreakUnique(COMMA, a, []);
  }

  lemma Parse1(n1: Bytes, v1: Bytes)
    requires COMMA !in n1 && COMMA !in v1 && EQUALS !in n1
    ensures ParseMessage(Attribute(n1, v1)) == [(n1, v1)]
  {
    FieldsCons(Attribute(n1, v1), []);
    KeyValueBack(n1, v1);
  }

  lemma Parse2(n1: Bytes, v1: Bytes, n2: Bytes, v2: Bytes)
    requires COMMA !in n1 && COMMA !in v1 && EQUALS !in n1 && COMMA !in n2 && COMMA !in v2 && EQUALS !in n2
    ensures ParseMessage(Attribute(n1, v1) + [COMMA] + Attribute(n2, v2)) == [(n1, v1), (n2, v2)]
  {
    var a, b := Attribute(n1, v1), Attribute(n2, v2);
    FieldsCons(a, b);
    FieldsCons(b, []);
    KeyValueBack(n1, v1);
    KeyValueBack(n2, v2);
  }

  lemma Parse3(n1: Bytes, v1: Bytes, n2: Bytes, v2: Bytes, n3: Bytes, v3: Bytes)
    requires COMMA !in n1 && COMMA !in v1 && EQUALS !in n1 && COMMA !in n2 && COMMA !in v2 && EQUALS !in n2
    requires COMMA !in n3 && COMMA !in v3 && EQUALS !in n3
    ensures ParseMessage(Attribute(n1, v1) + [COMMA] + Attribute(n2, v2) + [COMMA] + Attribute(n3, v3))
         == [(n1, v1), (n2, v2), (n3, v3)]
  {
    var a, b, d := Attribute(n1, v1), Attribute(n2, v2), Attribute(n3, v3);
    assert a + [COMMA] + b + [COMMA] + d == a + [COMMA] + (b + [COMMA] + d);
    FieldsCons(a, b + [COMMA] + d);
    FieldsCons(b, d);
    FieldsCons(d, []);
    KeyValueBack(n1, v1);
    KeyValueBack(n2, v2);
    KeyValueBack(n3, v3);
  }

  /** The username encoding loses nothing, so names with commas and equals signs stay apart from the message syntax. */
  lemma {:induction false} UsernameRoundTrip(u: Bytes)
    ensures DecodeUsername(EncodeUsername(u)) == Some(u)
  {
    if u != [] {
      UsernameRoundTrip(u[1..]);
      var rest := EncodeUsername(u[1..]);
      var e := EncodeUsername(u)[..|EncodeUsername(u)| - |rest|];
      assert EncodeUsername(u) == e + rest && (e + rest)[|e|..] == rest;
      assert u == [u[0]] + u[1..];
    }
  }

  /** What a name looks like in a message: commas and equals signs are written as in section 5.1, and nothing else
      changes. */
  lemma EncodedText(a: Bytes, b: Bytes)
    ensures EncodeUsername(a + b) == EncodeUsername(a) + EncodeUsername(b)
    ensures EncodeUsername(Ascii(",")) == Ascii("=2C") && EncodeUsername(Ascii("=")) == Ascii("=3D")
    ensures 0x2C !in a && 0x3D !in a ==> EncodeUsername(a) == a
  {
    EncodedParts(a, b);
    EncodedSigns();
    if 0x2C !in a && 0x3D !in a { EncodedPlain(a); }
  }

  lemma {:induction false} EncodedParts(a: Bytes, b: Bytes)
    ensures EncodeUsername(a + b) == EncodeUsername(a) + EncodeUsername(b)
  {
    if a == [] {
      assert a + b == b;
    } else {
      EncodedParts(a[1..], b);
      assert (a + b)[1..] == a[1..] + b;
      var e := if a[0] == COMMA then [EQUALS, 0x32, 0x43] else if a[0] == EQUALS then [EQUALS, 0x33, 0x44] else [a[0]];
      Regroup(e, EncodeUsername(a[1..]), EncodeUsername(b));
    }
  }

  lemma {:induction false} EncodedPlain(a: Bytes)
    requires COMMA !in a && EQUALS !in a
    ensures EncodeUsername(a) == a
  {
    if a != [] {
      EncodedPlain(a[1..]);
      assert a[0] in a && a == [a[0]] + a[1..];
    }
  }

  lemma EncodedSigns()
    ensures EncodeUsername(Ascii(",")) == Ascii("=2C") && EncodeUsername(Ascii("=")) == Ascii("=3D")
  {
    Texts();
    assert [COMMA][1..] == [] && [EQUALS][1..] == [];
    assert Ascii("=2C") == [EQUALS, 0x32, 0x43] && Ascii("=3D") == [EQUALS, 0x33, 0x44];
  }

  predicate AllDigits(ds: Bytes) {
    forall i | 0 <= i < |ds| :: IsDigit(ds[i])
  }

  function Value(ds: Bytes): nat
    requires AllDigits(ds)
  {
    if ds == [] then 0 else 10 * Value(ds[..|ds| - 1]) + (ds[|ds| - 1] as int - 0x30)
  }

  lemma {:induction false} DecimalDigits(n: nat)
    ensures Decimal(n) != [] && AllDigits(Decimal(n)) && Value(Decimal(n)) == n
  {
    if n >= 10 {
      DecimalDigits(n / 10);
      DigitsAre(Digit(n % 10));
      assert Decimal(n)[..|Decimal(n)| - 1] == Decimal(n / 10);
    } else {
      DigitsAre(Digit(n));
      assert Decimal(n)[..0] == [];
    }
  }

  lemma DigitsAre(b: bv8)
    requires IsDigit(b)
    ensures DigitValue(b) == b as int - 0x30
  {}

  lemma {:induction false} ReadDigitsValue(ds: Bytes, k: nat, rest: Bytes)
    requires AllDigits(ds) && k <= |ds| && (rest != [] ==> !IsDigit(rest[0]))
    ensures ReadDigits(Value(ds[..k]), ds[k..] + rest) == (Value(ds), rest)
    decreases |ds| - k
  {
    if k == |ds| {
      assert ds[..k] == ds && ds[k..] + rest == rest;
    } else {
      DigitsAre(ds[k]);
      assert ds[..k + 1][..k] == ds[..k];
      assert (ds[k..] + rest)[1..] == ds[k + 1..] + rest;
      ReadDigitsValue(ds, k + 1, rest);
    }
  }

  /** A sign or none, and decimal digits. */
  predicate Numeral(s: Bytes) {
    var ds := Unsigned(s);
    ds != [] && AllDigits(ds)
  }

  function Unsigned(s: Bytes): Bytes {
    if Ascii("+") <= s || Ascii("-") <= s then s[1..] else s
  }

  function NumeralValue(s: Bytes): int
    requires Numeral(s)
  {
    var n: int := Value(Unsigned(s));
    if Ascii("-") <= s then -n else n
  }

  lemma Signs(s: Bytes)
    ensures Ascii("+") <= s <==> s != [] && s[0] == 0x2B
    ensures Ascii("-") <= s <==> s != [] && s[0] == 0x2D
  {
    assert Ascii("+") == [0x2B] && Ascii("-") == [0x2D];
  }

  /** Numerals are read with their value, up to the first byte that is not a digit. */
  lemma NumeralRead(s: Bytes, rest: Bytes)
    requires Numeral(s) && (rest != [] ==> !IsDigit(rest[0]))
    ensures ReadInt(s + rest) == Some((NumeralValue(s), rest))
  {
    var ds := Unsigned(s);
    Signs(s);
    ReadDigitsValue(ds, 0, rest);
    assert ds[..0] == [] && ds[0..] + rest == ds + rest;
    assert |s| > 0 && (s + rest)[0] == s[0];
    if ds != s { assert (s + rest)[1..] == ds + rest; }
  }

  /** The digits at the front of a text. */
  function DigitsIn(s: Bytes): (k: nat)
    ensures k <= |s| && AllDigits(s[..k]) && (k < |s| ==> !IsDigit(s[k]))
  {
    if s != [] && IsDigit(s[0]) then
      var k := DigitsIn(s[1..]);
      assert s[..k + 1] == [s[0]] + s[1..][..k];
      k + 1
    else 0
  }

  /** Nothing else is read. */
  lemma OnlyNumeralsRead(s: Bytes)
    ensures ReadInt(s).Some? ==>
              exists k :: 0 < k <= |s| && Numeral(s[..k]) && ReadInt(s).value == (NumeralValue(s[..k]), s[k..])
  {
    if ReadInt(s).Some? {
      var digits := if s[0] == 0x2B || s[0] == 0x2D then s[1..] else s;
      var k := |s| - |digits| + DigitsIn(digits);
      Signs(s);
      Signs(s[..k]);
      assert s[..k][0] == s[0];
      assert Unsigned(s[..k]) == digits[..DigitsIn(digits)];
      assert s == s[..k] + s[k..];
      assert k < |s| ==> s[k..][0] == digits[DigitsIn(digits)];
      NumeralRead(s[..k], s[k..]);
    }
  }

  lemma ReadDecimal(n: nat)
    ensures ReadInt(Decimal(n)) == Some((n, []))
    ensures COMMA !in Decimal(n)
  {
    var ds := Decimal(n);
    DecimalDigits(n);
    assert IsDigit(ds[0]);
    Signs(ds);
    NumeralRead(ds, []);
    assert ds + [] == ds;
  }

  // ----- Both sides derive the same keys -----

  lemma {:induction false} IteratesAt(c: Crypto, str: Bytes, salt: Bytes, j: nat, n: nat, k: nat)
    requires j >= 1 && k < n
    ensures Iterates(c, str, U(c, str, salt, j), n)[k] == U(c, str, salt, j + k)
    decreases n
  {
    if k > 0 {
      IteratesAt(c, str, salt, j + 1, n - 1, k - 1);
    }
  }

  lemma {:induction false} FoldIsSpec(c: Crypto, str: Bytes, salt: Bytes, n: nat, i: nat)
    requires 1 <= i <= n
    ensures FoldXor(HiSpec(c, str, salt, i), Iterates(c, str, U(c, str, salt, 1), n)[i..]) == HiSpec(c, str, salt, n)
    decreases n - i
  {
    var us := Iterates(c, str, U(c, str, salt, 1), n);
    if i < n {
      IteratesAt(c, str, salt, 1, n, i);
      XorIsCombine(HiSpec(c, str, salt, i), us[i]);
      assert us[i..][1..] == us[i + 1..];
      FoldIsSpec(c, str, salt, n, i + 1);
    }
  }

  /** The fold over the iterates is the key derivation of the standard. */
  lemma HiIsSpec(c: Crypto, str: Bytes, salt: Bytes, n: nat)
    requires n >= 1
    ensures Hi(c, str, salt, n) == Some(HiSpec(c, str, salt, n))
  {
    FoldIsSpec(c, str, salt, n, 1);
  }

  lemma CombineTwice(x: bv8, y: bv8)
    ensures OneOf(OneOf(x, y), y) == x
  {}

  lemma CombineCancels(a: Bytes, b: Bytes)
    requires |a| == |b|
    ensures Combine(Combine(a, b), b) == a
  {
    forall i | 0 <= i < |a|
      ensures Combine(Combine(a, b), b)[i] == a[i]
    {
      CombineTwice(a[i], b[i]);
    }
  }

  // ----- Main results -----

  lemma HeaderBack(msg: Bytes, a: Bytes, bare: Bytes)
    requires msg == GS2_N + a + [COMMA] + bare && COMMA !in a
    ensures var (flag, r1) := Break(COMMA, msg);
            && flag == ATTR_N && r1 != []
            && Break(COMMA, r1[1..]) == (a, [COMMA] + bare)
  {
    var r1 := a + ([COMMA] + bare);
    assert msg == ATTR_N + ([COMMA] + r1);
    BreakUnique(COMMA, ATTR_N, [COMMA] + r1);
    assert ([COMMA] + r1)[1..] == r1;
    BreakUnique(COMMA, a, [COMMA] + bare);
  }

  lemma {:induction false} CleanName(u: Bytes)
    ensures NUL in EncodeUsername(u) <==> NUL in u
    ensures EncodeUsername(u) == [] <==> u == []
  {
    if u != [] {
      CleanName(u[1..]);
      assert NUL in u <==> u[0] == NUL || NUL in u[1..];
    }
  }

  /** A name is read back exactly when it is nonempty and has no NUL. */
  lemma NameBack(u: Bytes)
    ensures ReadName(EncodeUsername(u)) == if u == [] || NUL in u then None else Some(u)
  {
    CleanName(u);
    UsernameRoundTrip(u);
  }

  /** What the encoding writes after the equals sign. */
  function Code(b: bv8): Bytes {
    if b == COMMA then [0x32, 0x43] else [0x33, 0x44]
  }

  /** An authorization identity that a server takes for another one: its encoding begins with `a=`. */
  predicate Mistaken(authzid: Bytes) {
    |authzid| >= 2 && authzid[0] == 0x61 && (authzid[1] == COMMA || authzid[1] == EQUALS) && NUL !in authzid[2..]
  }

  lemma PlainByte(x: bv8, s: Bytes)
    requires x != COMMA && x != EQUALS
    ensures EncodeUsername([x] + s) == [x] + EncodeUsername(s)
  {
    assert ([x] + s)[1..] == s;
  }

  lemma PlainPair(x: bv8, y: bv8, s: Bytes)
    requires x != COMMA && x != EQUALS && y != COMMA && y != EQUALS
    ensures EncodeUsername([x, y] + s) == [x, y] + EncodeUsername(s)
  {
    PlainByte(y, s);
    PlainByte(x, [y] + s);
    Pair(x, y, s);
    Pair(x, y, EncodeUsername(s));
  }

  lemma Pair(x: bv8, y: bv8, s: Bytes)
    ensures [x] + ([y] + s) == [x, y] + s
  {}

  /** The written form of a character is read as part of a name, like any other text. */
  lemma CodeRead(b: bv8, rest: Bytes)
    ensures ReadName(Code(b) + EncodeUsername(rest)) == if NUL in rest then None else Some(Code(b) + rest)
  {
    var code := Code(b);
    assert code == [code[0], code[1]];
    PlainPair(code[0], code[1], rest);
    NameBack(code + rest);
    assert NUL in code + rest <==> NUL in rest;
  }

  lemma EncodedHead(u: Bytes)
    requires u != []
    ensures EncodeUsername(u) != []
    ensures if u[0] == COMMA || u[0] == EQUALS
            then EncodeUsername(u) == [EQUALS] + (Code(u[0]) + EncodeUsername(u[1..]))
            else EncodeUsername(u)[0] == u[0] && u[0] != EQUALS
  {
    if u[0] == COMMA || u[0] == EQUALS {
      var code := if u[0] == COMMA then [EQUALS, 0x32, 0x43] else [EQUALS, 0x33, 0x44];
      assert code == [EQUALS] + Code(u[0]);
      Regroup([EQUALS], Code(u[0]), EncodeUsername(u[1..]));
    }
  }

  lemma Regroup(a: Bytes, b: Bytes, c: Bytes)
    ensures a + b + c == a + (b + c)
  {}

  lemma EncodedStart(authzid: Bytes)
    requires |authzid| >= 1 && authzid[0] == 0x61
    ensures if |authzid| >= 2 && (authzid[1] == COMMA || authzid[1] == EQUALS)
            then EncodeUsername(authzid) == A_EQUALS + (Code(authzid[1]) + EncodeUsername(authzid[2..]))
            else !(A_EQUALS <= EncodeUsername(authzid))
  {
    var rest := authzid[1..];
    assert EncodeUsername(authzid) == [0x61] + EncodeUsername(rest);
    StartsWith(EncodeUsername(rest));
    if rest != [] {
      EncodedHead(rest);
      if rest[0] == COMMA || rest[0] == EQUALS {
        assert rest[1..] == authzid[2..];
        Pair(0x61, EQUALS, Code(rest[0]) + EncodeUsername(rest[1..]));
      }
    }
  }

  lemma StartsWith(more: Bytes)
    ensures A_EQUALS <= [0x61] + more <==> more != [] && more[0] == EQUALS
  {
    var all := [0x61] + more;
    if more != [] { assert all[1] == more[0]; }
  }

  /** What a server makes of the authorization identity, which the client writes without the `a=` of the standard: only
      the empty one is read back. The others are refused, apart from those whose encoding happens to begin with `a=`:
      they are taken for a different identity. */
  lemma AuthzidRead(authzid: Bytes)
    ensures ReadAuthzid(EncodeUsername(authzid)) ==
            if authzid == [] then Some([])
            else if Mistaken(authzid) then Some(Code(authzid[1]) + authzid[2..])
            else None
    ensures ReadAuthzid(EncodeUsername(authzid)) == Some(authzid) <==> authzid == []
  {
    if authzid != [] && authzid[0] == 0x61 {
      EncodedStart(authzid);
      if |authzid| >= 2 && (authzid[1] == COMMA || authzid[1] == EQUALS) {
        var name := Code(authzid[1]) + EncodeUsername(authzid[2..]);
        assert (A_EQUALS + name)[2..] == name;
        CodeRead(authzid[1], authzid[2..]);
      }
    }
  }

  /** The smallest failing identity, `b`: a server that follows the standard refuses the first message. */
  lemma AuthzidRefused(c: Crypto, user: Bytes, pass: Bytes, nonce: Bytes)
    ensures ReadClientFirst(InitiateScram(c, user, [0x62], pass, nonce).0) == None
  {
    var (msg, p) := InitiateScram(c, user, [0x62], pass, nonce);
    HeaderBack(msg, EncodeUsername([0x62]), p.clientFirstBare);
    AuthzidRead([0x62]);
  }

  lemma BareFields(user: Bytes, nonce: Bytes)
    ensures var attrs := ParseMessage(Attribute(ATTR_N, EncodeUsername(user)) + [COMMA] + Attribute(ATTR_R, nonce));
            if COMMA in nonce then |attrs| > 2 else attrs == [(ATTR_N, EncodeUsername(user)), (ATTR_R, nonce)]
  {
    if COMMA in nonce {
      var a, b := Attribute(ATTR_N, EncodeUsername(user)), Attribute(ATTR_R, nonce);
      FieldsCons(a, b);
      assert b[|b| - |nonce|..] == nonce;
      assert COMMA in b;
    } else {
      Parse2(ATTR_N, EncodeUsername(user), ATTR_R, nonce);
    }
  }

  /** The server reads back what the client meant exactly when there is no authorization identity, the user name is
      nonempty and has no NUL, and the nonce is printable. */
  lemma ClientFirstBack(c: Crypto, user: Bytes, authzid: Bytes, pass: Bytes, nonce: Bytes)
    ensures var (msg, p) := InitiateScram(c, user, authzid, pass, nonce);
            var gs2Header := GS2_N + EncodeUsername(authzid) + [COMMA];
            && p.cbindInput == c.encode64(gs2Header)
            && (ReadClientFirst(msg) == Some(ClientFirst(authzid, user, nonce, gs2Header, p.clientFirstBare))
                <==> authzid == [] && user != [] && NUL !in user && Printable(nonce))
  {
    var (msg, p) := InitiateScram(c, user, authzid, pass, nonce);
    HeaderBack(msg, EncodeUsername(authzid), p.clientFirstBare);
    BareFields(user, nonce);
    AuthzidRead(authzid);
    NameBack(user);
  }

  lemma ServerFirstIs(c: Crypto, r: Record, nonce: Bytes)
    ensures ServerFirst(c, r, nonce)
         == Attribute(ATTR_R, nonce) + [COMMA] + Attribute(ATTR_S, c.encode64(r.salt)) + [COMMA]
            + Attribute(ATTR_I, Decimal(r.iterations))
  {
    var salt, count := c.encode64(r.salt), Decimal(r.iterations);
    LetterTexts();
    AttributeText('r', nonce);
    AttributeText('s', salt);
    AttributeText('i', count);
    var head := Attribute(ATTR_R, nonce);
    Regroup(head, Ascii(",s="), salt);
    Regroup(head, [COMMA], Attribute(ATTR_S, salt));
    Regroup(head + [COMMA] + Attribute(ATTR_S, salt), Ascii(",i="), count);
    Regroup(head + [COMMA] + Attribute(ATTR_S, salt), [COMMA], Attribute(ATTR_I, count));
  }

  lemma WithoutProofIs(cbind: Bytes, nonce: Bytes)
    ensures WithoutProof(cbind, nonce) == Attribute(ATTR_C, cbind) + [COMMA] + Attribute(ATTR_R, nonce)
  {
    LetterTexts();
    AttributeText('c', cbind);
    AttributeText('r', nonce);
    Regroup(Attribute(ATTR_C, cbind), Ascii(",r="), nonce);
    Regroup(Attribute(ATTR_C, cbind), [COMMA], Attribute(ATTR_R, nonce));
  }

  /** The client's final message. */
  function ClientFinal(c: Crypto, withoutProof: Bytes, proof: Bytes): Bytes {
    withoutProof + Ascii(",p=") + c.encode64(proof)
  }

  lemma ClientFinalIs(c: Crypto, withoutProof: Bytes, proof: Bytes)
    ensures ClientFinal(c, withoutProof, proof) == withoutProof + [COMMA] + Attribute(ATTR_P, c.encode64(proof))
  {
    LetterTexts();
    AttributeText('p', c.encode64(proof));
    Regroup(withoutProof, Ascii(",p="), c.encode64(proof));
    Regroup(withoutProof, [COMMA], Attribute(ATTR_P, c.encode64(proof)));
  }

  /** The client's first message, as text. */
  lemma ClientFirstText(c: Crypto, user: Bytes, authzid: Bytes, pass: Bytes, nonce: Bytes)
    ensures var (msg, p) := InitiateScram(c, user, authzid, pass, nonce);
            && p.clientFirstBare == Ascii("n=") + EncodeUsername(user) + Ascii(",r=") + nonce
            && msg == Ascii("n,") + EncodeUsername(authzid) + Ascii(",") + p.clientFirstBare
            && p.cbindInput == c.encode64(Ascii("n,") + EncodeUsername(authzid) + Ascii(","))
            && p.password == pass && p.nonce == nonce
  {
    Texts();
    LetterTexts();
    AttributeText('n', EncodeUsername(user));
    AttributeText('r', nonce);
    var head := Attribute(ATTR_N, EncodeUsername(user));
    Regroup(head, Ascii(",r="), nonce);
    Regroup(head, [COMMA], Attribute(ATTR_R, nonce));
  }

  /** What the client answers to an honest server: the message, the proof and the expected signature of the standard. */
  lemma ClientAnswers(c: Crypto, p: Phase1, salt: Bytes, i: nat, ext: Bytes)
    requires Lawful(c) && i >= 1 && COMMA !in p.nonce && COMMA !in ext && ext != []
    ensures var first := ServerFirst(c, Enroll(c, p.password, salt, i), p.nonce + ext);
            var withoutProof := WithoutProof(p.cbindInput, p.nonce + ext);
            var auth := AuthMessage(p.clientFirstBare, first, withoutProof);
            var salted := HiSpec(c, p.password, salt, i);
            AddServerFirst(c, p, first)
              == Done((ClientFinal(c, withoutProof, Proof(c, salted, auth)),
                       Phase2(c.encode64(Signature(c, salted, auth)))))
  {
    var nonce := p.nonce + ext;
    var first := ServerFirst(c, Enroll(c, p.password, salt, i), nonce);
    ServerFirstIs(c, Enroll(c, p.password, salt, i), nonce);
    ReadDecimal(i);
    Parse3(ATTR_R, nonce, ATTR_S, c.encode64(salt), ATTR_I, Decimal(i));
    HiIsSpec(c, p.password, salt, i);
    AnswerIs(c, p, first, nonce, salt, i);
  }

  lemma AnswerIs(c: Crypto, p: Phase1, first: Bytes, nonce: Bytes, salt: Bytes, i: nat)
    requires Lawful(c) && i >= 1 && p.nonce < nonce
    requires ParseMessage(first) == [(ATTR_R, nonce), (ATTR_S, c.encode64(salt)), (ATTR_I, Decimal(i))]
    requires ReadInt(Decimal(i)) == Some((i, [])) && Hi(c, p.password, salt, i) == Some(HiSpec(c, p.password, salt, i))
    ensures var withoutProof := WithoutProof(p.cbindInput, nonce);
            var auth := AuthMessage(p.clientFirstBare, first, withoutProof);
            var salted := HiSpec(c, p.password, salt, i);
            AddServerFirst(c, p, first)
              == Done((ClientFinal(c, withoutProof, Proof(c, salted, auth)),
                       Phase2(c.encode64(Signature(c, salted, auth)))))
  {
    var withoutProof := WithoutProof(p.cbindInput, nonce);
    var auth := AuthMessage(p.clientFirstBare, first, withoutProof);
    var salted := HiSpec(c, p.password, salt, i);
    Texts();
    WithoutProofIs(p.cbindInput, nonce);
    StepIsStandard(c, salted, auth);
    ClientFinalIs(c, withoutProof, Proof(c, salted, auth));
  }

  /** The proof lets the server recover the client's key, and the server's signature is the one the client expects; but
      the server goes on only when the binding is the header it was sent. */
  lemma ServerAccepts(c: Crypto, r: Record, pass: Bytes, gs2Header: Bytes, bare: Bytes, nonce: Bytes, first: Bytes,
                      cbind: Bytes)
    requires Lawful(c) && COMMA !in nonce && COMMA !in cbind
    requires r.iterations >= 1 && r == Enroll(c, pass, r.salt, r.iterations)
    ensures var withoutProof := WithoutProof(cbind, nonce);
            var auth := AuthMessage(bare, first, withoutProof);
            var salted := HiSpec(c, pass, r.salt, r.iterations);
            ServerCheck(c, r, gs2Header, bare, nonce, first, ClientFinal(c, withoutProof, Proof(c, salted, auth)))
              == if c.decode64(cbind) == Some(gs2Header) then Some(Signature(c, salted, auth)) else None
  {
    var withoutProof := WithoutProof(cbind, nonce);
    var auth := AuthMessage(bare, first, withoutProof);
    var salted := HiSpec(c, pass, r.salt, r.iterations);
    var proof := Proof(c, salted, auth);
    WithoutProofIs(cbind, nonce);
    ClientFinalIs(c, withoutProof, proof);
    Parse3(ATTR_C, cbind, ATTR_R, nonce, ATTR_P, c.encode64(proof));
    CombineCancels(c.hmac(salted, Ascii("Client Key")), c.hmac(r.storedKey, auth));
  }

  /** Server answer and client expectation belong together. */
  lemma ClientMeetsServer(c: Crypto, p: Phase1, gs2Header: Bytes, salt: Bytes, i: nat, ext: Bytes)
    requires Lawful(c) && i >= 1 && COMMA !in p.nonce && COMMA !in ext && ext != []
    requires p.cbindInput == c.encode64(gs2Header)
    ensures var r := Enroll(c, p.password, salt, i);
            var first := ServerFirst(c, r, p.nonce + ext);
            && AddServerFirst(c, p, first).Done?
            && var (final, p2) := AddServerFirst(c, p, first).value;
               var answer := ServerCheck(c, r, gs2Header, p.clientFirstBare, p.nonce + ext, first, final);
               answer.Some? && p2 == Phase2(c.encode64(answer.value))
  {
    var r := Enroll(c, p.password, salt, i);
    var first := ServerFirst(c, r, p.nonce + ext);
    ClientAnswers(c, p, salt, i, ext);
    ServerAccepts(c, r, p.password, gs2Header, p.clientFirstBare, p.nonce + ext, first, p.cbindInput);
  }

  lemma OnlyThisSignature(c: Crypto, expected: Bytes, signature: Bytes)
    requires Lawful(c)
    ensures AddServerFinal(Phase2(c.encode64(expected)), ServerFinal(c, signature)) <==> signature == expected
  {
    LetterTexts();
    AttributeText('v', c.encode64(signature));
    Parse1(ATTR_V, c.encode64(signature));
    assert c.decode64(c.encode64(signature)) == Some(signature);
    assert c.decode64(c.encode64(expected)) == Some(expected);
  }

  /** Completeness of the whole exchange without an authorization identity: for every user name the standard can carry,
      every password, salt and positive iteration count, a server reads the names and the nonce from the first message,
      finds the header it was sent and a client key that hashes to what it has stored in the final one, and the client
      accepts the signature it answers with, and no other signature. */
  lemma ExchangeSucceeds(c: Crypto, user: Bytes, pass: Bytes, nonce: Bytes, ext: Bytes, salt: Bytes, i: nat)
    requires Lawful(c) && i >= 1 && COMMA !in ext && ext != []
    requires user != [] && NUL !in user && Printable(nonce)
    ensures var (msg, p1) := InitiateScram(c, user, [], pass, nonce);
            var r := Enroll(c, pass, salt, i);
            var first := ServerFirst(c, r, nonce + ext);
            var read := ReadClientFirst(msg);
            && read.Some? && read.value.authzid == [] && read.value.user == user && read.value.nonce == nonce
            && AddServerFirst(c, p1, first).Done?
            && var (final, p2) := AddServerFirst(c, p1, first).value;
               var answer := ServerCheck(c, r, read.value.gs2Header, read.value.bare, nonce + ext, first, final);
               && answer.Some?
               && forall signature :: AddServerFinal(p2, ServerFinal(c, signature)) <==> signature == answer.value
  {
    var (msg, p1) := InitiateScram(c, user, [], pass, nonce);
    var r := Enroll(c, pass, salt, i);
    var first := ServerFirst(c, r, nonce + ext);
    ClientFirstBack(c, user, [], pass, nonce);
    var read := ReadClientFirst(msg).value;
    ClientMeetsServer(c, p1, read.gs2Header, salt, i, ext);
    var (final, p2) := AddServerFirst(c, p1, first).value;
    var answer := ServerCheck(c, r, read.gs2Header, read.bare, nonce + ext, first, final);
    forall signature
      ensures AddServerFinal(p2, ServerFinal(c, signature)) <==> signature == answer.value
    {
      OnlyThisSignature(c, answer.value, signature);
    }
  }

  // ----- Every message a server may send first -----

  /** The message is `r=nonce,s=salt,i=count`, whatever follows; the equals sign of an empty salt may be missing. */
  predicate Offers(msg: Bytes, nonce: Bytes, salt: Bytes, count: Bytes, tail: Bytes) {
    && COMMA !in nonce && COMMA !in salt && COMMA !in count && (tail != [] ==> tail[0] == COMMA)
    && (|| msg == OfferedWith(Attribute(ATTR_S, salt), nonce, count, tail)
        || (salt == [] && msg == OfferedWith(ATTR_S, nonce, count, tail)))
  }

  function OfferedWith(salt: Bytes, nonce: Bytes, count: Bytes, tail: Bytes): Bytes {
    Attribute(ATTR_R, nonce) + ([COMMA] + (salt + ([COMMA] + (Attribute(ATTR_I, count) + tail))))
  }

  lemma FirstField(a: Bytes, rest: Bytes)
    requires COMMA !in a && (rest != [] ==> rest[0] == COMMA)
    ensures SplitFields(a + rest) == [a] + (if rest == [] then [] else SplitFields(rest[1..]))
  {
    BreakUnique(COMMA, a, rest);
  }

  lemma ThreeFields(a: Bytes, b: Bytes, d: Bytes, tail: Bytes)
    requires COMMA !in a && COMMA !in b && COMMA !in d && (tail != [] ==> tail[0] == COMMA)
    ensures var fields := SplitFields(a + ([COMMA] + (b + ([COMMA] + (d + tail)))));
            |fields| >= 3 && fields[0] == a && fields[1] == b && fields[2] == d
  {
    var r2 := [COMMA] + (d + tail);
    var r1 := [COMMA] + (b + r2);
    assert r1[1..] == b + r2 && r2[1..] == d + tail;
    FirstField(a, r1);
    FirstField(b, r2);
    FirstField(d, tail);
  }

  lemma OffersRead(msg: Bytes, nonce: Bytes, salt: Bytes, count: Bytes, tail: Bytes)
    requires Offers(msg, nonce, salt, count, tail)
    ensures var attrs := ParseMessage(msg);
            |attrs| >= 3 && attrs[0] == (ATTR_R, nonce) && attrs[1] == (ATTR_S, salt) && attrs[2] == (ATTR_I, count)
  {
    var full := Attribute(ATTR_S, salt);
    var field := if msg == OfferedWith(full, nonce, count, tail) then full else ATTR_S;
    ThreeFields(Attribute(ATTR_R, nonce), field, Attribute(ATTR_I, count), tail);
    KeyValueBack(ATTR_R, nonce);
    KeyValueBack(ATTR_S, salt);
    KeyValueBack(ATTR_I, count);
    BreakUnique(EQUALS, ATTR_S, []);
    assert ATTR_S + [] == ATTR_S;
  }

  /** The whole count is a number exactly when it is a numeral. */
  lemma CountIsNumeral(count: Bytes)
    ensures ReadInt(count).Some? && ReadInt(count).value.1 == [] <==> Numeral(count)
    ensures Numeral(count) ==> ReadInt(count) == Some((NumeralValue(count), []))
  {
    assert count + [] == count;
    if Numeral(count) { NumeralRead(count, []); }
    OnlyNumeralsRead(count);
    if ReadInt(count).Some? && ReadInt(count).value.1 == [] {
      var k :| 0 < k <= |count| && Numeral(count[..k])
               && ReadInt(count).value == (NumeralValue(count[..k]), count[k..]);
      assert count[..k] == count;
    }
  }

  /** An offer is refused exactly when its nonce does not go on from the client's, its salt is not base64 or its count
      is not a decimal number, whatever extensions follow; when it is not refused, a count below one leaves the
      derivation without anything to fold. */
  lemma OfferRefused(c: Crypto, p: Phase1, msg: Bytes, nonce: Bytes, salt: Bytes, count: Bytes, tail: Bytes)
    requires Offers(msg, nonce, salt, count, tail)
    ensures var answer := AddServerFirst(c, p, msg);
            && (answer.Rejected? <==> !(p.nonce < nonce && c.decode64(salt).Some? && Numeral(count)))
            && (answer.Undefined? <==> !answer.Rejected? && NumeralValue(count) <= 0)
  {
    OffersRead(msg, nonce, salt, count, tail);
    CountIsNumeral(count);
    ThirdRead(c, p, msg);
  }

  /** What becomes of a first message with the three attributes. */
  lemma ThirdRead(c: Crypto, p: Phase1, msg: Bytes)
    requires var attrs := ParseMessage(msg);
             |attrs| >= 3 && attrs[0].0 == ATTR_R && attrs[1].0 == ATTR_S && attrs[2].0 == ATTR_I
    ensures var attrs, answer := ParseMessage(msg), AddServerFirst(c, p, msg);
            var count := ReadInt(attrs[2].1);
            && (answer.Rejected? <==> !(p.nonce < attrs[0].1 && c.decode64(attrs[1].1).Some?
                                        && count.Some? && count.value.1 == []))
            && (answer.Undefined? <==> !answer.Rejected? && count.value.0 <= 0)
  {}

  /** A field up to the first comma, and the fields after it. */
  lemma FieldsInverse(msg: Bytes)
    ensures var (a, rest) := Break(COMMA, msg);
            && msg == a + rest && COMMA !in a && SplitFields(msg)[0] == a
            && (|SplitFields(msg)| > 1 ==> rest != [] && rest == [COMMA] + rest[1..]
                                           && SplitFields(msg)[1..] == SplitFields(rest[1..]))
  {}

  lemma FieldIs(field: Bytes, name: Bytes)
    requires KeyValue(field).0 == name && COMMA !in field
    ensures COMMA !in KeyValue(field).1
    ensures field == Attribute(name, KeyValue(field).1) || (field == name && KeyValue(field).1 == [])
  {
    var (key, value) := Break(EQUALS, field);
    if value != [] {
      assert value == [EQUALS] + value[1..];
    }
  }

  /** Nothing but an offer is ever answered: every first message that is not refused has the form of one. */
  lemma OnlyOffersAnswered(c: Crypto, p: Phase1, msg: Bytes)
    ensures !AddServerFirst(c, p, msg).Rejected? ==>
              exists nonce, salt, count, tail :: Offers(msg, nonce, salt, count, tail)
  {
    var attrs := ParseMessage(msg);
    if !AddServerFirst(c, p, msg).Rejected? {
      var fields := SplitFields(msg);
      FieldsInverse(msg);
      var r1 := Break(COMMA, msg).1[1..];
      FieldsInverse(r1);
      var r2 := Break(COMMA, r1).1[1..];
      FieldsInverse(r2);
      var tail := Break(COMMA, r2).1;
      assert fields[1] == fields[1..][0] && fields[2] == fields[1..][1..][0];
      FieldIs(fields[0], ATTR_R);
      FieldIs(fields[1], ATTR_S);
      FieldIs(fields[2], ATTR_I);
      assert KeyValue(fields[0]).1 != [];
      assert KeyValue(fields[2]).1 != [];
      assert Offers(msg, attrs[0].1, attrs[1].1, attrs[2].1, tail);
    }
  }
}
