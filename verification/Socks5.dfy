/** SOCKS5 messages (hookup/src/Hookup/Socks5.hs, sections 3 to 6 of RFC 1928 and section 2 of RFC 1929) and the
    client's handshake (hookup/src/Hookup.hs). */
module Socks5 {
  import opened Text
  import opened Identifiers

  type Bytes = seq<byte>

  newtype word16 = x: int | 0 <= x < 0x1_0000

  const IPV4_TAG: byte := 1
  const DOMAIN_TAG: byte := 3
  const IPV6_TAG: byte := 4

  type AuthMethod = byte
  const NO_AUTHENTICATION: AuthMethod := 0x00
  const USERNAME_PASSWORD: AuthMethod := 0x02

  type Command = byte
  const CONNECT: Command := 1

  type CommandReply = byte
  const SUCCEEDED: CommandReply := 0

  datatype Host =
    | IPv4(a1: byte, a2: byte, a3: byte, a4: byte)
    | IPv6(words: seq<word16>)
    | DomainName(name: Bytes)

  datatype Address = Address(host: Host, port: word16)
  datatype ClientHello = ClientHello(methods: seq<AuthMethod>)
  datatype ServerHello = ServerHello(chosen: AuthMethod)
  datatype Request = Request(command: Command, address: Address)
  datatype Response = Response(reply: CommandReply, address: Address)
  datatype PlainAuthentication = PlainAuthentication(username: Bytes, password: Bytes)
  datatype PlainAuthenticationReply = PlainAuthenticationReply(status: byte)

  /** A parser either finishes with the bytes it did not need, needs more input, or fails. */
  datatype Parse<+T> = Done(value: T, rest: Bytes) | More | Bad

  // ----- Builders; too long a name or list is an error -----

  function Word16BE(w: word16): Bytes {
    [(w as int / 0x100) as byte, (w as int % 0x100) as byte]
  }

  function BuildWords(ws: seq<word16>): (r: Bytes)
    ensures |r| == 2 * |ws|
  {
    if ws == [] then [] else Word16BE(ws[0]) + BuildWords(ws[1..])
  }

  function BuildHost(h: Host): Option<Bytes> {
    match h
    case IPv4(a1, a2, a3, a4) => Some([IPV4_TAG, a1, a2, a3, a4])
    case IPv6(words) => if |words| == 8 then Some([IPV6_TAG] + BuildWords(words)) else None
    case DomainName(name) => if |name| < 256 then Some([DOMAIN_TAG, |name| as byte] + name) else None
  }

  function BuildAddress(a: Address): Option<Bytes> {
    match BuildHost(a.host)
    case None => None
    case Some(h) => Some(h + Word16BE(a.port))
  }

  function BuildClientHello(m: ClientHello): Option<Bytes> {
    if |m.methods| < 256 then Some([5, |m.methods| as byte] + m.methods) else None
  }

  function BuildServerHello(m: ServerHello): Bytes {
    [5, m.chosen]
  }

  function BuildRequest(m: Request): Option<Bytes> {
    Framed(m.command, 0, m.address)
  }

  function BuildResponse(m: Response): Option<Bytes> {
    Framed(m.reply, 0, m.address)
  }

  /** Version, code, reserved byte, address: requests and responses have the same shape. */
  function Framed(code: byte, reserved: byte, a: Address): Option<Bytes> {
    match BuildAddress(a)
    case None => None
    case Some(bs) => Some([5, code, reserved] + bs)
  }

  /** The length byte is the length modulo 256; the caller has to check it. */
  function BuildPlainAuthentication(m: PlainAuthentication): Bytes {
    [1] + LengthPrefixed(m.username) + LengthPrefixed(m.password)
  }

  function LengthPrefixed(bs: Bytes): Bytes {
    [(|bs| % 256) as byte] + bs
  }

  function BuildPlainAuthenticationReply(m: PlainAuthenticationReply): Bytes {
    [1, m.status]
  }

  // ----- Parsers -----

  function AnyWord8(s: Bytes): Parse<byte> {
    if s == [] then More else Done(s[0], s[1..])
  }

  function Word8(b: byte, s: Bytes): Parse<()> {
    if s == [] then More else if s[0] == b then Done((), s[1..]) else Bad
  }

  function Take(n: nat, s: Bytes): Parse<Bytes> {
    if |s| < n then More else Done(s[..n], s[n..])
  }

  function ParseWord16BE(s: Bytes): Parse<word16> {
    match AnyWord8(s)
    case More => More
    case Bad => Bad
    case Done(hi, r) =>
      match AnyWord8(r)
      case More => More
      case Bad => Bad
      case Done(lo, rest) => Done((hi as int * 0x100 + lo as int) as word16, rest)
  }

  function ParseWords(n: nat, s: Bytes): Parse<seq<word16>> {
    if n == 0 then Done([], s)
    else
      match ParseWord16BE(s)
      case More => More
      case Bad => Bad
      case Done(w, r) =>
        match ParseWords(n - 1, r)
        case More => More
        case Bad => Bad
        case Done(ws, rest) => Done([w] + ws, rest)
  }

  /** A length byte and that many bytes. */
  function ParseCounted(s: Bytes): Parse<Bytes> {
    match AnyWord8(s)
    case More => More
    case Bad => Bad
    case Done(n, r) => Take(n as nat, r)
  }

  function ParseHost(s: Bytes): Parse<Host> {
    match AnyWord8(s)
    case More => More
    case Bad => Bad
    case Done(tag, r) =>
      if tag == IPV4_TAG then
        match Take(4, r)
        case More => More
        case Bad => Bad
        case Done(b, rest) => Done(IPv4(b[0], b[1], b[2], b[3]), rest)
      else if tag == IPV6_TAG then
        match ParseWords(8, r)
        case More => More
        case Bad => Bad
        case Done(ws, rest) => Done(IPv6(ws), rest)
      else if tag == DOMAIN_TAG then
        match ParseCounted(r)
        case More => More
        case Bad => Bad
        case Done(name, rest) => Done(DomainName(name), rest)
      else Bad
  }

  function ParseAddress(s: Bytes): Parse<Address> {
    match ParseHost(s)
    case More => More
    case Bad => Bad
    case Done(host, r) =>
      match ParseWord16BE(r)
      case More => More
      case Bad => Bad
      case Done(port, rest) => Done(Address(host, port), rest)
  }

  /** Version, code, any reserved byte, address. */
  function ParseFramed(s: Bytes): Parse<(byte, Address)> {
    match Word8(5, s)
    case More => More
    case Bad => Bad
    case Done(_, r1) =>
      match AnyWord8(r1)
      case More => More
      case Bad => Bad
      case Done(code, r2) =>
        match AnyWord8(r2)
        case More => More
        case Bad => Bad
        case Done(_, r3) =>
          match ParseAddress(r3)
          case More => More
          case Bad => Bad
          case Done(a, rest) => Done((code, a), rest)
  }

  function ParseRequest(s: Bytes): Parse<Request> {
    match ParseFramed(s)
    case More => More
    case Bad => Bad
    case Done(m, rest) => Done(Request(m.0, m.1), rest)
  }

  function ParseResponse(s: Bytes): Parse<Response> {
    match ParseFramed(s)
    case More => More
    case Bad => Bad
    case Done(m, rest) => Done(Response(m.0, m.1), rest)
  }

  function ParseClientHello(s: Bytes): Parse<ClientHello> {
    match Word8(5, s)
    case More => More
    case Bad => Bad
    case Done(_, r) =>
      match ParseCounted(r)
      case More => More
      case Bad => Bad
      case Done(ms, rest) => Done(ClientHello(ms), rest)
  }

  function ParseServerHello(s: Bytes): Parse<ServerHello> {
    match Word8(5, s)
    case More => More
    case Bad => Bad
    case Done(_, r) =>
      match AnyWord8(r)
      case More => More
      case Bad => Bad
      case Done(m, rest) => Done(ServerHello(m), rest)
  }

  function ParsePlainAuthentication(s: Bytes): Parse<PlainAuthentication> {
    match Word8(1, s)
    case More => More
    case Bad => Bad
    case Done(_, r1) =>
      match ParseCounted(r1)
      case More => More
      case Bad => Bad
      case Done(u, r2) =>
        match ParseCounted(r2)
        case More => More
        case Bad => Bad
        case Done(p, rest) => Done(PlainAuthentication(u, p), rest)
  }

  function ParsePlainAuthenticationReply(s: Bytes): Parse<PlainAuthenticationReply> {
    match Word8(1, s)
    case More => More
    case Bad => Bad
    case Done(_, r) =>
      match AnyWord8(r)
      case More => More
      case Bad => Bad
      case Done(b, rest) => Done(PlainAuthenticationReply(b), rest)
  }

  // ----- Parsers look only at what they need -----

  /** With `t` more bytes of input a finished parser leaves them over and a failed one still fails. */
  predicate Extends<T(==)>(before: Parse<T>, after: Parse<T>, t: Bytes) {
    match before
    case Done(v, rest) => after == Done(v, rest + t)
    case Bad => after == Bad
    case More => true
  }

  lemma AnyExtends(s: Bytes, t: Bytes)
    ensures Extends(AnyWord8(s), AnyWord8(s + t), t)
  {
    if s != [] { assert (s + t)[1..] == s[1..] + t; }
  }

  lemma Word8Extends(b: byte, s: Bytes, t: Bytes)
    ensures Extends(Word8(b, s), Word8(b, s + t), t)
  {
    if s != [] { assert (s + t)[1..] == s[1..] + t; }
  }

  lemma TakeExtends(n: nat, s: Bytes, t: Bytes)
    ensures Extends(Take(n, s), Take(n, s + t), t)
  {
    if |s| >= n { assert (s + t)[..n] == s[..n] && (s + t)[n..] == s[n..] + t; }
  }

  lemma WordExtends(s: Bytes, t: Bytes)
    ensures Extends(ParseWord16BE(s), ParseWord16BE(s + t), t)
  {
    AnyExtends(s, t);
    if s != [] { AnyExtends(s[1..], t); }
  }

  lemma {:induction false} WordsExtends(n: nat, s: Bytes, t: Bytes)
    ensures Extends(ParseWords(n, s), ParseWords(n, s + t), t)
  {
    if n > 0 {
      WordExtends(s, t);
      if ParseWord16BE(s).Done? { WordsExtends(n - 1, ParseWord16BE(s).rest, t); }
    }
  }

  lemma CountedExtends(s: Bytes, t: Bytes)
    ensures Extends(ParseCounted(s), ParseCounted(s + t), t)
  {
    AnyExtends(s, t);
    if s != [] { TakeExtends(s[0] as nat, s[1..], t); }
  }

  lemma HostExtends(s: Bytes, t: Bytes)
    ensures Extends(ParseHost(s), ParseHost(s + t), t)
  {
    AnyExtends(s, t);
    if s != [] {
      TakeExtends(4, s[1..], t);
      WordsExtends(8, s[1..], t);
      CountedExtends(s[1..], t);
    }
  }

  lemma AddressExtends(s: Bytes, t: Bytes)
    ensures Extends(ParseAddress(s), ParseAddress(s + t), t)
  {
    HostExtends(s, t);
    if ParseHost(s).Done? { WordExtends(ParseHost(s).rest, t); }
  }

  lemma FramedExtends(s: Bytes, t: Bytes)
    ensures Extends(ParseFramed(s), ParseFramed(s + t), t)
  {
    Word8Extends(5, s, t);
    if s != [] && s[0] == 5 {
      var r1 := s[1..];
      AnyExtends(r1, t);
      if r1 != [] {
        AnyExtends(r1[1..], t);
        if r1[1..] != [] { AddressExtends(r1[1..][1..], t); }
      }
    }
  }

  // ----- What each parser has read -----

  lemma WordBack(w: word16, rest: Bytes)
    ensures ParseWord16BE(Word16BE(w) + rest) == Done(w, rest)
  {
    var s := Word16BE(w) + rest;
    assert s[1..][1..] == rest;
  }

  lemma WordExact(s: Bytes)
    ensures ParseWord16BE(s).Done? ==> s == Word16BE(ParseWord16BE(s).value) + ParseWord16BE(s).rest
  {
    if |s| >= 2 { assert s == [s[0], s[1]] + s[1..][1..]; }
  }

  lemma {:induction false} WordsBack(ws: seq<word16>, rest: Bytes)
    ensures ParseWords(|ws|, BuildWords(ws) + rest) == Done(ws, rest)
  {
    if ws == [] {
      assert [] + rest == rest;
    } else {
      var tail := BuildWords(ws[1..]) + rest;
      assert BuildWords(ws) + rest == Word16BE(ws[0]) + tail;
      WordBack(ws[0], tail);
      WordsBack(ws[1..], rest);
      assert ws == [ws[0]] + ws[1..];
    }
  }

  lemma {:induction false} WordsExact(n: nat, s: Bytes)
    ensures var p := ParseWords(n, s); p.Done? ==> |p.value| == n && s == BuildWords(p.value) + p.rest
  {
    if n > 0 && ParseWords(n, s).Done? {
      WordExact(s);
      var w, r := ParseWord16BE(s).value, ParseWord16BE(s).rest;
      WordsExact(n - 1, r);
      WordsCons(w, ParseWords(n - 1, r).value, ParseWords(n - 1, r).rest);
    }
  }

  lemma WordsCons(w: word16, ws: seq<word16>, rest: Bytes)
    ensures BuildWords([w] + ws) + rest == Word16BE(w) + (BuildWords(ws) + rest)
  {
    assert ([w] + ws)[1..] == ws;
    Regroup(Word16BE(w), BuildWords(ws), rest);
  }

  lemma CountedBack(name: Bytes, rest: Bytes)
    requires |name| < 256
    ensures ParseCounted([|name| as byte] + name + rest) == Done(name, rest)
  {
    var s := [|name| as byte] + name + rest;
    assert s[1..] == name + rest;
  }

  lemma CountedExact(s: Bytes)
    ensures var p := ParseCounted(s);
            p.Done? ==> |p.value| < 256 && s == [|p.value| as byte] + p.value + p.rest
  {
    if ParseCounted(s).Done? {
      var n := s[0] as nat;
      assert s == [s[0]] + s[1..][..n] + s[1..][n..];
    }
  }

  lemma HostBack(h: Host, rest: Bytes)
    requires BuildHost(h).Some?
    ensures ParseHost(BuildHost(h).value + rest) == Done(h, rest)
  {
    var s := BuildHost(h).value + rest;
    match h
    case IPv4(a1, a2, a3, a4) => assert s[1..] == [a1, a2, a3, a4] + rest;
    case IPv6(words) =>
      assert s[1..] == BuildWords(words) + rest;
      WordsBack(words, rest);
    case DomainName(name) =>
      assert s[1..] == [|name| as byte] + name + rest;
      CountedBack(name, rest);
  }

  lemma HostExact(s: Bytes)
    ensures var p := ParseHost(s); p.Done? ==> BuildHost(p.value).Some? && s == BuildHost(p.value).value + p.rest
  {
    if ParseHost(s).Done? {
      if s[0] == IPV4_TAG {
        IPv4Exact(s);
      } else if s[0] == IPV6_TAG {
        IPv6Exact(s);
      } else {
        DomainNameExact(s);
      }
    }
  }

  lemma IPv4Exact(s: Bytes)
    requires ParseHost(s).Done? && s[0] == IPV4_TAG
    ensures var p := ParseHost(s); BuildHost(p.value).Some? && s == BuildHost(p.value).value + p.rest
  {
    var r := s[1..];
    assert s == [s[0]] + r && r == [r[0], r[1], r[2], r[3]] + r[4..];
  }

  lemma IPv6Exact(s: Bytes)
    requires ParseHost(s).Done? && s[0] == IPV6_TAG
    ensures var p := ParseHost(s); BuildHost(p.value).Some? && s == BuildHost(p.value).value + p.rest
  {
    WordsExact(8, s[1..]);
    assert s == [s[0]] + s[1..];
  }

  lemma DomainNameExact(s: Bytes)
    requires ParseHost(s).Done? && s[0] == DOMAIN_TAG
    ensures var p := ParseHost(s); BuildHost(p.value).Some? && s == BuildHost(p.value).value + p.rest
  {
    CountedExact(s[1..]);
    assert s == [s[0]] + s[1..];
  }

  lemma AddressBack(a: Address, rest: Bytes)
    requires BuildAddress(a).Some?
    ensures ParseAddress(BuildAddress(a).value + rest) == Done(a, rest)
  {
    var h := BuildHost(a.host).value;
    assert BuildAddress(a).value + rest == h + (Word16BE(a.port) + rest);
    HostBack(a.host, Word16BE(a.port) + rest);
    WordBack(a.port, rest);
  }

  lemma AddressExact(s: Bytes)
    ensures var p := ParseAddress(s);
            p.Done? ==> BuildAddress(p.value).Some? && s == BuildAddress(p.value).value + p.rest
  {
    if ParseAddress(s).Done? {
      HostExact(s);
      var h, r := ParseHost(s).value, ParseHost(s).rest;
      WordExact(r);
      Regroup(BuildHost(h).value, Word16BE(ParseWord16BE(r).value), ParseWord16BE(r).rest);
    }
  }

  lemma Regroup(a: Bytes, b: Bytes, c: Bytes)
    ensures a + (b + c) == a + b + c
  {}

  lemma FramedBack(code: byte, reserved: byte, a: Address, rest: Bytes)
    requires BuildAddress(a).Some?
    ensures ParseFramed(Framed(code, reserved, a).value + rest) == Done((code, a), rest)
  {
    var s, tail := Framed(code, reserved, a).value + rest, BuildAddress(a).value + rest;
    assert s[1..] == [code, reserved] + tail;
    assert s[1..][1..] == [reserved] + tail;
    assert s[1..][1..][1..] == tail;
    AddressBack(a, rest);
  }

  lemma FramedExact(s: Bytes)
    ensures var p := ParseFramed(s);
            p.Done? ==>
              && |s| >= 3
              && BuildAddress(p.value.1).Some?
              && s == Framed(p.value.0, s[2], p.value.1).value + p.rest
  {
    if ParseFramed(s).Done? {
      var r := s[1..][1..][1..];
      assert s == [s[0], s[1], s[2]] + r;
      AddressExact(r);
      var p := ParseFramed(s);
      Regroup([s[0], s[1], s[2]], BuildAddress(p.value.1).value, p.rest);
    }
  }

  // ----- Main results: every message is self-delimiting -----

  /** Exactly the bytes `bs` are the message `m`: with anything after them the parser finishes there, on every proper
      prefix it waits for more. */
  ghost predicate Reads<T(!new)>(p: Bytes -> Parse<T>, bs: Bytes, m: T) {
    && (forall rest :: p(bs + rest) == Done(m, rest))
    && (forall k | 0 <= k < |bs| :: p(bs[..k]) == More)
  }

  lemma Delimits<T(!new)>(p: Bytes -> Parse<T>, bs: Bytes, m: T)
    requires forall s, t :: Extends(p(s), p(s + t), t)
    requires forall rest :: p(bs + rest) == Done(m, rest)
    ensures Reads(p, bs, m)
  {
    forall k | 0 <= k < |bs|
      ensures p(bs[..k]) == More
    {
      assert Extends(p(bs[..k]), p(bs[..k] + bs[k..]), bs[k..]);
      assert bs == bs[..k] + bs[k..] == bs + [];
      assert p(bs + []) == Done(m, []);
    }
  }

  lemma ResponseReads(m: Response, reserved: byte)
    requires BuildAddress(m.address).Some?
    ensures Reads(ParseResponse, Framed(m.reply, reserved, m.address).value, m)
    ensures BuildResponse(m).Some? && Reads(ParseResponse, BuildResponse(m).value, m)
  {
    ReservedFree(m, reserved);
    ReservedFree(m, 0);
  }

  lemma ReservedFree(m: Response, reserved: byte)
    requires BuildAddress(m.address).Some?
    ensures Reads(ParseResponse, Framed(m.reply, reserved, m.address).value, m)
  {
    forall s, t ensures Extends(ParseResponse(s), ParseResponse(s + t), t) { FramedExtends(s, t); }
    forall rest ensures ParseResponse(Framed(m.reply, reserved, m.address).value + rest) == Done(m, rest) {
      FramedBack(m.reply, reserved, m.address, rest);
    }
    Delimits(ParseResponse, Framed(m.reply, reserved, m.address).value, m);
  }

  lemma RequestReads(m: Request)
    requires BuildRequest(m).Some?
    ensures Reads(ParseRequest, BuildRequest(m).value, m)
  {
    forall s, t ensures Extends(ParseRequest(s), ParseRequest(s + t), t) { FramedExtends(s, t); }
    forall rest ensures ParseRequest(BuildRequest(m).value + rest) == Done(m, rest) {
      FramedBack(m.command, 0, m.address, rest);
    }
    Delimits(ParseRequest, BuildRequest(m).value, m);
  }

  lemma ClientHelloExtends(s: Bytes, t: Bytes)
    ensures Extends(ParseClientHello(s), ParseClientHello(s + t), t)
  {
    Word8Extends(5, s, t);
    if s != [] { CountedExtends(s[1..], t); }
  }

  lemma ClientHelloBack(m: ClientHello, rest: Bytes)
    requires BuildClientHello(m).Some?
    ensures ParseClientHello(BuildClientHello(m).value + rest) == Done(m, rest)
  {
    var s := BuildClientHello(m).value + rest;
    assert s[1..] == [|m.methods| as byte] + m.methods + rest;
    CountedBack(m.methods, rest);
  }

  lemma ClientHelloReads(m: ClientHello)
    requires BuildClientHello(m).Some?
    ensures Reads(ParseClientHello, BuildClientHello(m).value, m)
  {
    var bs := BuildClientHello(m).value;
    forall s, t ensures Extends(ParseClientHello(s), ParseClientHello(s + t), t) { ClientHelloExtends(s, t); }
    forall rest ensures ParseClientHello(bs + rest) == Done(m, rest) { ClientHelloBack(m, rest); }
    Delimits(ParseClientHello, bs, m);
  }

  lemma ServerHelloReads(m: ServerHello)
    ensures Reads(ParseServerHello, BuildServerHello(m), m)
  {
    var bs := BuildServerHello(m);
    forall s, t ensures Extends(ParseServerHello(s), ParseServerHello(s + t), t) {
      Word8Extends(5, s, t);
      if s != [] { AnyExtends(s[1..], t); }
    }
    forall rest ensures ParseServerHello(bs + rest) == Done(m, rest) {
      assert (bs + rest)[1..][1..] == rest;
    }
    Delimits(ParseServerHello, bs, m);
  }

  lemma PlainAuthenticationReplyReads(m: PlainAuthenticationReply)
    ensures Reads(ParsePlainAuthenticationReply, BuildPlainAuthenticationReply(m), m)
  {
    var bs := BuildPlainAuthenticationReply(m);
    forall s, t ensures Extends(ParsePlainAuthenticationReply(s), ParsePlainAuthenticationReply(s + t), t) {
      Word8Extends(1, s, t);
      if s != [] { AnyExtends(s[1..], t); }
    }
    forall rest ensures ParsePlainAuthenticationReply(bs + rest) == Done(m, rest) {
      assert (bs + rest)[1..][1..] == rest;
    }
    Delimits(ParsePlainAuthenticationReply, bs, m);
  }

  lemma PlainExtends(s: Bytes, t: Bytes)
    ensures Extends(ParsePlainAuthentication(s), ParsePlainAuthentication(s + t), t)
  {
    Word8Extends(1, s, t);
    if s != [] {
      CountedExtends(s[1..], t);
      if ParseCounted(s[1..]).Done? { CountedExtends(ParseCounted(s[1..]).rest, t); }
    }
  }

  lemma PlainBack(m: PlainAuthentication, rest: Bytes)
    requires |m.username| < 256 && |m.password| < 256
    ensures ParsePlainAuthentication(BuildPlainAuthentication(m) + rest) == Done(m, rest)
  {
    var s := BuildPlainAuthentication(m) + rest;
    var tail := [|m.password| as byte] + m.password + rest;
    assert s[1..] == [|m.username| as byte] + m.username + tail;
    CountedBack(m.username, tail);
    CountedBack(m.password, rest);
  }

  /** The length byte wraps around, so the credentials survive exactly when both are shorter than 256 bytes: the check
      the client makes before sending them. */
  lemma PlainAuthenticationReads(m: PlainAuthentication)
    ensures Reads(ParsePlainAuthentication, BuildPlainAuthentication(m), m)
       <==> |m.username| < 256 && |m.password| < 256
  {
    var bs := BuildPlainAuthentication(m);
    if |m.username| < 256 && |m.password| < 256 {
      forall s, t ensures Extends(ParsePlainAuthentication(s), ParsePlainAuthentication(s + t), t) {
        PlainExtends(s, t);
      }
      forall rest ensures ParsePlainAuthentication(bs + rest) == Done(m, rest) { PlainBack(m, rest); }
      Delimits(ParsePlainAuthentication, bs, m);
    } else if Reads(ParsePlainAuthentication, bs, m) {
      assert ParsePlainAuthentication(bs + []) == Done(m, []);
      CountedExact((bs + [])[1..]);
      CountedExact(ParseCounted((bs + [])[1..]).rest);
      assert false;
    }
  }

  // ----- The bytes of the standard -----

  /** In network byte order the high byte comes first. */
  predicate IsWord(hi: byte, lo: byte, w: word16) {
    256 * (hi as int) + lo as int == w as int
  }

  /** Sections 4 to 6 of RFC 1928: the bytes of an address. */
  predicate IsAddress(a: Address, bs: Bytes) {
    var n := |bs|;
    && n >= 4 && IsWord(bs[n - 2], bs[n - 1], a.port)
    && match a.host
       case IPv4(a1, a2, a3, a4) => bs[..n - 2] == [1, a1, a2, a3, a4]
       case DomainName(name) => |name| < 256 && bs[..n - 2] == [3, |name| as byte] + name
       case IPv6(words) =>
         n == 19 && bs[0] == 4 && |words| == 8
         && forall i | 0 <= i < 8 :: IsWord(bs[1 + 2 * i], bs[2 + 2 * i], words[i])
  }

  lemma WordBytes(hi: byte, lo: byte, w: word16)
    ensures IsWord(hi, lo, w) <==> Word16BE(w) == [hi, lo]
  {}

  lemma {:induction false} WordsBytes(ws: seq<word16>, bs: Bytes)
    requires |bs| == 2 * |ws|
    ensures BuildWords(ws) == bs <==> forall i | 0 <= i < |ws| :: IsWord(bs[2 * i], bs[2 * i + 1], ws[i])
  {
    if ws != [] {
      WordsBytes(ws[1..], bs[2..]);
      WordBytes(bs[0], bs[1], ws[0]);
      assert bs == bs[..2] + bs[2..] && bs[..2] == [bs[0], bs[1]];
      var built := BuildWords(ws);
      assert built[..2] == Word16BE(ws[0]) && built[2..] == BuildWords(ws[1..]);
      ShiftedWords(ws, bs);
    }
  }

  lemma ShiftedWords(ws: seq<word16>, bs: Bytes)
    requires |bs| == 2 * |ws| && ws != []
    ensures (forall i | 0 <= i < |ws| :: IsWord(bs[2 * i], bs[2 * i + 1], ws[i]))
       <==> IsWord(bs[0], bs[1], ws[0])
            && forall i | 0 <= i < |ws[1..]| :: IsWord(bs[2..][2 * i], bs[2..][2 * i + 1], ws[1..][i])
  {
    var rest, tail := ws[1..], bs[2..];
    assert forall i | 0 <= i < |rest| :: rest[i] == ws[i + 1] && tail[2 * i] == bs[2 * (i + 1)]
                                         && tail[2 * i + 1] == bs[2 * (i + 1) + 1];
    if forall i | 0 <= i < |rest| :: IsWord(tail[2 * i], tail[2 * i + 1], rest[i]) {
      forall i | 0 < i < |ws|
        ensures IsWord(bs[2 * i], bs[2 * i + 1], ws[i])
      {
        assert IsWord(tail[2 * (i - 1)], tail[2 * (i - 1) + 1], rest[i - 1]);
      }
    }
  }

  /** The addresses the client builds, and so those its parser reads, are exactly those of the standard. */
  lemma AddressBytes(a: Address, bs: Bytes)
    ensures BuildAddress(a) == Some(bs) <==> IsAddress(a, bs)
  {
    var n := |bs|;
    if n >= 4 {
      WordBytes(bs[n - 2], bs[n - 1], a.port);
      assert bs == bs[..n - 2] + [bs[n - 2], bs[n - 1]];
      HostBytes(a.host, bs[..n - 2]);
      if a.host.IPv6? && n == 19 { assert forall i | 0 <= i < n - 2 :: bs[..n - 2][i] == bs[i]; }
    }
    if BuildAddress(a) == Some(bs) {
      assert bs[..n - 2] == BuildHost(a.host).value && bs[n - 2..] == Word16BE(a.port);
    }
  }

  lemma HostBytes(h: Host, bs: Bytes)
    ensures BuildHost(h) == Some(bs) <==>
              match h
              case IPv4(a1, a2, a3, a4) => bs == [1, a1, a2, a3, a4]
              case DomainName(name) => |name| < 256 && bs == [3, |name| as byte] + name
              case IPv6(words) =>
                |bs| == 17 && bs[0] == 4 && |words| == 8
                && forall i | 0 <= i < 8 :: IsWord(bs[1 + 2 * i], bs[2 + 2 * i], words[i])
  {
    match h
    case IPv6(words) =>
      if |bs| == 17 && |words| == 8 {
        var tail := bs[1..];
        WordsBytes(words, tail);
        assert bs == [bs[0]] + tail;
        assert ([IPV6_TAG] + BuildWords(words))[1..] == BuildWords(words);
        assert forall i | 0 <= i < 8 :: tail[2 * i] == bs[1 + 2 * i] && tail[2 * i + 1] == bs[2 + 2 * i];
      }
    case _ =>
  }

  lemma {:induction false} WordsLength(n: nat, s: Bytes)
    ensures ParseWords(n, s) == More <==> |s| < 2 * n
    ensures ParseWords(n, s).Done? <==> |s| >= 2 * n
    ensures |s| >= 2 * n ==> ParseWords(n, s).rest == s[2 * n..]
  {
    if n > 0 && |s| >= 2 { WordsLength(n - 1, s[1..][1..]); }
  }

  /** Section 6 of RFC 1928: the bytes of a reply, which has its code in second place. */
  predicate IsReply(bs: Bytes) {
    && |bs| >= 5 && bs[0] == 5
    && (|| (bs[3] == 1 && |bs| == 10)
        || (bs[3] == 3 && |bs| == 7 + bs[4] as nat)
        || (bs[3] == 4 && |bs| == 22))
  }

  lemma HostLength(s: Bytes)
    ensures var p := ParseHost(s);
            if s != [] && s[0] == 1 then if |s| >= 5 then p.Done? && p.rest == s[5..] else p.More?
            else if s != [] && s[0] == 3 then
              if |s| >= 2 && |s| >= 2 + s[1] as nat then p.Done? && p.rest == s[2 + s[1] as nat..] else p.More?
            else if s != [] && s[0] == 4 then if |s| >= 17 then p.Done? && p.rest == s[17..] else p.More?
            else !p.Done?
  {
    if s != [] { WordsLength(8, s[1..]); }
  }

  lemma ReplyBytes(s: Bytes)
    ensures var p := ParseResponse(s); p.Done? && p.rest == [] <==> IsReply(s)
    ensures IsReply(s) ==> ParseResponse(s).value.reply == s[1]
  {
    if |s| >= 3 && s[0] == 5 {
      var r := s[1..][1..][1..];
      assert r == s[3..];
      HostLength(r);
    }
  }

  lemma HelloBytes(s: Bytes)
    ensures var p := ParseServerHello(s); p.Done? && p.rest == [] <==> |s| == 2 && s[0] == 5
    ensures |s| == 2 && s[0] == 5 ==> ParseServerHello(s).value.chosen == s[1] && s == [5, s[1]]
  {}

  lemma StatusBytes(s: Bytes)
    ensures var p := ParsePlainAuthenticationReply(s); p.Done? && p.rest == [] <==> |s| == 2 && s[0] == 1
    ensures |s| == 2 && s[0] == 1 ==> ParsePlainAuthenticationReply(s).value.status == s[1] && s == [1, s[1]]
  {}

  /** The port of a request, high byte first. */
  function PortBytes(port: word16): (bs: Bytes)
    ensures |bs| == 2 && IsWord(bs[0], bs[1], port)
  {
    [(port as int / 256) as byte, (port as int % 256) as byte]
  }

  /** Section 4 of RFC 1928: the request to connect to a host by its name. */
  function Asking(host: Bytes, port: word16): Bytes
    requires |host| < 256
  {
    [5, 1, 0, 3, |host| as byte] + host + PortBytes(port)
  }

  lemma RequestBytes(host: Bytes, port: word16)
    requires |host| < 256
    ensures BuildRequest(Request(CONNECT, Address(DomainName(host), port)))
         == Some(Asking(host, port))
  {
    var address := [3, |host| as byte] + host + PortBytes(port);
    var n := |address|;
    assert address[..n - 2] == [3, |host| as byte] + host;
    assert address[n - 2] == PortBytes(port)[0] && address[n - 1] == PortBytes(port)[1];
    AddressBytes(Address(DomainName(host), port), address);
    assert [5, CONNECT, 0] + address == Asking(host, port);
  }

  // ----- The handshake -----

  datatype Authentication = NoAuthentication | UsernamePassword(username: Bytes, password: Bytes)

  datatype Outcome =
    | Connected
    | MethodRejected
    | CredentialsRejected
    | BadCredentials
    | BadDomainName
    | ProtocolError
    | Refused(reply: CommandReply)

  /** The parser finishes on these bytes and not before. */
  ghost predicate TakesAll<T>(p: Bytes -> Parse<T>, bs: Bytes) {
    p(bs).Done? && p(bs).rest == [] && forall k | 0 <= k < |bs| :: p(bs[..k]) == More
  }

  lemma StillMore<T>(p: Bytes -> Parse<T>, got: Bytes, inc: Bytes, bs: Bytes)
    requires p(got) == More && TakesAll(p, bs) && got <= bs <= got + inc
    ensures inc != [] && got + [inc[0]] <= bs
  {
    assert bs != got;
  }

  lemma NoMore<T>(p: Bytes -> Parse<T>, got: Bytes, bs: Bytes)
    requires p(got) != More && TakesAll(p, bs) && got <= bs
    ensures got == bs
  {
    assert got == bs[..|got|];
  }

  lemma PrefixParts(a: Bytes, b: Bytes, all: Bytes)
    requires a + b <= all
    ensures a <= all && b <= all[|a|..]
  {
    assert a == (a + b)[..|a|] && b == (a + b)[|a|..];
  }

  lemma Behind(w: Bytes, all: Bytes, inc: Bytes)
    requires w + inc == all
    ensures forall g | w + g <= all :: g <= inc
  {
    forall g | w + g <= all
      ensures g <= inc
    {
      PrefixParts(w, g, all);
      assert all[|w|..] == inc;
    }
  }

  lemma ReadsTaken<T(!new)>(p: Bytes -> Parse<T>, bs: Bytes, m: T)
    requires Reads(p, bs, m)
    ensures TakesAll(p, bs) && p(bs).value == m
  {
    assert bs + [] == bs;
    assert p(bs + []) == Done(m, []);
  }

  lemma ServerHelloTaken(m: ServerHello)
    ensures TakesAll(ParseServerHello, BuildServerHello(m))
  {
    ServerHelloReads(m);
    ReadsTaken(ParseServerHello, BuildServerHello(m), m);
  }

  lemma ReplyTaken(m: PlainAuthenticationReply)
    ensures TakesAll(ParsePlainAuthenticationReply, BuildPlainAuthenticationReply(m))
  {
    PlainAuthenticationReplyReads(m);
    ReadsTaken(ParsePlainAuthenticationReply, BuildPlainAuthenticationReply(m), m);
  }

  lemma GrantedTaken(response: Bytes)
    requires Granted(response)
    ensures TakesAll(ParseResponse, response)
  {
    ReplyBytes(response);
    FramedExact(response);
    var m := ParseResponse(response).value;
    var bs := Framed(m.reply, response[2], m.address).value;
    assert response == bs + [] == bs;
    ResponseReads(m, response[2]);
    ReadsTaken(ParseResponse, response, m);
  }

  class Socket {
    /** What the server has still to send before closing, and what the client has sent. */
    var incoming: Bytes
    var sent: Bytes

    constructor (server: Bytes)
      ensures incoming == server && sent == []
    {
      incoming, sent := server, [];
    }

    method SendAll(bs: Bytes)
      modifies this`sent
      ensures sent == old(sent) + bs
    {
      sent := sent + bs;
    }

    /** One byte, or none when the server has closed. */
    method Recv1() returns (bs: Bytes)
      modifies this`incoming
      ensures bs + incoming == old(incoming) && |bs| <= 1
      ensures bs == [] <==> old(incoming) == []
    {
      if incoming == [] { return []; }
      bs := incoming[..1];
      incoming := incoming[1..];
    }

    /** Feed a parser byte by byte until it finishes; anything else is a protocol error. On success exactly the bytes of
        one message have been taken from the socket: the parser wanted more of every proper prefix of them. */
    method NetParse<T>(p: Bytes -> Parse<T>) returns (r: Option<T>, ghost taken: Bytes)
      modifies this`incoming
      ensures taken + incoming == old(incoming)
      ensures r.Some? ==> TakesAll(p, taken) && r.value == p(taken).value
      ensures r.None? ==> !(p(taken).Done? && p(taken).rest == [])
      ensures forall bs | bs <= old(incoming) && TakesAll(p, bs) :: r.Some? && taken == bs
    {
      ghost var all := incoming;
      var got: Bytes := [];
      while p(got) == More
        invariant got + incoming == old(incoming)
        invariant forall k | 0 <= k < |got| :: p(got[..k]) == More
        invariant forall bs | bs <= all && TakesAll(p, bs) :: got <= bs
        decreases |incoming|
      {
        forall bs | bs <= all && TakesAll(p, bs)
          ensures incoming != [] && got + [incoming[0]] <= bs
        {
          StillMore(p, got, incoming, bs);
        }
        var bs := Recv1();
        if bs == [] { return None, got; }
        ghost var next := got + bs;
        assert forall k | 0 <= k < |next| :: next[..k] == if k < |got| then got[..k] else got;
        got := got + bs;
      }
      forall bs | bs <= all && TakesAll(p, bs)
        ensures bs == got
      {
        NoMore(p, got, bs);
      }
      taken := got;
      match p(got)
      case Done(x, rest) => r := if rest == [] then Some(x) else None;
      case _ => r := None;
    }

    /** Offer one authentication method; the server has to choose it. */
    method Greet(offered: AuthMethod) returns (failure: Option<Outcome>, ghost hello: Bytes)
      modifies this
      ensures sent == old(sent) + [5, 1, offered]
      ensures hello + incoming == old(incoming)
      ensures failure ==
                if |hello| != 2 || hello[0] != 5 then Some(ProtocolError)
                else if hello[1] != offered then Some(MethodRejected)
                else None
      ensures [5, offered] <= old(incoming) ==> failure.None? && hello == [5, offered]
    {
      ServerHelloTaken(ServerHello(offered));
      SendAll(BuildClientHello(ClientHello([offered])).value);
      var m;
      m, hello := NetParse(ParseServerHello);
      HelloBytes(hello);
      failure :=
        if m.None? then Some(ProtocolError) else if m.value.chosen != offered then Some(MethodRejected) else None;
    }

    method SendCredentials(username: Bytes, password: Bytes) returns (failure: Option<Outcome>, ghost status: Bytes)
      modifies this
      ensures |username| < 256 && |password| < 256 ==>
                sent == old(sent) + Credentials(username, password)
      ensures status + incoming == old(incoming)
      ensures failure ==
                if |status| != 2 || status[0] != 1 then Some(ProtocolError)
                else if status[1] != 0 then Some(CredentialsRejected)
                else None
      ensures [1, 0] <= old(incoming) ==> failure.None? && status == [1, 0]
    {
      ReplyTaken(PlainAuthenticationReply(0));
      SendAll(BuildPlainAuthentication(PlainAuthentication(username, password)));
      var m;
      m, status := NetParse(ParsePlainAuthenticationReply);
      StatusBytes(status);
      failure :=
        if m.None? then Some(ProtocolError) else if m.value.status != 0 then Some(CredentialsRejected) else None;
    }

    /** The greeting, and the credentials if there are any. */
    method Authenticate(auth: Authentication)
      returns (failure: Option<Outcome>, ghost hello: Bytes, ghost status: Bytes)
      modifies this
      ensures hello + status + incoming == old(incoming)
      ensures failure.None? ==> Welcomed(auth, hello, status)
      ensures failure.None? ==> !TooLong(auth) && sent == old(sent) + Opening(auth)
      ensures failure.Some? ==> !failure.value.Connected?
      ensures !TooLong(auth) && Welcome(auth) <= old(incoming) ==> failure.None? && hello + status == Welcome(auth)
      ensures TooLong(auth) ==> failure == Some(BadCredentials) && sent == old(sent) && incoming == old(incoming)
    {
      hello, status := [], [];
      match auth
      case NoAuthentication =>
        failure, hello := Greet(NO_AUTHENTICATION);
      case UsernamePassword(u, p) =>
        if |u| >= 256 || |p| >= 256 { return Some(BadCredentials), hello, status; }
        ghost var all := incoming;
        failure, hello := Greet(USERNAME_PASSWORD);
        if failure.Some? { return; }
        if Welcome(auth) <= all {
          PrefixParts([5, 2], [1, 0], all);
          assert all[2..] == incoming;
        }
        failure, status := SendCredentials(u, p);
    }

    /** The client's side of the handshake. */
    method SocksConnect(host: Bytes, port: word16, auth: Authentication)
      returns (r: Outcome, ghost hello: Bytes, ghost status: Bytes, ghost response: Bytes)
      modifies this
      ensures r.Connected? ==>
                && hello + status + response + incoming == old(incoming)
                && Welcomed(auth, hello, status) && Granted(response)
                && hello + status == Welcome(auth)
                && |host| < 256 && !TooLong(auth)
                && sent == old(sent) + Opening(auth) + Asking(host, port)
      ensures TooLong(auth) ==> r == BadCredentials && sent == old(sent) && incoming == old(incoming)
      ensures !TooLong(auth) && |host| < 256 ==>
                forall g | Granted(g) && Welcome(auth) + g <= old(incoming) :: r.Connected? && response == g
    {
      var failure;
      response := [];
      ghost var all := incoming;
      failure, hello, status := Authenticate(auth);
      if failure.Some? { return failure.value, hello, status, response; }
      if |host| >= 256 { return BadDomainName, hello, status, response; }
      Behind(hello + status, all, incoming);
      r, response := RequestConnection(host, port);
    }

    method RequestConnection(host: Bytes, port: word16) returns (r: Outcome, ghost response: Bytes)
      requires |host| < 256
      modifies this
      ensures sent == old(sent) + Asking(host, port)
      ensures response + incoming == old(incoming)
      ensures r ==
                if !IsReply(response) then ProtocolError
                else if response[1] != 0 then Refused(response[1])
                else Connected
      ensures forall g | Granted(g) && g <= old(incoming) :: r.Connected? && response == g
    {
      forall g | Granted(g) ensures TakesAll(ParseResponse, g) { GrantedTaken(g); }
      RequestBytes(host, port);
      SendAll(BuildRequest(Request(CONNECT, Address(DomainName(host), port))).value);
      var m;
      m, response := NetParse(ParseResponse);
      ReplyBytes(response);
      r := if m.None? then ProtocolError else if m.value.reply != SUCCEEDED then Refused(m.value.reply) else Connected;
    }
  }

  predicate TooLong(auth: Authentication) {
    auth.UsernamePassword? && (|auth.username| >= 256 || |auth.password| >= 256)
  }

  /** Section 2 of RFC 1929: version, length and user name, length and password. */
  function Credentials(username: Bytes, password: Bytes): Bytes
    requires |username| < 256 && |password| < 256
  {
    [1, |username| as byte] + username + [|password| as byte] + password
  }

  /** What the client sends before its request. */
  function Opening(auth: Authentication): Bytes
    requires !TooLong(auth)
  {
    match auth
    case NoAuthentication => [5, 1, 0]
    case UsernamePassword(u, p) => [5, 1, 2] + Credentials(u, p)
  }

  /** What a server that lets the client go on sends before the reply to the request. */
  function Welcome(auth: Authentication): Bytes {
    if auth.NoAuthentication? then [5, 0] else [5, 2] + [1, 0]
  }

  /** The bytes of the replies to the greeting and the credentials that let the client go on. */
  predicate Welcomed(auth: Authentication, hello: Bytes, status: Bytes) {
    if auth.NoAuthentication? then hello == [5, 0] && status == [] else hello == [5, 2] && status == [1, 0]
  }

  /** The bytes of a reply that grants the connection. */
  predicate Granted(response: Bytes) {
    IsReply(response) && response[1] == 0
  }

  /** The reserved byte of a reply is free; apart from it the reply, too, is exactly a message of the standard. So a
      successful handshake leaves on the socket whatever the server sends after its replies. */
  lemma GrantedExactly(response: Bytes)
    ensures Granted(response) <==> exists reserved, a :: Framed(SUCCEEDED, reserved, a) == Some(response)
  {
    ReplyBytes(response);
    if Granted(response) {
      FramedExact(response);
      var m := ParseResponse(response).value;
      var bs := Framed(SUCCEEDED, response[2], m.address).value;
      assert response == bs + [] == bs;
      assert Framed(SUCCEEDED, response[2], m.address) == Some(response);
    }
    if reserved, a :| Framed(SUCCEEDED, reserved, a) == Some(response) {
      FramedBack(SUCCEEDED, reserved, a, []);
      assert response + [] == response;
    }
  }
}
