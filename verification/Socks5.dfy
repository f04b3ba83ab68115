/**
  The messages of pkg/dataplane/socks5 (sections 3, 4 and 6 of RFC 1928, section 2 of RFC 1929): how a
  client writes them, how the server reads them, and what the server's answers decode back to.
  A Go string is a sequence of bytes, so ByteString is one.
*/
module Socks5 {
  import opened Bytes
  import opened Options
  import opened Seqs

  type ByteString = seq<byte>

  const VERSION: byte := 0x05
  const NO_AUTH: byte := 0x00
  const USER_PASS: byte := 0x02
  const NO_ACCEPTABLE: byte := 0xFF
  const CONNECT: byte := 0x01
  const IPV4: byte := 0x01
  const DOMAIN: byte := 0x03
  const IPV6: byte := 0x04
  const SUCCESS: byte := 0x00
  const HOST_UNREACHABLE: byte := 0x04
  const COMMAND_NOT_SUPPORTED: byte := 0x07

  // Requests

  datatype Dest = Ip4(ip: seq<byte>) | Name(name: ByteString) | Ip6(ip: seq<byte>) {
    predicate Fits() {
      match this
      case Ip4(ip) => |ip| == 4
      case Name(name) => |name| < 256
      case Ip6(ip) => |ip| == 16
    }

    function AddrType(): byte {
      match this
      case Ip4(_) => IPV4
      case Name(_) => DOMAIN
      case Ip6(_) => IPV6
    }

    function Encoding(): seq<byte>
      requires Fits()
    {
      match this
      case Ip4(ip) => ip
      case Name(name) => [|name|] + name
      case Ip6(ip) => ip
    }

    /** What DestAddr is set to; `show` is `net.IP.String`. */
    function Host(show: seq<byte> -> ByteString): ByteString {
      match this
      case Ip4(ip) => show(ip)
      case Name(name) => name
      case Ip6(ip) => show(ip)
    }
  }

  datatype Request = Request(version: byte, command: byte, addrType: byte, destAddr: ByteString, destPort: nat)

  function EncodeRequest(version: byte, command: byte, rsv: byte, dest: Dest, port: nat): seq<byte>
    requires dest.Fits() && port < 0x1_0000
  {
    [version, command, rsv, dest.AddrType()] + (dest.Encoding() + BigEndian(port, 2))
  }

  datatype ParsedDest = Found(dest: Dest, rest: seq<byte>) | Cut | Unknown

  function ParseDest(addrType: byte, input: seq<byte>): (p: ParsedDest)
    ensures p.Found? ==> p.dest.Fits() && p.dest.AddrType() == addrType
  {
    if addrType == IPV4 then
      if |input| < 4 then Cut else Found(Ip4(input[..4]), input[4..])
    else if addrType == DOMAIN then
      if |input| < 1 then Cut
      else
        var n: nat := input[0];
        if |input| < 1 + n then Cut else Found(Name(input[1..1 + n]), input[1 + n..])
    else if addrType == IPV6 then
      if |input| < 16 then Cut else Found(Ip6(input[..16]), input[16..])
    else Unknown
  }

  datatype Parsed = Whole(req: Request, rest: seq<byte>) | Short | Unsupported

  /** What readRequest makes of the bytes it is given. */
  function ParseRequest(show: seq<byte> -> ByteString, input: seq<byte>): Parsed {
    if |input| < 4 then Short
    else
      var dest := ParseDest(input[3], input[4..]);
      if dest.Unknown? then Unsupported
      else if dest.Cut? || |dest.rest| < 2 then Short
      else Whole(Request(input[0], input[1], input[3], dest.dest.Host(show), FromBigEndian(dest.rest[..2])), dest.rest[2..])
  }

  lemma FoundIsEncoded(addrType: byte, input: seq<byte>)
    ensures var p := ParseDest(addrType, input); p.Found? ==> input == p.dest.Encoding() + p.rest
  {
    var p := ParseDest(addrType, input);
    if p.Found? && p.dest.Name? {
      var n: nat := input[0];
      assert input == ([input[0]] + input[1..1 + n]) + input[1 + n..];
    }
  }

  lemma DestRoundTrip(dest: Dest, rest: seq<byte>)
    requires dest.Fits()
    ensures ParseDest(dest.AddrType(), dest.Encoding() + rest) == Found(dest, rest)
  {
    var input := dest.Encoding() + rest;
    assert input[|dest.Encoding()|..] == rest;
    assert input[..|dest.Encoding()|] == dest.Encoding();
    if dest.Name? {
      assert input[1..1 + |dest.name|] == dest.name;
    }
  }

  /** Reading inverts writing, takes exactly the request's bytes, and keeps the version without a check. */
  lemma RequestRoundTrip(show: seq<byte> -> ByteString, version: byte, command: byte, rsv: byte, dest: Dest, port: nat,
                         rest: seq<byte>)
    requires dest.Fits() && port < 0x1_0000
    ensures ParseRequest(show, EncodeRequest(version, command, rsv, dest, port) + rest)
         == Whole(Request(version, command, dest.AddrType(), dest.Host(show), port), rest)
  {
    var input := EncodeRequest(version, command, rsv, dest, port) + rest;
    var after := BigEndian(port, 2) + rest;
    assert input[4..] == dest.Encoding() + after;
    DestRoundTrip(dest, after);
    Pow256Values();
    BigEndianRoundTrip(port, 2);
    assert after[..2] == BigEndian(port, 2) && after[2..] == rest;
  }

  lemma PortBytes(bs: seq<byte>)
    requires |bs| == 2
    ensures FromBigEndian(bs) < 0x1_0000 && BigEndian(FromBigEndian(bs), 2) == bs
  {
    Pow256Values();
    assert bs[..1] == [bs[0]] && bs[..1][..0] == [];
    assert FromBigEndian(bs[..1]) == bs[0];
    var v, high: nat := FromBigEndian(bs), bs[0];
    assert v == 256 * high + bs[1] && v / 256 == high;
    assert BigEndian(v / 256, 1) == [bs[0]];
  }

  /** Nothing but a request is read as one: the bytes taken are the encoding of what was read. */
  lemma WholeIsEncoded(show: seq<byte> -> ByteString, input: seq<byte>)
      returns (rsv: byte, dest: Dest, port: nat)
    requires ParseRequest(show, input).Whole?
    ensures var Whole(req, rest) := ParseRequest(show, input);
            && dest.Fits() && port < 0x1_0000
            && req == Request(req.version, req.command, dest.AddrType(), dest.Host(show), port)
            && input == EncodeRequest(req.version, req.command, rsv, dest, port) + rest
  {
    var Whole(req, rest) := ParseRequest(show, input);
    var found := ParseDest(input[3], input[4..]);
    rsv, dest, port := input[2], found.dest, req.destPort;
    FoundIsEncoded(input[3], input[4..]);
    PortBytes(found.rest[..2]);
    assert found.rest == BigEndian(port, 2) + rest;
    Assoc(dest.Encoding(), BigEndian(port, 2), rest);
    assert input == input[..4] + input[4..];
    Assoc(input[..4], dest.Encoding() + BigEndian(port, 2), rest);
  }

  /** A request that is there stays the same however much follows it. */
  lemma ParseExtends(show: seq<byte> -> ByteString, input: seq<byte>, more: seq<byte>)
    ensures ParseRequest(show, input).Whole?
        ==> ParseRequest(show, input + more) == ParseRequest(show, input).(rest := ParseRequest(show, input).rest + more)
  {
    if ParseRequest(show, input).Whole? {
      var rest := ParseRequest(show, input).rest;
      var rsv, dest, port := WholeIsEncoded(show, input);
      RequestRoundTrip(show, input[0], input[1], rsv, dest, port, rest + more);
      Assoc(EncodeRequest(input[0], input[1], rsv, dest, port), rest, more);
    }
  }

  /** Every truncation of a request is rejected. */
  lemma RequestPrefixIsShort(show: seq<byte> -> ByteString, version: byte, command: byte, rsv: byte, dest: Dest, port: nat,
                             k: nat)
    requires dest.Fits() && port < 0x1_0000
    requires k < |EncodeRequest(version, command, rsv, dest, port)|
    ensures ParseRequest(show, EncodeRequest(version, command, rsv, dest, port)[..k]) == Short
  {
    var whole := EncodeRequest(version, command, rsv, dest, port);
    var cut := whole[..k];
    hide BigEndian, FromBigEndian;
    if k >= 4 {
      assert cut[3] == dest.AddrType();
      hide EncodeRequest;
      assert whole == cut + whole[k..] && whole + [] == whole;
      RequestRoundTrip(show, version, command, rsv, dest, port, []);
      ParseExtends(show, cut, whole[k..]);
    }
  }

  // Request.Address

  function Decimal(n: nat): (d: ByteString)
    ensures forall b :: b in d ==> 48 <= b < 58
    ensures |d| >= 1 && (|d| == 1 <==> n < 10)
  {
    if n < 10 then [48 + n] else Decimal(n / 10) + [48 + n % 10]
  }

  /** `fmt.Sprintf("%s:%d", …)` */
  function Address(r: Request): ByteString { r.destAddr + [58] + Decimal(r.destPort) }

  lemma {:induction false} DecimalInjective(m: nat, n: nat)
    requires Decimal(m) == Decimal(n)
    ensures m == n
  {
    assert Decimal(m)[|Decimal(m)| - 1] == 48 + m % 10;
    assert Decimal(n)[|Decimal(n)| - 1] == 48 + n % 10;
    if m >= 10 {
      assert Decimal(m)[..|Decimal(m)| - 1] == Decimal(m / 10);
      assert Decimal(n)[..|Decimal(n)| - 1] == Decimal(n / 10);
      DecimalInjective(m / 10, n / 10);
    }
  }

  /** The number a text of digits stands for in base ten. */
  function Value(digits: ByteString): int {
    if digits == [] then 0
    else
      var last: int := digits[|digits| - 1];
      10 * Value(digits[..|digits| - 1]) + (last - 48)
  }

  lemma {:induction false} DecimalReads(n: nat)
    ensures Value(Decimal(n)) == n
    ensures Decimal(n)[0] == 48 <==> n == 0
  {
    var d := Decimal(n);
    if n < 10 {
      assert d[..|d| - 1] == [];
    } else {
      DecimalReads(n / 10);
      assert d[..|d| - 1] == Decimal(n / 10);
    }
  }

  /** In the address dialled, what is before the last colon is the host, and what is after it reads as the port. */
  lemma AddressReads(r: Request)
    ensures var a, i := Address(r), |r.destAddr|;
            && i < |a| && a[i] == 58 && 58 !in a[i + 1..]
            && a[..i] == r.destAddr
            && Value(a[i + 1..]) == r.destPort && (a[i + 1] == 48 ==> r.destPort == 0)
  {
    var a, i := Address(r), |r.destAddr|;
    DecimalReads(r.destPort);
    assert a[i + 1..] == Decimal(r.destPort);
  }

  /** The address that is dialled determines host and port: the last colon splits it. */
  lemma AddressInjective(r: Request, q: Request)
    requires Address(r) == Address(q)
    ensures r.destAddr == q.destAddr && r.destPort == q.destPort
  {
    var a := Address(r);
    ColonSplits(r.destAddr, Decimal(r.destPort));
    ColonSplits(q.destAddr, Decimal(q.destPort));
    assert a[..|r.destAddr|] == r.destAddr && a[|r.destAddr| + 1..] == Decimal(r.destPort);
    assert a[..|q.destAddr|] == q.destAddr && a[|q.destAddr| + 1..] == Decimal(q.destPort);
    assert |q.destAddr| == |r.destAddr|;
    DecimalInjective(r.destPort, q.destPort);
  }

  lemma ColonSplits(host: ByteString, digits: ByteString)
    requires 58 !in digits
    ensures var a := host + [58] + digits;
            a[|host|] == 58 && forall k :: |host| < k < |a| ==> a[k] != 58
  {
    var a := host + [58] + digits;
    forall k | |host| < k < |a| ensures a[k] != 58 {
      assert a[k] == digits[k - |host| - 1];
    }
  }

  // Replies

  /** A `net.Addr`: the address and port of a `*net.TCPAddr`, or something else. */
  datatype NetAddr = Tcp(ip: seq<byte>, port: int) | OtherAddr

  const V4_PREFIX: seq<byte> := [0, 0, 0, 0, 0, 0, 0, 0, 0, 0, 0xFF, 0xFF]
  const IPV4_ZERO: seq<byte> := V4_PREFIX + [0, 0, 0, 0]

  /** `net.IP.To4`, `None` for nil. */
  function To4(ip: seq<byte>): (r: Option<seq<byte>>)
    ensures r.Some? ==> |r.value| == 4
  {
    if |ip| == 4 then Some(ip)
    else if |ip| == 16 && ip[..12] == V4_PREFIX then Some(ip[12..])
    else None
  }

  /** `net.IP.To16`, `None` for nil. */
  function To16(ip: seq<byte>): (r: Option<seq<byte>>)
    ensures r.Some? <==> |ip| == 4 || |ip| == 16
    ensures r.Some? ==> |r.value| == 16
  {
    if |ip| == 4 then Some(V4_PREFIX + ip)
    else if |ip| == 16 then Some(ip)
    else None
  }

  /** Bytes appended by `append(reply, ip...)`: none for a nil slice. */
  function OrNothing(ip: Option<seq<byte>>): seq<byte> { if ip.Some? then ip.value else [] }

  function BoundIp(bind: Option<NetAddr>): seq<byte> {
    if bind.Some? && bind.value.Tcp? then bind.value.ip else IPV4_ZERO
  }

  /** The port as `uint16` keeps it. */
  function BoundPort(bind: Option<NetAddr>): nat {
    if bind.Some? && bind.value.Tcp? then bind.value.port % 0x1_0000 else 0
  }

  /** The bytes SendReply writes. */
  function EncodeReply(rep: byte, bind: Option<NetAddr>): seq<byte> {
    var ip := BoundIp(bind);
    (if To4(ip).Some? then [VERSION, rep, 0, IPV4] + To4(ip).value else [VERSION, rep, 0, IPV6] + OrNothing(To16(ip)))
    + BigEndian(BoundPort(bind), 2)
  }

  datatype Reply = Reply(rep: byte, ip: seq<byte>, port: nat)

  /** How a client reads a reply (section 6 of RFC 1928), and the bytes after it. */
  function DecodeReply(input: seq<byte>): Option<(Reply, seq<byte>)> {
    if |input| < 4 || input[0] != VERSION || input[2] != 0 then None
    else
      var found := ParseDest(input[3], input[4..]);
      if !found.Found? || found.dest.Name? || |found.rest| < 2 then None
      else Some((Reply(input[1], found.dest.ip, FromBigEndian(found.rest[..2])), found.rest[2..]))
  }

  /** The two forms of one address. */
  predicate SameIp(a: seq<byte>, b: seq<byte>) { To16(a).Some? && To16(a) == To16(b) }

  lemma To4SameIp(ip: seq<byte>)
    requires To4(ip).Some?
    ensures SameIp(To4(ip).value, ip)
  {
    if |ip| == 16 {
      assert ip == ip[..12] + ip[12..];
    }
  }

  /** A reply is laid out as a request is. */
  lemma ReplyLayout(rep: byte, bind: Option<NetAddr>) returns (dest: Dest)
    requires |BoundIp(bind)| == 4 || |BoundIp(bind)| == 16
    ensures !dest.Name? && dest.Fits() && SameIp(dest.ip, BoundIp(bind))
    ensures EncodeReply(rep, bind) == EncodeRequest(VERSION, rep, 0, dest, BoundPort(bind))
  {
    hide BigEndian;
    var ip := BoundIp(bind);
    dest := if To4(ip).Some? then Ip4(To4(ip).value) else Ip6(ip);
    if To4(ip).Some? {
      To4SameIp(ip);
    }
    Assoc([VERSION, rep, 0, dest.AddrType()], dest.Encoding(), BigEndian(BoundPort(bind), 2));
  }

  lemma LayoutDecodes(rep: byte, dest: Dest, port: nat, rest: seq<byte>)
    requires !dest.Name? && dest.Fits() && port < 0x1_0000
    ensures DecodeReply(EncodeRequest(VERSION, rep, 0, dest, port) + rest) == Some((Reply(rep, dest.ip, port), rest))
  {
    var input := EncodeRequest(VERSION, rep, 0, dest, port) + rest;
    var after := BigEndian(port, 2) + rest;
    Pow256Values();
    BigEndianRoundTrip(port, 2);
    hide BigEndian, FromBigEndian;
    assert input[4..] == dest.Encoding() + after;
    DestRoundTrip(dest, after);
    assert after[..2] == BigEndian(port, 2) && after[2..] == rest;
  }

  lemma ReplyRoundTrip(rep: byte, bind: Option<NetAddr>, rest: seq<byte>)
    requires |BoundIp(bind)| == 4 || |BoundIp(bind)| == 16
    ensures var got := DecodeReply(EncodeReply(rep, bind) + rest);
            && got.Some? && got.value.1 == rest
            && got.value.0.rep == rep && got.value.0.port == BoundPort(bind)
            && SameIp(got.value.0.ip, BoundIp(bind))
  {
    hide DecodeReply, EncodeReply, EncodeRequest, SameIp;
    var dest := ReplyLayout(rep, bind);
    LayoutDecodes(rep, dest, BoundPort(bind), rest);
  }

  /** For a connection bound to a TCP address the client reads that very address and port. */
  lemma ReplyNamesTheAddress(rep: byte, ip: seq<byte>, port: nat, rest: seq<byte>)
    requires (|ip| == 4 || |ip| == 16) && port < 0x1_0000
    ensures var got := DecodeReply(EncodeReply(rep, Some(Tcp(ip, port))) + rest);
            && got.Some? && got.value.1 == rest
            && got.value.0.rep == rep && got.value.0.port == port && SameIp(got.value.0.ip, ip)
  {
    hide DecodeReply, EncodeReply, SameIp;
    ReplyRoundTrip(rep, Some(Tcp(ip, port)), rest);
  }

  /**
    A reply reads back as its code, address and port exactly when the bound address has four or sixteen
    bytes; for any other (a nil `TCPAddr.IP`, say) the address field is empty and no client can read it.
  */
  lemma ReplyReadableIff(rep: byte, bind: Option<NetAddr>)
    ensures DecodeReply(EncodeReply(rep, bind)).Some? <==> |BoundIp(bind)| in {4, 16}
  {
    if |BoundIp(bind)| in {4, 16} {
      ReplyRoundTrip(rep, bind, []);
      assert EncodeReply(rep, bind) + [] == EncodeReply(rep, bind);
    } else {
      assert |EncodeReply(rep, bind)| == 6;
    }
  }

  /** One such address: nil. */
  lemma NilAddressIsUnreadable(rep: byte, port: int)
    ensures DecodeReply(EncodeReply(rep, Some(Tcp([], port)))).None?
  {
    ReplyReadableIff(rep, Some(Tcp([], port)));
  }

  // Negotiation

  datatype Config = Config(username: ByteString, password: ByteString) {
    /** Credentials are asked for only when both are configured. */
    predicate AsksCredentials() { username != [] && password != [] }

    /** What a client that is let in has been sent. */
    function Welcome(): seq<byte> {
      if AsksCredentials() then [VERSION, USER_PASS, 0x01, 0x00] else [VERSION, NO_AUTH]
    }
  }

  function EncodeGreeting(methods: seq<byte>): seq<byte>
    requires |methods| < 256
  {
    [VERSION, |methods|] + methods
  }

  function EncodeLogin(version: byte, user: ByteString, pass: ByteString): seq<byte>
    requires |user| < 256 && |pass| < 256
  {
    [version, |user|] + (user + ([|pass|] + pass))
  }

  /** `hello` is all a client sends before its request, and the server accepts it. */
  ghost predicate Negotiates(cfg: Config, hello: seq<byte>) {
    if cfg.AsksCredentials() then
      && |cfg.username| < 256 && |cfg.password| < 256
      && exists methods: seq<byte>, version: byte ::
           && |methods| < 256 && USER_PASS in methods
           && hello == EncodeGreeting(methods) + EncodeLogin(version, cfg.username, cfg.password)
    else
      exists methods: seq<byte> :: |methods| < 256 && NO_AUTH in methods && hello == EncodeGreeting(methods)
  }

  /** How the negotiation ends: let in or not, the bytes not yet read if so, and all that was sent. */
  datatype Verdict = Verdict(ok: bool, rest: seq<byte>, sent: seq<byte>)

  function Login(cfg: Config, input: seq<byte>): Verdict {
    var cut := Verdict(false, [], [VERSION, USER_PASS]);
    if |input| < 2 then cut
    else
      var n: nat := input[1];
      if |input| < 3 + n then cut
      else
        var m: nat := input[2 + n];
        if |input| < 3 + n + m then cut
        else if input[2..2 + n] == cfg.username && input[3 + n..3 + n + m] == cfg.password then
          Verdict(true, input[3 + n + m..], [VERSION, USER_PASS, 0x01, 0x00])
        else
          Verdict(false, [], [VERSION, USER_PASS, 0x01, 0x01])
  }

  function Negotiate(cfg: Config, input: seq<byte>): Verdict {
    if |input| < 2 || input[0] != VERSION then Verdict(false, [], [])
    else
      var n: nat := input[1];
      if |input| < 2 + n then Verdict(false, [], [])
      else if (if cfg.AsksCredentials() then USER_PASS else NO_AUTH) !in input[2..2 + n] then
        Verdict(false, [], [VERSION, NO_ACCEPTABLE])
      else if cfg.AsksCredentials() then Login(cfg, input[2 + n..])
      else Verdict(true, input[2 + n..], [VERSION, NO_AUTH])
  }

  lemma LoginAccepts(cfg: Config, version: byte, rest: seq<byte>)
    requires |cfg.username| < 256 && |cfg.password| < 256
    ensures Login(cfg, EncodeLogin(version, cfg.username, cfg.password) + rest)
         == Verdict(true, rest, [VERSION, USER_PASS, 0x01, 0x00])
  {
    var input := EncodeLogin(version, cfg.username, cfg.password) + rest;
    var n, m := |cfg.username|, |cfg.password|;
    assert input[1] == n && input[2 + n] == m;
    assert input[2..2 + n] == cfg.username;
    assert input[3 + n..3 + n + m] == cfg.password;
    assert input[3 + n + m..] == rest;
  }

  lemma LoginIsEncoded(cfg: Config, input: seq<byte>)
    requires Login(cfg, input).ok
    ensures |cfg.username| < 256 && |cfg.password| < 256
    ensures input == EncodeLogin(input[0], cfg.username, cfg.password) + Login(cfg, input).rest
  {
    var n: nat := input[1];
    var m: nat := input[2 + n];
    assert input == [input[0], n] + (input[2..2 + n] + ([m] + input[3 + n..3 + n + m])) + input[3 + n + m..];
  }

  lemma GreetingRead(cfg: Config, methods: seq<byte>, rest: seq<byte>)
    requires |methods| < 256 && (if cfg.AsksCredentials() then USER_PASS else NO_AUTH) in methods
    ensures Negotiate(cfg, EncodeGreeting(methods) + rest)
         == if cfg.AsksCredentials() then Login(cfg, rest) else Verdict(true, rest, [VERSION, NO_AUTH])
  {
    hide Login;
    var input := EncodeGreeting(methods) + rest;
    assert input[2..2 + |methods|] == methods;
    assert input[2 + |methods|..] == rest;
  }

  /**
    The server lets a client in, with `rest` unread, exactly when what the client sent is an acceptable
    negotiation followed by `rest`. A configured name or password of 256 bytes or more locks everyone out.
  */
  lemma NegotiatesIff(cfg: Config, input: seq<byte>, rest: seq<byte>)
    ensures Negotiate(cfg, input).ok && Negotiate(cfg, input).rest == rest
       <==> exists hello :: Negotiates(cfg, hello) && input == hello + rest
    ensures Negotiate(cfg, input).ok ==> Negotiate(cfg, input).sent == cfg.Welcome()
  {
    if Negotiate(cfg, input).ok && Negotiate(cfg, input).rest == rest {
      AcceptedNegotiates(cfg, input);
    }
    if hello :| Negotiates(cfg, hello) && input == hello + rest {
      NegotiatesAccepted(cfg, hello, rest);
    }
  }

  lemma AcceptedNegotiates(cfg: Config, input: seq<byte>)
    requires Negotiate(cfg, input).ok
    ensures exists hello :: Negotiates(cfg, hello) && input == hello + Negotiate(cfg, input).rest
  {
    hide Login;
    var n: nat := input[1];
    var methods, after := input[2..2 + n], input[2 + n..];
    assert input == EncodeGreeting(methods) + after;
    var hello := EncodeGreeting(methods);
    if cfg.AsksCredentials() {
      LoginIsEncoded(cfg, after);
      var login := EncodeLogin(after[0], cfg.username, cfg.password);
      hello := EncodeGreeting(methods) + login;
      Assoc(EncodeGreeting(methods), login, Login(cfg, after).rest);
    }
    assert Negotiates(cfg, hello);
  }

  lemma NegotiatesAccepted(cfg: Config, hello: seq<byte>, rest: seq<byte>)
    requires Negotiates(cfg, hello)
    ensures Negotiate(cfg, hello + rest) == Verdict(true, rest, cfg.Welcome())
  {
    hide Login, Negotiate;
    if cfg.AsksCredentials() {
      var methods: seq<byte>, version: byte :|
        && |methods| < 256 && USER_PASS in methods
        && hello == EncodeGreeting(methods) + EncodeLogin(version, cfg.username, cfg.password);
      var login := EncodeLogin(version, cfg.username, cfg.password);
      Assoc(EncodeGreeting(methods), login, rest);
      GreetingRead(cfg, methods, login + rest);
      LoginAccepts(cfg, version, rest);
    } else {
      var methods: seq<byte> :| |methods| < 256 && NO_AUTH in methods && hello == EncodeGreeting(methods);
      GreetingRead(cfg, methods, rest);
    }
  }
}
