/**
  Whole SOCKS5 sessions in bytes: what a client sends (sections 3 and 4 of RFC 1928, section 2 of RFC 1929),
  what is dialled for it, and what it gets back (section 6 of RFC 1928). Field values are written as numbers.
*/
module SocksBytes {
  import opened Bytes
  import opened Options
  import opened Seqs
  import opened Socks5
  import opened Socks5Conn

  predicate BothSet(cfg: Config) { cfg.username != [] && cfg.password != [] }

  predicate CanHello(cfg: Config, methods: seq<byte>) {
    && |methods| < 256
    && if BothSet(cfg) then 2 in methods && |cfg.username| < 256 && |cfg.password| < 256 else 0 in methods
  }

  function Offer(methods: seq<byte>): seq<byte>
    requires |methods| < 256
  {
    [5, |methods|] + methods
  }

  function LoginBytes(version: byte, user: ByteString, pass: ByteString): seq<byte>
    requires |user| < 256 && |pass| < 256
  {
    [version, |user|] + user + [|pass|] + pass
  }

  function Hello(cfg: Config, methods: seq<byte>, version: byte): seq<byte>
    requires CanHello(cfg, methods)
  {
    if BothSet(cfg) then Offer(methods) + LoginBytes(version, cfg.username, cfg.password) else Offer(methods)
  }

  function AddressField(dest: Dest): seq<byte>
    requires dest.Fits()
  {
    match dest
    case Ip4(ip) => [1] + ip
    case Name(name) => [3, |name|] + name
    case Ip6(ip) => [4] + ip
  }

  function RequestBytes(version: byte, command: byte, rsv: byte, dest: Dest, port: nat): seq<byte>
    requires dest.Fits() && port < 0x1_0000
  {
    [version, command, rsv] + AddressField(dest) + [port / 256, port % 256]
  }

  /** The text of a destination: a name as it was sent, an address as `show` prints it. */
  function HostText(show: seq<byte> -> ByteString, dest: Dest): ByteString {
    if dest.Name? then dest.name else show(dest.ip)
  }

  /** The address field and port of a reply for a connection bound to `bind`. */
  function ReplyBytes(code: byte, bind: Option<NetAddr>): seq<byte> {
    if bind.None? || bind.value.OtherAddr? then [5, code, 0, 1, 0, 0, 0, 0, 0, 0]
    else
      var ip, port := bind.value.ip, bind.value.port % 0x1_0000;
      (if |ip| == 4 then [5, code, 0, 1] + ip
       else if |ip| == 16 && ip[..12] == [0, 0, 0, 0, 0, 0, 0, 0, 0, 0, 255, 255] then [5, code, 0, 1] + ip[12..]
       else if |ip| == 16 then [5, code, 0, 4] + ip
       else [5, code, 0, 4])
      + [port / 256, port % 256]
  }

  lemma HelloIsNegotiation(cfg: Config, methods: seq<byte>, version: byte)
    requires CanHello(cfg, methods)
    ensures Negotiates(cfg, Hello(cfg, methods, version))
    ensures cfg.Welcome() == if BothSet(cfg) then [5, 2, 1, 0] else [5, 0]
  {
    assert Offer(methods) == EncodeGreeting(methods);
    if BothSet(cfg) {
      assert LoginBytes(version, cfg.username, cfg.password) == EncodeLogin(version, cfg.username, cfg.password);
    }
  }

  lemma RequestIsEncoded(version: byte, command: byte, rsv: byte, dest: Dest, port: nat)
    requires dest.Fits() && port < 0x1_0000
    ensures RequestBytes(version, command, rsv, dest, port) == EncodeRequest(version, command, rsv, dest, port)
  {
    TwoBytes(port);
    hide BigEndian;
    var front := [version, command, rsv];
    assert AddressField(dest) == [dest.AddrType()] + dest.Encoding();
    hide AddressField, Dest.Encoding, Dest.AddrType;
    Assoc(front, [dest.AddrType()], dest.Encoding());
    assert front + [dest.AddrType()] == [version, command, rsv, dest.AddrType()];
    Assoc(front + [dest.AddrType()], dest.Encoding(), BigEndian(port, 2));
  }

  lemma ReplyIsEncoded(code: byte, bind: Option<NetAddr>)
    ensures ReplyBytes(code, bind) == EncodeReply(code, bind)
  {
    TwoBytes(BoundPort(bind));
    if bind.None? || bind.value.OtherAddr? {
      assert To4(IPV4_ZERO) == Some([0, 0, 0, 0]);
    }
  }

  /** The reply a session gets: by its command, and for CONNECT by what the dialer answers. */
  function Expected(req: Request, dial: Dialer): seq<byte> {
    if req.command != 1 then ReplyBytes(7, None)
    else if dial(Address(req)).None? then ReplyBytes(4, None)
    else ReplyBytes(0, dial(Address(req)).value)
  }

  lemma SessionReads(cfg: Config, show: seq<byte> -> ByteString, methods: seq<byte>, v: byte,
                     version: byte, command: byte, rsv: byte, dest: Dest, port: nat, more: seq<byte>)
    requires CanHello(cfg, methods) && dest.Fits() && port < 0x1_0000
    ensures var input := Hello(cfg, methods, v) + RequestBytes(version, command, rsv, dest, port) + more;
            && Asked(cfg, show, input) == Some(Request(version, command, dest.AddrType(), HostText(show, dest), port))
            && Negotiate(cfg, input).sent == if BothSet(cfg) then [5, 2, 1, 0] else [5, 0]
  {
    hide Negotiate, ParseRequest, Negotiates, EncodeRequest, RequestBytes, Hello;
    var input := Hello(cfg, methods, v) + RequestBytes(version, command, rsv, dest, port) + more;
    HelloIsNegotiation(cfg, methods, v);
    RequestIsEncoded(version, command, rsv, dest, port);
    Assoc(Hello(cfg, methods, v), RequestBytes(version, command, rsv, dest, port), more);
    CarriesRead(cfg, show, input, Hello(cfg, methods, v), version, command, rsv, dest, port, more);
  }

  lemma AnswerIsExpected(req: Request, dial: Dialer)
    ensures Answer(req, dial) == Expected(req, dial)
  {
    hide EncodeReply, ReplyBytes, Address;
    ReplyIsEncoded(7, None);
    ReplyIsEncoded(4, None);
    if dial(Address(req)).Some? {
      ReplyIsEncoded(0, dial(Address(req)).value);
    }
  }

  /**
    A client that offers the method the server wants, logs in if it must, and sends a request: the server
    answers with selection and login status, dials a CONNECT's host and port and nothing else, and replies.
  */
  lemma SessionInBytes(cfg: Config, show: seq<byte> -> ByteString, dial: Dialer, methods: seq<byte>, v: byte,
                       version: byte, command: byte, rsv: byte, dest: Dest, port: nat, more: seq<byte>, room: nat)
    requires CanHello(cfg, methods) && dest.Fits() && port < 0x1_0000 && room >= 4
    ensures var input := Hello(cfg, methods, v) + RequestBytes(version, command, rsv, dest, port) + more;
            var req := Request(version, command, dest.AddrType(), HostText(show, dest), port);
            var welcome := if BothSet(cfg) then [5, 2, 1, 0] else [5, 0];
            && Sent(cfg, show, dial, input) == welcome + Expected(req, dial)
            && (forall a, s :: Dialled(a, s) in Session(cfg, show, dial, input, room) <==>
                                 command == 1 && a == Address(req) && s == welcome)
  {
    hide Negotiate, Asked, Hello, RequestBytes, Answer, Expected, Address, BothSet;
    SessionReads(cfg, show, methods, v, version, command, rsv, dest, port, more);
    AnswerIsExpected(Request(version, command, dest.AddrType(), HostText(show, dest), port), dial);
  }

  /** A greeting without the method that is wanted, and a login that is wrong, in bytes. */
  lemma RefusalsInBytes(cfg: Config, methods: seq<byte>, v: byte, user: ByteString, pass: ByteString, more: seq<byte>)
    requires |methods| < 256 && |user| < 256 && |pass| < 256
    ensures (if BothSet(cfg) then 2 else 0) !in methods ==>
              Negotiate(cfg, Offer(methods) + more) == Verdict(false, [], [5, 255])
    ensures BothSet(cfg) && 2 in methods && (user != cfg.username || pass != cfg.password) ==>
              Negotiate(cfg, Offer(methods) + (LoginBytes(v, user, pass) + more)) == Verdict(false, [], [5, 2, 1, 1])
  {
    assert (Offer(methods) + more)[2..2 + |methods|] == methods;
    var login := LoginBytes(v, user, pass) + more;
    if BothSet(cfg) && 2 in methods && (user != cfg.username || pass != cfg.password) {
      var n, m := |user|, |pass|;
      assert login[1] == n && login[2 + n] == m && login[2..2 + n] == user && login[3 + n..3 + n + m] == pass;
      assert Login(cfg, login) == Verdict(false, [], [5, 2, 1, 1]);
      hide Login, Negotiate;
      assert Offer(methods) == EncodeGreeting(methods);
      GreetingRead(cfg, methods, login);
    }
  }
}
