/**
  One SOCKS5 session: the handler of pkg/dataplane/socks5/conn.go and SendReply of protocol.go. What the
  network and the dialer do are inputs: the client's bytes, how many bytes the socket accepts before its
  writes fail, the dialer's answers, and what the relay passes on.
*/
module Socks5Conn {
  import opened Bytes
  import opened Options
  import opened Seqs
  import opened Socks5

  type Dialer = ByteString -> Option<Option<NetAddr>>   // Some(local address of the new connection) or an error

  /** What a session does besides reading and writing; `sent` is all the client was sent before it. */
  datatype Event =
    | Dialled(address: ByteString, sent: seq<byte>)
    | Relaying(sent: seq<byte>)
    | RemoteClosed
    | ClientClosed

  function UpTo(bs: seq<byte>, room: nat): seq<byte> { if |bs| <= room then bs else bs[..room] }

  // What a session does, as a function of what it is given

  /** The request a session reads, if it gets that far. */
  function Asked(cfg: Config, show: seq<byte> -> ByteString, input: seq<byte>): Option<Request> {
    var v := Negotiate(cfg, input);
    if !v.ok then None
    else
      var p := ParseRequest(show, v.rest);
      if p.Whole? then Some(p.req) else None
  }

  function Answer(req: Request, dial: Dialer): seq<byte> {
    if req.command != CONNECT then EncodeReply(COMMAND_NOT_SUPPORTED, None)
    else
      var remote := dial(Address(req));
      if remote.None? then EncodeReply(HOST_UNREACHABLE, None) else EncodeReply(SUCCESS, remote.value)
  }

  predicate Connects(req: Request, dial: Dialer) { req.command == CONNECT && dial(Address(req)).Some? }

  /** The steps from a request on, with `room` bytes left for its answer. */
  function Actions(welcome: seq<byte>, req: Request, dial: Dialer, room: nat): seq<Event> {
    if req.command != CONNECT then []
    else
      [Dialled(Address(req), welcome)]
      + (if !Connects(req, dial) then []
         else if |Answer(req, dial)| > room then [RemoteClosed]
         else [Relaying(welcome + Answer(req, dial)), ClientClosed, RemoteClosed, RemoteClosed])
  }

  function Session(cfg: Config, show: seq<byte> -> ByteString, dial: Dialer, input: seq<byte>, room: nat): seq<Event> {
    var v := Negotiate(cfg, input);
    var asked := Asked(cfg, show, input);
    (if |v.sent| > room || asked.None? then [] else Actions(v.sent, asked.value, dial, room - |v.sent|))
    + [ClientClosed]
  }

  /** All the client is sent before any relaying, if the socket takes it. */
  function Sent(cfg: Config, show: seq<byte> -> ByteString, dial: Dialer, input: seq<byte>): seq<byte> {
    var asked := Asked(cfg, show, input);
    Negotiate(cfg, input).sent + if asked.None? then [] else Answer(asked.value, dial)
  }

  predicate Relays(cfg: Config, show: seq<byte> -> ByteString, dial: Dialer, input: seq<byte>, room: nat) {
    var asked := Asked(cfg, show, input);
    asked.Some? && Connects(asked.value, dial) && |Sent(cfg, show, dial, input)| <= room
  }

  lemma UpToConcat(a: seq<byte>, b: seq<byte>, room: nat)
    ensures |a| <= room ==> UpTo(a + b, room) == a + UpTo(b, room - |a|) && UpTo(a, room) == a
    ensures |a| > room ==> UpTo(a + b, room) == UpTo(a, room)
  {
  }

  class Socket {
    var input: seq<byte>
    var output: seq<byte>
    var room: nat        // bytes still accepted; the write that exceeds it fails after them
    var closed: bool

    constructor (input: seq<byte>, room: nat)
      ensures this.input == input && this.room == room && output == [] && !closed
    {
      this.input, this.room, output, closed := input, room, [], false;
    }

    /** `make` and `io.ReadFull`. */
    method ReadFull(n: nat) returns (ok: bool, buf: seq<byte>)
      modifies this`input
      ensures ok <==> n <= |old(input)|
      ensures ok ==> buf == old(input)[..n] && input == old(input)[n..]
      ensures !ok ==> input == []
    {
      ok := n <= |input|;
      buf, input := if ok then input[..n] else [], if ok then input[n..] else [];
    }

    method Write(bs: seq<byte>) returns (ok: bool)
      modifies this`output, this`room
      ensures ok <==> |bs| <= old(room)
      ensures output == old(output) + UpTo(bs, old(room))
      ensures room == old(room) - |UpTo(bs, old(room))|
    {
      ok := |bs| <= room;
      output, room := output + UpTo(bs, room), room - |UpTo(bs, room)|;
    }
  }

  method SendReply(w: Socket, rep: byte, bindAddr: Option<NetAddr>) returns (ok: bool)
    modifies w`output, w`room
    ensures ok <==> |EncodeReply(rep, bindAddr)| <= old(w.room)
    ensures w.output == old(w.output) + UpTo(EncodeReply(rep, bindAddr), old(w.room))
    ensures w.room == old(w.room) - |UpTo(EncodeReply(rep, bindAddr), old(w.room))|
  {
    var addrType := IPV4;
    var ip := IPV4_ZERO;
    var port: nat := 0;
    if bindAddr.Some? && bindAddr.value.Tcp? {
      ip := bindAddr.value.ip;
      port := bindAddr.value.port % 0x1_0000;
      if To4(ip).None? {
        addrType := IPV6;
      }
    }
    var reply := [VERSION, rep, 0x00, addrType];
    if addrType == IPV4 {
      reply := reply + OrNothing(To4(ip));
    } else {
      reply := reply + OrNothing(To16(ip));
    }
    reply := reply + [port / 256, port % 256];
    TwoBytes(port);
    assert To4(IPV4_ZERO).Some?;
    assert reply == EncodeReply(rep, bindAddr);
    ok := w.Write(reply);
  }

  /** `uint16(hi)<<8 | uint16(lo)` */
  function Port(hi: int, lo: int): int { hi * 256 + lo }

  lemma PortValue(hi: byte, lo: byte)
    ensures FromBigEndian([hi, lo]) == Port(hi, lo)
  {
    assert [hi, lo][..1] == [hi] && [hi][..0] == [];
    assert FromBigEndian([hi]) == hi;
  }

  method ContainsMethod(methods: seq<byte>, target: byte) returns (found: bool)
    ensures found <==> target in methods
  {
    for i := 0 to |methods|
      invariant target !in methods[..i]
    {
      if methods[i] == target {
        return true;
      }
    }
    found := false;
  }

  lemma NothingSent(output: seq<byte>, room: nat)
    ensures UpTo([], room) == [] && output + UpTo([], room) == output
  {
  }

  /** A login, one read after the other. */
  lemma LoginByReads(cfg: Config, input: seq<byte>)
    ensures Login(cfg, input) ==
            var cut := Verdict(false, [], [VERSION, USER_PASS]);
            if |input| < 2 then cut
            else
              var n: nat := input[1];
              var a := input[2..];
              if |a| < n then cut
              else
                var b := a[n..];
                if |b| < 1 then cut
                else
                  var m: nat := b[0];
                  var c := b[1..];
                  if |c| < m then cut
                  else if a[..n] == cfg.username && c[..m] == cfg.password then
                    Verdict(true, c[m..], [VERSION, USER_PASS, 0x01, 0x00])
                  else Verdict(false, [], [VERSION, USER_PASS, 0x01, 0x01])
  {
    if |input| >= 2 {
      var n: nat := input[1];
      if |input| >= 3 + n {
        var m: nat := input[2 + n];
        DropDrop(input, 2, n);
        DropDrop(input, 2 + n, 1);
        assert input[2..][..n] == input[2..2 + n] && input[2..][n..][0] == m;
        if |input| >= 3 + n + m {
          DropDrop(input, 3 + n, m);
          assert input[3 + n..][..m] == input[3 + n..3 + n + m];
        }
      }
    }
  }

  lemma LoginAnswers()
    ensures [VERSION, USER_PASS][2..] == []
    ensures [VERSION, USER_PASS, 0x01, 0x00][2..] == [0x01, 0x00] && [VERSION, USER_PASS, 0x01, 0x01][2..] == [0x01, 0x01]
  {
  }

  /** The answer to a login comes after the method selection, and is written apart from it. */
  lemma LoginStarts(cfg: Config, input: seq<byte>, room: nat)
    ensures var sent := Login(cfg, input).sent;
            && |sent| >= 2 && sent[..2] == [VERSION, USER_PASS]
            && (room < 2 ==> UpTo(sent, room) == UpTo(sent[..2], room))
            && (room >= 2 ==> UpTo(sent[..2], room) == sent[..2])
            && (room >= 2 ==> UpTo(sent, room) == sent[..2] + UpTo(sent[2..], room - 2))
  {
    var sent := Login(cfg, input).sent;
    assert sent == sent[..2] + sent[2..];
    UpToConcat(sent[..2], sent[2..], room);
  }

  class ConnHandler {
    const conn: Socket
    const cfg: Config
    ghost var events: seq<Event>

    constructor (conn: Socket, cfg: Config)
      ensures this.conn == conn && this.cfg == cfg && events == []
    {
      this.conn, this.cfg := conn, cfg;
      events := [];
    }

    /** Lets the client in, or sends as much as the socket takes of what a refused client is sent. */
    method Authenticate() returns (ok: bool)
      modifies conn`input, conn`output, conn`room
      ensures var v := Negotiate(cfg, old(conn.input));
              && (ok <==> v.ok && |v.sent| <= old(conn.room))
              && (ok ==> conn.input == v.rest)
              && conn.output == old(conn.output) + UpTo(v.sent, old(conn.room))
              && conn.room == old(conn.room) - |UpTo(v.sent, old(conn.room))|
    {
      hide Login, UpTo;
      NothingSent(conn.output, conn.room);
      var buf, methods, found;
      ok, buf := conn.ReadFull(2);
      if !ok || buf[0] != VERSION {
        return false;
      }
      ok, methods := conn.ReadFull(buf[1]);
      if !ok {
        return;
      }
      if cfg.AsksCredentials() {
        found := ContainsMethod(methods, USER_PASS);
        if !found {
          ok := conn.Write([VERSION, NO_ACCEPTABLE]);
          return false;
        }
        LoginStarts(cfg, conn.input, conn.room);
        ok := conn.Write([VERSION, USER_PASS]);
        if ok {
          ok := HandleUserPassAuth();
        }
        return;
      }
      found := ContainsMethod(methods, NO_AUTH);
      if !found {
        ok := conn.Write([VERSION, NO_ACCEPTABLE]);
        return false;
      }
      ok := conn.Write([VERSION, NO_AUTH]);
    }

    method HandleUserPassAuth() returns (ok: bool)
      modifies conn`input, conn`output, conn`room
      ensures var v := Login(cfg, old(conn.input)); var answer := v.sent[2..];
              && (ok <==> v.ok && |answer| <= old(conn.room))
              && (ok ==> conn.input == v.rest)
              && conn.output == old(conn.output) + UpTo(answer, old(conn.room))
              && conn.room == old(conn.room) - |UpTo(answer, old(conn.room))|
    {
      hide UpTo, Login;
      NothingSent(conn.output, conn.room);
      LoginByReads(cfg, conn.input);
      LoginAnswers();
      var header, userBuf, passLenBuf, passBuf;
      ok, header := conn.ReadFull(2);
      if !ok {
        return;
      }
      ok, userBuf := conn.ReadFull(header[1]);
      if !ok {
        return;
      }
      ok, passLenBuf := conn.ReadFull(1);
      if !ok {
        return;
      }
      ok, passBuf := conn.ReadFull(passLenBuf[0]);
      if !ok {
        return;
      }
      if userBuf == cfg.username && passBuf == cfg.password {
        ok := conn.Write([0x01, 0x00]);
        return;
      }
      ok := conn.Write([0x01, 0x01]);
      return false;
    }

    /** The address part of readRequest. */
    method ReadDest(addrType: byte, show: seq<byte> -> ByteString) returns (ok: bool, destAddr: ByteString)
      modifies conn`input
      ensures var p := ParseDest(addrType, old(conn.input));
              && (ok <==> p.Found?)
              && (ok ==> destAddr == p.dest.Host(show) && conn.input == p.rest)
    {
      var addr, lenBuf;
      if addrType == IPV4 {
        ok, addr := conn.ReadFull(4);
        destAddr := show(addr);
      } else if addrType == DOMAIN {
        destAddr := [];
        ok, lenBuf := conn.ReadFull(1);
        if ok {
          ok, destAddr := conn.ReadFull(lenBuf[0]);
        }
      } else if addrType == IPV6 {
        ok, addr := conn.ReadFull(16);
        destAddr := show(addr);
      } else {
        ok, destAddr := false, [];
      }
    }

    method ReadRequest(show: seq<byte> -> ByteString) returns (ok: bool, req: Request)
      modifies conn`input
      ensures var p := ParseRequest(show, old(conn.input));
              && (ok <==> p.Whole?)
              && (ok ==> req == p.req && conn.input == p.rest)
    {
      hide ParseDest, FromBigEndian;
      var header, destAddr, portBuf;
      req := Request(0, 0, 0, [], 0);
      ok, header := conn.ReadFull(4);
      if ok {
        ok, destAddr := ReadDest(header[3], show);
        if ok {
          ok, portBuf := conn.ReadFull(2);
          if ok {
            PortValue(portBuf[0], portBuf[1]);
            assert portBuf == [portBuf[0], portBuf[1]];
            req := Request(header[0], header[1], header[3], destAddr, Port(portBuf[0], portBuf[1]));
          }
        }
      }
    }

    /** The call of Relay: what it passes back to the client, and its closes at the end, client first. */
    method Relay(passedOn: seq<byte>)
      modifies conn`output, conn`room, conn`closed, this`events
      ensures events == old(events) + [Relaying(old(conn.output)), ClientClosed, RemoteClosed]
      ensures conn.closed && conn.output == old(conn.output) + UpTo(passedOn, old(conn.room))
    {
      events := events + [Relaying(conn.output)];
      var ok := conn.Write(passedOn);
      conn.closed := true;
      events := events + [ClientClosed];
      events := events + [RemoteClosed];
    }

    /** The part of Handle that follows a well-formed request. */
    method Connect(req: Request, dial: Dialer, passedOn: seq<byte>)
      modifies conn`output, conn`room, conn`closed, this`events
      ensures events == old(events) + Actions(old(conn.output), req, dial, old(conn.room))
      ensures var relays := Connects(req, dial) && |Answer(req, dial)| <= old(conn.room);
              && conn.output == old(conn.output) + UpTo(Answer(req, dial) + if relays then passedOn else [], old(conn.room))
              && conn.closed == (relays || old(conn.closed))
    {
      hide EncodeReply, Address;
      UpToConcat(Answer(req, dial), passedOn, conn.room);
      assert Answer(req, dial) + [] == Answer(req, dial);
      var ok;
      if req.command != CONNECT {
        ok := SendReply(conn, COMMAND_NOT_SUPPORTED, None);
        return;
      }
      events := events + [Dialled(Address(req), conn.output)];
      var remote := dial(Address(req));
      if remote.None? {
        ok := SendReply(conn, HOST_UNREACHABLE, None);
        return;
      }
      ok := SendReply(conn, SUCCESS, remote.value);
      if ok {
        Relay(passedOn);
      }
      events := events + [RemoteClosed];
    }

    /** The whole session on a connection just accepted; `passedOn` is what the relay brings back. */
    method Handle(show: seq<byte> -> ByteString, dial: Dialer, passedOn: seq<byte>)
      requires conn.output == [] && !conn.closed && events == []
      modifies conn, this`events
      ensures conn.closed
      ensures events == Session(cfg, show, dial, old(conn.input), old(conn.room))
      ensures var input, room := old(conn.input), old(conn.room);
              conn.output == UpTo(Sent(cfg, show, dial, input)
                                  + if Relays(cfg, show, dial, input, room) then passedOn else [], room)
    {
      hide Negotiate, ParseRequest, Answer, Actions, Connects, UpTo;
      ghost var v, asked, room := Negotiate(cfg, conn.input), Asked(cfg, show, conn.input), conn.room;
      ghost var more := if Relays(cfg, show, dial, conn.input, room) then passedOn else [];
      ghost var tail := (if asked.None? then [] else Answer(asked.value, dial)) + more;
      Assoc(v.sent, if asked.None? then [] else Answer(asked.value, dial), more);
      UpToConcat(v.sent, tail, room);
      assert v.sent + [] == v.sent;
      var ok := Authenticate();
      if ok {
        var req;
        ok, req := ReadRequest(show);
        if ok {
          assert conn.output == v.sent;
          Connect(req, dial, passedOn);
          assert events == Actions(v.sent, req, dial, room - |v.sent|);
        }
      }
      conn.closed := true;
      events := events + [ClientClosed];
    }
  }

  // Theorems about every session

  /** The client's bytes are an acceptable negotiation, then this request, then `rest`. */
  ghost predicate Carries(cfg: Config, input: seq<byte>, hello: seq<byte>, version: byte, command: byte, rsv: byte,
                          dest: Dest, port: nat, rest: seq<byte>) {
    && Negotiates(cfg, hello) && dest.Fits() && port < 0x1_0000
    && input == hello + (EncodeRequest(version, command, rsv, dest, port) + rest)
  }

  ghost predicate AsksFor(cfg: Config, show: seq<byte> -> ByteString, input: seq<byte>, req: Request) {
    exists hello, rsv, dest, port, rest ::
      && Carries(cfg, input, hello, req.version, req.command, rsv, dest, port, rest)
      && req == Request(req.version, req.command, dest.AddrType(), dest.Host(show), port)
  }

  /** A session reads exactly the request the client's bytes carry after a negotiation that succeeds. */
  lemma AskedIff(cfg: Config, show: seq<byte> -> ByteString, input: seq<byte>, req: Request)
    ensures Asked(cfg, show, input) == Some(req) <==> AsksFor(cfg, show, input, req)
  {
    hide Negotiate, ParseRequest, EncodeRequest, Negotiates;
    if Asked(cfg, show, input) == Some(req) {
      var v := Negotiate(cfg, input);
      NegotiatesIff(cfg, input, v.rest);
      var hello :| Negotiates(cfg, hello) && input == hello + v.rest;
      var rsv, dest, port := WholeIsEncoded(show, v.rest);
      assert Carries(cfg, input, hello, req.version, req.command, rsv, dest, port, ParseRequest(show, v.rest).rest);
    }
    if AsksFor(cfg, show, input, req) {
      var hello, rsv, dest, port, rest :|
        && Carries(cfg, input, hello, req.version, req.command, rsv, dest, port, rest)
        && req == Request(req.version, req.command, dest.AddrType(), dest.Host(show), port);
      CarriesRead(cfg, show, input, hello, req.version, req.command, rsv, dest, port, rest);
    }
  }

  lemma CarriesRead(cfg: Config, show: seq<byte> -> ByteString, input: seq<byte>, hello: seq<byte>, version: byte,
                    command: byte, rsv: byte, dest: Dest, port: nat, rest: seq<byte>)
    requires Carries(cfg, input, hello, version, command, rsv, dest, port, rest)
    ensures Negotiate(cfg, input) == Verdict(true, EncodeRequest(version, command, rsv, dest, port) + rest, cfg.Welcome())
    ensures ParseRequest(show, EncodeRequest(version, command, rsv, dest, port) + rest)
         == Whole(Request(version, command, dest.AddrType(), dest.Host(show), port), rest)
  {
    hide Negotiate, ParseRequest, EncodeRequest, Negotiates;
    NegotiatesAccepted(cfg, hello, EncodeRequest(version, command, rsv, dest, port) + rest);
    RequestRoundTrip(show, version, command, rsv, dest, port, rest);
  }

  /**
    The dialer is called exactly when a successful negotiation, fully answered, is followed by a CONNECT
    request, and then with that request's address and after nothing else was sent.
  */
  lemma DialsIff(cfg: Config, show: seq<byte> -> ByteString, dial: Dialer, input: seq<byte>, room: nat,
                 address: ByteString, sent: seq<byte>)
    ensures Dialled(address, sent) in Session(cfg, show, dial, input, room)
       <==> && sent == cfg.Welcome() && |sent| <= room
            && exists req :: AsksFor(cfg, show, input, req) && req.command == CONNECT && address == Address(req)
  {
    hide Negotiate, ParseRequest, Answer, AsksFor;
    NegotiatesIff(cfg, input, Negotiate(cfg, input).rest);
    forall req ensures Asked(cfg, show, input) == Some(req) <==> AsksFor(cfg, show, input, req) {
      AskedIff(cfg, show, input, req);
    }
  }

  /** More bytes after a request that is read change neither it nor what follows it but by themselves. */
  lemma AskedReads(cfg: Config, show: seq<byte> -> ByteString, input: seq<byte>, tail: seq<byte>)
    requires Asked(cfg, show, input).Some?
    ensures exists rest :: Negotiate(cfg, input + tail).ok
                        && ParseRequest(show, Negotiate(cfg, input + tail).rest)
                        == Whole(Asked(cfg, show, input).value, rest + tail)
  {
    hide EncodeRequest, Negotiates, Negotiate, ParseRequest;
    var req := Asked(cfg, show, input).value;
    AskedIff(cfg, show, input, req);
    var hello, rsv, dest, port, rest :|
      && Carries(cfg, input, hello, req.version, req.command, rsv, dest, port, rest)
      && req == Request(req.version, req.command, dest.AddrType(), dest.Host(show), port);
    var request := EncodeRequest(req.version, req.command, rsv, dest, port);
    Assoc(request, rest, tail);
    Assoc(hello, request + rest, tail);
    CarriesRead(cfg, show, input + tail, hello, req.version, req.command, rsv, dest, port, rest + tail);
  }

  /** Cut a session's negotiation and request anywhere and nothing is dialled. */
  lemma TruncatedSessionDialsNothing(cfg: Config, show: seq<byte> -> ByteString, dial: Dialer, hello: seq<byte>,
                                     version: byte, command: byte, rsv: byte, dest: Dest, port: nat, k: nat, room: nat)
    requires Negotiates(cfg, hello) && dest.Fits() && port < 0x1_0000
    requires k < |hello| + |EncodeRequest(version, command, rsv, dest, port)|
    ensures var input := (hello + EncodeRequest(version, command, rsv, dest, port))[..k];
            Asked(cfg, show, input).None? && Session(cfg, show, dial, input, room) == [ClientClosed]
  {
    var request := EncodeRequest(version, command, rsv, dest, port);
    var whole := hello + request;
    var input, tail := whole[..k], whole[k..];
    assert whole == input + tail && request + [] == request;
    hide EncodeRequest, Negotiates, Negotiate, ParseRequest, AsksFor;
    if Asked(cfg, show, input).Some? {
      AskedReads(cfg, show, input, tail);
      CarriesRead(cfg, show, whole, hello, version, command, rsv, dest, port, []);
    }
  }

  /** Codes a client reads: what its command and the dial make of its request. */
  function Code(req: Request, dial: Dialer): byte {
    if req.command != CONNECT then COMMAND_NOT_SUPPORTED
    else if dial(Address(req)).None? then HOST_UNREACHABLE
    else SUCCESS
  }

  function BoundTo(req: Request, dial: Dialer): Option<NetAddr> {
    if Connects(req, dial) then dial(Address(req)).value else None
  }

  /**
    A client that is refused is sent one of four short answers; one that is let in is sent the welcome and,
    if its request was read, exactly one reply, which decodes to its code, address and port.
  */
  lemma AtMostOneReply(cfg: Config, show: seq<byte> -> ByteString, dial: Dialer, input: seq<byte>)
    ensures var sent, asked := Sent(cfg, show, dial, input), Asked(cfg, show, input);
            if !Negotiate(cfg, input).ok then
              sent in {[], [VERSION, NO_ACCEPTABLE], [VERSION, USER_PASS], [VERSION, USER_PASS, 0x01, 0x01]}
            else if asked.None? then sent == cfg.Welcome()
            else
              var bind := BoundTo(asked.value, dial);
              var got := DecodeReply(sent[|cfg.Welcome()|..]);
              && cfg.Welcome() < sent
              && (got.Some? <==> |BoundIp(bind)| in {4, 16})
              && (got.Some? ==> got.value.1 == [] && got.value.0.rep == Code(asked.value, dial)
                                && got.value.0.port == BoundPort(bind) && SameIp(got.value.0.ip, BoundIp(bind)))
  {
    hide ParseRequest, EncodeReply, DecodeReply, SameIp, Address;
    NegotiatesIff(cfg, input, Negotiate(cfg, input).rest);
    assert Negotiate(cfg, input).sent + [] == Negotiate(cfg, input).sent;
    var asked := Asked(cfg, show, input);
    if asked.Some? {
      var code, bind := Code(asked.value, dial), BoundTo(asked.value, dial);
      var reply := Answer(asked.value, dial);
      assert reply == EncodeReply(code, bind) && reply + [] == reply;
      assert (cfg.Welcome() + reply)[|cfg.Welcome()|..] == reply;
      ReplyReadableIff(code, bind);
      if |BoundIp(bind)| in {4, 16} {
        ReplyRoundTrip(code, bind, []);
      }
      ReplyNotEmpty(code, bind);
    }
  }

  lemma ReplyNotEmpty(rep: byte, bind: Option<NetAddr>)
    ensures EncodeReply(rep, bind) != []
  {
  }

  /**
    Relaying starts exactly when the dial succeeded and the socket took the whole success reply, which
    names the address the dialled connection is bound to, and then right after that reply.
  */
  lemma RelayFollowsSuccess(cfg: Config, show: seq<byte> -> ByteString, dial: Dialer, input: seq<byte>, room: nat,
                            sent: seq<byte>)
    ensures var events, asked := Session(cfg, show, dial, input, room), Asked(cfg, show, input);
            && (Relaying(sent) in events <==> Relays(cfg, show, dial, input, room) && sent == Sent(cfg, show, dial, input))
            && (Relaying(sent) in events ==>
                  && asked.Some? && asked.value.command == CONNECT && dial(Address(asked.value)).Some?
                  && sent == cfg.Welcome() + EncodeReply(SUCCESS, dial(Address(asked.value)).value)
                  && Dialled(Address(asked.value), cfg.Welcome()) in events)
  {
    hide Negotiate, ParseRequest, EncodeReply, Address;
    NegotiatesIff(cfg, input, Negotiate(cfg, input).rest);
    var asked, events := Asked(cfg, show, input), Session(cfg, show, dial, input, room);
    if asked.Some? && |Negotiate(cfg, input).sent| <= room && asked.value.command == CONNECT {
      assert events[0] == Dialled(Address(asked.value), cfg.Welcome());
    }
  }

  /** The closes among the steps of a session, in order. */
  function Closes(events: seq<Event>): seq<Event> {
    if events == [] then []
    else (if events[0].RemoteClosed? || events[0].ClientClosed? then [events[0]] else []) + Closes(events[1..])
  }

  /** How many of the dials in a session succeeded. */
  function Opened(dial: Dialer, events: seq<Event>): nat {
    if events == [] then 0
    else (if events[0].Dialled? && dial(events[0].address).Some? then 1 else 0) + Opened(dial, events[1..])
  }

  lemma FirstEvent(dial: Dialer, e: Event, rest: seq<Event>)
    ensures Closes([e] + rest) == (if e.RemoteClosed? || e.ClientClosed? then [e] else []) + Closes(rest)
    ensures Opened(dial, [e] + rest) == (if e.Dialled? && dial(e.address).Some? then 1 else 0) + Opened(dial, rest)
  {
    assert ([e] + rest)[1..] == rest;
  }

  /**
    What is closed, and in which order. A session that relays closes the client, then the remote, at the end
    of the relay, and both again, remote first, as its deferred calls run; one whose dial succeeded but whose
    success reply failed closes the remote and then the client; any other closes the client alone.
  */
  lemma ClosingOrder(cfg: Config, show: seq<byte> -> ByteString, dial: Dialer, input: seq<byte>, room: nat)
    ensures var events := Session(cfg, show, dial, input, room);
            && Opened(dial, events) <= 1
            && (Relays(cfg, show, dial, input, room) ==> Opened(dial, events) == 1)
            && Closes(events) ==
               if Relays(cfg, show, dial, input, room) then [ClientClosed, RemoteClosed, RemoteClosed, ClientClosed]
               else if Opened(dial, events) == 1 then [RemoteClosed, ClientClosed]
               else [ClientClosed]
  {
    hide Negotiate, ParseRequest, EncodeReply, Address, Closes, Opened;
    var v, asked := Negotiate(cfg, input), Asked(cfg, show, input);
    var events := Session(cfg, show, dial, input, room);
    NoEvents(dial);
    var last: seq<Event> := [ClientClosed] + [];
    FirstEvent(dial, ClientClosed, []);
    var both := [RemoteClosed] + last;
    FirstEvent(dial, RemoteClosed, last);
    if asked.None? || |v.sent| > room || asked.value.command != CONNECT {
      assert events == last;
    } else {
      var d := Dialled(Address(asked.value), v.sent);
      if !Connects(asked.value, dial) {
        FirstEvent(dial, d, last);
        assert events == [d] + last;
      } else if |Answer(asked.value, dial)| > room - |v.sent| {
        FirstEvent(dial, d, both);
        assert events == [d] + both;
      } else {
        var relaying := Relaying(v.sent + Answer(asked.value, dial));
        FirstEvent(dial, RemoteClosed, both);
        FirstEvent(dial, ClientClosed, [RemoteClosed] + both);
        FirstEvent(dial, relaying, [ClientClosed] + ([RemoteClosed] + both));
        FirstEvent(dial, d, [relaying] + ([ClientClosed] + ([RemoteClosed] + both)));
        assert events == [d] + ([relaying] + ([ClientClosed] + ([RemoteClosed] + both)));
      }
    }
  }

  lemma NoEvents(dial: Dialer)
    ensures Closes([]) == [] && Opened(dial, []) == 0
  {
  }
}
