/**
  Fragmented messages from end to end (sections 5.4 and 5.5 of RFC 6455): what a peer sends in pieces, with
  control frames in between, is what a read loop returns. Opcodes are written as numbers here.
*/
module WsMessages {
  import opened Bytes
  import opened Seqs
  import opened WsFrame
  import opened WsStream
  import opened WsWire
  import WsConn

  /** One message: text or binary, cut into pieces, `between[i]` sent ahead of piece `i`. */
  datatype Message = Message(kind: byte, pieces: seq<seq<byte>>, between: seq<seq<Frame>>) {
    predicate Ok() {
      && (kind == 1 || kind == 2)
      && |between| == |pieces|
      && forall b <- between :: Interlude(b)
    }
  }

  /** Pings, pongs and anything the reader does not know: neither data nor close. */
  predicate Interlude(fs: seq<Frame>) {
    forall f <- fs :: f.opcode != 0 && f.opcode != 1 && f.opcode != 2 && f.opcode != 8
  }

  /** The first piece goes under the message's opcode, every later one under 0. */
  function Fragments(kind: byte, pieces: seq<seq<byte>>, between: seq<seq<Frame>>): seq<Frame>
    requires |between| == |pieces|
  {
    if pieces == [] then []
    else between[0] + ([Frame(kind, pieces[0])] + Fragments(0, pieces[1..], between[1..]))
  }

  function Sent(messages: seq<Message>): seq<Frame>
    requires forall m <- messages :: m.Ok()
  {
    if messages == [] then []
    else
      var m := messages[0];
      assert m in messages && m.Ok();
      Fragments(m.kind, m.pieces, m.between) + Sent(messages[1..])
  }

  function Together(pieces: seq<seq<byte>>): seq<byte> {
    if pieces == [] then [] else pieces[0] + Together(pieces[1..])
  }

  function TextOf(messages: seq<Message>): seq<byte> {
    if messages == [] then [] else Together(messages[0].pieces) + TextOf(messages[1..])
  }

  /** A pong for every ping, with the ping's payload. */
  function Answers(fs: seq<Frame>): seq<Frame> {
    if fs == [] then []
    else (if fs[0].opcode == 9 then [Frame(10, fs[0].payload)] else []) + Answers(fs[1..])
  }

  predicate NoClose(fs: seq<Frame>) { forall f <- fs :: f.opcode != 8 }

  lemma DataOfOne(f: Frame)
    ensures DataOf([f]) == if f.opcode == 0 || f.opcode == 1 || f.opcode == 2 then f.payload else []
    ensures Pongs([f]) == if f.opcode == 9 then [Frame(10, f.payload)] else []
  {
    NoFramesNoData();
    DataOfSnoc([], f);
    assert [] + [f] == [f];
  }

  lemma {:induction false} InterludeIsSilent(fs: seq<Frame>)
    requires Interlude(fs)
    ensures DataOf(fs) == [] && NoClose(fs)
  {
    hide DataOf;
    if fs == [] {
      NoFramesNoData();
    } else {
      InterludeIsSilent(fs[1..]);
      DataOfOne(fs[0]);
      DataOfConcat([fs[0]], fs[1..]);
      assert fs == [fs[0]] + fs[1..];
    }
  }

  /** One message in pieces is its bytes. */
  lemma {:induction false} FragmentsAreTheText(kind: byte, pieces: seq<seq<byte>>, between: seq<seq<Frame>>)
    requires kind == 0 || kind == 1 || kind == 2
    requires |between| == |pieces| && forall b <- between :: Interlude(b)
    ensures DataOf(Fragments(kind, pieces, between)) == Together(pieces)
    ensures NoClose(Fragments(kind, pieces, between))
  {
    hide DataOf;
    if pieces == [] {
      NoFramesNoData();
    } else {
      var f, rest := Frame(kind, pieces[0]), Fragments(0, pieces[1..], between[1..]);
      FragmentsAreTheText(0, pieces[1..], between[1..]);
      InterludeIsSilent(between[0]);
      DataOfOne(f);
      DataOfConcat([f], rest);
      DataOfConcat(between[0], [f] + rest);
    }
  }

  lemma {:induction false} SentIsTheText(messages: seq<Message>)
    requires forall m <- messages :: m.Ok()
    ensures DataOf(Sent(messages)) == TextOf(messages) && NoClose(Sent(messages))
  {
    hide DataOf, Fragments;
    if messages == [] {
      NoFramesNoData();
    } else {
      var m := messages[0];
      assert m in messages && m.Ok();
      SentIsTheText(messages[1..]);
      FragmentsAreTheText(m.kind, m.pieces, m.between);
      DataOfConcat(Fragments(m.kind, m.pieces, m.between), Sent(messages[1..]));
    }
  }

  lemma {:induction false} PongsAreAnswers(fs: seq<Frame>)
    ensures Pongs(fs) == Answers(fs)
  {
    if fs == [] {
      NoFramesNoData();
    } else {
      PongsAreAnswers(fs[1..]);
      DataOfOne(fs[0]);
      PongsConcat([fs[0]], fs[1..]);
      assert fs == [fs[0]] + fs[1..];
    }
  }

  /** Where a stream of frames ends: by running out, or at a close frame whatever follows it. */
  datatype End = RunsOut | Close(payload: seq<byte>, more: seq<Frame>)

  function EndFrames(end: End): seq<Frame> {
    if end.RunsOut? then [] else [Frame(8, end.payload)] + end.more
  }

  /** What a reader consumes of such a stream, with the data and the pings in it. */
  lemma ReadOfStream(sent: seq<Frame>, end: End)
    requires NoClose(sent)
    ensures DataOf(UpToClose(sent + EndFrames(end))) == DataOf(sent)
    ensures Pongs(UpToClose(sent + EndFrames(end))) == Answers(sent)
  {
    hide DataOf, Pongs;
    PongsAreAnswers(sent);
    assert forall f <- sent :: !IsClose(f);
    if end.RunsOut? {
      assert sent + [] == sent;
      StopsAtClose(sent, sent);
    } else {
      var close := Frame(8, end.payload);
      assert sent + EndFrames(end) == sent + [close] + end.more;
      DataBeforeClose(sent, close, end.more);
      DataOfOne(close);
      PongsConcat(sent, [close]);
    }
  }

  /**
    Messages in any number of pieces, with pings, pongs and unknown frames anywhere between, each frame in any
    wire form, read with nonempty buffers of any sizes: the bytes returned are the pieces joined, up to the
    end of the stream or the first close, and every ping before it is answered with its own payload.
  */
  method ReadMessages(messages: seq<Message>, last: seq<Frame>, end: End, wire: seq<WireFrame>, sizes: nat -> nat)
      returns (c: WsConn.Conn)
    requires (forall m <- messages :: m.Ok()) && Interlude(last)
    requires (forall w <- wire :: w.Fits()) && Meanings(wire) == Sent(messages) + last + EndFrames(end)
    ensures c.delivered == TextOf(messages)
    ensures c.sent == Answers(Sent(messages) + last)
  {
    hide DataOf, Pongs, UpToClose, Sent, Frames, Tail, OnWireAll, Meanings, EndFrames, NoClose, Interlude, Answers;
    ghost var sent := Sent(messages) + last;
    StreamReads(wire);
    SentIsTheText(messages);
    InterludeIsSilent(last);
    DataOfConcat(Sent(messages), last);
    assert NoClose(sent) by { NoCloseBoth(Sent(messages), last); }
    ReadOfStream(sent, end);
    c := new WsConn.Conn(OnWireAll(wire));
    var err := WsConn.ReadToEnd(c, sizes);
  }

  lemma NoCloseBoth(a: seq<Frame>, b: seq<Frame>)
    requires NoClose(a) && NoClose(b)
    ensures NoClose(a + b)
  {
  }
}
