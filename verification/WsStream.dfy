/** What a sequence of frames means to the reader: a byte stream, answers to pings, and an end. */
module WsStream {
  import opened Bytes
  import opened WsFrame

  /** Frames whose payload belongs to the byte stream (section 5.6 of RFC 6455; continuations per section 5.4). */
  predicate IsData(f: Frame) {
    f.opcode == OP_BINARY || f.opcode == OP_CONTINUATION || f.opcode == OP_TEXT
  }

  predicate IsClose(f: Frame) { f.opcode == OP_CLOSE }

  /** Frames that give `Read` something to return. */
  predicate Delivers(f: Frame) { IsData(f) && f.payload != [] }

  function Data(f: Frame): seq<byte> { if IsData(f) then f.payload else [] }

  /** The bytes carried by the data frames, in order, whatever lies between them. */
  function DataOf(fs: seq<Frame>): seq<byte> {
    if fs == [] then [] else DataOf(fs[..|fs| - 1]) + Data(fs[|fs| - 1])
  }

  /** One pong per ping, with the same payload. */
  function Pongs(fs: seq<Frame>): seq<Frame> {
    if fs == [] then []
    else
      var f := fs[|fs| - 1];
      Pongs(fs[..|fs| - 1]) + if f.opcode == OP_PING then [Frame(OP_PONG, f.payload)] else []
  }

  /** The frames up to and including the first close. */
  function UpToClose(fs: seq<Frame>): seq<Frame> {
    if fs == [] then []
    else if IsClose(fs[0]) then [fs[0]]
    else [fs[0]] + UpToClose(fs[1..])
  }

  /** Only the last frame may be a close. */
  predicate CloseOnlyLast(fs: seq<Frame>) {
    forall i :: 0 <= i < |fs| - 1 ==> !IsClose(fs[i])
  }

  lemma DataOfSnoc(fs: seq<Frame>, f: Frame)
    ensures DataOf(fs + [f]) == DataOf(fs) + Data(f)
    ensures Pongs(fs + [f]) == Pongs(fs) + if f.opcode == OP_PING then [Frame(OP_PONG, f.payload)] else []
  {
    assert (fs + [f])[..|fs|] == fs;
  }

  lemma NoFramesNoData()
    ensures DataOf([]) == [] && Pongs([]) == [] && UpToClose([]) == []
  {
  }

  lemma {:induction false} DataOfConcat(a: seq<Frame>, b: seq<Frame>)
    ensures DataOf(a + b) == DataOf(a) + DataOf(b)
  {
    if b == [] {
      assert a + b == a;
    } else {
      var n := |b| - 1;
      assert a + b == (a + b[..n]) + [b[n]];
      DataOfSnoc(a + b[..n], b[n]);
      DataOfConcat(a, b[..n]);
    }
  }

  lemma {:induction false} PongsConcat(a: seq<Frame>, b: seq<Frame>)
    ensures Pongs(a + b) == Pongs(a) + Pongs(b)
  {
    if b == [] {
      assert a + b == a;
    } else {
      var n := |b| - 1;
      assert a + b == (a + b[..n]) + [b[n]];
      DataOfSnoc(a + b[..n], b[n]);
      PongsConcat(a, b[..n]);
    }
  }

  /** A reader that stops at the first close it meets has read exactly the frames up to it. */
  lemma {:induction false} StopsAtClose(all: seq<Frame>, read: seq<Frame>)
    requires read <= all && CloseOnlyLast(read)
    requires read == all || (read != [] && IsClose(read[|read| - 1]))
    ensures read == all ==> CloseOnlyLast(all)
    ensures UpToClose(all) == read
  {
    if all != [] {
      if read == [] {
        assert false;
      } else if !IsClose(all[0]) {
        var rest := read[1..];
        assert forall i :: 0 <= i < |rest| - 1 ==> rest[i] == read[i + 1];
        StopsAtClose(all[1..], rest);
      }
    }
  }

  /** What was sent before the first close is what the stream holds up to that close. */
  lemma {:induction false} DataBeforeClose(before: seq<Frame>, close: Frame, after: seq<Frame>)
    requires forall f <- before :: !IsClose(f)
    requires IsClose(close)
    ensures UpToClose(before + [close] + after) == before + [close]
    ensures DataOf(UpToClose(before + [close] + after)) == DataOf(before)
  {
    var all := before + [close] + after;
    var read := before + [close];
    assert read <= all;
    StopsAtClose(all, read);
    DataOfSnoc(before, close);
  }

  /** A reader that sees fewer frames is given a prefix of the bytes. */
  lemma {:induction false} DataOfPrefix(fs: seq<Frame>, gs: seq<Frame>)
    requires fs <= gs
    ensures DataOf(UpToClose(fs)) <= DataOf(UpToClose(gs))
  {
    UpToClosePrefix(fs, gs);
    var a, b := UpToClose(fs), UpToClose(gs);
    assert b == a + b[|a|..];
    DataOfConcat(a, b[|a|..]);
  }

  lemma {:induction false} UpToClosePrefix(fs: seq<Frame>, gs: seq<Frame>)
    requires fs <= gs
    ensures UpToClose(fs) <= UpToClose(gs)
  {
    if fs != [] {
      UpToClosePrefix(fs[1..], gs[1..]);
    }
  }
}
