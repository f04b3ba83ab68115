/** The connection object of pkg/dataplane/websocket/conn.go: buffered reads, locked writes, one object. */
module WsConn {
  import opened Bytes
  import opened WsFrame
  import opened WsStream
  import opened Seqs

  datatype Error = None | Eof | UnexpectedEof | Closed | Panic

  class Conn {
    /** What the buffered reader has yet to give; the network, and where it fails, is this choice of bytes. */
    var input: seq<byte>
    /** What the socket has accepted so far. */
    var output: seq<byte>
    var open: bool
    var readBuf: array?<byte>
    var readPos: nat

    ghost const arrived: seq<byte>   // every byte the reader will ever give
    ghost var consumed: seq<Frame>   // frames read so far
    ghost var delivered: seq<byte>   // bytes returned to callers of Read so far
    ghost var sent: seq<Frame>       // frames written so far

    ghost function Buffered(): seq<byte>
      requires readBuf != null ==> readPos <= readBuf.Length
      reads this, readBuf
    {
      if readBuf == null then [] else readBuf[readPos..]
    }

    /**
      The stream invariant: bytes returned plus bytes buffered are exactly the data payloads consumed;
      the frames consumed and those still in the input are the frames that arrived; and the output is
      whole frames to its last byte.
    */
    ghost predicate Valid()
      reads this, readBuf
    {
      && (readBuf == null ==> readPos == 0)
      && (readBuf != null ==> readPos < readBuf.Length)
      && delivered + Buffered() == DataOf(consumed)
      && WireAgrees()
    }

    ghost predicate WireAgrees()
      reads this`input, this`output, this`consumed, this`sent
    {
      && consumed + Frames(input) == Frames(arrived)
      && Frames(output) == sent
      && Tail(output) == []
    }

    constructor (input: seq<byte>)
      ensures Valid()
      ensures this.input == arrived == input && open
      ensures consumed == [] && delivered == [] && sent == [] && output == [] && readBuf == null
    {
      this.input, this.arrived := input, input;
      output, open := [], true;
      readBuf, readPos := null, 0;
      consumed, delivered, sent := [], [], [];
      new;
      hide Decode, Frames, Tail, DataOf;
      FramesStep([]);
      NoFramesNoData();
    }

    /** `io.ReadFull`: all of `buf`, or an error and an exhausted input. */
    method ReadFull(buf: array<byte>) returns (err: Error)
      modifies this`input, buf
      ensures err == None <==> buf.Length <= |old(input)|
      ensures err == None ==> buf[..] == old(input)[..buf.Length] && input == old(input)[buf.Length..]
      ensures err != None ==> err == (if old(input) == [] then Eof else UnexpectedEof) && input == []
    {
      if buf.Length <= |input| {
        var i := 0;
        while i < buf.Length
          modifies buf
          invariant 0 <= i <= buf.Length
          invariant buf[..i] == input[..i]
        {
          buf[i] := input[i];
          i := i + 1;
        }
        input := input[buf.Length..];
        err := None;
      } else {
        err := if input == [] then Eof else UnexpectedEof;
        input := [];
      }
    }

    /** `payload[i] ^= maskKey[i%4]`, in place. */
    static method Unmask(payload: array<byte>, maskKey: Key)
      modifies payload
      ensures payload[..] == Mask(maskKey, old(payload[..]))
    {
      var i := 0;
      while i < payload.Length
        invariant 0 <= i <= payload.Length
        invariant forall k :: 0 <= k < i ==> payload[k] == Xor(old(payload[k]), maskKey[k % 4])
        invariant forall k :: i <= k < payload.Length ==> payload[k] == old(payload[k])
      {
        payload[i] := Xor(payload[i], maskKey[i % 4]);
        i := i + 1;
      }
    }

    method ReadLength(short: byte) returns (length: nat, err: Error)
      modifies this`input
      ensures var width := Extension(short);
              && (err == None <==> width <= |old(input)|)
              && (err == None ==> length == Length(short, old(input)[..width]) && input == old(input)[width..])
      ensures err != None ==> err == (if old(input) == [] then Eof else UnexpectedEof) && input == []
    {
      length, err := short, None;
      if short == 126 || short == 127 {
        var ext := new byte[if short == 126 then 2 else 8];
        err := ReadFull(ext);
        if err == None {
          length := FromBigEndian(ext[..]);
        }
      }
    }

    method ReadPayload(opcode: byte, masked: bool, length: nat) returns (payload: array<byte>, err: Error)
      modifies this`input
      ensures fresh(payload)
      ensures match DecodeKey(opcode, masked, length, old(input))
              case Whole(f, rest) => err == None && opcode == f.opcode && payload[..] == f.payload && input == rest
              case Short(clean) => err == (if clean then Eof else UnexpectedEof) && input == []
              case Panic => err == Error.Panic && input == []
    {
      payload, err := new byte[0], None;
      var maskKey := new byte[4](_ => 0);
      if masked {
        err := ReadFull(maskKey);
        if err != None {
          return;
        }
      }
      if length >= LENGTH_LIMIT {
        // A negative length: the allocation panics and nothing reads on.
        err, input := Error.Panic, [];
        return;
      }
      payload := new byte[length];
      if length > 0 {
        err := ReadFull(payload);
        if err != None {
          return;
        }
      }
      if masked {
        Unmask(payload, maskKey[..]);
      }
    }

    method ReadFrame() returns (opcode: byte, payload: array<byte>, err: Error)
      modifies this`input
      ensures fresh(payload)
      ensures match Decode(old(input))
              case Whole(f, rest) => err == None && opcode == f.opcode && payload[..] == f.payload && input == rest
              case Short(clean) => err == (if clean then Eof else UnexpectedEof) && input == []
              case Panic => err == Error.Panic && input == []
    {
      hide DecodeKey;
      opcode, payload := 0, new byte[0];
      ghost var all := input;
      var header := new byte[2];
      err := ReadFull(header);
      if err != None {
        return;
      }
      assert header[..][0] == all[0] && header[..][1] == all[1];
      opcode := LowNibble(header[0]);
      var masked := TopBit(header[1]);
      ghost var width := Extension(LowSeven(header[1]));
      assert |all| >= 2 + width ==> all[2..][..width] == all[2..2 + width] && all[2..][width..] == all[2 + width..];
      var length;
      length, err := ReadLength(LowSeven(header[1]));
      if err != None {
        return;
      }
      payload, err := ReadPayload(opcode, masked, length);
    }

    /** Enters the outcome of ReadFrame in the ghost account of frames consumed. */
    ghost method Account(unread: seq<byte>, err: Error, f: Frame)
      requires consumed + Frames(unread) == Frames(arrived) && Frames(output) == sent && Tail(output) == []
      requires err == None ==> Decode(unread) == Whole(f, input)
      requires err != None ==> !Decode(unread).Whole? && input == []
      modifies this`consumed
      ensures WireAgrees()
      ensures consumed == old(consumed) + if err == None then [f] else []
      ensures err == None ==> f.Fits() && |input| + |f.payload| + 2 <= |unread|
    {
      hide Decode, Frames, Tail;
      FramesStep(unread);
      if err == None {
        WholeConsumes(unread);
        assert consumed + ([f] + Frames(input)) == (consumed + [f]) + Frames(input);
        consumed := consumed + [f];
      }
    }

    /** The built-in `copy` from the unread part of `src`. */
    static method Copy(dst: array<byte>, src: array<byte>, from: nat) returns (n: nat)
      requires from <= src.Length && dst != src
      modifies dst
      ensures n == if dst.Length < src.Length - from then dst.Length else src.Length - from
      ensures dst[..n] == src[from..from + n]
      ensures dst[n..] == old(dst[n..])
    {
      n := if dst.Length < src.Length - from then dst.Length else src.Length - from;
      var i := 0;
      while i < n
        invariant 0 <= i <= n
        invariant dst[..i] == src[from..from + i]
        invariant dst[i..] == old(dst[i..])
      {
        dst[i] := src[from + i];
        i := i + 1;
      }
    }

    /** Copies what fits of `src[from..]` to the caller and keeps the rest for the next read. */
    method Serve(p: array<byte>, src: array<byte>, from: nat) returns (n: nat)
      requires from < src.Length && p != src
      modifies this`readBuf, this`readPos, this`delivered, p
      ensures readBuf == null ==> readPos == 0
      ensures readBuf != null ==> readBuf == src && readPos < readBuf.Length
      ensures n <= p.Length && p[n..] == old(p[n..]) && (p.Length > 0 ==> n > 0)
      ensures delivered == old(delivered) + p[..n]
      ensures p[..n] + Buffered() == old(src[from..])
      ensures n == p.Length || Buffered() == []
    {
      n := Copy(p, src, from);
      delivered := delivered + p[..n];
      readBuf, readPos := src, from + n;
      if readPos >= src.Length {
        readBuf, readPos := null, 0;
      }
    }

    /**
      The frame loop of Read: skip control and empty frames, answering pings, up to a payload to deliver,
      a close or an error. `newly` are the frames consumed.
    */
    method NextPayload() returns (payload: array<byte>, err: Error, ghost newly: seq<Frame>)
      requires WireAgrees()
      modifies this`input, this`output, this`consumed, this`sent
      ensures WireAgrees() && fresh(payload) && consumed == old(consumed) + newly && CloseOnlyLast(newly)
      ensures err == None ==> newly != [] && payload.Length > 0
      ensures err == None ==> newly[|newly| - 1].payload == payload[..] && Delivers(newly[|newly| - 1])
      ensures forall i :: 0 <= i < |newly| && (err != None || i < |newly| - 1) ==> !Delivers(newly[i])
      ensures DataOf(newly) == if err == None then payload[..] else []
      ensures err != None ==> input == [] || (err == Eof && newly != [] && IsClose(newly[|newly| - 1]))
      ensures |input| + (if err == None then payload.Length else 0) <= |old(input)|
      ensures err == None ==> |input| + payload.Length < |old(input)|
      ensures sent == old(sent) + if open then Pongs(newly) else []
    {
      hide Decode, Frames, Tail, DataOf, Pongs;
      newly := [];
      NoFramesNoData();
      while true
        invariant WireAgrees() && consumed == old(consumed) + newly
        invariant forall f <- newly :: !IsClose(f) && !Delivers(f)
        invariant DataOf(newly) == []
        invariant sent == old(sent) + if open then Pongs(newly) else []
        invariant |input| <= |old(input)|
        decreases |input|
      {
        ghost var unread := input;
        var opcode, p, e := ReadFrame();
        payload, err := p, e;
        ghost var f := Frame(opcode, payload[..]);
        Account(unread, err, f);
        if err != None {
          return;
        }
        DataOfSnoc(newly, f);
        newly := newly + [f];
        if opcode == OP_BINARY || opcode == OP_CONTINUATION || opcode == OP_TEXT {
          if payload.Length == 0 {
            continue;
          }
          return;
        } else if opcode == OP_PING {
          var _, _ := WriteFrame(OP_PONG, payload);
        } else if opcode == OP_CLOSE {
          err := Eof;
          return;
        }
      }
    }

    /**
      One caller's read. `newly` are the frames it consumes: all skipped except possibly the last, which
      either carries the data returned or is the close that ends the stream.
    */
    method Read(p: array<byte>) returns (n: nat, err: Error, ghost newly: seq<Frame>)
      requires Valid() && p != readBuf
      modifies this`input, this`output, this`readBuf, this`readPos, this`consumed, this`delivered, this`sent, p
      ensures Valid() && (readBuf == old(readBuf) || readBuf == null || fresh(readBuf))
      // what the caller gets
      ensures n <= p.Length && p[n..] == old(p[n..])
      ensures delivered == old(delivered) + p[..n]
      ensures n == p.Length || Buffered() == []
      ensures err == None && p.Length > 0 ==> n > 0
      ensures err != None ==> n == 0 && Buffered() == []
      // what it consumes
      ensures consumed == old(consumed) + newly && CloseOnlyLast(newly)
      ensures old(Buffered()) != [] ==> err == None && newly == [] && input == old(input)
      ensures forall i :: 0 <= i < |newly| && (err != None || i < |newly| - 1) ==> !Delivers(newly[i])
      ensures err == None ==> old(Buffered()) != [] || (newly != [] && Delivers(newly[|newly| - 1]))
      ensures err != None ==> input == [] || (err == Eof && newly != [] && IsClose(newly[|newly| - 1]))
      ensures |input| + |Buffered()| + n <= |old(input)| + |old(Buffered())|
      // what it answers
      ensures sent == old(sent) + if open then Pongs(newly) else []
    {
      hide DataOf, Pongs, WireAgrees, Delivers;
      newly, err := [], None;
      if readBuf != null && readPos < readBuf.Length {
        NoFramesNoData();
        n := ReadBuffered(p);
        return;
      }
      var payload, e, skipped := NextPayload();
      n, err, newly := 0, e, skipped;
      ghost var got: seq<byte> := [];
      if err == None {
        n := Serve(p, payload, 0);
        got := payload[..];
      }
      Delivered(old(consumed), newly, got, old(delivered), p[..n], Buffered());
    }

    lemma Delivered(had: seq<Frame>, newly: seq<Frame>, got: seq<byte>, before: seq<byte>, now: seq<byte>, left: seq<byte>)
      requires before == DataOf(had) && DataOf(newly) == got && now + left == got
      ensures before + now + left == DataOf(had + newly)
    {
      DataOfConcat(had, newly);
      Assoc(before, now, left);
    }

    /** The part of Read that empties `readBuf` without touching the wire. */
    method ReadBuffered(p: array<byte>) returns (n: nat)
      requires Valid() && p != readBuf && readBuf != null
      modifies this`readBuf, this`readPos, this`delivered, p
      ensures Valid() && (readBuf == old(readBuf) || readBuf == null)
      ensures n <= p.Length && p[n..] == old(p[n..]) && (p.Length > 0 ==> n > 0)
      ensures delivered == old(delivered) + p[..n]
      ensures n == p.Length || Buffered() == []
      ensures |Buffered()| + n == |old(Buffered())|
    {
      hide DataOf, WireAgrees;
      n := Serve(p, readBuf, readPos);
      Assoc(old(delivered), p[..n], Buffered());
    }

    /** The header and masked payload of one frame, under a random key. */
    static method BuildFrame(opcode: byte, payload: array<byte>)
      returns (header: seq<byte>, masked: array<byte>, maskKey: Key)
      ensures fresh(masked)
      ensures header == Header(opcode, payload.Length, maskKey)
      ensures masked[..] == Mask(maskKey, payload[..])
    {
      var length := payload.Length;
      header := [WithTopBit(opcode)];
      if length < 126 {
        header := header + [128 + length];
      } else if length < 65536 {
        header := header + ([128 + 126] + BigEndian(length, 2));
      } else {
        header := header + ([128 + 127] + BigEndian(length, 8));
      }
      var k0: byte, k1: byte, k2: byte, k3: byte := *, *, *, *;
      maskKey := [k0, k1, k2, k3];
      header := header + maskKey;
      masked := new byte[length];
      var i := 0;
      while i < length
        modifies masked
        invariant 0 <= i <= length
        invariant forall k :: 0 <= k < i ==> masked[k] == Xor(payload[k], maskKey[k % 4])
      {
        masked[i] := Xor(payload[i], maskKey[i % 4]);
        i := i + 1;
      }
    }

    /** One whole frame under `writeMu`; no effect once the socket is closed. */
    method WriteFrame(opcode: byte, payload: array<byte>) returns (err: Error, ghost maskKey: Key)
      requires opcode < 16 && payload.Length < LENGTH_LIMIT
      requires WireAgrees()
      modifies this`output, this`sent
      ensures WireAgrees()
      ensures err == if open then None else Closed
      ensures output == old(output) + if open then Encode(Frame(opcode, payload[..]), maskKey) else []
      ensures sent == old(sent) + if open then [Frame(opcode, payload[..])] else []
    {
      hide Frames, Tail, Mask, Header;
      var header, masked, key := BuildFrame(opcode, payload);
      maskKey := key;
      if !open {
        return Closed, key;
      }
      ghost var f := Frame(opcode, payload[..]);
      WriteOne(output, f, key);
      assert Encode(f, key) == header + masked[..];
      output := output + header;
      if masked.Length > 0 {
        output := output + masked[..];
      }
      assert output == old(output) + Encode(f, key);
      sent := sent + [f];
      err := None;
    }

    method Write(p: array<byte>) returns (n: nat, err: Error)
      requires Valid() && p.Length < LENGTH_LIMIT
      modifies this`output, this`sent
      ensures Valid()
      ensures p.Length == 0 ==> n == 0 && err == None && sent == old(sent)
      ensures p.Length > 0 ==> err == (if open then None else Closed) && n == if open then p.Length else 0
      ensures p.Length > 0 ==> sent == old(sent) + if open then [Frame(0x2, p[..])] else []
    {
      if p.Length == 0 {
        return 0, None;
      }
      var e, _ := WriteFrame(OP_BINARY, p);
      err := e;
      n := if e == None then p.Length else 0;
    }

    method Close()
      requires Valid()
      modifies this`output, this`sent, this`open
      ensures Valid() && !open
      ensures sent == old(sent) + if old(open) then [Frame(0x8, [0x03, 0xE8])] else []
    {
      var code := new byte[] [0x03, 0xE8];
      var _, _ := WriteFrame(OP_CLOSE, code);
      assert code[..] == [0x03, 0xE8];
      open := false;
    }
  }

  /**
    A reader's loop with nonempty buffers of any sizes (transport/pipe.go:22-44 is one): by the time an
    error is returned it has been given exactly the data payloads before the first close frame, and the pings
    among those frames have been answered.
  */
  method ReadToEnd(c: Conn, sizes: nat -> nat) returns (err: Error)
    requires c.Valid()
    modifies c, c.readBuf
    ensures c.Valid() && err != None
    ensures c.delivered == old(c.delivered + c.Buffered() + DataOf(UpToClose(Frames(c.input))))
    ensures c.open == old(c.open) && c.sent == old(c.sent) + if c.open then Pongs(old(UpToClose(Frames(c.input)))) else []
  {
    hide DataOf, UpToClose, Pongs, Frames, Tail;
    NoFramesNoData();
    ghost var all, start, read := Frames(c.input), c.consumed, [];
    var round := 0;
    while true
      invariant c.Valid() && (c.readBuf == old(c.readBuf) || c.readBuf == null || fresh(c.readBuf))
      invariant c.consumed == start + read && start + all == Frames(c.arrived)
      invariant forall f <- read :: !IsClose(f)
      invariant DataOf(start) == old(c.delivered + c.Buffered())
      invariant c.open == old(c.open) && c.sent == old(c.sent) + if c.open then Pongs(read) else []
      decreases |c.input| + |c.Buffered()|
    {
      var p := new byte[sizes(round) + 1];
      var n, e, newly := c.Read(p);
      round := round + 1;
      assert c.consumed == start + (read + newly);
      PongsConcat(read, newly);
      read := read + newly;
      if e != None {
        DrainedData(start, read, all, c.input);
        assert c.delivered + c.Buffered() == c.delivered;
        return e;
      }
      assert forall i :: 0 <= i < |newly| ==> !IsClose(newly[i]);
    }
  }

  lemma DrainedData(start: seq<Frame>, read: seq<Frame>, all: seq<Frame>, left: seq<byte>)
    requires start + read + Frames(left) == start + all
    requires CloseOnlyLast(read)
    requires left == [] || (read != [] && IsClose(read[|read| - 1]))
    ensures read == UpToClose(all)
    ensures DataOf(start + read) == DataOf(start) + DataOf(UpToClose(all))
  {
    hide *;
    FramesStep(left);
    Assoc(start, read, Frames(left));
    CancelLeft(start, read + Frames(left), all);
    StopsAtClose(all, read);
    DataOfConcat(start, read);
  }
}
