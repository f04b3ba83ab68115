/** The WebSocket frame format (sections 5.2 and 5.3 of RFC 6455) as pkg/dataplane/websocket/conn.go reads and writes it. */
module WsFrame {
  import opened Bytes

  const OP_CONTINUATION: byte := 0x0
  const OP_TEXT: byte := 0x1
  const OP_BINARY: byte := 0x2
  const OP_CLOSE: byte := 0x8
  const OP_PING: byte := 0x9
  const OP_PONG: byte := 0xA

  /** The first length a signed 64-bit integer cannot hold. */
  const LENGTH_LIMIT: nat := 0x8000_0000_0000_0000

  datatype Frame = Frame(opcode: byte, payload: seq<byte>) {
    predicate Fits() {
      opcode < 16 && |payload| < LENGTH_LIMIT
    }
  }

  type Key = k: seq<byte> | |k| == 4 witness [0, 0, 0, 0]

  // Writing

  /** `payload[i] ^ key[i % 4]` for every `i`. */
  function Mask(key: Key, payload: seq<byte>): (m: seq<byte>)
    ensures |m| == |payload|
  {
    seq(|payload|, i requires 0 <= i < |payload| => Xor(payload[i], key[i % 4]))
  }

  /** The second header byte, mask bit set, and the extended length it announces. */
  function LengthField(length: nat): (bs: seq<byte>)
    ensures |bs| == if length < 126 then 1 else if length < 65536 then 3 else 9
  {
    if length < 126 then [128 + length]
    else if length < 65536 then [128 + 126] + BigEndian(length, 2)
    else [128 + 127] + BigEndian(length, 8)
  }

  function Header(opcode: byte, length: nat, key: Key): seq<byte> {
    [WithTopBit(opcode)] + LengthField(length) + key
  }

  function Encode(f: Frame, key: Key): seq<byte> {
    Header(f.opcode, |f.payload|, key) + Mask(key, f.payload)
  }

  // Reading

  /**
    What one attempt to read a frame gives: a frame and the bytes after it; `Short` when the input
    ends first, `clean` when it ends exactly where a field was due to start; or a run-time panic
    because the announced length is negative as a signed 64-bit integer.
  */
  datatype Decoded = Whole(frame: Frame, rest: seq<byte>) | Short(clean: bool) | Panic

  /** How many bytes of extended length a seven-bit length announces. */
  function Extension(short: byte): nat {
    if short == 126 then 2 else if short == 127 then 8 else 0
  }

  function Length(short: byte, extended: seq<byte>): nat {
    if extended == [] then short else FromBigEndian(extended)
  }

  function Decode(input: seq<byte>): Decoded {
    if |input| < 2 then Short(input == [])
    else
      var width := Extension(LowSeven(input[1]));
      if |input| < 2 + width then Short(|input| == 2)
      else DecodeKey(LowNibble(input[0]), TopBit(input[1]),
                     Length(LowSeven(input[1]), input[2..2 + width]), input[2 + width..])
  }

  function DecodeKey(opcode: byte, masked: bool, len: nat, input: seq<byte>): Decoded {
    if !masked then DecodePayload(opcode, [0, 0, 0, 0], false, len, input)
    else if |input| < 4 then Short(input == [])
    else DecodePayload(opcode, input[..4], true, len, input[4..])
  }

  function DecodePayload(opcode: byte, key: Key, masked: bool, len: nat, input: seq<byte>): Decoded {
    if len >= LENGTH_LIMIT then Panic
    else if |input| < len then Short(input == [])
    else Whole(Frame(opcode, if masked then Mask(key, input[..len]) else input[..len]), input[len..])
  }

  /** All leading whole frames of `input`. */
  function Frames(input: seq<byte>): seq<Frame>
    decreases |input|
  {
    match Decode(input)
    case Whole(f, rest) => WholeConsumes(input); [f] + Frames(rest)
    case _ => []
  }

  /** The bytes left over once all leading whole frames are read. */
  function Tail(input: seq<byte>): seq<byte>
    decreases |input|
  {
    match Decode(input)
    case Whole(_, rest) => WholeConsumes(input); Tail(rest)
    case _ => input
  }

  // Laws

  lemma MaskUndo(key: Key, payload: seq<byte>)
    ensures Mask(key, Mask(key, payload)) == payload
  {
    forall i | 0 <= i < |payload| ensures Mask(key, Mask(key, payload))[i] == payload[i] {
      XorInvolution(payload[i], key[i % 4]);
    }
  }

  /** A frame takes at least two bytes off the front of the input, and what it holds could have been written. */
  lemma WholeConsumes(input: seq<byte>)
    requires Decode(input).Whole?
    ensures |Decode(input).rest| + |Decode(input).frame.payload| + 2 <= |input|
    ensures input[|input| - |Decode(input).rest|..] == Decode(input).rest
    ensures Decode(input).frame.Fits()
  {
    hide DecodeKey, FromBigEndian;
    var width := Extension(LowSeven(input[1]));
    KeyConsumes(LowNibble(input[0]), TopBit(input[1]), Length(LowSeven(input[1]), input[2..2 + width]), input[2 + width..]);
  }

  lemma KeyConsumes(opcode: byte, masked: bool, len: nat, input: seq<byte>)
    requires DecodeKey(opcode, masked, len, input).Whole? && opcode < 16
    ensures var d := DecodeKey(opcode, masked, len, input);
            |d.rest| + |d.frame.payload| <= |input| && input[|input| - |d.rest|..] == d.rest && d.frame.Fits()
  {
  }

  /** The body of a written frame: key, masked payload and whatever follows. */
  lemma BodyRoundTrip(f: Frame, key: Key, rest: seq<byte>)
    requires f.Fits()
    ensures DecodeKey(f.opcode, true, |f.payload|, key + Mask(key, f.payload) + rest) == Whole(f, rest)
  {
    var masked := Mask(key, f.payload);
    MaskUndo(key, f.payload);
    var body := key + masked + rest;
    assert body[..4] == key && body[4..] == masked + rest;
    assert (masked + rest)[..|masked|] == masked && (masked + rest)[|masked|..] == rest;
  }

  /** The length field is read back, in each of its three forms. */
  lemma LengthRoundTrip(op: byte, length: nat, body: seq<byte>)
    requires length < LENGTH_LIMIT
    ensures Decode([op] + LengthField(length) + body) == DecodeKey(LowNibble(op), true, length, body)
  {
    hide DecodeKey, FromBigEndian, BigEndian, Pow256;
    var input := [op] + LengthField(length) + body;
    if length < 126 {
      assert input[2..] == body;
    } else {
      var n := if length < 65536 then 2 else 8;
      Pow256Values();
      BigEndianRoundTrip(length, n);
      assert input[2..2 + n] == BigEndian(length, n);
      assert input[2 + n..] == body;
    }
  }

  /** Reading what was written gives the frame back and leaves exactly what followed it. */
  lemma RoundTrip(f: Frame, key: Key, rest: seq<byte>)
    requires f.Fits()
    ensures Decode(Encode(f, key) + rest) == Whole(f, rest)
  {
    var body := key + Mask(key, f.payload) + rest;
    assert Encode(f, key) + rest == [WithTopBit(f.opcode)] + LengthField(|f.payload|) + body;
    LengthRoundTrip(WithTopBit(f.opcode), |f.payload|, body);
    BodyRoundTrip(f, key, rest);
  }

  /** Bytes after a frame do not change how the frame is read. */
  lemma DecodeExtend(input: seq<byte>, more: seq<byte>)
    requires Decode(input).Whole?
    ensures Decode(input + more) == Whole(Decode(input).frame, Decode(input).rest + more)
  {
    hide DecodeKey, FromBigEndian;
    var width := Extension(LowSeven(input[1]));
    assert (input + more)[2..2 + width] == input[2..2 + width];
    assert (input + more)[2 + width..] == input[2 + width..] + more;
    DecodeKeyExtend(LowNibble(input[0]), TopBit(input[1]),
                    Length(LowSeven(input[1]), input[2..2 + width]), input[2 + width..], more);
  }

  lemma DecodeKeyExtend(opcode: byte, masked: bool, len: nat, input: seq<byte>, more: seq<byte>)
    requires DecodeKey(opcode, masked, len, input).Whole?
    ensures DecodeKey(opcode, masked, len, input + more)
         == var d := DecodeKey(opcode, masked, len, input); Whole(d.frame, d.rest + more)
  {
    var skip := if masked then 4 else 0;
    assert (input + more)[..skip] == input[..skip] && (input + more)[skip..] == input[skip..] + more;
    var body := input[skip..];
    assert body == input[skip..];
    if !masked { assert body == input; assert (input + more)[skip..] == input + more; }
    assert (body + more)[..len] == body[..len] && (body + more)[len..] == body[len..] + more;
  }

  /** Every strict prefix of the bytes of one frame fails for lack of input. */
  lemma StrictPrefixFails(input: seq<byte>, k: nat)
    requires Decode(input).Whole?
    requires k < |input| - |Decode(input).rest|
    ensures Decode(input[..k]).Short?
  {
    WholeConsumes(input);
    var d := Decode(input[..k]);
    assert input[..k] + input[k..] == input;
    if d.Whole? {
      DecodeExtend(input[..k], input[k..]);
      assert false;
    } else if d.Panic? {
      PanicExtend(input[..k], input[k..]);
      assert false;
    }
  }

  lemma PanicExtend(input: seq<byte>, more: seq<byte>)
    requires Decode(input).Panic?
    ensures Decode(input + more).Panic?
  {
    hide FromBigEndian;
    var width := Extension(LowSeven(input[1]));
    assert (input + more)[2..2 + width] == input[2..2 + width];
    assert (input + more)[2 + width..] == input[2 + width..] + more;
  }

  // Sequences of frames

  lemma FramesStep(input: seq<byte>)
    ensures Decode(input).Whole? ==> Frames(input) == [Decode(input).frame] + Frames(Decode(input).rest)
    ensures Decode(input).Whole? ==> Tail(input) == Tail(Decode(input).rest)
    ensures !Decode(input).Whole? ==> Frames(input) == [] && Tail(input) == input
    ensures Frames([]) == [] && Tail([]) == []
  {
  }

  function EncodeAll(fs: seq<Frame>, keys: seq<Key>): seq<byte>
    requires |fs| == |keys|
  {
    if fs == [] then [] else Encode(fs[0], keys[0]) + EncodeAll(fs[1..], keys[1..])
  }

  /** Frame sequences decode uniquely, whatever undecodable bytes follow. */
  lemma {:induction false} FramesOfEncodeAll(fs: seq<Frame>, keys: seq<Key>, tail: seq<byte>)
    requires |fs| == |keys|
    requires forall f <- fs :: f.Fits()
    requires !Decode(tail).Whole?
    ensures Frames(EncodeAll(fs, keys) + tail) == fs
    ensures Tail(EncodeAll(fs, keys) + tail) == tail
  {
    hide Decode;
    FramesStep(EncodeAll(fs, keys) + tail);
    if fs == [] {
      assert EncodeAll(fs, keys) + tail == tail;
    } else {
      var rest := EncodeAll(fs[1..], keys[1..]) + tail;
      assert EncodeAll(fs, keys) + tail == Encode(fs[0], keys[0]) + rest;
      RoundTrip(fs[0], keys[0], rest);
      FramesOfEncodeAll(fs[1..], keys[1..], tail);
      assert [fs[0]] + fs[1..] == fs;
    }
  }

  /** Bytes that are whole frames to the end can be read on into whatever follows them. */
  lemma {:induction false} FramesAppend(a: seq<byte>, b: seq<byte>)
    requires Tail(a) == []
    ensures Frames(a + b) == Frames(a) + Frames(b)
    ensures Tail(a + b) == Tail(b)
    decreases |a|
  {
    hide Decode;
    FramesStep(a);
    FramesStep(a + b);
    if a == [] {
      assert a + b == b;
    } else {
      WholeConsumes(a);
      DecodeExtend(a, b);
      FramesAppend(Decode(a).rest, b);
    }
  }

  lemma FramesOfOne(f: Frame, key: Key)
    requires f.Fits()
    ensures Frames(Encode(f, key)) == [f] && Tail(Encode(f, key)) == []
  {
    hide Decode;
    RoundTrip(f, key, []);
    assert Encode(f, key) + [] == Encode(f, key);
    FramesStep(Encode(f, key));
  }

  /** Writing one more frame after whole frames. */
  lemma WriteOne(output: seq<byte>, f: Frame, key: Key)
    requires Tail(output) == [] && f.Fits()
    ensures Frames(output + Encode(f, key)) == Frames(output) + [f]
    ensures Tail(output + Encode(f, key)) == []
  {
    FramesOfOne(f, key);
    FramesAppend(output, Encode(f, key));
  }

  /** A stream cut short loses frames from its end only. */
  lemma {:induction false} FramesOfPrefix(a: seq<byte>, b: seq<byte>)
    ensures Frames(a) <= Frames(a + b)
    decreases |a|
  {
    hide Decode;
    FramesStep(a);
    FramesStep(a + b);
    if Decode(a).Whole? {
      WholeConsumes(a);
      DecodeExtend(a, b);
      FramesOfPrefix(Decode(a).rest, b);
    }
  }
}
