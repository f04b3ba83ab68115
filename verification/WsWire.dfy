/**
  Frames as they stand on the wire, byte by byte (section 5.2 of RFC 6455): every form a peer may choose is
  read, and the form this code writes is one of them. Field values are written as numbers here.
*/
module WsWire {
  import opened Bytes
  import opened Options
  import opened Seqs
  import opened WsFrame

  /** How a peer writes a payload length; it need not choose the shortest form. */
  datatype Form = Seven | Sixteen | SixtyFour

  /** `first` holds the FIN and RSV bits and the opcode; a server sends no key. */
  datatype WireFrame = WireFrame(first: byte, key: Option<Key>, form: Form, payload: seq<byte>) {
    predicate Fits() {
      match form
      case Seven => |payload| < 126
      case Sixteen => |payload| < 0x1_0000
      case SixtyFour => |payload| < 0x8000_0000_0000_0000
    }

    /** What it says to the reader. */
    function Meaning(): Frame { Frame(first % 16, payload) }

    function Extended(): seq<byte>
      requires Fits()
    {
      match form
      case Seven => []
      case Sixteen => [|payload| / 256, |payload| % 256]
      case SixtyFour => BigEndian(|payload|, 8)
    }

    function Second(): byte
      requires Fits()
    {
      (if key.Some? then 128 else 0) + (match form case Seven => |payload| case Sixteen => 126 case SixtyFour => 127)
    }

    function KeyBytes(): seq<byte> { if key.Some? then key.value else [] }

    function Body(): seq<byte> { if key.Some? then Mask(key.value, payload) else payload }

    function OnWire(): seq<byte>
      requires Fits()
    {
      [first, Second()] + (Extended() + (KeyBytes() + Body()))
    }
  }

  /** A masked byte is the payload byte and the key byte in turn, added bit by bit without carry. */
  lemma MaskBit(key: Key, payload: seq<byte>, i: nat, j: nat)
    requires i < |payload| && j < 8
    ensures Bit(Mask(key, payload)[i], j) == (Bit(payload[i], j) + Bit(key[i % 4], j)) % 2
  {
    XorBit(payload[i], key[i % 4], j);
  }

  lemma SecondRead(w: WireFrame)
    requires w.Fits()
    ensures TopBit(w.Second()) == w.key.Some?
    ensures Extension(LowSeven(w.Second())) == |w.Extended()|
    ensures Length(LowSeven(w.Second()), w.Extended()) == |w.payload|
  {
    hide BigEndian, FromBigEndian, Pow256;
    Pow256Values();
    if w.form.Sixteen? {
      TwoBytes(|w.payload|);
      BigEndianRoundTrip(|w.payload|, 2);
    } else if w.form.SixtyFour? {
      BigEndianRoundTrip(|w.payload|, 8);
    }
  }

  lemma KeyRead(w: WireFrame, opcode: byte, rest: seq<byte>)
    requires w.Fits()
    ensures DecodeKey(opcode, w.key.Some?, |w.payload|, w.KeyBytes() + w.Body() + rest)
         == Whole(Frame(opcode, w.payload), rest)
  {
    var input := w.KeyBytes() + w.Body() + rest;
    if w.key.Some? {
      MaskUndo(w.key.value, w.payload);
      assert input[..4] == w.key.value && input[4..] == w.Body() + rest;
    } else {
      assert input == w.Body() + rest;
    }
    assert (w.Body() + rest)[..|w.payload|] == w.Body() && (w.Body() + rest)[|w.payload|..] == rest;
  }

  /** Reading a header whose length field is whole. */
  lemma HeaderRead(first: byte, second: byte, extended: seq<byte>, body: seq<byte>)
    requires |extended| == Extension(LowSeven(second))
    ensures Decode([first, second] + (extended + body))
         == DecodeKey(first % 16, TopBit(second), Length(LowSeven(second), extended), body)
  {
    hide DecodeKey, Length, TopBit, LowSeven, Extension;
    var input, e := [first, second] + (extended + body), |extended|;
    assert input[2..2 + e] == extended && input[2 + e..] == body;
  }

  /** Masked or not, in any length form, with any FIN and RSV bits: opcode and payload are read, the rest is left. */
  lemma WireReads(w: WireFrame, rest: seq<byte>)
    requires w.Fits()
    ensures Decode(w.OnWire() + rest) == Whole(w.Meaning(), rest)
  {
    hide Decode, DecodeKey, Extension, Length, LowSeven, TopBit, WireFrame.KeyBytes, WireFrame.Body, WireFrame.Extended,
         WireFrame.Second;
    SecondRead(w);
    KeyRead(w, w.first % 16, rest);
    HeaderRead(w.first, w.Second(), w.Extended(), w.KeyBytes() + w.Body() + rest);
    var body := w.KeyBytes() + w.Body();
    Assoc([w.first, w.Second()], w.Extended() + body, rest);
    Assoc(w.Extended(), body, rest);
  }

  /** What this code writes: FIN set, no RSV bits, masked, the shortest length form. */
  lemma WriterOnWire(f: Frame, key: Key)
    requires f.Fits()
    ensures var n := |f.payload|;
            var form := if n < 126 then Seven else if n < 0x1_0000 then Sixteen else SixtyFour;
            Encode(f, key) == WireFrame(128 + f.opcode, Some(key), form, f.payload).OnWire()
  {
    var n := |f.payload|;
    var form := if n < 126 then Seven else if n < 0x1_0000 then Sixteen else SixtyFour;
    if form.Sixteen? {
      TwoBytes(n);
    }
    hide BigEndian, Mask;
    var w := WireFrame(128 + f.opcode, Some(key), form, f.payload);
    assert LengthField(n) == [w.Second()] + w.Extended();
    hide LengthField, WireFrame.Second, WireFrame.Extended;
    Assoc([w.first], [w.Second()], w.Extended());
    Assoc([w.first, w.Second()] + w.Extended(), key, w.Body());
    Assoc([w.first, w.Second()], w.Extended(), key + w.Body());
  }

  lemma KeyCut(w: WireFrame, opcode: byte, k: nat)
    requires w.Fits() && k < |w.KeyBytes() + w.Body()|
    ensures DecodeKey(opcode, w.key.Some?, |w.payload|, (w.KeyBytes() + w.Body())[..k]) == Short(k in {0, |w.KeyBytes()|})
  {
  }

  lemma HeaderCut(first: byte, second: byte, extended: seq<byte>, k: nat)
    requires |extended| == Extension(LowSeven(second)) && k < 2 + |extended|
    ensures Decode(([first, second] + extended)[..k]) == Short(k in {0, 2})
  {
    hide DecodeKey, Length, TopBit, LowSeven, Extension;
  }

  /** A cut stream ends cleanly exactly where a field was due to start. */
  lemma CutOnWire(w: WireFrame, k: nat)
    requires w.Fits() && k < |w.OnWire()|
    ensures var afterLength := 2 + |w.Extended()|;
            Decode(w.OnWire()[..k]) == Short(k in {0, 2, afterLength, afterLength + |w.KeyBytes()|})
  {
    hide Decode, DecodeKey, Extension, Length, LowSeven, TopBit, WireFrame.KeyBytes, WireFrame.Body, WireFrame.Extended,
         WireFrame.Second;
    SecondRead(w);
    var front, body, e := [w.first, w.Second()], w.KeyBytes() + w.Body(), |w.Extended()|;
    Assoc(front, w.Extended(), body);
    if k < 2 + e {
      HeaderCut(w.first, w.Second(), w.Extended(), k);
      assert w.OnWire()[..k] == (front + w.Extended())[..k];
    } else {
      KeyCut(w, w.first % 16, k - 2 - e);
      HeaderRead(w.first, w.Second(), w.Extended(), body[..k - 2 - e]);
      assert w.OnWire()[..k] == front + (w.Extended() + body[..k - 2 - e]);
    }
  }

  function OnWireAll(ws: seq<WireFrame>): seq<byte>
    requires forall w <- ws :: w.Fits()
  {
    if ws == [] then [] else ws[0].OnWire() + OnWireAll(ws[1..])
  }

  function Meanings(ws: seq<WireFrame>): seq<Frame> {
    if ws == [] then [] else [ws[0].Meaning()] + Meanings(ws[1..])
  }

  lemma {:induction false} StreamReads(ws: seq<WireFrame>)
    requires forall w <- ws :: w.Fits()
    ensures Frames(OnWireAll(ws)) == Meanings(ws)
  {
    hide Decode;
    FramesStep(OnWireAll(ws));
    if ws != [] {
      WireReads(ws[0], OnWireAll(ws[1..]));
      StreamReads(ws[1..]);
    }
  }
}
