/**
 The gRPC framer of pkg/grpc/proto_decoder.go (gRPC over HTTP/2, "Length-Prefixed-Message").

 `Split` cuts a byte string into frames; `Parse` is what the framer makes of them. gzip is a
 parameter: `gunzip` returns the decompressed bytes, or None when the data is not gzip.
 */
module GrpcFrames {
  import opened Bytes
  import opened ProtoDecoder
  import opened Text

  /** A frame as it lies on the wire: its flag byte, the length it declares and the bytes it holds. */
  datatype Frame = Frame(flag: Byte, length: nat, payload: Octets)

  predicate Complete(f: Frame) {
    f.length == |f.payload|
  }

  datatype Parts = Parts(frames: seq<Frame>, tail: Octets)

  datatype GrpcMessage = GrpcMessage(
    isTrailer: bool,
    compressed: bool,
    length: nat,
    rawBytes: Octets,
    rawHex: string,
    decoded: Fields,
    trailerText: Octets)

  /** `%x` of a byte string: two digits a byte. */
  function HexText(s: Octets): (t: string)
    ensures |t| == 2 * |s|
  {
    if s == [] then "" else [HexDigit(s[0] / 16), HexDigit(s[0] % 16)] + HexText(s[1..])
  }

  /** The bytes that pairs of digits stand for; None when the text is not such pairs. */
  function FromHexText(t: string): Option<Octets> {
    if t == "" then Some([])
    else if |t| < 2 || !IsHexDigit(t[0]) || !IsHexDigit(t[1]) then None
    else
      match FromHexText(t[2..])
      case None => None
      case Some(s) => Some([16 * HexDigitValue(t[0]) + HexDigitValue(t[1])] + s)
  }

  /** The rendering loses nothing: the payload is read back from it. */
  lemma {:induction false} HexTextReadsBack(s: Octets)
    ensures FromHexText(HexText(s)) == Some(s)
  {
    if s != [] {
      HexTextReadsBack(s[1..]);
      assert HexText(s)[2..] == HexText(s[1..]);
      assert [s[0]] + s[1..] == s;
    }
  }

  /** The frames of `data` and the bytes too few to be a header. */
  function Split(data: Octets): Parts {
    if |data| < 5 then Parts([], data)
    else
      var length := BigEndian(data[1..5]);
      if length > |data| - 5 then Parts([Frame(data[0], length, data[5..])], [])
      else
        var more := Split(data[5 + length..]);
        Parts([Frame(data[0], length, data[5..5 + length])] + more.frames, more.tail)
  }

  /** The message shown for a frame; None when decoding it panics. */
  function Present(f: Frame, gunzip: Octets -> Option<Octets>): Option<GrpcMessage> {
    var isTrailer, compressed := f.flag >= 128, f.flag % 2 == 1;
    if f.length > |f.payload| then
      Some(GrpcMessage(isTrailer, compressed, f.length, f.payload, HexText(f.payload), map[], []))
    else
      var bytes :=
        if compressed && !isTrailer && gunzip(f.payload).Some? then gunzip(f.payload).value else f.payload;
      if isTrailer then Some(GrpcMessage(true, compressed, f.length, bytes, HexText(bytes), map[], bytes))
      else
        var decoded := Decode(bytes);
        match decoded.end
        case Panicked => None
        case Failed => Some(GrpcMessage(false, compressed, f.length, bytes, HexText(bytes), map[], []))
        case Finished => Some(GrpcMessage(false, compressed, f.length, bytes, HexText(bytes), decoded.fields, []))
  }

  function PresentAll(fs: seq<Frame>, gunzip: Octets -> Option<Octets>): Option<seq<GrpcMessage>> {
    if fs == [] then Some([]) else Behind(Present(fs[0], gunzip), PresentAll(fs[1..], gunzip))
  }

  /** A message and those after it, if none of them panics. */
  function Behind(first: Option<GrpcMessage>, rest: Option<seq<GrpcMessage>>): Option<seq<GrpcMessage>> {
    if first.Some? && rest.Some? then Some([first.value] + rest.value) else None
  }

  /** What `ParseGrpcFrames` returns for every input. */
  function Parse(data: Octets, gunzip: Octets -> Option<Octets>): Option<seq<GrpcMessage>> {
    PresentAll(Split(data).frames, gunzip)
  }

  /**
   What is shown of a frame. The flag's high bit makes it a trailer, its low bit says it is compressed.
   A frame cut short is shown as it is; so is a trailer, compressed or not, whose text is its payload. A
   data frame is inflated where it can be, and decoded, with fields only if decoding ends well.
   */
  lemma {:induction false} ShownOfFrame(f: Frame, gunzip: Octets -> Option<Octets>, m: GrpcMessage)
    requires Present(f, gunzip) == Some(m)
    ensures (m.isTrailer <==> f.flag >= 0x80) && (m.compressed <==> f.flag % 2 == 1) && m.length == f.length
    ensures FromHexText(m.rawHex) == Some(m.rawBytes)
    ensures f.length > |f.payload| ==> m.rawBytes == f.payload && m.decoded == map[] && m.trailerText == []
    ensures f.length <= |f.payload| && f.flag >= 0x80 ==>
              m.rawBytes == f.payload && m.trailerText == f.payload && m.decoded == map[]
    ensures f.length <= |f.payload| && f.flag < 0x80 ==>
              && m.trailerText == []
              && (f.flag % 2 == 0 || gunzip(f.payload) == None ==> m.rawBytes == f.payload)
              && (f.flag % 2 == 1 && gunzip(f.payload).Some? ==> m.rawBytes == gunzip(f.payload).value)
              && (Decode(m.rawBytes).end == Finished ==> m.decoded == Decode(m.rawBytes).fields)
              && (Decode(m.rawBytes).end == Failed ==> m.decoded == map[])
  {
    HexTextReadsBack(m.rawBytes);
  }

  /** Every frame is shown in its place. */
  lemma {:induction false} ShownInOrder(fs: seq<Frame>, gunzip: Octets -> Option<Octets>, ms: seq<GrpcMessage>, i: nat)
    requires PresentAll(fs, gunzip) == Some(ms) && i < |fs|
    ensures |ms| == |fs| && Present(fs[i], gunzip) == Some(ms[i])
  {
    var more := PresentAll(fs[1..], gunzip).value;
    assert ms == [Present(fs[0], gunzip).value] + more;
    if |fs| > 1 {
      ShownInOrder(fs[1..], gunzip, more, if i > 0 then i - 1 else 0);
    }
  }

  /** The bytes a whole frame is decoded from: inflated if it is flagged and can be. */
  function Inflated(f: Frame, gunzip: Octets -> Option<Octets>): Octets {
    if f.flag % 2 == 1 && gunzip(f.payload).Some? then gunzip(f.payload).value else f.payload
  }

  /** A frame that panics: whole, not a trailer, and declaring a length too large to make. */
  predicate Panics(f: Frame, gunzip: Octets -> Option<Octets>) {
    f.length <= |f.payload| && f.flag < 128 && DeclaresHuge(Inflated(f, gunzip))
  }

  lemma {:induction false} PresentPanicsExactly(f: Frame, gunzip: Octets -> Option<Octets>)
    ensures Present(f, gunzip) == None <==> Panics(f, gunzip)
  {
    PanicsExactly(Inflated(f, gunzip));
  }

  ghost predicate SomePanics(fs: seq<Frame>, gunzip: Octets -> Option<Octets>) {
    exists f :: f in fs && Panics(f, gunzip)
  }

  lemma {:induction false} PresentAllPanicsExactly(fs: seq<Frame>, gunzip: Octets -> Option<Octets>)
    ensures PresentAll(fs, gunzip) == None <==> SomePanics(fs, gunzip)
  {
    if fs != [] {
      PresentAllPanicsExactly(fs[1..], gunzip);
      PresentPanicsExactly(fs[0], gunzip);
      SomePanicsCons(fs[0], fs[1..], gunzip);
      assert [fs[0]] + fs[1..] == fs;
    }
  }

  lemma {:induction false} SomePanicsCons(first: Frame, rest: seq<Frame>, gunzip: Octets -> Option<Octets>)
    ensures SomePanics([first] + rest, gunzip) <==> Panics(first, gunzip) || SomePanics(rest, gunzip)
  {
    assert forall f :: f in [first] + rest <==> f == first || f in rest;
  }

  /** A stream makes the framer panic if and only if some whole frame of it declares too large a length. */
  lemma {:induction false} ParsePanicsExactly(data: Octets, gunzip: Octets -> Option<Octets>)
    ensures Parse(data, gunzip) == None <==> exists f :: f in Split(data).frames && Panics(f, gunzip)
  {
    PresentAllPanicsExactly(Split(data).frames, gunzip);
  }

  /** The message of a whole frame: inflate it, then show it as a trailer or decode it. */
  method PresentFrame(flag: Byte, payload: Octets, gunzip: Octets -> Option<Octets>)
    returns (r: Option<GrpcMessage>)
    ensures r == Present(Frame(flag, |payload|, payload), gunzip)
  {
    var isTrailer, compressed := flag >= 128, flag % 2 == 1;
    var uncompressed := payload;
    if compressed && !isTrailer {
      var inflated := gunzip(payload);
      if inflated.Some? {
        uncompressed := inflated.value;
      }
    }
    var msg := GrpcMessage(isTrailer, compressed, |payload|, uncompressed, HexText(uncompressed), map[], []);
    if isTrailer {
      msg := msg.(trailerText := uncompressed);
    } else {
      var decoded := DecodeProtobufWire(uncompressed);
      if decoded.end == Panicked {
        return None;
      }
      if decoded.end == Finished && |decoded.fields| > 0 {
        msg := msg.(decoded := decoded.fields);
      }
    }
    return Some(msg);
  }

  /** The frame at the front of `reader`. */
  function FrontFrame(reader: Octets): Frame
    requires |reader| >= 5
  {
    var length := BigEndian(reader[1..5]);
    Frame(reader[0], length, if length > |reader| - 5 then reader[5..] else reader[5..5 + length])
  }

  lemma {:induction false} SplitUnfolds(data: Octets)
    requires |data| >= 5
    ensures var f := FrontFrame(data);
            var more := Split(data[5 + |f.payload|..]);
            Split(data) == Parts([f] + more.frames, more.tail)
  {
  }

  /** The messages of a stream whose first ones are `messages`. */
  function After(messages: seq<GrpcMessage>, rest: Option<seq<GrpcMessage>>): Option<seq<GrpcMessage>> {
    match rest case None => None case Some(more) => Some(messages + more)
  }

  lemma {:induction false} ParseUnfolds(reader: Octets, gunzip: Octets -> Option<Octets>)
    requires |reader| >= 5
    ensures var f := FrontFrame(reader);
            Parse(reader, gunzip) == Behind(Present(f, gunzip), Parse(reader[5 + |f.payload|..], gunzip))
  {
    SplitUnfolds(reader);
  }

  lemma {:induction false} AfterOneMore(messages: seq<GrpcMessage>, msg: GrpcMessage, rest: Option<seq<GrpcMessage>>)
    ensures After(messages, Behind(Some(msg), rest)) == After(messages + [msg], rest)
  {
    if rest.Some? {
      assert messages + ([msg] + rest.value) == messages + [msg] + rest.value;
    }
  }

  /** A turn of the loop: the front frame panics, or its message comes next. */
  lemma {:induction false} ParseTurn(messages: seq<GrpcMessage>, reader: Octets, gunzip: Octets -> Option<Octets>)
    requires |reader| >= 5
    ensures var f := FrontFrame(reader);
            var msg := Present(f, gunzip);
            After(messages, Parse(reader, gunzip))
            == if msg == None then None
               else After(messages + [msg.value], Parse(reader[5 + |f.payload|..], gunzip))
  {
    var f := FrontFrame(reader);
    ParseUnfolds(reader, gunzip);
    if Present(f, gunzip).Some? {
      AfterOneMore(messages, Present(f, gunzip).value, Parse(reader[5 + |f.payload|..], gunzip));
    }
  }

  lemma {:induction false} ParseEnds(messages: seq<GrpcMessage>, reader: Octets, gunzip: Octets -> Option<Octets>)
    requires |reader| < 5
    ensures After(messages, Parse(reader, gunzip)) == Some(messages)
  {
    assert messages + [] == messages;
  }

  lemma {:induction false} AfterNothing(rest: Option<seq<GrpcMessage>>)
    ensures After([], rest) == rest
  {
    if rest.Some? {
      assert [] + rest.value == rest.value;
    }
  }

  /** One turn of the loop: read a header and its payload, or all that is left of it. */
  method ReadFrame(reader: Octets, gunzip: Octets -> Option<Octets>) returns (msg: Option<GrpcMessage>, size: nat)
    requires |reader| >= 5
    ensures msg == Present(FrontFrame(reader), gunzip)
    ensures size == 5 + |FrontFrame(reader).payload|
  {
    var flag, length := reader[0], BigEndian(reader[1..5]);
    if length > |reader| - 5 {
      msg := Some(GrpcMessage(flag >= 128, flag % 2 == 1, length, reader[5..], HexText(reader[5..]), map[], []));
      size := |reader|;
    } else {
      msg := PresentFrame(flag, reader[5..5 + length], gunzip);
      size := 5 + length;
    }
  }

  method ParseGrpcFrames(data: Octets, gunzip: Octets -> Option<Octets>) returns (r: Option<seq<GrpcMessage>>)
    ensures r == Parse(data, gunzip)
  {
    var messages: seq<GrpcMessage> := [];
    var reader := data;
    ghost var whole := Parse(data, gunzip);
    AfterNothing(whole);
    while |reader| >= 5
      invariant whole == After(messages, Parse(reader, gunzip))
      decreases |reader|
    {
      ParseTurn(messages, reader, gunzip);
      var msg, size := ReadFrame(reader, gunzip);
      if msg == None {
        return None;
      }
      messages, reader := messages + [msg.value], reader[size..];
    }
    ParseEnds(messages, reader, gunzip);
    return Some(messages);
  }

  // ---------------------------------------------------------------- conservation

  function EncodeFrame(f: Frame): Octets {
    [f.flag] + ToBigEndian(f.length, 4) + f.payload
  }

  function EncodeFrames(fs: seq<Frame>): Octets {
    if fs == [] then [] else EncodeFrame(fs[0]) + EncodeFrames(fs[1..])
  }

  /** Every frame but the last is complete, and only at the very end may the last one not be. */
  predicate OnlyLastCut(p: Parts) {
    && |p.tail| < 5
    && (forall i :: 0 <= i < |p.frames| - 1 ==> Complete(p.frames[i]))
    && (p.frames != [] ==>
          var last := p.frames[|p.frames| - 1];
          Complete(last) || (|last.payload| < last.length && p.tail == []))
  }

  /**
   Framing conserves every byte: the frames, written back, and a tail shorter than a header are the
   input. Only the last frame may hold fewer bytes than it declares, and then nothing follows it.
   */
  lemma {:induction false} SplitConservesBytes(data: Octets)
    ensures data == EncodeFrames(Split(data).frames) + Split(data).tail
    ensures OnlyLastCut(Split(data))
  {
    if |data| >= 5 {
      var f := FrontFrame(data);
      var rest := data[5 + |f.payload|..];
      SplitUnfolds(data);
      FrontBytes(data);
      SplitConservesBytes(rest);
      EncodeFramesCons(f, Split(rest).frames, Split(rest).tail);
      OnlyLastCutCons(f, Split(rest));
    }
  }

  lemma {:induction false} FrontBytes(data: Octets)
    requires |data| >= 5
    ensures var f := FrontFrame(data);
            && data == EncodeFrame(f) + data[5 + |f.payload|..]
            && (Complete(f) || (|f.payload| < f.length && 5 + |f.payload| == |data|))
  {
    ToBigEndianInverse(data[1..5]);
  }

  lemma {:induction false} EncodeFramesCons(f: Frame, fs: seq<Frame>, tail: Octets)
    ensures EncodeFrames([f] + fs) + tail == EncodeFrame(f) + (EncodeFrames(fs) + tail)
  {
    assert ([f] + fs)[1..] == fs;
  }

  lemma {:induction false} OnlyLastCutCons(f: Frame, p: Parts)
    requires Complete(f) || (|f.payload| < f.length && p == Parts([], []))
    requires OnlyLastCut(p)
    ensures OnlyLastCut(Parts([f] + p.frames, p.tail))
  {
    var fs := [f] + p.frames;
    assert forall i :: 1 <= i < |fs| ==> fs[i] == p.frames[i - 1];
  }

  function PayloadBytes(fs: seq<Frame>): nat {
    if fs == [] then 0 else |fs[0].payload| + PayloadBytes(fs[1..])
  }

  lemma {:induction false} EncodedSize(fs: seq<Frame>)
    ensures |EncodeFrames(fs)| == 5 * |fs| + PayloadBytes(fs)
  {
    if fs != [] {
      EncodedSize(fs[1..]);
    }
  }

  /** Five bytes a frame, the payload bytes and the tail add up to the input. */
  lemma {:induction false} FramingCountsBytes(data: Octets)
    ensures var p := Split(data); 5 * |p.frames| + PayloadBytes(p.frames) + |p.tail| == |data|
  {
    SplitConservesBytes(data);
    EncodedSize(Split(data).frames);
  }

  /** Complete frames followed by fewer than five bytes are split back into just those frames. */
  lemma {:induction false} SplitInvertsEncode(fs: seq<Frame>, tail: Octets)
    requires |tail| < 5
    requires forall f :: f in fs ==> Complete(f) && f.length < Pow256(4)
    ensures Split(EncodeFrames(fs) + tail) == Parts(fs, tail)
  {
    if fs == [] {
      assert EncodeFrames(fs) + tail == tail;
    } else {
      var f, rest := fs[0], EncodeFrames(fs[1..]) + tail;
      assert [f] + fs[1..] == fs;
      EncodeFramesCons(f, fs[1..], tail);
      SplitFront(f, rest);
      SplitInvertsEncode(fs[1..], tail);
    }
  }

  lemma {:induction false} SplitFront(f: Frame, rest: Octets)
    requires Complete(f) && f.length < Pow256(4)
    ensures Split(EncodeFrame(f) + rest) == Parts([f] + Split(rest).frames, Split(rest).tail)
  {
    FrontFrameReads(f, rest);
    SplitUnfolds(EncodeFrame(f) + rest);
  }

  lemma {:induction false} FrontFrameReads(f: Frame, rest: Octets)
    requires Complete(f) && f.length < Pow256(4)
    ensures var data := EncodeFrame(f) + rest;
            |data| >= 5 && FrontFrame(data) == f && data[5 + |f.payload|..] == rest
  {
    var data := EncodeFrame(f) + rest;
    BigEndianRoundTrip(f.length, 4);
    assert data[1..5] == ToBigEndian(f.length, 4);
    assert data[5..5 + f.length] == f.payload;
  }

  // ---------------------------------------------------------------- end to end

  /** The stream of one uncompressed data frame for each message. */
  function StreamOf(ms: seq<seq<Field>>): seq<Frame> {
    seq(|ms|, i requires 0 <= i < |ms| => Frame(0, |EncodeFields(ms[i])|, EncodeFields(ms[i])))
  }

  function Shown(m: seq<Field>): GrpcMessage {
    GrpcMessage(false, false, |EncodeFields(m)|, EncodeFields(m), HexText(EncodeFields(m)), Group(DenoteFields(m)), [])
  }

  function ShownAll(ms: seq<seq<Field>>): seq<GrpcMessage> {
    if ms == [] then [] else [Shown(ms[0])] + ShownAll(ms[1..])
  }

  predicate Sendable(m: seq<Field>) {
    |EncodeFields(m)| < Pow256(4) && forall f :: f in m ==> Encodable(f) && Recoverable(f)
  }

  lemma {:induction false} ShownIsPresented(m: seq<Field>, gunzip: Octets -> Option<Octets>)
    requires Sendable(m)
    ensures Present(Frame(0, |EncodeFields(m)|, EncodeFields(m)), gunzip) == Some(Shown(m))
  {
    DecodeInvertsEncode(m);
  }

  lemma {:induction false} PresentStream(ms: seq<seq<Field>>, gunzip: Octets -> Option<Octets>)
    requires forall m :: m in ms ==> Sendable(m)
    ensures PresentAll(StreamOf(ms), gunzip) == Some(ShownAll(ms))
  {
    if ms != [] {
      PresentStream(ms[1..], gunzip);
      assert StreamOf(ms)[1..] == StreamOf(ms[1..]);
      ShownIsPresented(ms[0], gunzip);
    }
  }

  /** A stream of recoverable messages is shown as those messages, each decoded to its own fields. */
  lemma {:induction false} ParseInvertsSend(ms: seq<seq<Field>>, gunzip: Octets -> Option<Octets>)
    requires forall m :: m in ms ==> Sendable(m)
    ensures Parse(EncodeFrames(StreamOf(ms)), gunzip)
         == Some(ShownAll(ms))
  {
    forall f | f in StreamOf(ms)
      ensures Complete(f) && f.length < Pow256(4)
    {
      var i :| 0 <= i < |ms| && StreamOf(ms)[i] == f;
      assert Sendable(ms[i]);
    }
    SplitInvertsEncode(StreamOf(ms), []);
    assert EncodeFrames(StreamOf(ms)) + [] == EncodeFrames(StreamOf(ms));
    PresentStream(ms, gunzip);
  }
}
