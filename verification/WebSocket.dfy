/**
 The WebSocket relay of pkg/proxy/ws.go, frame by frame (RFC 6455, sections 5.2, 5.3 and 5.5).

 A stream is the bytes that arrive before its end. `Relay` cuts it into frames; the method is the
 code's loop. Writes to the destination are taken to succeed.
 */
module WebSocket {
  import opened Bytes

  const MAX_FRAME_SIZE: nat := 16 * 1024 * 1024
  const MAX_DISPLAY: nat := 64 * 1024
  const MAX_TEXT: nat := 1024 * 1024

  /** A frame as it lies on the wire. */
  datatype Frame = Frame(b0: Byte, b1: Byte, ext: Octets, key: Octets, payload: Octets)

  /** What the relay makes of the front of a stream. */
  datatype Verdict = Incomplete | Refused(code: nat, reason: string) | Whole(frame: Frame)

  datatype Relayed = Relayed(frames: seq<Frame>, stop: Verdict, rest: Octets)

  function Opcode(b0: Byte): nat {
    b0 % 16
  }

  predicate Fin(b0: Byte) {
    b0 >= 128
  }

  /** Any of the three reserved bits. */
  predicate Reserved(b0: Byte) {
    (b0 / 16) % 8 != 0
  }

  predicate Masked(b1: Byte) {
    b1 >= 128
  }

  function ExtSize(b1: Byte): nat {
    if b1 % 128 == 126 then 2 else if b1 % 128 == 127 then 8 else 0
  }

  function KeySize(b1: Byte): nat {
    if Masked(b1) then 4 else 0
  }

  function PayloadSize(b1: Byte, ext: Octets): nat {
    if b1 % 128 >= 126 then BigEndian(ext) else b1 % 128
  }

  /** A control frame that is fragmented or carries more than 125 bytes. */
  predicate BadControl(b0: Byte, size: nat) {
    Opcode(b0) >= 8 && (!Fin(b0) || size > 125)
  }

  predicate WellFormed(f: Frame) {
    && |f.ext| == ExtSize(f.b1)
    && |f.key| == KeySize(f.b1)
    && |f.payload| == PayloadSize(f.b1, f.ext)
  }

  /** The frames the relay lets through. */
  predicate Acceptable(f: Frame) {
    WellFormed(f) && !Reserved(f.b0) && |f.payload| <= MAX_FRAME_SIZE && !BadControl(f.b0, |f.payload|)
  }

  function Serialize(f: Frame): (s: Octets)
    ensures |s| >= 2
  {
    [f.b0, f.b1] + f.ext + f.key + f.payload
  }

  function SerializeAll(fs: seq<Frame>): Octets {
    if fs == [] then [] else Serialize(fs[0]) + SerializeAll(fs[1..])
  }

  /** What the header of a stream leads to, before its key and payload are read. */
  function Judge(src: Octets): Verdict {
    if |src| < 2 then Incomplete
    else if Reserved(src[0]) then Refused(1002, "RSV bits set")
    else
      var e := ExtSize(src[1]);
      if |src| < 2 + e then Incomplete
      else
        var size := PayloadSize(src[1], src[2..2 + e]);
        if size > MAX_FRAME_SIZE then Refused(1009, "frame too large")
        else if BadControl(src[0], size) then Refused(1002, "invalid control frame")
        else
          var k := KeySize(src[1]);
          if |src| < 2 + e + k + size then Incomplete
          else Whole(Frame(src[0], src[1], src[2..2 + e], src[2 + e..2 + e + k], src[2 + e + k..2 + e + k + size]))
  }

  /** The whole acceptable frames at the front of a stream, why the relay stops, and what is left. */
  function Relay(src: Octets): Relayed
    decreases |src|
  {
    var v := Judge(src);
    if v.Whole? then
      var more := Relay(src[|Serialize(v.frame)|..]);
      Relayed([v.frame] + more.frames, more.stop, more.rest)
    else Relayed([], v, src)
  }

  /** A relay that comes after the frames `fs`. */
  function After(fs: seq<Frame>, r: Relayed): Relayed {
    Relayed(fs + r.frames, r.stop, r.rest)
  }

  lemma {:induction false} AfterAfter(fs: seq<Frame>, gs: seq<Frame>, r: Relayed)
    ensures After(fs, After(gs, r)) == After(fs + gs, r)
  {
    assert fs + (gs + r.frames) == fs + gs + r.frames;
  }

  // ---------------------------------------------------------------- masking

  function Mask(s: Octets, key: Octets): (t: Octets)
    requires |key| == 4
    ensures |t| == |s|
  {
    seq(|s|, i requires 0 <= i < |s| => Xor(s[i], key[i % 4]))
  }

  /** The payload the relay inspects. */
  function Unmasked(f: Frame): (t: Octets)
    ensures |t| == |f.payload|
  {
    if |f.key| == 4 then Mask(f.payload, f.key) else f.payload
  }

  /** Masking the inspected payload of a masked frame again gives the payload that is forwarded. */
  lemma {:induction false} MaskingAgainRestores(f: Frame)
    requires WellFormed(f) && Masked(f.b1)
    ensures Mask(Unmasked(f), f.key) == f.payload
  {
    forall i | 0 <= i < |f.payload|
      ensures Mask(Unmasked(f), f.key)[i] == f.payload[i]
    {
      XorInvolution(f.payload[i], f.key[i % 4]);
    }
  }

  /** Bit by bit: the payload inspected differs from the one forwarded where the key's byte in turn has a bit. */
  lemma {:induction false} UnmaskedBits(f: Frame, i: nat, j: nat)
    requires WellFormed(f) && i < |f.payload| && j < 8
    ensures f.b1 >= 0x80 ==>
              |f.key| == 4 && Bit(Unmasked(f)[i], j) == (Bit(f.payload[i], j) + Bit(f.key[i % 4], j)) % 2
    ensures f.b1 < 0x80 ==> f.key == [] && Unmasked(f)[i] == f.payload[i]
  {
    if f.b1 >= 0x80 {
      XorBitsAt(f.payload[i], f.key[i % 4], 8, j);
    }
  }

  /** The unmasking loop, in place on a copy of the payload. */
  method Unmask(payload: Octets, key: Octets) returns (t: Octets)
    requires |key| == 4
    ensures t == Mask(payload, key)
  {
    var copy := new Byte[|payload|](i requires 0 <= i < |payload| => payload[i]);
    for i := 0 to copy.Length
      invariant forall j :: 0 <= j < i ==> copy[j] == Xor(payload[j], key[j % 4])
      invariant forall j :: i <= j < copy.Length ==> copy[j] == payload[j]
    {
      copy[i] := Xor(copy[i], key[i % 4]);
    }
    t := copy[..];
  }

  // ---------------------------------------------------------------- the relay loop

  /** What listeners are told about a frame. */
  datatype WsFrame = WsFrame(opcode: nat, payload: Octets, text: Octets, length: nat)

  function Inspect(f: Frame): WsFrame {
    var clear := Unmasked(f);
    WsFrame(
      Opcode(f.b0),
      if |clear| > MAX_DISPLAY then clear[..MAX_DISPLAY] else clear,
      if Opcode(f.b0) == 1 && |clear| < MAX_TEXT then clear else [],
      |clear|)
  }

  /** What masking a shown stretch of the payload again gives: a stretch of the forwarded payload. */
  function AsForwarded(f: Frame, shown: Octets): (t: Octets)
    ensures |t| == |shown|
  {
    if |f.key| == 4 then Mask(shown, f.key) else shown
  }

  /**
   Listeners are shown what is forwarded: the first 64 KiB of the payload, or all of it when it is
   shorter; the whole payload of a text frame shorter than one MiB as text, and no text otherwise;
   and the size that was forwarded even when less is shown.
   */
  lemma {:induction false} ShownIsForwarded(f: Frame)
    requires WellFormed(f)
    ensures var w := Inspect(f);
            && AsForwarded(f, w.payload) <= f.payload
            && |w.payload| == (if |f.payload| <= 65536 then |f.payload| else 65536)
            && w.length == |f.payload| && w.opcode == f.b0 % 16
            && (w.text != [] ==> w.opcode == 1 && AsForwarded(f, w.text) == f.payload)
            && (w.opcode == 1 && |f.payload| < 1048576 ==> AsForwarded(f, w.text) == f.payload)
            && (|f.payload| >= 1048576 ==> w.text == [])
  {
    var w := Inspect(f);
    if Masked(f.b1) {
      MaskingAgainRestores(f);
      var n := |w.payload|;
      assert forall i :: 0 <= i < n ==> AsForwarded(f, w.payload)[i] == Mask(Unmasked(f), f.key)[i];
      assert AsForwarded(f, w.payload) == f.payload[..n];
    }
  }

  function InspectAll(fs: seq<Frame>): seq<WsFrame> {
    if fs == [] then [] else InspectAll(fs[..|fs| - 1]) + [Inspect(fs[|fs| - 1])]
  }

  /** Listeners are told every frame, in its place. */
  lemma {:induction false} InspectedInOrder(fs: seq<Frame>, i: nat)
    requires i < |fs|
    ensures |InspectAll(fs)| == |fs| && InspectAll(fs)[i] == Inspect(fs[i])
    decreases |fs|
  {
    if |fs| > 1 {
      InspectedInOrder(fs[..|fs| - 1], if i < |fs| - 1 then i else 0);
    }
  }

  function Ascii(s: string): Octets {
    seq(|s|, i requires 0 <= i < |s| => s[i] as int % 256)
  }

  /** The close frame that ends a refused stream. */
  function CloseFrame(code: nat, reason: string): Frame {
    var payload := ToBigEndian(code, 2) + Ascii(reason);
    Frame(0x88, |payload| % 256, [], [], payload)
  }

  /** What is written after the forwarded frames. */
  function Farewell(stop: Verdict): Octets {
    if stop.Refused? then Serialize(CloseFrame(stop.code, stop.reason)) else []
  }

  method WriteWSCloseFrame(dst: Octets, code: nat, reason: string) returns (r: Octets)
    ensures r == dst + Serialize(CloseFrame(code, reason))
  {
    var payload := ToBigEndian(code, 2) + Ascii(reason);
    r := dst + [0x88, |payload| % 256];
    r := r + payload;
    assert r == dst + ([0x88, |payload| % 256] + [] + [] + payload);
  }

  /** One turn of the loop: read the parts of a frame in order, refusing it as soon as a part does. */
  method ReadFrame(src: Octets) returns (v: Verdict)
    ensures v == Judge(src)
  {
    if |src| < 2 {
      return Incomplete;
    }
    var header, at := src[..2], 2;
    if Reserved(header[0]) {
      return Refused(1002, "RSV bits set");
    }
    var size: nat := header[1] % 128;
    var ext: Octets := [];
    if size == 126 {
      if |src| < at + 2 {
        return Incomplete;
      }
      ext, at := src[at..at + 2], at + 2;
      size := BigEndian(ext);
    } else if size == 127 {
      if |src| < at + 8 {
        return Incomplete;
      }
      ext, at := src[at..at + 8], at + 8;
      var length := BigEndian(ext);
      if length > 0x7FFF_FFFF_FFFF_FFFF {
        return Refused(1009, "frame too large");
      }
      size := length;
    }
    if size > MAX_FRAME_SIZE {
      return Refused(1009, "frame too large");
    }
    if BadControl(header[0], size) {
      return Refused(1002, "invalid control frame");
    }
    var key: Octets := [];
    if Masked(header[1]) {
      if |src| < at + 4 {
        return Incomplete;
      }
      key, at := src[at..at + 4], at + 4;
    }
    if |src| < at + size {
      return Incomplete;
    }
    return Whole(Frame(header[0], header[1], ext, key, src[at..at + size]));
  }

  lemma {:induction false} SerializeAllAppend(fs: seq<Frame>, f: Frame)
    ensures SerializeAll(fs + [f]) == SerializeAll(fs) + Serialize(f)
  {
    if fs == [] {
      assert SerializeAll([f]) == Serialize(f) + SerializeAll([]);
    } else {
      SerializeAllAppend(fs[1..], f);
      assert (fs + [f])[1..] == fs[1..] + [f];
    }
  }

  /** A whole frame read off a stream is acceptable and is exactly the stream's front. */
  lemma {:induction false} JudgeWhole(src: Octets)
    requires Judge(src).Whole?
    ensures Acceptable(Judge(src).frame)
    ensures Serialize(Judge(src).frame) <= src
  {
    var f := Judge(src).frame;
    var e, k := |f.ext|, |f.key|;
    assert src[..2 + e] == [f.b0, f.b1] + f.ext;
    assert src[..2 + e + k] == src[..2 + e] + f.key;
    assert src[..|Serialize(f)|] == src[..2 + e + k] + f.payload;
  }

  lemma {:induction false} RelayUnfolds(done: seq<Frame>, rest: Octets)
    requires Judge(rest).Whole?
    ensures var f := Judge(rest).frame;
            After(done, Relay(rest)) == After(done + [f], Relay(rest[|Serialize(f)|..]))
  {
    var f := Judge(rest).frame;
    AfterAfter(done, [f], Relay(rest[|Serialize(f)|..]));
  }

  lemma {:induction false} RelayEnds(done: seq<Frame>, rest: Octets)
    requires !Judge(rest).Whole?
    ensures After(done, Relay(rest)) == Relayed(done, Judge(rest), rest)
  {
  }

  lemma {:induction false} Forwarded(done: seq<Frame>, f: Frame)
    ensures SerializeAll(done + [f]) == SerializeAll(done) + [f.b0, f.b1] + f.ext + f.key + f.payload
    ensures InspectAll(done + [f]) == InspectAll(done) + [Inspect(f)]
  {
    SerializeAllAppend(done, f);
    assert (done + [f])[..|done|] == done;
  }

  /** What listeners are told, computed as the loop does. */
  method Describe(f: Frame) returns (w: WsFrame)
    requires WellFormed(f)
    ensures w == Inspect(f)
  {
    var clear := f.payload;
    if Masked(f.b1) {
      clear := Unmask(f.payload, f.key);
    }
    var text: Octets := [];
    if Opcode(f.b0) == 1 && |clear| < MAX_TEXT {
      text := clear;
    }
    var shown := clear;
    if |shown| > MAX_DISPLAY {
      shown := shown[..MAX_DISPLAY];
    }
    w := WsFrame(Opcode(f.b0), shown, text, |clear|);
  }

  method InterceptWSFrames(src: Octets) returns (dst: Octets, seen: seq<WsFrame>, stop: Verdict)
    ensures stop == Relay(src).stop
    ensures dst == SerializeAll(Relay(src).frames) + Farewell(stop)
    ensures seen == InspectAll(Relay(src).frames)
  {
    dst, seen := [], [];
    var rest := src;
    ghost var done: seq<Frame> := [];
    while true
      invariant Relay(src) == After(done, Relay(rest))
      invariant dst == SerializeAll(done)
      invariant seen == InspectAll(done)
      decreases |rest|
    {
      var v := ReadFrame(rest);
      if !v.Whole? {
        RelayEnds(done, rest);
        stop := v;
        if v.Refused? {
          dst := WriteWSCloseFrame(dst, v.code, v.reason);
        }
        return;
      }
      JudgeWhole(rest);
      RelayUnfolds(done, rest);
      var f := v.frame;
      Forwarded(done, f);
      var w := Describe(f);
      seen := seen + [w];
      dst := dst + [f.b0, f.b1] + f.ext + f.key + f.payload;
      done := done + [f];
      rest := rest[|Serialize(f)|..];
    }
  }

  // ---------------------------------------------------------------- transparency

  /** An acceptable frame is read back from its bytes, whatever follows them. */
  lemma {:induction false} JudgeInvertsSerialize(f: Frame, rest: Octets)
    requires Acceptable(f)
    ensures Judge(Serialize(f) + rest) == Whole(f)
  {
    var src := Serialize(f) + rest;
    var e, k := |f.ext|, |f.key|;
    assert src[2..2 + e] == f.ext;
    assert src[2 + e..2 + e + k] == f.key;
    assert src[2 + e + k..2 + e + k + |f.payload|] == f.payload;
  }

  lemma {:induction false} RelayInvertsSerialize(fs: seq<Frame>, rest: Octets)
    requires forall f :: f in fs ==> Acceptable(f)
    ensures Relay(SerializeAll(fs) + rest) == After(fs, Relay(rest))
  {
    if fs == [] {
      assert SerializeAll(fs) + rest == rest;
    } else {
      var tail := SerializeAll(fs[1..]) + rest;
      assert SerializeAll(fs) + rest == Serialize(fs[0]) + tail;
      JudgeInvertsSerialize(fs[0], tail);
      assert (Serialize(fs[0]) + tail)[|Serialize(fs[0])|..] == tail;
      RelayUnfolds([], Serialize(fs[0]) + tail);
      RelayInvertsSerialize(fs[1..], rest);
      AfterAfter([fs[0]], fs[1..], Relay(rest));
      assert [fs[0]] + fs[1..] == fs;
    }
  }

  lemma {:induction false} SerializeFirst(f: Frame, fs: seq<Frame>, rest: Octets)
    ensures SerializeAll([f] + fs) + rest == Serialize(f) + (SerializeAll(fs) + rest)
  {
    assert ([f] + fs)[1..] == fs;
  }

  /** The relayed frames and what is left are the stream, byte for byte. */
  lemma {:induction false} RelayConservesBytes(src: Octets)
    ensures SerializeAll(Relay(src).frames) + Relay(src).rest == src
    ensures forall f :: f in Relay(src).frames ==> Acceptable(f)
    ensures Relay(src).stop == Judge(Relay(src).rest) && !Relay(src).stop.Whole?
    decreases |src|
  {
    if Judge(src).Whole? {
      JudgeWhole(src);
      var f := Judge(src).frame;
      var rest := src[|Serialize(f)|..];
      assert src == Serialize(f) + rest;
      RelayConservesBytes(rest);
      SerializeFirst(f, Relay(rest).frames, Relay(rest).rest);
      assert Relay(src) == After([f], Relay(rest));
    } else {
      assert SerializeAll([]) + src == src;
    }
  }

  /** The header of `src` is all there, as far as the relay reads it before judging it. */
  predicate HeaderRead(src: Octets) {
    |src| >= 2 && (Reserved(src[0]) || |src| >= 2 + ExtSize(src[1]))
  }

  /** Some continuation of the stream makes its front an acceptable frame. */
  ghost predicate CanComplete(src: Octets) {
    exists more: Octets, f :: Acceptable(f) && Serialize(f) <= src + more
  }

  /** A stream whose header is read and not refused becomes a whole frame once enough bytes arrive. */
  lemma {:induction false} NotRefusedCanComplete(src: Octets)
    requires HeaderRead(src) && !Judge(src).Refused?
    ensures CanComplete(src)
  {
    var e := ExtSize(src[1]);
    var size := PayloadSize(src[1], src[2..2 + e]);
    var more := seq(KeySize(src[1]) + size, _ => 0);
    assert (src + more)[2..2 + e] == src[2..2 + e];
    assert Judge(src + more).Whole?;
    JudgeWhole(src + more);
  }

  /** A refused header stays refused whatever arrives after it. */
  lemma {:induction false} RefusedStays(src: Octets, more: Octets)
    requires Judge(src).Refused?
    ensures Judge(src + more) == Judge(src)
  {
    var e := ExtSize(src[1]);
    if !Reserved(src[0]) {
      assert (src + more)[2..2 + e] == src[2..2 + e];
    }
  }

  lemma {:induction false} RefusedCannotComplete(src: Octets)
    requires Judge(src).Refused?
    ensures HeaderRead(src) && !CanComplete(src)
  {
    forall more: Octets, f | Acceptable(f)
      ensures !(Serialize(f) <= src + more)
    {
      RefusedStays(src, more);
      if Serialize(f) <= src + more {
        var tail := (src + more)[|Serialize(f)|..];
        assert src + more == Serialize(f) + tail;
        JudgeInvertsSerialize(f, tail);
        assert false;
      }
    }
  }

  /** No longer list of acceptable frames starts the stream: any that does is a prefix of the relayed one. */
  lemma {:induction false} RelayIsLongest(src: Octets, gs: seq<Frame>)
    requires (forall g :: g in gs ==> Acceptable(g)) && SerializeAll(gs) <= src
    ensures gs <= Relay(src).frames
  {
    var tail := src[|SerializeAll(gs)|..];
    assert src == SerializeAll(gs) + tail;
    RelayInvertsSerialize(gs, tail);
  }

  /**
   For every stream the relay forwards a prefix of it made of whole acceptable frames, the longest
   there is, and it refuses what follows exactly when the header is there and no further bytes could
   make it a frame to accept; otherwise it stops only because the stream ended.
   */
  lemma {:induction false} RelayIsTransparent(src: Octets)
    ensures src == SerializeAll(Relay(src).frames) + Relay(src).rest
    ensures forall f :: f in Relay(src).frames ==> Acceptable(f)
    ensures forall gs :: (forall g :: g in gs ==> Acceptable(g)) && SerializeAll(gs) <= src ==> gs <= Relay(src).frames
    ensures Relay(src).stop.Refused? <==> HeaderRead(Relay(src).rest) && !CanComplete(Relay(src).rest)
    ensures Relay(src).stop.Refused? || Relay(src).stop == Incomplete
  {
    RelayConservesBytes(src);
    forall gs | (forall g :: g in gs ==> Acceptable(g)) && SerializeAll(gs) <= src
      ensures gs <= Relay(src).frames
    {
      RelayIsLongest(src, gs);
    }
    var rest := Relay(src).rest;
    if Judge(rest).Refused? {
      RefusedCannotComplete(rest);
    } else if HeaderRead(rest) {
      NotRefusedCanComplete(rest);
    }
  }

  lemma {:induction false} CloseFrameIsAcceptable(code: nat, reason: string)
    requires code < Pow256(2) && |reason| <= 123
    ensures var f := CloseFrame(code, reason);
            Acceptable(f) && Opcode(f.b0) == 8 && BigEndian(f.payload[..2]) == code
    ensures var f := CloseFrame(code, reason);
            && f.b0 == 0x88 && f.b1 < 0x80 && |f.payload| == 2 + |reason|
            && forall i :: 0 <= i < |reason| && reason[i] < 128 as char ==> f.payload[2 + i] == reason[i] as int
  {
    var f := CloseFrame(code, reason);
    BigEndianRoundTrip(code, 2);
    assert f.payload[..2] == ToBigEndian(code, 2);
  }

  lemma {:induction false} RelayOfOne(f: Frame)
    requires Acceptable(f)
    ensures Relay(Serialize(f)).frames == [f]
  {
    assert SerializeAll([f]) == Serialize(f) + SerializeAll([]);
    assert SerializeAll([f]) + [] == Serialize(f);
    RelayInvertsSerialize([f], []);
  }

  // ---------------------------------------------------------------- header by header

  /** The header at the front of `h` is there and declares a payload of `n` bytes. */
  predicate Declares(h: Octets, n: nat) {
    |h| >= 2 &&
    if h[1] % 128 < 126 then n == h[1] % 128
    else if h[1] % 128 == 126 then |h| >= 4 && n == 0x100 * h[2] as int + h[3] as int
    else
      && |h| >= 10
      && n == 0x1_0000_0000 * (0x100_0000 * h[2] as int + 0x1_0000 * h[3] as int + 0x100 * h[4] as int + h[5] as int)
              + (0x100_0000 * h[6] as int + 0x1_0000 * h[7] as int + 0x100 * h[8] as int + h[9] as int)
  }

  lemma {:induction false} DeclaredSize(h: Octets)
    requires |h| >= 2 && |h| >= 2 + ExtSize(h[1])
    ensures Declares(h, PayloadSize(h[1], h[2..2 + ExtSize(h[1])]))
  {
    if h[1] % 128 == 126 {
      assert h[2..4] == [h[2], h[3]];
      BigEndianTwo(h[2], h[3]);
    } else if h[1] % 128 == 127 {
      assert h[2..10] == [h[2], h[3], h[4], h[5]] + [h[6], h[7], h[8], h[9]];
      BigEndianHalves([h[2], h[3], h[4], h[5]], [h[6], h[7], h[8], h[9]]);
      BigEndianFour(h[2], h[3], h[4], h[5]);
      BigEndianFour(h[6], h[7], h[8], h[9]);
    }
  }

  /** The frames that are forwarded, bit by bit and size by size. */
  lemma {:induction false} AcceptableExactly(f: Frame)
    ensures Acceptable(f) <==>
            && f.b0 / 16 % 8 == 0
            && |f.ext| == (if f.b1 % 128 == 126 then 2 else if f.b1 % 128 == 127 then 8 else 0)
            && |f.key| == (if f.b1 >= 0x80 then 4 else 0)
            && Declares(Serialize(f), |f.payload|) && |f.payload| <= 16777216
            && (f.b0 % 16 >= 8 ==> f.b0 >= 0x80 && |f.payload| <= 125)
  {
    if |f.ext| == ExtSize(f.b1) {
      var h := Serialize(f);
      assert h[2..2 + |f.ext|] == f.ext;
      DeclaredSize(h);
    }
  }

  /**
   Which close frame a refused stream is sent, by the header it stops at: 1002 for any reserved bit,
   else 1009 for a declared length over 16 MiB, else 1002 for a control frame that is fragmented or
   longer than 125 bytes. Nothing else is refused.
   */
  lemma {:induction false} RefusedWith(src: Octets)
    ensures var h, stop := Relay(src).rest, Relay(src).stop;
            && (stop == Refused(1002, "RSV bits set") <==> |h| >= 2 && h[0] / 16 % 8 != 0)
            && (stop == Refused(1009, "frame too large")
                <==> |h| >= 2 && h[0] / 16 % 8 == 0 && exists n: nat :: Declares(h, n) && n > 16777216)
            && (stop == Refused(1002, "invalid control frame")
                <==> |h| >= 2 && h[0] / 16 % 8 == 0 && h[0] % 16 >= 8
                     && exists n: nat :: Declares(h, n) && n <= 16777216 && (h[0] < 0x80 || n > 125))
            && (stop.Refused? ==> stop.code == 1002 || stop == Refused(1009, "frame too large"))
            && (stop.Refused? && stop.code == 1002 ==>
                  stop.reason == "RSV bits set" || stop.reason == "invalid control frame")
  {
    RelayConservesBytes(src);
    JudgedBy(Relay(src).rest);
  }

  lemma {:induction false} JudgedBy(h: Octets)
    ensures var stop := Judge(h);
            && (stop == Refused(1002, "RSV bits set") <==> |h| >= 2 && h[0] / 16 % 8 != 0)
            && (stop == Refused(1009, "frame too large")
                <==> |h| >= 2 && h[0] / 16 % 8 == 0 && exists n: nat :: Declares(h, n) && n > 16777216)
            && (stop == Refused(1002, "invalid control frame")
                <==> |h| >= 2 && h[0] / 16 % 8 == 0 && h[0] % 16 >= 8
                     && exists n: nat :: Declares(h, n) && n <= 16777216 && (h[0] < 0x80 || n > 125))
            && (stop.Refused? ==> stop.code == 1002 || stop == Refused(1009, "frame too large"))
            && (stop.Refused? && stop.code == 1002 ==>
                  stop.reason == "RSV bits set" || stop.reason == "invalid control frame")
  {
    DifferentReasons();
    if |h| >= 2 && h[0] / 16 % 8 == 0 && |h| >= 2 + ExtSize(h[1]) {
      DeclaredSize(h);
      assert forall n: nat :: Declares(h, n) ==> n == PayloadSize(h[1], h[2..2 + ExtSize(h[1])]);
    }
  }

  lemma {:induction false} DifferentReasons()
    ensures "RSV bits set" != "invalid control frame"
  {
    assert |"RSV bits set"| != |"invalid control frame"|;
  }

  /** The farewell is itself an acceptable, unfragmented close frame with the code and the reason. */
  lemma {:induction false} FarewellIsAcceptable(src: Octets)
    requires Relay(src).stop.Refused?
    ensures var stop := Relay(src).stop;
            var f := CloseFrame(stop.code, stop.reason);
            Acceptable(f) && Opcode(f.b0) == 8 && BigEndian(f.payload[..2]) == stop.code
    ensures var stop := Relay(src).stop;
            var f := CloseFrame(stop.code, stop.reason);
            && f.b0 == 0x88 && f.b1 < 0x80 && |f.payload| == 2 + |stop.reason|
            && forall i :: 0 <= i < |stop.reason| && stop.reason[i] < 128 as char ==>
                 f.payload[2 + i] == stop.reason[i] as int
    ensures Relay(Farewell(Relay(src).stop)).frames == [CloseFrame(Relay(src).stop.code, Relay(src).stop.reason)]
  {
    RelayConservesBytes(src);
    var stop := Relay(src).stop;
    assert stop == Judge(Relay(src).rest);
    CloseFrameIsAcceptable(stop.code, stop.reason);
    RelayOfOne(CloseFrame(stop.code, stop.reason));
  }
}
