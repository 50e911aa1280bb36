/**
 The mobile API's own WebSocket code in pkg/proxy/mobile_api.go: the text-frame printer and the read
 loop, measured against the relay's reading of the same bytes.
 */
module MobileSocket {
  import opened Bytes
  import opened WebSocket

  const MAX_API_FRAME_SIZE: nat := 32 * 1024 * 1024

  // ---------------------------------------------------------------- the printer

  /** The unmasked, final text frame that carries `payload`. */
  function TextFrame(payload: Octets): Frame {
    var n := |payload|;
    if n <= 125 then Frame(0x81, n, [], [], payload)
    else if n <= 65535 then Frame(0x81, 126, ToBigEndian(n, 2), [], payload)
    else Frame(0x81, 127, ToBigEndian(n, 8), [], payload)
  }

  lemma {:induction false} BigEndianDigit(v: nat, k: nat, i: nat)
    requires i < k
    ensures ToBigEndian(v, k)[i] == (v / Pow256(k - 1 - i)) % 256
    decreases k
  {
    if i < k - 1 {
      BigEndianDigit(v / 256, k - 1, i);
      DivideTwice(v, Pow256(k - 2 - i));
    }
  }

  lemma {:induction false} DivideTwice(v: nat, p: nat)
    requires p >= 1
    ensures (v / 256) / p == v / (256 * p)
  {
    var q, r := v / (256 * p), v % (256 * p);
    assert v == 256 * (p * q) + r;
    assert v / 256 == p * q + r / 256;
    assert r / 256 < p;
    assert (v / 256) % p == r / 256 && (v / 256) / p == q by {
      QuotientOf(v / 256, p, q, r / 256);
    }
  }

  lemma {:induction false} Assembled(s: Octets, head: Octets, payload: Octets)
    requires |s| == |head| + |payload| && s[..|head|] == head && s[|head|..] == payload
    ensures s == head + payload
  {
  }

  method EncodeWSTextFrame(payload: Octets) returns (frame: array<Byte>)
    ensures fresh(frame) && frame[..] == Serialize(TextFrame(payload))
  {
    var length := |payload|;
    ghost var f := TextFrame(payload);
    ghost var head := [f.b0, f.b1] + f.ext;
    assert Serialize(f) == head + payload;
    if length <= 125 {
      frame := new Byte[2 + length](_ => 0);
      frame[0] := 0x81;
      frame[1] := length;
      assert frame[..2] == head;
      CopyInto(frame, 2, payload);
    } else if length <= 65535 {
      frame := new Byte[4 + length](_ => 0);
      frame[0] := 0x81;
      frame[1] := 126;
      frame[2] := length / 256;
      frame[3] := length % 256;
      assert ToBigEndian(length, 2) == [length / 256, length % 256];
      assert frame[..4] == head;
      CopyInto(frame, 4, payload);
    } else {
      frame := new Byte[10 + length](_ => 0);
      frame[0] := 0x81;
      frame[1] := 127;
      for i := 0 to 8
        invariant frame[0] == 0x81 && frame[1] == 127
        invariant forall j :: 0 <= j < i ==> frame[2 + j] == f.ext[j]
      {
        BigEndianDigit(length, 8, i);
        frame[2 + i] := (length / Pow256(7 - i)) % 256;
      }
      assert frame[2..10] == f.ext;
      assert frame[..10] == head;
      CopyInto(frame, 10, payload);
    }
    Assembled(frame[..], head, payload);
  }

  /** `copy(frame[at:], payload)`. */
  method CopyInto(frame: array<Byte>, at: nat, payload: Octets)
    requires at + |payload| == frame.Length
    modifies frame
    ensures frame[..at] == old(frame[..at])
    ensures frame[at..] == payload
  {
    for i := 0 to |payload|
      invariant frame[..at] == old(frame[..at])
      invariant frame[at..at + i] == payload[..i]
    {
      frame[at + i] := payload[i];
    }
  }

  /** A text frame of at most 16 MiB passes the relay, and shows its payload unmasked. */
  lemma {:induction false} TextFrameIsAcceptable(payload: Octets)
    requires |payload| <= MAX_FRAME_SIZE
    ensures Acceptable(TextFrame(payload)) && Unmasked(TextFrame(payload)) == payload
  {
    var n := |payload|;
    if 125 < n <= 65535 {
      assert Pow256(2) == 65536;
      BigEndianRoundTrip(n, 2);
    } else if n > 65535 {
      assert Pow256(4) == 256 * 256 * 256 * 256;
      assert Pow256(8) >= Pow256(4) by {
        assert Pow256(5) >= Pow256(4) && Pow256(6) >= Pow256(5) && Pow256(7) >= Pow256(6);
      }
      BigEndianRoundTrip(n, 8);
    }
  }

  function TextFrames(ps: seq<Octets>): seq<Frame> {
    if ps == [] then [] else [TextFrame(ps[0])] + TextFrames(ps[1..])
  }

  function Payloads(fs: seq<Frame>): seq<Octets> {
    if fs == [] then [] else [Unmasked(fs[0])] + Payloads(fs[1..])
  }

  lemma {:induction false} TextFramesAreAcceptable(ps: seq<Octets>)
    requires forall p :: p in ps ==> |p| <= MAX_FRAME_SIZE
    ensures forall f :: f in TextFrames(ps) ==> Acceptable(f)
    ensures Payloads(TextFrames(ps)) == ps
  {
    if ps != [] {
      TextFrameIsAcceptable(ps[0]);
      TextFramesAreAcceptable(ps[1..]);
      assert TextFrames(ps)[1..] == TextFrames(ps[1..]);
    }
  }

  /** The relay reads any run of printed text frames back as the same payloads, with nothing left over. */
  lemma {:induction false} RelayInvertsPrinter(ps: seq<Octets>)
    requires forall p :: p in ps ==> |p| <= MAX_FRAME_SIZE
    ensures var r := Relay(SerializeAll(TextFrames(ps)));
            r.frames == TextFrames(ps) && Payloads(r.frames) == ps && r.rest == [] && r.stop == Incomplete
  {
    TextFramesAreAcceptable(ps);
    RelayInvertsSerialize(TextFrames(ps), []);
    assert SerializeAll(TextFrames(ps)) + [] == SerializeAll(TextFrames(ps));
  }

  // ---------------------------------------------------------------- the read loop

  datatype Message = Message(opcode: nat, payload: Octets)

  /** One turn of the read loop: a message and its size, or the end, too large a frame or not. */
  datatype Turn = Take(message: Message, size: nat) | Leave(tooLarge: bool)

  datatype Session = Session(messages: seq<Message>, tooLarge: bool)

  /** The payload length a header declares; None when the header is not all there. */
  function DeclaredSize(src: Octets): Option<nat>
    requires |src| >= 2
  {
    var e := ExtSize(src[1]);
    if |src| < 2 + e then None else Some(PayloadSize(src[1], src[2..2 + e]))
  }

  /** The payload after a header that ends at `at`, unmasked, and where it ends; None when it is cut short. */
  function BodyAt(src: Octets, at: nat, masked: bool, size: nat): (r: Option<(Octets, nat)>)
    requires at <= |src|
    ensures r.Some? ==> at <= r.value.1 <= |src|
  {
    var start := if masked then at + 4 else at;
    if |src| < start + size then None
    else
      var body := src[start..start + size];
      Some((if masked then Mask(body, src[at..start]) else body, start + size))
  }

  function NextTurn(src: Octets): (t: Turn)
    ensures t.Take? ==> 2 <= t.size <= |src|
  {
    if |src| < 2 || Opcode(src[0]) == 8 then Leave(false)
    else
      var e := ExtSize(src[1]);
      if DeclaredSize(src) == None then Leave(false)
      else
        var size := DeclaredSize(src).value;
        if e == 8 && size > MAX_API_FRAME_SIZE then Leave(true)
        else
          match BodyAt(src, 2 + e, Masked(src[1]), size)
          case None => Leave(false)
          case Some((clear, end)) => Take(Message(Opcode(src[0]), clear), end)
  }

  /** Everything the read loop takes off a stream before it ends. */
  function ReadAll(src: Octets): Session
    decreases |src|
  {
    match NextTurn(src)
    case Leave(tooLarge) => Session([], tooLarge)
    case Take(m, size) =>
      var more := ReadAll(src[size..]);
      Session([m] + more.messages, more.tooLarge)
  }

  /** The text messages, which are the ones handed on. */
  function Texts(ms: seq<Message>): seq<Octets> {
    if ms == [] then []
    else Texts(ms[..|ms| - 1]) + if ms[|ms| - 1].opcode == 1 then [ms[|ms| - 1].payload] else []
  }

  /** One empty pong for each ping. */
  function Pongs(ms: seq<Message>): Octets {
    if ms == [] then []
    else Pongs(ms[..|ms| - 1]) + if ms[|ms| - 1].opcode == 9 then [0x8A, 0x00] else []
  }

  /** A session whose messages come after `ms`. */
  function Behind(ms: seq<Message>, s: Session): Session {
    Session(ms + s.messages, s.tooLarge)
  }

  lemma {:induction false} ReadAllUnfolds(ms: seq<Message>, src: Octets)
    requires NextTurn(src).Take?
    ensures var t := NextTurn(src); Behind(ms, ReadAll(src)) == Behind(ms + [t.message], ReadAll(src[t.size..]))
  {
    var t := NextTurn(src);
    var more := ReadAll(src[t.size..]).messages;
    assert ms + ([t.message] + more) == ms + [t.message] + more;
  }

  lemma {:induction false} ReadAllEnds(ms: seq<Message>, src: Octets)
    requires NextTurn(src).Leave?
    ensures Behind(ms, ReadAll(src)) == Session(ms, NextTurn(src).tooLarge)
  {
  }

  lemma {:induction false} OneMore(ms: seq<Message>, m: Message)
    ensures Texts(ms + [m]) == Texts(ms) + if m.opcode == 1 then [m.payload] else []
    ensures Pongs(ms + [m]) == Pongs(ms) + if m.opcode == 9 then [0x8A, 0x00] else []
  {
    assert (ms + [m])[..|ms|] == ms;
  }

  lemma {:induction false} TwoDigits(s: Octets)
    requires |s| == 2
    ensures BigEndian(s) == s[0] as nat * 256 + s[1] as nat
  {
    assert s[..1] == [s[0]];
    assert BigEndian([s[0]]) == s[0] by {
      assert [s[0]][..0] == [];
    }
  }

  method ReadSize(src: Octets) returns (size: Option<nat>)
    requires |src| >= 2
    ensures size == DeclaredSize(src)
  {
    var n: nat := src[1] % 128;
    if n == 126 {
      if |src| < 4 {
        return None;
      }
      var high: nat, low: nat := src[2], src[3];
      TwoDigits(src[2..4]);
      n := high * 256 + low;
    } else if n == 127 {
      if |src| < 10 {
        return None;
      }
      n := BigEndian(src[2..10]);
    }
    return Some(n);
  }

  method ReadTurn(src: Octets) returns (t: Turn)
    ensures t == NextTurn(src)
  {
    if |src| < 2 {
      return Leave(false);
    }
    var opcode := Opcode(src[0]);
    if opcode == 8 {
      return Leave(false);
    }
    var declared := ReadSize(src);
    if declared == None {
      return Leave(false);
    }
    var at, size := 2 + ExtSize(src[1]), declared.value;
    if src[1] % 128 == 127 && size > MAX_API_FRAME_SIZE {
      return Leave(true);
    }
    var body := ReadBody(src, at, Masked(src[1]), size);
    return match body case None => Leave(false) case Some((clear, end)) => Take(Message(opcode, clear), end);
  }

  /** The key, if there is one, and the payload. */
  method ReadBody(src: Octets, start: nat, masked: bool, size: nat) returns (r: Option<(Octets, nat)>)
    requires start <= |src|
    ensures r == BodyAt(src, start, masked, size)
  {
    var at := start;
    var key: Octets := [];
    if masked {
      if |src| < at + 4 {
        return None;
      }
      key, at := src[at..at + 4], at + 4;
    }
    if |src| < at + size {
      return None;
    }
    var payload := src[at..at + size];
    if masked {
      payload := Unmask(payload, key);
    }
    return Some((payload, at + size));
  }

  /** What a turn does with a message: a text is handed on, a ping gets a pong. */
  method Answer(m: Message, handled: seq<Octets>, written: Octets, ghost taken: seq<Message>)
    returns (handled': seq<Octets>, written': Octets)
    requires handled == Texts(taken) && written == Pongs(taken)
    ensures handled' == Texts(taken + [m]) && written' == Pongs(taken + [m])
  {
    OneMore(taken, m);
    handled', written' := handled, written;
    if m.opcode == 9 {
      written' := written + [0x8A, 0x00];
    } else if m.opcode == 1 {
      handled' := handled + [m.payload];
    }
  }

  /** What the loop writes when it leaves. */
  function Parting(tooLarge: bool): Octets {
    if tooLarge then Farewell(Refused(1009, "frame too large")) else []
  }

  method Part(written: Octets, tooLarge: bool) returns (written': Octets)
    ensures written' == written + Parting(tooLarge)
  {
    written' := written;
    if tooLarge {
      written' := WriteWSCloseFrame(written, 1009, "frame too large");
    }
  }

  /** The read loop: the texts it hands on and the bytes it writes back. */
  method ReadLoop(src: Octets) returns (handled: seq<Octets>, written: Octets)
    ensures handled == Texts(ReadAll(src).messages)
    ensures written == Pongs(ReadAll(src).messages) + Parting(ReadAll(src).tooLarge)
  {
    handled, written := [], [];
    var rest := src;
    ghost var all, taken: seq<Message> := ReadAll(src), [];
    while true
      invariant all == Behind(taken, ReadAll(rest))
      invariant handled == Texts(taken) && written == Pongs(taken)
      decreases |rest|
    {
      var t := ReadTurn(rest);
      if t.Leave? {
        ReadAllEnds(taken, rest);
        written := Part(written, t.tooLarge);
        return;
      }
      ReadAllUnfolds(taken, rest);
      handled, written := Answer(t.message, handled, written, taken);
      taken := taken + [t.message];
      rest := rest[t.size..];
    }
  }

  // ---------------------------------------------------------------- turn by turn

  /** The bytes of a header with its key, by the bits of its second byte. */
  function HeaderSize(b1: Byte): nat {
    2 + (if b1 % 128 == 126 then 2 else if b1 % 128 == 127 then 8 else 0) + if b1 >= 0x80 then 4 else 0
  }

  lemma {:induction false} OneDeclared(src: Octets)
    requires |src| >= 2
    ensures match DeclaredSize(src) case None => forall n: nat :: !Declares(src, n)
                                    case Some(k) => forall n: nat :: Declares(src, n) <==> n == k
  {
    if |src| >= 2 + ExtSize(src[1]) {
      WebSocket.DeclaredSize(src);
    }
  }

  /** The loop leaves with a close frame of its own for just the 64-bit lengths over 32 MiB. */
  lemma {:induction false} TooLargeExactly(src: Octets)
    ensures NextTurn(src) == Leave(true)
       <==> |src| >= 2 && src[0] % 16 != 8 && src[1] % 128 == 127 && exists n: nat :: Declares(src, n) && n > 33554432
  {
    if |src| >= 2 {
      OneDeclared(src);
      if DeclaredSize(src).Some? {
        assert Declares(src, DeclaredSize(src).value);
      }
    }
  }

  /** It takes every other frame that is there and no close frame, without looking at anything else. */
  lemma {:induction false} TakenExactly(src: Octets)
    ensures NextTurn(src).Take?
       <==> |src| >= 2 && src[0] % 16 != 8
            && exists n: nat :: Declares(src, n) && (src[1] % 128 == 127 ==> n <= 33554432) && |src| >= HeaderSize(src[1]) + n
  {
    if |src| >= 2 {
      OneDeclared(src);
      if DeclaredSize(src).Some? {
        assert Declares(src, DeclaredSize(src).value);
      }
    }
  }

  /** What it takes is the opcode and the declared payload, unmasked. */
  lemma {:induction false} TakenMessage(src: Octets)
    requires NextTurn(src).Take?
    ensures var t, start := NextTurn(src), HeaderSize(src[1]);
            && t.message.opcode == src[0] % 16 && start <= t.size <= |src| && Declares(src, t.size - start)
            && t.message.payload
               == if src[1] >= 0x80 then Mask(src[start..t.size], src[start - 4..start]) else src[start..t.size]
  {
    OneDeclared(src);
    BodyLayout(src, 2 + ExtSize(src[1]), Masked(src[1]), DeclaredSize(src).value);
  }

  lemma {:induction false} BodyLayout(src: Octets, at: nat, masked: bool, size: nat)
    requires at <= |src| && BodyAt(src, at, masked, size).Some?
    ensures var (clear, end) := BodyAt(src, at, masked, size).value;
            var start := if masked then at + 4 else at;
            && end == start + size <= |src|
            && clear == if masked then Mask(src[start..end], src[at..start]) else src[start..end]
  {
  }

  /** Of the messages just the texts are handed on, each in its place. */
  lemma {:induction false} TextsInPlace(a: seq<Message>, m: Message, b: seq<Message>)
    ensures Texts(a + [m] + b) == Texts(a) + (if m.opcode == 1 then [m.payload] else []) + Texts(b)
    decreases |b|
  {
    if b == [] {
      OneMore(a, m);
      assert a + [m] + b == a + [m];
      assert Texts(a + [m]) + [] == Texts(a + [m]);
    } else {
      var front, last := b[..|b| - 1], b[|b| - 1];
      TextsInPlace(a, m, front);
      assert a + [m] + b == a + [m] + front + [last] && front + [last] == b;
      OneMore(a + [m] + front, last);
      OneMore(front, last);
    }
  }

  /** Every ping gets one empty pong: the relay reads what is written back as that many such frames. */
  lemma {:induction false} PongsAnswerPings(ms: seq<Message>) returns (fs: seq<Frame>)
    ensures forall f :: f in fs ==> f == Frame(0x8A, 0, [], [], [])
    ensures |fs| == |set i | 0 <= i < |ms| && ms[i].opcode == 9|
    ensures Pongs(ms) == SerializeAll(fs) && Relay(Pongs(ms)) == Relayed(fs, Incomplete, [])
  {
    fs := PongFrames(ms);
    RelayInvertsSerialize(fs, []);
    assert SerializeAll(fs) + [] == SerializeAll(fs);
    assert fs + [] == fs;
  }

  /** Which of the messages are pings. */
  function Pings(ms: seq<Message>): set<nat> {
    set i | 0 <= i < |ms| && ms[i].opcode == 9
  }

  lemma {:induction false} OneMorePing(front: seq<Message>, m: Message)
    ensures |Pings(front + [m])| == |Pings(front)| + if m.opcode == 9 then 1 else 0
  {
    if m.opcode == 9 {
      assert Pings(front + [m]) == Pings(front) + {|front|};
    } else {
      assert Pings(front + [m]) == Pings(front);
    }
  }

  lemma {:induction false} OneMorePong(fs: seq<Frame>)
    ensures SerializeAll(fs + [Frame(0x8A, 0, [], [], [])]) == SerializeAll(fs) + [0x8A, 0x00]
  {
    SerializeAllAppend(fs, Frame(0x8A, 0, [], [], []));
  }

  lemma {:induction false} PongFrames(ms: seq<Message>) returns (fs: seq<Frame>)
    ensures forall f :: f in fs ==> f == Frame(0x8A, 0, [], [], [])
    ensures |fs| == |Pings(ms)| && Pongs(ms) == SerializeAll(fs)
  {
    fs := [];
    if ms != [] {
      var front, m := ms[..|ms| - 1], ms[|ms| - 1];
      fs := PongFrames(front);
      assert front + [m] == ms;
      OneMorePing(front, m);
      OneMore(front, m);
      if m.opcode == 9 {
        OneMorePong(fs);
        fs := fs + [Frame(0x8A, 0, [], [], [])];
      }
    }
  }

  /** The loop parts with a close frame for too large a frame, and without a word otherwise. */
  lemma {:induction false} PartingCloses()
    ensures Relay(Parting(true)) == Relayed([CloseFrame(1009, "frame too large")], Incomplete, [])
    ensures Parting(false) == []
  {
    var f := CloseFrame(1009, "frame too large");
    CloseFrameIsAcceptable(1009, "frame too large");
    assert SerializeAll([f]) == Serialize(f) + SerializeAll([]);
    assert SerializeAll([f]) + [] == Serialize(f);
    RelayInvertsSerialize([f], []);
  }

  // ---------------------------------------------------------------- agreement

  /** The relayed frames before the first close frame, as messages. */
  function UntilClose(fs: seq<Frame>): seq<Message> {
    if fs == [] || Opcode(fs[0].b0) == 8 then []
    else [Message(Opcode(fs[0].b0), Unmasked(fs[0]))] + UntilClose(fs[1..])
  }

  predicate HasClose(fs: seq<Frame>) {
    exists f :: f in fs && Opcode(f.b0) == 8
  }

  /** On a frame the relay accepts, other than a close, the read loop takes the same message. */
  lemma {:induction false} SameMessage(src: Octets)
    requires Judge(src).Whole? && Opcode(src[0]) != 8
    ensures var f := Judge(src).frame;
            NextTurn(src) == Take(Message(Opcode(f.b0), Unmasked(f)), |Serialize(f)|)
  {
  }

  /**
   The two parsers agree: on every stream the read loop starts with the opcodes and payloads the
   relay forwards up to the first close frame. It takes no others if and only if there is a close
   frame, the relay ran out of bytes, or the loop leaves as well where the relay refused.
   */
  lemma {:induction false} ParsersAgree(src: Octets)
    ensures UntilClose(Relay(src).frames) <= ReadAll(src).messages
    ensures ReadAll(src).messages == UntilClose(Relay(src).frames)
       <==> Relay(src).stop == Incomplete || HasClose(Relay(src).frames) || NextTurn(Relay(src).rest).Leave?
    decreases |src|
  {
    if Judge(src).Whole? && Opcode(src[0]) != 8 {
      var f := Judge(src).frame;
      SameMessage(src);
      var rest := src[|Serialize(f)|..];
      ParsersAgree(rest);
      var fs := Relay(src).frames;
      assert fs[1..] == Relay(rest).frames;
      assert HasClose(fs) <==> HasClose(fs[1..]);
    }
  }

  /** They do differ: the relay refuses an empty text frame with a reserved bit set, the read loop takes it. */
  lemma {:induction false} ReadLoopTakesRefusedFrame()
    ensures var src: Octets := [0xC1, 0x00];
            && Relay(src).stop.Refused? && Relay(src).frames == []
            && ReadAll(src).messages == [Message(1, [])]
  {
    var src: Octets := [0xC1, 0x00];
    assert NextTurn(src) == Take(Message(1, []), 2);
    assert src[2..] == [];
    assert ReadAll([]).messages == [];
  }
}
