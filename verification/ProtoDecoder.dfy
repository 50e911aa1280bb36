/**
 The schema-less Protocol Buffers decoder of pkg/grpc/proto_decoder.go.

 `Scan` is the wire grammar (Protocol Buffers encoding guide, "Base 128 Varints" and "Message
 Structure"): the list of fields a byte string holds and how reading it ends. `Group` says what a
 decoded message is: every field number with its values in wire order. The methods are the code's
 own loops, proved to compute `Group` of `Scan`; the encoder is the inverse they are measured
 against.
 */
module ProtoDecoder {
  import opened Bytes
  import opened Base64
  import opened Utf8

  const TWO_TO_63: nat := 0x8000_0000_0000_0000
  const TWO_TO_61: nat := 0x2000_0000_0000_0000

  /** A decoded value. Raw bytes are shown as text too: as their Base64 text. */
  datatype Value =
    | Uint(v: nat)
    | Fixed64(v: nat)
    | Fixed32(v: nat)
    | Text(text: Octets)
    | Message(fields: map<nat, Slot>)

  /** What one key of a decoded map holds: a value, or the list `appendOrSet` makes of several. */
  datatype Slot = One(value: Value) | Many(values: seq<Value>)

  type Fields = map<nat, Slot>

  /** How reading a message ends: no error, an error, or the panic of `make` on a negative length. */
  datatype End = Finished | Failed | Panicked

  datatype Outcome = Outcome(fields: Fields, end: End)

  datatype ScanResult = ScanResult(fields: seq<(nat, Value)>, end: End)

  datatype FieldRead = Got(value: Value, size: nat) | Stop(end: End)

  // ---------------------------------------------------------------- varints

  /** One more than the largest number a varint may still add after `i` of its bytes. */
  function VarintCap(i: nat): (c: nat)
    requires i <= 9
    ensures c >= 2
    decreases 9 - i
  {
    if i == 9 then 2 else 128 * VarintCap(i + 1)
  }

  /**
   The varint at the front of `data`, of which `i` bytes were read before: its value and its size.
   None when the bytes end early, or run past ten bytes or past 64 bits.
   */
  function ReadUvarint(data: Octets, i: nat): (r: Option<(nat, nat)>)
    requires i <= 9
    ensures r.Some? ==> 1 <= r.value.1 <= |data| && r.value.1 <= 10 - i && r.value.0 < VarintCap(i)
    decreases 9 - i
  {
    if data == [] then None
    else if data[0] < 128 then
      if i == 9 && data[0] > 1 then None
      else
        assert i < 9 ==> VarintCap(i) == 128 * VarintCap(i + 1);
        Some((data[0], 1))
    else if i == 9 then None
    else Prepend(data[0] % 128, ReadUvarint(data[1..], i + 1))
  }

  /** A varint with seven more low bits in front. */
  function Prepend(b: nat, r: Option<(nat, nat)>): Option<(nat, nat)> {
    match r
    case None => None
    case Some((v, n)) => Some((b + 128 * v, n + 1))
  }

  /** The shortest varint of `v`. */
  function EncodeUvarint(v: nat): (s: Octets)
    ensures |s| >= 1
  {
    if v < 128 then [v] else [v % 128 + 128] + EncodeUvarint(v / 128)
  }

  lemma {:induction false} UvarintRoundTrip(v: nat, i: nat, rest: Octets)
    requires i <= 9 && v < VarintCap(i)
    ensures ReadUvarint(EncodeUvarint(v) + rest, i) == Some((v, |EncodeUvarint(v)|))
    decreases 9 - i
  {
    if v >= 128 {
      UvarintRoundTrip(v / 128, i + 1, rest);
      assert (v % 128 + 128) % 128 == v % 128;
      assert (EncodeUvarint(v) + rest)[1..] == EncodeUvarint(v / 128) + rest;
    }
  }

  /** The value of the low seven bits of every byte, the first lowest. */
  function Septets(s: Octets): nat {
    if s == [] then 0 else s[0] % 128 + 128 * Septets(s[1..])
  }

  /** `n` bytes that are a varint of which `i` bytes were read before: all but the last have the high bit. */
  predicate VarintBytes(s: Octets, i: nat) {
    && 1 <= |s| <= 10 - i && (forall j :: 0 <= j < |s| - 1 ==> s[j] >= 128) && s[|s| - 1] < 128
    && (|s| == 10 - i ==> s[|s| - 1] <= 1)
  }

  lemma {:induction false} VarintRest(s: Octets, i: nat)
    requires |s| > 1 && s[0] >= 128 && i <= 8
    ensures VarintBytes(s, i) <==> VarintBytes(s[1..], i + 1)
  {
    if VarintBytes(s[1..], i + 1) {
      assert forall j :: 1 <= j < |s| - 1 ==> s[j] == s[1..][j - 1];
    }
  }

  /** What was read was there. */
  lemma {:induction false} ReadIsVarint(data: Octets, i: nat)
    requires i <= 9 && ReadUvarint(data, i).Some?
    ensures var (v, n) := ReadUvarint(data, i).value; VarintBytes(data[..n], i) && v == Septets(data[..n])
    decreases 9 - i
  {
    var n := ReadUvarint(data, i).value.1;
    var s := data[..n];
    if data[0] >= 128 {
      ReadIsVarint(data[1..], i + 1);
      assert s[1..] == data[1..][..n - 1];
      VarintRest(s, i);
    } else {
      assert s == [data[0]] && s[1..] == [];
    }
  }

  /** And what is there is read. */
  lemma {:induction false} VarintIsRead(s: Octets, rest: Octets, i: nat)
    requires i <= 9 && VarintBytes(s, i)
    ensures ReadUvarint(s + rest, i) == Some((Septets(s), |s|))
    decreases |s|
  {
    if |s| > 1 {
      VarintRest(s, i);
      VarintIsRead(s[1..], rest, i + 1);
      assert (s + rest)[1..] == s[1..] + rest;
      var more := ReadUvarint(s[1..] + rest, i + 1);
      assert ReadUvarint(s + rest, i) == Prepend(s[0] % 128, more);
    } else {
      assert s[1..] == [];
    }
  }

  /** A varint is read exactly when one to ten such bytes are there, within 64 bits, in the shortest form or not. */
  lemma {:induction false} ReadUvarintExactly(data: Octets, v: nat, n: nat)
    ensures ReadUvarint(data, 0) == Some((v, n)) <==> n <= |data| && VarintBytes(data[..n], 0) && v == Septets(data[..n])
  {
    if ReadUvarint(data, 0).Some? {
      ReadIsVarint(data, 0);
    }
    if n <= |data| && VarintBytes(data[..n], 0) {
      assert data == data[..n] + data[n..];
      VarintIsRead(data[..n], data[n..], 0);
    }
  }

  lemma {:induction false} VarintCapIs64Bits()
    ensures VarintCap(0) == 0x1_0000_0000_0000_0000
  {
    assert VarintCap(7) == 128 * VarintCap(8) == 128 * 128 * 2;
    assert VarintCap(5) == 128 * VarintCap(6);
    assert VarintCap(3) == 128 * VarintCap(4);
    assert VarintCap(1) == 128 * VarintCap(2);
  }

  /** `v << 7*i`. */
  function Shift(v: nat, i: nat): nat {
    if i == 0 then v else 128 * Shift(v, i - 1)
  }

  lemma {:induction false} ShiftAdds(a: nat, v: nat, i: nat)
    ensures Shift(a + 128 * v, i) == Shift(a, i) + Shift(v, i + 1)
  {
    if i > 0 {
      ShiftAdds(a, v, i - 1);
    }
  }

  /** What the `i` bytes read so far, worth `x`, make of the rest of a varint. */
  function Continue(x: nat, i: nat, r: Option<(nat, nat)>): Option<(nat, nat)> {
    match r
    case None => None
    case Some((v, n)) => Some((x + Shift(v, i), i + n))
  }

  lemma {:induction false} ContinuePrepends(x: nat, i: nat, b: nat, r: Option<(nat, nat)>)
    ensures Continue(x, i, Prepend(b, r)) == Continue(x + Shift(b, i), i + 1, r)
  {
    if r.Some? {
      ShiftAdds(b, r.value.0, i);
    }
  }

  /** The loop of `binary.ReadUvarint` as a function of its variables. */
  function ReadOn(x: nat, i: nat, data: Octets): Option<(nat, nat)>
    decreases |data|
  {
    if i >= 10 || data == [] then None
    else if data[0] >= 128 then ReadOn(x + Shift(data[0] % 128, i), i + 1, data[1..])
    else if i == 9 && data[0] > 1 then None
    else Some((x + Shift(data[0], i), i + 1))
  }

  lemma {:induction false} ReadOnReads(x: nat, i: nat, data: Octets)
    requires i <= 9
    ensures ReadOn(x, i, data) == Continue(x, i, ReadUvarint(data, i))
    decreases 9 - i
  {
    if i < 9 && data != [] && data[0] >= 128 {
      ReadOnReads(x + Shift(data[0] % 128, i), i + 1, data[1..]);
      ContinuePrepends(x, i, data[0] % 128, ReadUvarint(data[1..], i + 1));
    }
  }

  /** `binary.ReadUvarint`, which reads the tags, numbers and lengths. */
  method ReadUvarintLoop(data: Octets) returns (r: Option<(nat, nat)>)
    ensures r == ReadUvarint(data, 0)
  {
    ReadOnReads(0, 0, data);
    r := ShiftLoop(data);
  }

  /** Its loop. */
  method ShiftLoop(data: Octets) returns (r: Option<(nat, nat)>)
    ensures r == ReadOn(0, 0, data)
  {
    var x: nat, i := 0, 0;
    var rest := data;
    while i < 10
      invariant 0 <= i <= 10
      invariant ReadOn(0, 0, data) == ReadOn(x, i, rest)
    {
      if |rest| == 0 {
        return None;
      }
      var b := rest[0];
      if b < 128 {
        if i == 9 && b > 1 {
          return None;
        }
        return Some((x + Shift(b, i), i + 1));
      }
      x, rest, i := x + Shift(b % 128, i), rest[1..], i + 1;
    }
    return None;
  }

  // ---------------------------------------------------------------- text

  predicate PrintableByte(c: Byte) {
    c >= 0x20 || c == 0x09 || c == 0x0A || c == 0x0D
  }

  /** `isAllPrintableText` as a loop over the bytes. */
  method IsAllPrintableText(b: Octets) returns (ok: bool)
    ensures ok == (b != [] && forall c :: c in b ==> PrintableByte(c))
  {
    if |b| == 0 {
      return false;
    }
    for i := 0 to |b|
      invariant forall j :: 0 <= j < i ==> PrintableByte(b[j])
    {
      var c := b[i];
      if c < 0x20 && c != 0x09 && c != 0x0A && c != 0x0D {
        assert !PrintableByte(b[i]);
        return false;
      }
    }
    return true;
  }

  /** The payloads the decoder shows as text. */
  predicate IsText(b: Octets) {
    ValidUtf8(b) && b != [] && forall c :: c in b ==> PrintableByte(c)
  }

  /** The characters that are shown: all but control characters, tab and line ends aside. */
  predicate Shows(c: nat) {
    c >= 32 || c == 9 || c == 10 || c == 13
  }

  lemma {:induction false} ScalarPrintable(c: nat)
    requires Scalar(c)
    ensures (forall b :: b in EncodeScalar(c) ==> PrintableByte(b)) <==> Shows(c)
  {
    assert EncodeScalar(c)[0] in EncodeScalar(c);
    if c >= 0x80 {
      assert forall b :: b in EncodeScalar(c) ==> b >= 0x80;
    }
  }

  lemma {:induction false} EncodedPrintable(cs: seq<nat>)
    requires AllScalars(cs)
    ensures (forall b :: b in EncodeAll(cs) ==> PrintableByte(b)) <==> forall c :: c in cs ==> Shows(c)
  {
    if cs != [] {
      var c, more := cs[0], cs[1..];
      EncodedPrintable(more);
      ScalarPrintable(c);
      AllIn(EncodeScalar(c), EncodeAll(more));
      assert cs == [c] + more;
      assert (forall d :: d in cs ==> Shows(d)) <==> Shows(c) && forall d :: d in more ==> Shows(d);
    }
  }

  lemma {:induction false} AllIn(s: Octets, t: Octets)
    ensures (forall b :: b in s + t ==> PrintableByte(b))
       <==> (forall b :: b in s ==> PrintableByte(b)) && forall b :: b in t ==> PrintableByte(b)
  {
    assert forall b :: b in s + t <==> b in s || b in t;
  }

  lemma {:induction false} ShowsExactly(c: nat)
    ensures Shows(c) <==> c >= ' ' as int || c == '\t' as int || c == '\n' as int || c == '\r' as int
  {
  }

  /** Text is exactly the UTF-8 encoding of some characters, none of them a control character but tab and line ends. */
  lemma {:induction false} TextExactly(s: Octets)
    ensures IsText(s) <==> s != [] && exists cs ::
              AllScalars(cs) && EncodeAll(cs) == s && forall c :: c in cs ==> Shows(c)
  {
    if IsText(s) {
      var cs := ValidIsEncoded(s);
      EncodedPrintable(cs);
    }
    if cs :| AllScalars(cs) && EncodeAll(cs) == s && forall c :: c in cs ==> Shows(c) {
      EncodedPrintable(cs);
      EncodedIsValid(cs);
    }
  }

  // ---------------------------------------------------------------- messages

  /** The values of field `n`, in wire order. */
  function ValuesOf(fs: seq<(nat, Value)>, n: nat): seq<Value> {
    if fs == [] then []
    else ValuesOf(fs[..|fs| - 1], n) + if fs[|fs| - 1].0 == n then [fs[|fs| - 1].1] else []
  }

  function SlotOf(vs: seq<Value>): Slot {
    if |vs| == 1 then One(vs[0]) else Many(vs)
  }

  /** The message holding the fields `fs`: every number with its value, or its values in wire order. */
  function Group(fs: seq<(nat, Value)>): Fields {
    map n | n in (set f | f in fs :: f.0) :: SlotOf(ValuesOf(fs, n))
  }

  /** `appendOrSet`. */
  function AppendOrSet(m: Fields, n: nat, v: Value): Fields {
    if n in m then
      match m[n]
      case Many(vs) => m[n := Many(vs + [v])]
      case One(w) => m[n := Many([w, v])]
    else m[n := One(v)]
  }

  lemma {:induction false} ValuesOfPresent(fs: seq<(nat, Value)>, n: nat)
    ensures ValuesOf(fs, n) != [] <==> exists f :: f in fs && f.0 == n
  {
    if fs != [] {
      var front, last := fs[..|fs| - 1], fs[|fs| - 1];
      assert fs == front + [last];
      ValuesOfPresent(front, n);
      if last.0 == n {
        assert last in fs;
      }
    }
  }

  lemma {:induction false} GroupKeys(fs: seq<(nat, Value)>, n: nat)
    ensures n in Group(fs) <==> ValuesOf(fs, n) != []
  {
    ValuesOfPresent(fs, n);
  }

  /** Adding a field with `appendOrSet` to the message of `fs` gives the message of `fs` and it. */
  lemma {:induction false} AppendOrSetGroups(fs: seq<(nat, Value)>, n: nat, v: Value)
    ensures AppendOrSet(Group(fs), n, v) == Group(fs + [(n, v)])
  {
    forall k: nat
      ensures var gs, after := Group(fs + [(n, v)]), AppendOrSet(Group(fs), n, v);
              (k in after <==> k in gs) && (k in after ==> after[k] == gs[k])
    {
      AppendOrSetAt(fs, n, v, k);
    }
  }

  lemma {:induction false} GroupAt(fs: seq<(nat, Value)>, k: nat)
    ensures k in Group(fs) <==> ValuesOf(fs, k) != []
    ensures k in Group(fs) ==> Group(fs)[k] == SlotOf(ValuesOf(fs, k))
  {
    GroupKeys(fs, k);
  }

  /** One slot more of a value: none becomes one, one becomes two, and many one more. */
  lemma {:induction false} OneMoreInSlot(vs: seq<Value>, v: Value)
    ensures SlotOf(vs + [v])
         == if vs == [] then One(v) else match SlotOf(vs) case Many(ws) => Many(ws + [v]) case One(w) => Many([w, v])
  {
    assert |vs| == 1 ==> vs == [vs[0]];
  }

  lemma {:induction false} AppendOrSetAt(fs: seq<(nat, Value)>, n: nat, v: Value, k: nat)
    ensures var gs, after := Group(fs + [(n, v)]), AppendOrSet(Group(fs), n, v);
            (k in after <==> k in gs) && (k in after ==> after[k] == gs[k])
  {
    var m := Group(fs);
    OneMoreValue(fs, n, v, k);
    GroupAt(fs, k);
    GroupAt(fs + [(n, v)], k);
    if k == n {
      OneMoreInSlot(ValuesOf(fs, n), v);
    }
    assert k != n ==> (k in AppendOrSet(m, n, v) <==> k in m) && (k in m ==> AppendOrSet(m, n, v)[k] == m[k]);
  }

  lemma {:induction false} OneMoreValue(fs: seq<(nat, Value)>, n: nat, v: Value, k: nat)
    ensures ValuesOf(fs + [(n, v)], k) == if k == n then ValuesOf(fs, k) + [v] else ValuesOf(fs, k)
  {
    assert (fs + [(n, v)])[..|fs|] == fs;
  }

  /** What a length-delimited payload is shown as; None when decoding it panics. */
  function Interpret(payload: Octets): Option<Value>
    decreases |payload|, 1
  {
    if IsText(payload) then Some(Text(payload))
    else
      var inner := Scan(payload);
      if inner.end == Panicked then None
      else if inner.end == Finished && inner.fields != [] then Some(Message(Group(inner.fields)))
      else Some(Text(Encoded(payload)))
  }

  /** The value of wire type `wire` at the front of `rest`. */
  function ReadField(wire: nat, rest: Octets): (r: FieldRead)
    ensures r.Got? ==> r.size <= |rest|
    decreases |rest|, 2
  {
    if wire == 0 then
      match ReadUvarint(rest, 0)
      case None => Stop(Failed)
      case Some((v, n)) => Got(Uint(v), n)
    else if wire == 1 then
      if |rest| < 8 then Stop(Failed) else Got(Fixed64(LittleEndian(rest[..8])), 8)
    else if wire == 2 then
      match ReadUvarint(rest, 0)
      case None => Stop(Failed)
      case Some((len, n)) =>
        if len >= TWO_TO_63 then Stop(Panicked)
        else if len > |rest| - n then Stop(Failed)
        else
          match Interpret(rest[n..n + len])
          case None => Stop(Panicked)
          case Some(value) => Got(value, n + len)
    else if wire == 5 then
      if |rest| < 4 then Stop(Failed) else Got(Fixed32(LittleEndian(rest[..4])), 4)
    else Stop(Finished)
  }

  /** The fields of a wire-format message, in order, and how reading it ends. */
  function Scan(data: Octets): ScanResult
    decreases |data|, 0
  {
    if data == [] then ScanResult([], Finished)
    else
      match ReadUvarint(data, 0)
      case None => ScanResult([], Finished)
      case Some((tag, n)) =>
        if tag / 8 == 0 then ScanResult([], Finished)
        else
          match ReadField(tag % 8, data[n..])
          case Stop(end) => ScanResult([], end)
          case Got(value, size) =>
            var more := Scan(data[n + size..]);
            ScanResult([(tag / 8, value)] + more.fields, more.end)
  }

  /** `DecodeProtobufWire`: the message of the fields the grammar reads, for every input. */
  function Decode(data: Octets): Outcome {
    Outcome(Group(Scan(data).fields), Scan(data).end)
  }

  method InterpretPayload(payload: Octets) returns (r: Option<Value>)
    ensures r == Interpret(payload)
    decreases |payload|, 1
  {
    var printable := IsAllPrintableText(payload);
    if ValidUtf8(payload) && printable {
      return Some(Text(payload));
    }
    var nested := DecodeProtobufWire(payload);
    if nested.end == Panicked {
      return None;
    }
    ghost var inner := Scan(payload).fields;
    assert inner != [] ==> inner[0].0 in Group(inner);
    if nested.end == Finished && |nested.fields| > 0 {
      return Some(Message(nested.fields));
    }
    assert nested.end == Finished && inner != [] ==> nested.fields != map[];
    return Some(Text(Encoded(payload)));
  }

  /** A scan that comes after the fields `fs`. */
  function After(fs: seq<(nat, Value)>, r: ScanResult): ScanResult {
    ScanResult(fs + r.fields, r.end)
  }

  lemma {:induction false} AfterNothing(read: seq<(nat, Value)>, end: End)
    ensures After(read, ScanResult([], end)) == ScanResult(read, end)
  {
  }

  lemma {:induction false} AfterAfter(fs: seq<(nat, Value)>, gs: seq<(nat, Value)>, r: ScanResult)
    ensures After(fs, After(gs, r)) == After(fs + gs, r)
  {
    assert fs + (gs + r.fields) == fs + gs + r.fields;
  }

  lemma {:induction false} ScanUnfolds(rest: Octets, tag: nat, n: nat, value: Value, size: nat, tail: Octets)
    requires rest != [] && ReadUvarint(rest, 0) == Some((tag, n))
    requires tag / 8 > 0 && ReadField(tag % 8, rest[n..]) == Got(value, size)
    requires tail == rest[n + size..]
    ensures Scan(rest) == After([(tag / 8, value)], Scan(tail))
  {
  }

  lemma {:induction false} ScanStops(rest: Octets, tag: nat, n: nat, end: End)
    requires rest != [] && ReadUvarint(rest, 0) == Some((tag, n))
    requires tag / 8 > 0 && ReadField(tag % 8, rest[n..]) == Stop(end)
    ensures Scan(rest) == ScanResult([], end)
  {
  }

  method DecodeProtobufWire(data: Octets) returns (r: Outcome)
    ensures r == Decode(data)
    decreases |data|, 0
  {
    var result: Fields := map[];
    var rest := data;
    ghost var read: seq<(nat, Value)> := [];
    while |rest| > 0
      invariant |rest| <= |data|
      invariant result == Group(read)
      invariant Scan(data) == After(read, Scan(rest))
      decreases |rest|
    {
      var tagRead := ReadUvarintLoop(rest);
      if tagRead == None {
        AfterNothing(read, Finished);
        return Outcome(result, Finished);
      }
      var (tag, n) := tagRead.value;
      if tag / 8 == 0 {
        AfterNothing(read, Finished);
        return Outcome(result, Finished);
      }
      var field := ReadFieldValue(tag % 8, rest[n..]);
      if field.Stop? {
        AfterNothing(read, field.end);
        return Outcome(result, field.end);
      }
      ScanUnfolds(rest, tag, n, field.value, field.size, rest[n + field.size..]);
      AfterAfter(read, [(tag / 8, field.value)], Scan(rest[n + field.size..]));
      AppendOrSetGroups(read, tag / 8, field.value);
      result := AppendOrSet(result, tag / 8, field.value);
      read := read + [(tag / 8, field.value)];
      rest := rest[n + field.size..];
    }
    AfterNothing(read, Finished);
    return Outcome(result, Finished);
  }

  /** The `switch` on the wire type. */
  method ReadFieldValue(wire: nat, rest: Octets) returns (r: FieldRead)
    ensures r == ReadField(wire, rest)
    decreases |rest|, 2
  {
    if wire == 0 {
      var read := ReadUvarintLoop(rest);
      return match read case None => Stop(Failed) case Some((v, n)) => Got(Uint(v), n);
    } else if wire == 1 {
      return if |rest| < 8 then Stop(Failed) else Got(Fixed64(LittleEndian(rest[..8])), 8);
    } else if wire == 2 {
      r := ReadDelimited(rest);
    } else if wire == 5 {
      return if |rest| < 4 then Stop(Failed) else Got(Fixed32(LittleEndian(rest[..4])), 4);
    } else {
      return Stop(Finished);
    }
  }

  /** Its length-delimited case. */
  method ReadDelimited(rest: Octets) returns (r: FieldRead)
    ensures r == ReadField(2, rest)
    decreases |rest|, 1
  {
    var read := ReadUvarintLoop(rest);
    if read == None {
      return Stop(Failed);
    }
    var (len, n) := read.value;
    if len >= TWO_TO_63 {
      return Stop(Panicked);
    }
    if len > |rest| - n {
      return Stop(Failed);
    }
    var value := InterpretPayload(rest[n..n + len]);
    return match value case None => Stop(Panicked) case Some(v) => Got(v, n + len);
  }

  // ---------------------------------------------------------------- round trip

  /** A field of a message as its sender sees it. */
  datatype Field =
    | Number(num: nat, v: nat)
    | Double(num: nat, v: nat)
    | Float(num: nat, v: nat)
    | Str(num: nat, text: Octets)
    | Nested(num: nat, fields: seq<Field>)
    | Blob(num: nat, bytes: Octets)

  function WireType(f: Field): nat {
    match f
    case Number(_, _) => 0
    case Double(_, _) => 1
    case Float(_, _) => 5
    case _ => 2
  }

  function Delimited(payload: Octets): Octets {
    EncodeUvarint(|payload|) + payload
  }

  /** The bytes a length-delimited field carries. */
  function Payload(f: Field): Octets
    requires WireType(f) == 2
    decreases f, 0
  {
    match f
    case Str(_, text) => text
    case Nested(_, fields) => EncodeFields(fields)
    case Blob(_, bytes) => bytes
  }

  function EncodeValue(f: Field): Octets
    decreases f, 1
  {
    match f
    case Number(_, v) => EncodeUvarint(v)
    case Double(_, v) => ToLittleEndian(v, 8)
    case Float(_, v) => ToLittleEndian(v, 4)
    case _ => Delimited(Payload(f))
  }

  function EncodeFields(fs: seq<Field>): Octets {
    if fs == [] then []
    else EncodeUvarint(fs[0].num * 8 + WireType(fs[0])) + EncodeValue(fs[0]) + EncodeFields(fs[1..])
  }

  /** The fields the wire format can carry at all: numbers and lengths that fit their wire form. */
  predicate Encodable(f: Field) {
    1 <= f.num < TWO_TO_61 &&
    match f
    case Number(_, v) => v < 2 * TWO_TO_63
    case Double(_, v) => v < Pow256(8)
    case Float(_, v) => v < Pow256(4)
    case Str(_, text) => |text| < TWO_TO_63
    case Nested(_, fields) => (forall g :: g in fields ==> Encodable(g)) && |EncodeFields(fields)| < TWO_TO_63
    case Blob(_, bytes) => |bytes| < TWO_TO_63
  }

  /**
   The fields the schema-less guess can recover: strings that are printable text or empty,
   sub-messages that are not empty and whose bytes are not printable text, and blobs that are neither
   text nor a readable message.
   */
  predicate Recoverable(f: Field) {
    match f
    case Str(_, text) => IsText(text) || text == []
    case Nested(_, fields) =>
      fields != [] && !IsText(EncodeFields(fields)) && forall g :: g in fields ==> Recoverable(g)
    case Blob(_, bytes) =>
      !IsText(bytes)
      && (Scan(bytes).end == Failed || (Scan(bytes).end == Finished && Scan(bytes).fields == []))
    case _ => true
  }

  function Denote(f: Field): Value {
    match f
    case Number(_, v) => Uint(v)
    case Double(_, v) => Fixed64(v)
    case Float(_, v) => Fixed32(v)
    case Str(_, text) => Text(text)
    case Nested(_, fields) => Message(Group(DenoteFields(fields)))
    case Blob(_, bytes) => Text(Encoded(bytes))
  }

  function DenoteFields(fs: seq<Field>): seq<(nat, Value)> {
    if fs == [] then [] else [(fs[0].num, Denote(fs[0]))] + DenoteFields(fs[1..])
  }

  /** A length-delimited payload is read as what the guess makes of it, whatever follows it. */
  lemma {:induction false} DelimitedRead(payload: Octets, rest: Octets)
    requires |payload| < TWO_TO_63
    ensures ReadField(2, Delimited(payload) + rest)
         == match Interpret(payload)
            case None => Stop(Panicked)
            case Some(value) => Got(value, |Delimited(payload)|)
  {
    var all := Delimited(payload) + rest;
    var n := |EncodeUvarint(|payload|)|;
    VarintCapIs64Bits();
    UvarintRoundTrip(|payload|, 0, payload + rest);
    assert all == EncodeUvarint(|payload|) + (payload + rest);
    assert all[n..n + |payload|] == payload;
  }

  /** The guess recovers the payload of a recoverable field, once its sub-message is recovered. */
  lemma {:induction false} GuessRecovers(f: Field)
    requires WireType(f) == 2 && Recoverable(f)
    requires f.Nested? ==> Scan(Payload(f)) == ScanResult(DenoteFields(f.fields), Finished)
    ensures Interpret(Payload(f)) == Some(Denote(f))
  {
    if f.Str? && f.text == [] {
      EmptyScan();
    }
  }

  lemma {:induction false} ValueRoundTrip(f: Field, rest: Octets)
    requires Encodable(f) && Recoverable(f)
    ensures ReadField(WireType(f), EncodeValue(f) + rest) == Got(Denote(f), |EncodeValue(f)|)
    decreases f, 1
  {
    if WireType(f) == 2 {
      if f.Nested? {
        FieldsRoundTrip(f.fields);
      }
      GuessRecovers(f);
      DelimitedRead(Payload(f), rest);
    } else {
      ScalarRoundTrip(f, rest);
    }
  }

  lemma {:induction false} ScalarRoundTrip(f: Field, rest: Octets)
    requires Encodable(f) && WireType(f) != 2
    ensures ReadField(WireType(f), EncodeValue(f) + rest) == Got(Denote(f), |EncodeValue(f)|)
  {
    match f {
      case Number(_, v) =>
        VarintCapIs64Bits();
        UvarintRoundTrip(v, 0, rest);
      case Double(_, v) =>
        LittleEndianRoundTrip(v, 8);
        assert (EncodeValue(f) + rest)[..8] == EncodeValue(f);
      case Float(_, v) =>
        LittleEndianRoundTrip(v, 4);
        assert (EncodeValue(f) + rest)[..4] == EncodeValue(f);
      case _ =>
    }
  }

  lemma {:induction false} TagFits(f: Field)
    requires Encodable(f)
    ensures var tag := f.num * 8 + WireType(f); tag / 8 == f.num && tag % 8 == WireType(f) && tag < VarintCap(0)
  {
    VarintCapIs64Bits();
  }

  lemma {:induction false} TagRead(fs: seq<Field>) returns (data: Octets, tag: nat, n: nat)
    requires fs != [] && Encodable(fs[0])
    ensures data == EncodeFields(fs) != [] && ReadUvarint(data, 0) == Some((tag, n))
    ensures tag / 8 == fs[0].num && tag % 8 == WireType(fs[0])
    ensures data[n..] == EncodeValue(fs[0]) + EncodeFields(fs[1..])
  {
    TagFits(fs[0]);
    tag := fs[0].num * 8 + WireType(fs[0]);
    var head, body, tail := EncodeUvarint(tag), EncodeValue(fs[0]), EncodeFields(fs[1..]);
    UvarintRoundTrip(tag, 0, body + tail);
    data, n := head + (body + tail), |head|;
    Regrouped(head, body, tail);
  }

  lemma {:induction false} Regrouped(head: Octets, body: Octets, tail: Octets)
    ensures head + body + tail == head + (body + tail)
    ensures (head + (body + tail))[|head|..] == body + tail
  {
  }

  lemma {:induction false} SkipBoth(data: Octets, n: nat, body: Octets, tail: Octets)
    requires n <= |data| && data[n..] == body + tail
    ensures n + |body| <= |data| && data[n + |body|..] == tail
  {
    assert data[n + |body|..] == data[n..][|body|..];
  }

  /** How the first field of an encoded message is read, whatever the guess makes of it. */
  lemma {:induction false} FirstField(fs: seq<Field>)
    requires fs != [] && Encodable(fs[0])
    ensures var f := fs[0];
            var tail := EncodeFields(fs[1..]);
            match ReadField(WireType(f), EncodeValue(f) + tail)
            case Stop(end) => Scan(EncodeFields(fs)) == ScanResult([], end)
            case Got(value, size) =>
              size == |EncodeValue(f)| ==>
                Scan(EncodeFields(fs)) == After([(f.num, value)], Scan(tail))
  {
    var data, tag, n := TagRead(fs);
    var body, tail := EncodeValue(fs[0]), EncodeFields(fs[1..]);
    match ReadField(tag % 8, data[n..]) {
      case Stop(end) => ScanStops(data, tag, n, end);
      case Got(value, size) =>
        if size == |body| {
          SkipBoth(data, n, body, tail);
          ScanUnfolds(data, tag, n, value, size, tail);
        }
    }
  }

  lemma {:induction false} FieldsRoundTrip(fs: seq<Field>)
    requires forall f :: f in fs ==> Encodable(f) && Recoverable(f)
    ensures Scan(EncodeFields(fs)) == ScanResult(DenoteFields(fs), Finished)
    decreases fs, 0
  {
    if fs != [] {
      ValueRoundTrip(fs[0], EncodeFields(fs[1..]));
      FirstField(fs);
      FieldsRoundTrip(fs[1..]);
    }
  }

  // ------------------------------------------------- what the guess cannot recover

  /** The same field numbers in the same order. */
  predicate SameNumbers(fs: seq<(nat, Value)>, gs: seq<(nat, Value)>) {
    |fs| == |gs| && forall i :: 0 <= i < |fs| ==> fs[i].0 == gs[i].0
  }

  lemma {:induction false} OneMoreNumber(num: nat, v: Value, w: Value, fs: seq<(nat, Value)>, gs: seq<(nat, Value)>)
    requires SameNumbers(fs, gs)
    ensures SameNumbers([(num, v)] + fs, [(num, w)] + gs)
  {
  }

  lemma {:induction false} SameNumbersSameCounts(fs: seq<(nat, Value)>, gs: seq<(nat, Value)>, n: nat)
    requires SameNumbers(fs, gs)
    ensures |ValuesOf(fs, n)| == |ValuesOf(gs, n)|
  {
    if fs != [] {
      SameNumbersSameCounts(fs[..|fs| - 1], gs[..|gs| - 1], n);
    }
  }

  lemma {:induction false} SameValuesSameFields(fs: seq<(nat, Value)>, gs: seq<(nat, Value)>)
    requires SameNumbers(fs, gs)
    requires forall n: nat :: ValuesOf(fs, n) == ValuesOf(gs, n)
    ensures fs == gs
  {
    if fs != [] {
      var k := |fs| - 1;
      var n := fs[k].0;
      assert ValuesOf(fs, n) == ValuesOf(fs[..k], n) + [fs[k].1];
      assert ValuesOf(gs, n) == ValuesOf(gs[..k], n) + [gs[k].1];
      assert ValuesOf(fs, n)[|ValuesOf(fs, n)| - 1] == fs[k].1;
      assert ValuesOf(gs, n)[|ValuesOf(gs, n)| - 1] == gs[k].1;
      forall m: nat
        ensures ValuesOf(fs[..k], m) == ValuesOf(gs[..k], m)
      {
        SameNumbersSameCounts(fs[..k], gs[..k], m);
        assert ValuesOf(fs, m)[..|ValuesOf(fs[..k], m)|] == ValuesOf(fs[..k], m);
        assert ValuesOf(gs, m)[..|ValuesOf(gs[..k], m)|] == ValuesOf(gs[..k], m);
      }
      SameValuesSameFields(fs[..k], gs[..k]);
      assert fs == fs[..k] + [fs[k]] && gs == gs[..k] + [gs[k]];
    }
  }

  /** A decoded message determines its fields, once their numbers and order are known. */
  lemma {:induction false} GroupInjective(fs: seq<(nat, Value)>, gs: seq<(nat, Value)>)
    requires SameNumbers(fs, gs)
    requires Group(fs) == Group(gs)
    ensures fs == gs
  {
    forall n: nat
      ensures ValuesOf(fs, n) == ValuesOf(gs, n)
    {
      SameNumbersSameCounts(fs, gs, n);
      GroupKeys(fs, n);
      GroupKeys(gs, n);
      if n in Group(fs) {
        assert SlotOf(ValuesOf(fs, n)) == SlotOf(ValuesOf(gs, n));
        if |ValuesOf(fs, n)| == 1 {
          assert ValuesOf(fs, n) == [ValuesOf(fs, n)[0]] && ValuesOf(gs, n) == [ValuesOf(gs, n)[0]];
        }
      }
    }
    SameValuesSameFields(fs, gs);
  }

  /** An encodable field is read back with its own size, unless reading it panics. */
  lemma {:induction false} ValueSize(f: Field, rest: Octets)
    requires Encodable(f)
    ensures var read := ReadField(WireType(f), EncodeValue(f) + rest);
            read == Stop(Panicked) || (read.Got? && read.size == |EncodeValue(f)|)
  {
    VarintCapIs64Bits();
    if WireType(f) == 2 {
      DelimitedRead(Payload(f), rest);
    } else {
      ScalarRoundTrip(f, rest);
    }
  }

  /** An encoded message is read to its end, field by field, unless reading a payload panics. */
  lemma {:induction false} FieldsRead(fs: seq<Field>)
    requires forall f :: f in fs ==> Encodable(f)
    ensures var r := Scan(EncodeFields(fs));
            r.end == Panicked ||
            (r.end == Finished && SameNumbers(r.fields, DenoteFields(fs)))
  {
    if fs != [] {
      var f, tail := fs[0], EncodeFields(fs[1..]);
      ValueSize(f, tail);
      FirstField(fs);
      FieldsRead(fs[1..]);
      var read, more := ReadField(WireType(f), EncodeValue(f) + tail), Scan(tail);
      if read.Got? && more.end == Finished {
        OneMoreNumber(f.num, read.value, Denote(f), more.fields, DenoteFields(fs[1..]));
      }
    }
  }

  lemma {:induction false} ReadBackIsRecoverable(fs: seq<Field>)
    requires forall f :: f in fs ==> Encodable(f)
    requires Scan(EncodeFields(fs)) == ScanResult(DenoteFields(fs), Finished)
    ensures forall f :: f in fs ==> Recoverable(f)
    decreases fs, 0
  {
    if fs != [] {
      var f, tail := fs[0], EncodeFields(fs[1..]);
      ValueSize(f, tail);
      FirstField(fs);
      var read := ReadField(WireType(f), EncodeValue(f) + tail);
      assert DenoteFields(fs)[0] == (f.num, Denote(f));
      assert read.value == Denote(f);
      assert DenoteFields(fs)[1..] == DenoteFields(fs[1..]);
      assert After([(f.num, read.value)], Scan(tail)).fields[1..] == Scan(tail).fields;
      ReadBackIsRecoverable(fs[1..]);
      ValueReadBackIsRecoverable(f, tail);
    }
  }

  lemma {:induction false} ValueReadBackIsRecoverable(f: Field, rest: Octets)
    requires Encodable(f)
    requires var read := ReadField(WireType(f), EncodeValue(f) + rest); read.Got? && read.value == Denote(f)
    ensures Recoverable(f)
    decreases f, 1
  {
    if WireType(f) == 2 {
      DelimitedRead(Payload(f), rest);
      EncodedIsLonger(Payload(f));
      if f.Nested? {
        FieldsRead(f.fields);
        GroupInjective(Scan(Payload(f)).fields, DenoteFields(f.fields));
        ReadBackIsRecoverable(f.fields);
      }
    }
  }

  /**
   Decoding the encoding of a message returns exactly that message if and only if the guess between
   text, sub-message and raw bytes can recover every field of it, at every depth.
   */
  lemma {:induction false} DecodeInvertsEncode(fs: seq<Field>)
    requires forall f :: f in fs ==> Encodable(f)
    ensures Decode(EncodeFields(fs)) == Outcome(Group(DenoteFields(fs)), Finished)
       <==> forall f :: f in fs ==> Recoverable(f)
  {
    if forall f :: f in fs ==> Recoverable(f) {
      FieldsRoundTrip(fs);
    } else if Decode(EncodeFields(fs)) == Outcome(Group(DenoteFields(fs)), Finished) {
      FieldsRead(fs);
      GroupInjective(Scan(EncodeFields(fs)).fields, DenoteFields(fs));
      ReadBackIsRecoverable(fs);
      assert false;
    }
  }

  // ---------------------------------------------------------------- the order of values

  /** The fields with number `n` are those at `ks`, and their values are the values of `n`, in that order. */
  ghost predicate Positions(fs: seq<(nat, Value)>, n: nat, ks: seq<nat>) {
    && (forall i, j :: 0 <= i < j < |ks| ==> ks[i] < ks[j])
    && (forall k :: k in ks <==> 0 <= k < |fs| && fs[k].0 == n)
    && |ks| == |ValuesOf(fs, n)|
    && forall j :: 0 <= j < |ks| && ks[j] < |fs| ==> ValuesOf(fs, n)[j] == fs[ks[j]].1
  }

  lemma {:induction false} PositionsSkip(front: seq<(nat, Value)>, f: (nat, Value), n: nat, ks: seq<nat>)
    requires Positions(front, n, ks) && f.0 != n
    ensures Positions(front + [f], n, ks)
  {
    assert (front + [f])[..|front|] == front;
    assert forall j :: 0 <= j < |ks| ==> ks[j] in ks;
  }

  lemma {:induction false} PositionsAdd(front: seq<(nat, Value)>, f: (nat, Value), n: nat, ks: seq<nat>)
    requires Positions(front, n, ks) && f.0 == n
    ensures Positions(front + [f], n, ks + [|front|])
  {
    var all, more := front + [f], ks + [|front|];
    assert all[..|front|] == front;
    assert ValuesOf(all, n) == ValuesOf(front, n) + [f.1];
    assert forall j :: 0 <= j < |ks| ==> ks[j] in ks;
    assert forall k :: k in more <==> k in ks || k == |front|;
  }

  lemma {:induction false} ValuesHavePositions(fs: seq<(nat, Value)>, n: nat) returns (ks: seq<nat>)
    ensures Positions(fs, n, ks)
  {
    ks := [];
    if fs != [] {
      var front, f := fs[..|fs| - 1], fs[|fs| - 1];
      ks := ValuesHavePositions(front, n);
      assert front + [f] == fs;
      if f.0 == n {
        PositionsAdd(front, f, n, ks);
        ks := ks + [|front|];
      } else {
        PositionsSkip(front, f, n, ks);
      }
    }
  }

  /**
   What a decoded message holds for a number: nothing if no field has it, the value of the only field
   that has it, or else the values of all that have it, in the order of the fields.
   */
  lemma {:induction false} SlotsAreInWireOrder(data: Octets, n: nat) returns (ks: seq<nat>)
    ensures var fs, m := Scan(data).fields, Decode(data).fields;
            && (forall i, j :: 0 <= i < j < |ks| ==> ks[i] < ks[j])
            && (forall k :: k in ks <==> 0 <= k < |fs| && fs[k].0 == n)
            && (n in m <==> ks != [])
            && (|ks| == 1 && ks[0] < |fs| ==> m[n] == One(fs[ks[0]].1))
            && (|ks| > 1 ==> m[n].Many? && |m[n].values| == |ks|
                             && forall j :: 0 <= j < |ks| && ks[j] < |fs| ==> m[n].values[j] == fs[ks[j]].1)
  {
    var fs := Scan(data).fields;
    ks := ValuesHavePositions(fs, n);
    GroupKeys(fs, n);
  }

  // ---------------------------------------------------------------- what comes before the end

  lemma {:induction false} TagReadThen(f: Field, rest: Octets) returns (data: Octets, tag: nat, n: nat)
    requires Encodable(f)
    ensures data == EncodeUvarint(f.num * 8 + WireType(f)) + (EncodeValue(f) + rest) != []
    ensures ReadUvarint(data, 0) == Some((tag, n)) && n <= |data| && data[n..] == EncodeValue(f) + rest
    ensures tag / 8 == f.num && tag % 8 == WireType(f)
  {
    TagFits(f);
    tag := f.num * 8 + WireType(f);
    var head, body := EncodeUvarint(tag), EncodeValue(f);
    UvarintRoundTrip(tag, 0, body + rest);
    Regrouped(head, body, rest);
    data, n := head + (body + rest), |head|;
  }

  /** A recoverable field is recovered whatever follows it. */
  lemma {:induction false} FieldThenRest(f: Field, rest: Octets)
    requires Encodable(f) && Recoverable(f)
    ensures Scan(EncodeUvarint(f.num * 8 + WireType(f)) + (EncodeValue(f) + rest)) == After([(f.num, Denote(f))], Scan(rest))
  {
    var data, tag, n := TagReadThen(f, rest);
    var body := EncodeValue(f);
    ValueRoundTrip(f, rest);
    SkipBoth(data, n, body, rest);
    ScanUnfolds(data, tag, n, Denote(f), |body|, rest);
  }

  lemma {:induction false} EncodeFieldsThen(fs: seq<Field>, rest: Octets)
    requires fs != []
    ensures EncodeFields(fs) + rest
         == EncodeUvarint(fs[0].num * 8 + WireType(fs[0])) + (EncodeValue(fs[0]) + (EncodeFields(fs[1..]) + rest))
  {
  }

  /** So are any recoverable fields, and reading goes on after them. */
  lemma {:induction false} FieldsThenRest(fs: seq<Field>, rest: Octets)
    requires forall f :: f in fs ==> Encodable(f) && Recoverable(f)
    ensures Scan(EncodeFields(fs) + rest) == After(DenoteFields(fs), Scan(rest))
  {
    if fs == [] {
      assert EncodeFields(fs) + rest == rest;
      assert [] + Scan(rest).fields == Scan(rest).fields;
    } else {
      var f, more, tail := fs[0], DenoteFields(fs[1..]), EncodeFields(fs[1..]) + rest;
      FieldThenRest(f, tail);
      FieldsThenRest(fs[1..], rest);
      EncodeFieldsThen(fs, rest);
      var r := Scan(rest);
      assert Scan(EncodeFields(fs) + rest) == After([(f.num, Denote(f))], After(more, r));
      AfterAfter([(f.num, Denote(f))], more, r);
    }
  }

  /** Nothing more to read: no bytes, a tag cut short or too long, field number zero, or an unknown wire type. */
  predicate EndsHere(rest: Octets) {
    rest == [] || ReadUvarint(rest, 0) == None
    || ReadUvarint(rest, 0).value.0 / 8 == 0 || ReadUvarint(rest, 0).value.0 % 8 in {3, 4, 6, 7}
  }

  /**
   Fields before the end are kept: those before an end of the message are returned without an error,
   and those before a value cut short are returned with one.
   */
  lemma {:induction false} FieldsBeforeTheEnd(fs: seq<Field>, rest: Octets)
    requires forall f :: f in fs ==> Encodable(f) && Recoverable(f)
    ensures EndsHere(rest) ==> Decode(EncodeFields(fs) + rest) == Outcome(Group(DenoteFields(fs)), Finished)
    ensures FieldShape(rest).Cut? ==> Decode(EncodeFields(fs) + rest) == Outcome(Group(DenoteFields(fs)), Failed)
  {
    FieldsThenRest(fs, rest);
    FrontEnds(rest);
    assert DenoteFields(fs) + [] == DenoteFields(fs);
  }

  lemma {:induction false} FrontEnds(rest: Octets)
    ensures EndsHere(rest) ==> Scan(rest) == ScanResult([], Finished)
    ensures FieldShape(rest).Cut? ==> Scan(rest) == ScanResult([], Failed)
  {
    if rest != [] && ReadUvarint(rest, 0).Some? && ReadUvarint(rest, 0).value.0 / 8 > 0 {
      var (tag, n) := ReadUvarint(rest, 0).value;
      ValuePanics(tag % 8, rest[n..]);
      if EndsHere(rest) || FieldShape(rest).Cut? {
        ScanStops(rest, tag, n, ReadField(tag % 8, rest[n..]).end);
      }
    }
  }

  /** Fixed-width values are little-endian. */
  lemma {:induction false} FixedWidths(low: Octets, high: Octets, rest: Octets)
    requires |low| == 4 && |high| == 4
    ensures var a := low[0] as int + 0x100 * low[1] as int + 0x1_0000 * low[2] as int + 0x100_0000 * low[3] as int;
            var b := high[0] as int + 0x100 * high[1] as int + 0x1_0000 * high[2] as int + 0x100_0000 * high[3] as int;
            && ReadField(5, low + rest) == Got(Fixed32(a), 4)
            && ReadField(1, low + high + rest) == Got(Fixed64(a + 0x1_0000_0000 * b), 8)
  {
    LittleEndianFour(low);
    LittleEndianFour(high);
    LittleEndianJoins(low, high);
    assert (low + rest)[..4] == low && (low + high + rest)[..8] == low + high;
  }

  // ---------------------------------------------------------------- what is shown alike

  lemma {:induction false} SlotInjective(vs: seq<Value>, ws: seq<Value>)
    requires vs != [] && ws != [] && SlotOf(vs) == SlotOf(ws)
    ensures vs == ws
  {
    if |vs| == 1 {
      assert vs == [vs[0]] && ws == [ws[0]];
    }
  }

  /** Each field number has the same values in the same order. */
  ghost predicate SameValues(fs: seq<(nat, Value)>, gs: seq<(nat, Value)>) {
    forall n: nat :: ValuesOf(fs, n) == ValuesOf(gs, n)
  }

  lemma {:induction false} SameValuesGroupAlike(fs: seq<(nat, Value)>, gs: seq<(nat, Value)>)
    requires SameValues(fs, gs)
    ensures Group(fs) == Group(gs)
  {
    forall n: nat
      ensures n in Group(fs) <==> n in Group(gs)
    {
      GroupKeys(fs, n);
      GroupKeys(gs, n);
      assert ValuesOf(fs, n) == ValuesOf(gs, n);
    }
  }

  /**
   Two lists of fields make the same message if and only if each field number has the same values in
   the same order: the order among different numbers is what grouping loses, and nothing else.
   */
  lemma {:induction false} GroupedAlikeExactly(fs: seq<(nat, Value)>, gs: seq<(nat, Value)>)
    ensures Group(fs) == Group(gs) <==> SameValues(fs, gs)
  {
    if Group(fs) == Group(gs) {
      forall n: nat
        ensures ValuesOf(fs, n) == ValuesOf(gs, n)
      {
        GroupKeys(fs, n);
        GroupKeys(gs, n);
        if n in Group(fs) {
          assert SlotOf(ValuesOf(fs, n)) == SlotOf(ValuesOf(gs, n));
          SlotInjective(ValuesOf(fs, n), ValuesOf(gs, n));
        }
      }
    }
    if SameValues(fs, gs) {
      SameValuesGroupAlike(fs, gs);
    }
  }

  /** The payloads shown as a message, and those shown as their Base64 text. */
  predicate ShownAsMessage(p: Octets) {
    !IsText(p) && Scan(p).end == Finished && Scan(p).fields != []
  }

  predicate ShownAsBase64(p: Octets) {
    !IsText(p) && (Scan(p).end == Failed || (Scan(p).end == Finished && Scan(p).fields == []))
  }

  /** `p` is text, and it is the very text that the raw bytes `q` are shown as. */
  predicate Spells(p: Octets, q: Octets) {
    IsText(p) && ShownAsBase64(q) && p == Encoded(q)
  }

  /** Both are shown as messages, with the same values for each field number. */
  ghost predicate SameMessage(p: Octets, q: Octets) {
    ShownAsMessage(p) && ShownAsMessage(q) && SameValues(Scan(p).fields, Scan(q).fields)
  }

  /**
   Two payloads are shown alike if and only if they are the same bytes, are messages with the same
   values, or one is raw bytes and the other the text that spells them in Base64.
   */
  lemma {:induction false} ShownAlikeExactly(p: Octets, q: Octets)
    requires Interpret(p).Some? && Interpret(q).Some?
    ensures Interpret(p) == Interpret(q) <==> p == q || SameMessage(p, q) || Spells(p, q) || Spells(q, p)
  {
    Shown(p);
    Shown(q);
    if IsText(p) || IsText(q) {
      TextShownAlike(p, q);
    } else if ShownAsMessage(p) && ShownAsMessage(q) {
      GroupedAlikeExactly(Scan(p).fields, Scan(q).fields);
    } else if ShownAsBase64(p) && ShownAsBase64(q) {
      Base64ShownAlike(p, q);
    }
  }

  lemma {:induction false} TextShownAlike(p: Octets, q: Octets)
    requires Interpret(p).Some? && Interpret(q).Some? && (IsText(p) || IsText(q))
    ensures Interpret(p) == Interpret(q) <==> p == q || Spells(p, q) || Spells(q, p)
  {
    Shown(p);
    Shown(q);
  }

  lemma {:induction false} Base64ShownAlike(p: Octets, q: Octets)
    requires ShownAsBase64(p) && ShownAsBase64(q)
    ensures Interpret(p) == Interpret(q) <==> p == q
  {
    if Encoded(p) == Encoded(q) {
      EncodedInjective(p, q);
    }
  }

  /** Every payload that does not panic is shown in one of the three ways. */
  lemma {:induction false} Shown(p: Octets)
    requires Interpret(p).Some?
    ensures Interpret(p)
         == Some(if IsText(p) then Text(p)
                 else if ShownAsMessage(p) then Message(Group(Scan(p).fields))
                 else Text(Encoded(p)))
    ensures IsText(p) || ShownAsMessage(p) || ShownAsBase64(p)
  {
  }

  lemma {:induction false} AsciiIsUtf8(s: Octets)
    requires forall c :: c in s ==> c < 0x80
    ensures ValidUtf8(s)
  {
    if s != [] {
      assert s[0] in s && Utf8Size(s) == 1;
      assert forall c :: c in s[1..] ==> c in s;
      AsciiIsUtf8(s[1..]);
    }
  }

  /** The encoding of any characters that are not control characters, tab and line ends aside, is shown as it is. */
  lemma {:induction false} CharactersAreShown(cs: seq<nat>)
    requires AllScalars(cs) && cs != [] && forall c :: c in cs ==> c >= 32 || c == 9 || c == 10 || c == 13
    ensures Interpret(EncodeAll(cs)) == Some(Text(EncodeAll(cs)))
  {
    TextExactly(EncodeAll(cs));
  }

  /** The Base64 text of some bytes is itself printable text. */
  lemma {:induction false} SpelledIsText(q: Octets)
    requires q != []
    ensures IsText(Encoded(q)) && Encoded(q) != q
  {
    EncodedIsLonger(q);
    AsciiIsUtf8(Encoded(q));
  }

  /** So all raw bytes but the empty ones have a twin: a different payload, of text, shown just like them. */
  lemma {:induction false} RawBytesHaveATwin(q: Octets)
    requires ShownAsBase64(q) && q != []
    ensures Encoded(q) != q && Interpret(Encoded(q)) == Interpret(q) == Some(Text(Encoded(q)))
  {
    SpelledIsText(q);
  }

  /** A message of one delimited field, with number 1. */
  function InField(payload: Octets): Octets {
    [0x0A] + Delimited(payload)
  }

  /** In a field, such twins decode to the same map from different bytes. */
  lemma {:induction false} TwinsDecodeAlike(q: Octets)
    requires ShownAsBase64(q) && q != [] && |Encoded(q)| < TWO_TO_63
    ensures var t := Encoded(q);
            q != t && Decode(InField(q)) == Decode(InField(t)) == Outcome(map[1 := One(Text(t))], Finished)
  {
    EncodedIsLonger(q);
    RawBytesHaveATwin(q);
    OneDelimited(q);
    OneDelimited(Encoded(q));
  }

  /** The bytes 1, 2, 3 and the text "AQID" are such a pair. */
  lemma {:induction false} OneTwoThree()
    ensures ShownAsBase64([1, 2, 3]) && Encoded([1, 2, 3]) == [0x41, 0x51, 0x49, 0x44]
  {
    var q: Octets := [1, 2, 3];
    assert !PrintableByte(q[0]) && ReadUvarint(q, 0) == Some((1, 1));
    assert Scan(q) == ScanResult([], Finished);
  }

  lemma {:induction false} OneDelimited(payload: Octets)
    requires |payload| < TWO_TO_63 && Interpret(payload).Some?
    ensures Decode(InField(payload)) == Outcome(map[1 := One(Interpret(payload).value)], Finished)
  {
    var data, v := InField(payload), Interpret(payload).value;
    assert data[1..] == Delimited(payload) + [];
    DelimitedRead(payload, []);
    assert data[1 + |Delimited(payload)|..] == [];
    ScanUnfolds(data, 0x0A, 1, v, |Delimited(payload)|, []);
    EmptyScan();
    assert Scan(data).fields == [(1, v)];
    AppendOrSetGroups([], 1, v);
    assert [] + [(1, v)] == [(1, v)];
    assert Group([]) == map[];
  }

  // ---------------------------------------------------------------- when decoding panics

  /** What the sizes alone say of a field: none, a value cut short, a length too large, or its payload and what follows it. */
  datatype Shape = NoField | Cut | Huge | Whole(payload: Octets, tail: Octets)

  /** The shape of a value of wire type `wire`. Only delimited values have a payload. */
  function ValueShape(wire: nat, rest: Octets): (r: Shape)
    ensures r.Whole? ==> |r.payload| + |r.tail| < |rest|
  {
    if wire == 0 then
      match ReadUvarint(rest, 0) case None => Cut case Some((_, n)) => Whole([], rest[n..])
    else if wire == 1 then
      if |rest| < 8 then Cut else Whole([], rest[8..])
    else if wire == 2 then
      match ReadUvarint(rest, 0)
      case None => Cut
      case Some((len, n)) =>
        if len >= TWO_TO_63 then Huge
        else if len > |rest| - n then Cut
        else Whole(rest[n..n + len], rest[n + len..])
    else if wire == 5 then
      if |rest| < 4 then Cut else Whole([], rest[4..])
    else NoField
  }

  /** The shape of the first field of a message. */
  function FieldShape(data: Octets): (r: Shape)
    ensures r.Whole? ==> |r.payload| + |r.tail| < |data|
  {
    if data == [] then NoField
    else
      match ReadUvarint(data, 0)
      case None => NoField
      case Some((tag, n)) => if tag / 8 == 0 then NoField else ValueShape(tag % 8, data[n..])
  }

  /**
   Walking the fields of `data` by their sizes alone, and into payloads that are not text, one meets a
   declared length of 2^63 or more.
   */
  predicate DeclaresHuge(data: Octets)
    decreases |data|
  {
    match FieldShape(data)
    case NoField => false
    case Cut => false
    case Huge => true
    case Whole(payload, tail) => (!IsText(payload) && DeclaresHuge(payload)) || DeclaresHuge(tail)
  }

  /** A value panics by its own length or by its payload's; otherwise what follows it is read next. */
  lemma {:induction false} ValuePanics(wire: nat, rest: Octets)
    ensures var read := ReadField(wire, rest);
            match ValueShape(wire, rest)
            case NoField => read == Stop(Finished)
            case Cut => read == Stop(Failed)
            case Huge => read == Stop(Panicked)
            case Whole(payload, tail) =>
              if !IsText(payload) && Scan(payload).end == Panicked then read == Stop(Panicked)
              else read.Got? && tail == rest[read.size..]
  {
    if wire != 2 {
      EmptyScan();
    }
  }

  lemma {:induction false} EmptyScan()
    ensures Scan([]) == ScanResult([], Finished)
  {
  }

  /** Reading a message panics by its first field, by that field's payload, or by what follows. */
  lemma {:induction false} ScanPanics(data: Octets)
    ensures Scan(data).end == Panicked <==>
            match FieldShape(data)
            case NoField => false
            case Cut => false
            case Huge => true
            case Whole(payload, tail) =>
              (!IsText(payload) && Scan(payload).end == Panicked) || Scan(tail).end == Panicked
  {
    if data != [] && ReadUvarint(data, 0).Some? && ReadUvarint(data, 0).value.0 / 8 > 0 {
      var (tag, n) := ReadUvarint(data, 0).value;
      var rest := data[n..];
      ValuePanics(tag % 8, rest);
      match ReadField(tag % 8, rest) {
        case Stop(end) => ScanStops(data, tag, n, end);
        case Got(value, size) => ScanUnfolds(data, tag, n, value, size, rest[size..]);
      }
    }
  }

  /** Decoding panics if and only if the bytes declare such a length. */
  lemma {:induction false} PanicsExactly(data: Octets)
    ensures Decode(data).end == Panicked <==> DeclaresHuge(data)
    decreases |data|
  {
    ScanPanics(data);
    var shape := FieldShape(data);
    if shape.Whole? {
      PanicsExactly(shape.payload);
      PanicsExactly(shape.tail);
    }
  }

  /** Walking the fields of `data` by their sizes one meets a value cut short before anything that panics. */
  predicate CutShort(data: Octets)
    decreases |data|
  {
    match FieldShape(data)
    case NoField => false
    case Cut => true
    case Huge => false
    case Whole(payload, tail) => (IsText(payload) || !DeclaresHuge(payload)) && CutShort(tail)
  }

  lemma {:induction false} ScanFails(data: Octets)
    ensures Scan(data).end == Failed <==>
            match FieldShape(data)
            case NoField => false
            case Cut => true
            case Huge => false
            case Whole(payload, tail) =>
              (IsText(payload) || Scan(payload).end != Panicked) && Scan(tail).end == Failed
  {
    if data != [] && ReadUvarint(data, 0).Some? && ReadUvarint(data, 0).value.0 / 8 > 0 {
      var (tag, n) := ReadUvarint(data, 0).value;
      var rest := data[n..];
      ValuePanics(tag % 8, rest);
      match ReadField(tag % 8, rest) {
        case Stop(end) => ScanStops(data, tag, n, end);
        case Got(value, size) => ScanUnfolds(data, tag, n, value, size, rest[size..]);
      }
    }
  }

  /**
   Decoding is an error if and only if a value is cut short. Anything else that ends it, a tag cut short,
   field number zero or an unknown wire type, ends it without one.
   */
  lemma {:induction false} FailsExactly(data: Octets)
    ensures Decode(data).end == Failed <==> CutShort(data)
    decreases |data|
  {
    ScanFails(data);
    var shape := FieldShape(data);
    if shape.Whole? {
      PanicsExactly(shape.payload);
      FailsExactly(shape.tail);
    }
  }

  /** No position of the bytes reads as a varint of 2^63 or more. */
  predicate OnlySmallVarints(data: Octets) {
    forall i {:trigger SmallVarint(data[i..])} :: 0 <= i <= |data| ==> SmallVarint(data[i..])
  }

  predicate SmallVarint(s: Octets) {
    match ReadUvarint(s, 0) case None => true case Some((v, _)) => v < TWO_TO_63
  }

  /** A varint that is there stays the same whatever follows. */
  lemma {:induction false} UvarintPrefix(s: Octets, t: Octets, i: nat)
    requires i <= 9 && ReadUvarint(s, i).Some?
    ensures ReadUvarint(s + t, i) == ReadUvarint(s, i)
    decreases 9 - i
  {
    if s[0] >= 128 {
      UvarintPrefix(s[1..], t, i + 1);
      assert (s + t)[1..] == s[1..] + t;
    }
  }

  lemma {:induction false} SliceHasSmallVarints(data: Octets, a: nat, b: nat)
    requires a <= b <= |data| && OnlySmallVarints(data)
    ensures OnlySmallVarints(data[a..b])
  {
    var s := data[a..b];
    forall i | 0 <= i <= |s|
      ensures SmallVarint(s[i..])
    {
      assert s[i..] + data[b..] == data[a + i..];
      if ReadUvarint(s[i..], 0).Some? {
        UvarintPrefix(s[i..], data[b..], 0);
      }
      assert SmallVarint(data[a + i..]);
    }
  }

  lemma {:induction false} SmallShape(data: Octets)
    requires OnlySmallVarints(data)
    ensures !FieldShape(data).Huge?
    ensures FieldShape(data).Whole? ==>
              OnlySmallVarints(FieldShape(data).payload) && OnlySmallVarints(FieldShape(data).tail)
  {
    if data != [] && ReadUvarint(data, 0).Some? {
      var (tag, n) := ReadUvarint(data, 0).value;
      assert data[n..] == data[n..|data|];
      SliceHasSmallVarints(data, n, |data|);
      SmallValueShape(tag % 8, data[n..]);
    }
  }

  lemma {:induction false} SmallValueShape(wire: nat, rest: Octets)
    requires OnlySmallVarints(rest)
    ensures !ValueShape(wire, rest).Huge?
    ensures ValueShape(wire, rest).Whole? ==>
              OnlySmallVarints(ValueShape(wire, rest).payload) && OnlySmallVarints(ValueShape(wire, rest).tail)
  {
    assert rest[0..] == rest;
    assert SmallVarint(rest[0..]);
    if ValueShape(wire, rest).Whole? {
      var n, m := WholeIsSliced(wire, rest);
      SliceHasSmallVarints(rest, n, m);
      SliceHasSmallVarints(rest, m, |rest|);
    }
  }

  lemma {:induction false} WholeIsSliced(wire: nat, rest: Octets) returns (n: nat, m: nat)
    requires ValueShape(wire, rest).Whole?
    ensures n <= m <= |rest|
    ensures ValueShape(wire, rest) == Whole(rest[n..m], rest[m..|rest|])
  {
    var shape := ValueShape(wire, rest);
    m := |rest| - |shape.tail|;
    n := m - |shape.payload|;
    assert rest[m..] == rest[m..|rest|];
  }

  /** Bytes without such a varint anywhere can be decoded without looking further: nothing panics. */
  lemma {:induction false} SmallVarintsDoNotPanic(data: Octets)
    requires OnlySmallVarints(data)
    ensures Decode(data).end != Panicked
    decreases |data|
  {
    ScanPanics(data);
    SmallShape(data);
    var shape := FieldShape(data);
    if shape.Whole? {
      SmallVarintsDoNotPanic(shape.payload);
      SmallVarintsDoNotPanic(shape.tail);
    }
  }

  lemma {:induction false} HugeValue(length: nat, rest: Octets)
    requires TWO_TO_63 <= length < 2 * TWO_TO_63
    ensures ValueShape(2, EncodeUvarint(length) + rest) == Huge
  {
    VarintCapIs64Bits();
    UvarintRoundTrip(length, 0, rest);
  }

  /** A field whose value is too large to make ends decoding at once. */
  lemma {:induction false} HugeFieldPanics(data: Octets, tag: nat, n: nat)
    requires data != [] && ReadUvarint(data, 0) == Some((tag, n)) && tag / 8 > 0
    requires ValueShape(tag % 8, data[n..]) == Huge
    ensures DeclaresHuge(data) && Decode(data) == Outcome(map[], Panicked)
  {
    ValuePanics(tag % 8, data[n..]);
    ScanStops(data, tag, n, Panicked);
    assert Group([]) == map[];
  }

  /** A declared length of 2^63 or more passes the signed length check and panics in `make`. */
  lemma {:induction false} HugeLengthPanics(num: nat, length: nat, rest: Octets)
    requires 1 <= num < TWO_TO_61 && TWO_TO_63 <= length < 2 * TWO_TO_63
    ensures DeclaresHuge(EncodeUvarint(num * 8 + 2) + (EncodeUvarint(length) + rest))
    ensures Decode(EncodeUvarint(num * 8 + 2) + (EncodeUvarint(length) + rest)) == Outcome(map[], Panicked)
  {
    var tag := num * 8 + 2;
    var head, body := EncodeUvarint(tag), EncodeUvarint(length) + rest;
    VarintCapIs64Bits();
    UvarintRoundTrip(tag, 0, body);
    HugeValue(length, rest);
    assert (head + body)[|head|..] == body;
    assert tag / 8 == num && tag % 8 == 2;
    HugeFieldPanics(head + body, tag, |head|);
  }
}
