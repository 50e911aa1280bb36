/**
 The Server-Sent Events relay of pkg/proxy/sse.go: it passes the body on in chunks (RFC 9112, section
 7.1), a line a chunk, and collects events on the way. A string is the bytes of the body, up to where
 reading it ends. Writes to the client are taken to succeed.
 */
module SseRelay {
  import opened Bytes
  import opened Text
  import opened Sequences

  // ---------------------------------------------------------------- lines

  /** Index of the first newline at or after `i`, or the length when there is none. */
  function LineEnd(s: string, i: nat): (n: nat)
    requires i <= |s|
    ensures i <= n <= |s| && (n < |s| ==> s[n] == '\n') && forall j :: i <= j < n ==> s[j] != '\n'
    decreases |s| - i
  {
    if i == |s| || s[i] == '\n' then i else LineEnd(s, i + 1)
  }

  datatype Split = Split(lines: seq<string>, tail: string)

  /** The lines of a body of which the lines `done` come first. */
  function After(done: seq<string>, s: Split): Split {
    Split(done + s.lines, s.tail)
  }

  /** The lines of a body, each with its newline, and what follows the last one. */
  function Lines(body: string): Split
    decreases |body|
  {
    var n := LineEnd(body, 0);
    if n == |body| then Split([], body) else After([body[..n + 1]], Lines(body[n + 1..]))
  }

  // ---------------------------------------------------------------- chunks

  /** `%x` of a natural number. */
  function Hex(n: nat): (s: string)
    ensures s != "" && forall i :: 0 <= i < |s| ==> IsHexDigit(s[i])
  {
    if n < 16 then [HexDigit(n)] else Hex(n / 16) + [HexDigit(n % 16)]
  }

  function HexValue(s: string): nat
    requires forall i :: 0 <= i < |s| ==> IsHexDigit(s[i])
  {
    if s == "" then 0 else HexValue(s[..|s| - 1]) * 16 + HexDigitValue(s[|s| - 1])
  }

  lemma {:induction false} HexRoundTrip(n: nat)
    ensures HexValue(Hex(n)) == n
  {
    if n >= 16 {
      HexRoundTrip(n / 16);
      assert Hex(n)[..|Hex(n)| - 1] == Hex(n / 16);
    } else {
      assert Hex(n)[..0] == "";
    }
  }

  function Chunk(data: string): string {
    Hex(|data|) + CRLF + data + CRLF
  }

  /** How many hexadecimal digits `s` begins with. */
  function HexRun(s: string): (n: nat)
    ensures n <= |s| && forall i :: 0 <= i < n ==> IsHexDigit(s[i])
    ensures n < |s| ==> !IsHexDigit(s[n])
  {
    if s == "" || !IsHexDigit(s[0]) then 0 else 1 + HexRun(s[1..])
  }

  datatype Body = Body(chunks: seq<string>, rest: string)

  const CRLF := "\r\n"

  /** A chunk size and its line end, and what follows. */
  function ReadSize(s: string): (r: Option<(nat, string)>)
    ensures r.Some? ==> |r.value.1| < |s|
  {
    var n := HexRun(s);
    if n == 0 || |s| < n + 2 || s[n..n + 2] != CRLF then None else Some((HexValue(s[..n]), s[n + 2..]))
  }

  /** `size` bytes and a line end, and what follows. */
  function ReadData(s: string, size: nat): (r: Option<(string, string)>)
    ensures r.Some? ==> |r.value.1| <= |s|
  {
    if |s| < size + 2 || s[size..size + 2] != CRLF then None else Some((s[..size], s[size + 2..]))
  }

  /**
   A chunked body: chunks of at least one byte, then a chunk of size zero and an empty trailer; and
   what follows it. None when the bytes are not such a body.
   */
  function ReadChunked(s: string): Option<Body>
    decreases |s|
  {
    match ReadSize(s)
    case None => None
    case Some((size, rest)) =>
      match ReadData(rest, size)
      case None => None
      case Some((data, more)) =>
        if size == 0 then Some(Body([], more))
        else
          match ReadChunked(more)
          case None => None
          case Some(body) => Some(Body([data] + body.chunks, body.rest))
  }

  function Concat(parts: seq<string>): string {
    if parts == [] then "" else parts[0] + Concat(parts[1..])
  }

  function ChunkAll(parts: seq<string>): string {
    if parts == [] then "" else Chunk(parts[0]) + ChunkAll(parts[1..])
  }

  const LAST_CHUNK := "0\r\n\r\n"

  lemma {:induction false} HexRunStops(n: nat, rest: string)
    requires rest != "" && !IsHexDigit(rest[0])
    ensures HexRun(Hex(n) + rest) == |Hex(n)|
  {
    var s, k := Hex(n) + rest, |Hex(n)|;
    assert s[k] == rest[0];
    assert forall i :: 0 <= i < k ==> s[i] == Hex(n)[i];
  }

  lemma {:induction false} SizeReads(n: nat, rest: string)
    ensures ReadSize(Hex(n) + CRLF + rest) == Some((n, rest))
  {
    var s, k := Hex(n) + CRLF + rest, |Hex(n)|;
    assert s == Hex(n) + (CRLF + rest);
    HexRoundTrip(n);
    HexRunStops(n, CRLF + rest);
    assert s[..k] == Hex(n) && s[k..k + 2] == CRLF && s[k + 2..] == rest;
  }

  lemma {:induction false} DataReads(data: string, rest: string)
    ensures ReadData(data + CRLF + rest, |data|) == Some((data, rest))
  {
    var s, k := data + CRLF + rest, |data|;
    assert s[..k] == data && s[k..k + 2] == CRLF && s[k + 2..] == rest;
  }

  lemma {:induction false} LastChunkReads(rest: string)
    ensures ReadChunked(LAST_CHUNK + rest) == Some(Body([], rest))
  {
    SizeReads(0, CRLF + rest);
    DataReads("", rest);
    assert LAST_CHUNK + rest == Hex(0) + CRLF + (CRLF + rest);
    assert "" + CRLF + rest == CRLF + rest;
  }

  lemma {:induction false} Regroup(a: string, b: string, c: string, d: string)
    ensures a + b + c + b + d == a + b + (c + b + d)
  {
  }

  lemma {:induction false} ChunkReads(data: string, rest: string)
    requires data != "" && ReadChunked(rest).Some?
    ensures ReadChunked(Chunk(data) + rest)
         == Some(Body([data] + ReadChunked(rest).value.chunks, ReadChunked(rest).value.rest))
  {
    SizeReads(|data|, data + CRLF + rest);
    DataReads(data, rest);
    Regroup(Hex(|data|), CRLF, data, rest);
  }

  lemma {:induction false} FirstAndRest<T>(parts: seq<T>, more: seq<T>)
    requires parts != []
    ensures [parts[0]] + (parts[1..] + more) == parts + more
  {
  }

  lemma {:induction false} ChunkAllReads(parts: seq<string>, end: string)
    requires (forall i :: 0 <= i < |parts| ==> parts[i] != "") && ReadChunked(end).Some?
    ensures ReadChunked(ChunkAll(parts) + end)
         == Some(Body(parts + ReadChunked(end).value.chunks, ReadChunked(end).value.rest))
  {
    if parts == [] {
      assert ChunkAll(parts) + end == end;
      assert parts + ReadChunked(end).value.chunks == ReadChunked(end).value.chunks;
    } else {
      var tail := ChunkAll(parts[1..]) + end;
      Associative(Chunk(parts[0]), ChunkAll(parts[1..]), end);
      ChunkAllReads(parts[1..], end);
      ChunkReads(parts[0], tail);
      FirstAndRest(parts, ReadChunked(end).value.chunks);
    }
  }

  // ---------------------------------------------------------------- the bytes passed on

  /** One part for each line, and one for a line without its newline at the end. */
  function Parts(body: string): seq<string> {
    var split := Lines(body);
    split.lines + if split.tail == "" then [] else [split.tail]
  }

  function Passed(body: string): string {
    ChunkAll(Parts(body)) + LAST_CHUNK
  }

  lemma {:induction false} PartsAreBody(body: string)
    ensures Concat(Parts(body)) == body
    ensures forall i :: 0 <= i < |Parts(body)| ==> Parts(body)[i] != ""
    decreases |body|
  {
    var n := LineEnd(body, 0);
    if n == |body| {
      if body != "" {
        assert Parts(body) == [body];
        assert Concat([body]) == body + Concat([]);
      }
    } else {
      var rest := body[n + 1..];
      PartsAreBody(rest);
      assert Parts(body) == [body[..n + 1]] + Parts(rest);
      assert Parts(body)[1..] == Parts(rest);
    }
  }

  /**
   Whatever the body, what the client receives reads by the chunked grammar as that body and nothing
   else: one chunk a line, none of them empty, and the one chunk of size zero last.
   */
  lemma {:induction false} ClientReadsTheBody(body: string)
    ensures ReadChunked(Passed(body)) == Some(Body(Parts(body), ""))
    ensures Concat(Parts(body)) == body && forall i :: 0 <= i < |Parts(body)| ==> Parts(body)[i] != ""
  {
    PartsAreBody(body);
    LastChunkReads("");
    assert LAST_CHUNK + "" == LAST_CHUNK;
    ChunkAllReads(Parts(body), LAST_CHUNK);
    assert Parts(body) + [] == Parts(body);
  }

  // ---------------------------------------------------------------- the events collected

  datatype SseEvent = SseEvent(event: string, data: string)

  predicate IsEol(c: char) {
    c == '\r' || c == '\n'
  }

  function Trimmed(line: string): string {
    TrimRight(line, IsEol)
  }

  predicate IsEventLine(t: string) {
    HasPrefix(t, "event:")
  }

  predicate IsDataLine(t: string) {
    !IsEventLine(t) && HasPrefix(t, "data:")
  }

  function EventValue(t: string, isSpace: char -> bool): string
    requires IsEventLine(t)
  {
    TrimSpace(t[6..], isSpace)
  }

  function DataValue(t: string): string
    requires IsDataLine(t)
  {
    var data := t[5..];
    if HasPrefix(data, " ") then data[1..] else data
  }

  /** The value of the last event line of a block. */
  function EventOf(block: seq<string>, isSpace: char -> bool): string {
    if block == [] then ""
    else
      var t := block[|block| - 1];
      if IsEventLine(t) then EventValue(t, isSpace) else EventOf(block[..|block| - 1], isSpace)
  }

  function DataValues(block: seq<string>): seq<string> {
    if block == [] then []
    else
      var t := block[|block| - 1];
      DataValues(block[..|block| - 1]) + if IsDataLine(t) then [DataValue(t)] else []
  }

  function DropLeadingEmpty(vs: seq<string>): seq<string> {
    if vs != [] && vs[0] == "" then DropLeadingEmpty(vs[1..]) else vs
  }

  function JoinLines(vs: seq<string>): string {
    if vs == [] then "" else if |vs| == 1 then vs[0] else vs[0] + "\n" + JoinLines(vs[1..])
  }

  /** The data lines of a block, without empty ones at the start, joined by newlines. */
  function DataOf(block: seq<string>): string {
    JoinLines(DropLeadingEmpty(DataValues(block)))
  }

  function Collected(block: seq<string>, isSpace: char -> bool): SseEvent {
    SseEvent(EventOf(block, isSpace), DataOf(block))
  }

  predicate Nothing(e: SseEvent) {
    e.event == "" && e.data == ""
  }

  /** The lines, without line ends, since the last blank one. */
  function OpenBlock(lines: seq<string>): seq<string> {
    if lines == [] then []
    else
      var t := Trimmed(lines[|lines| - 1]);
      if t == "" then [] else OpenBlock(lines[..|lines| - 1]) + [t]
  }

  /** The blocks that blank lines end, in order. */
  function ClosedBlocks(lines: seq<string>): seq<seq<string>> {
    if lines == [] then []
    else
      var front := lines[..|lines| - 1];
      ClosedBlocks(front) + if Trimmed(lines[|lines| - 1]) == "" then [OpenBlock(front)] else []
  }

  /** One event for each closed block that has an event name or data, from that block's lines alone. */
  function EventsOf(blocks: seq<seq<string>>, isSpace: char -> bool): seq<SseEvent> {
    if blocks == [] then []
    else
      var e := Collected(blocks[|blocks| - 1], isSpace);
      EventsOf(blocks[..|blocks| - 1], isSpace) + if Nothing(e) then [] else [e]
  }

  lemma {:induction false} JoinAppend(vs: seq<string>, v: string)
    requires vs != []
    ensures JoinLines(vs + [v]) == JoinLines(vs) + "\n" + v
  {
    if |vs| == 1 {
      assert (vs + [v])[1..] == [v];
    } else {
      JoinAppend(vs[1..], v);
      assert (vs + [v])[1..] == vs[1..] + [v];
    }
  }

  lemma {:induction false} DropAppend(vs: seq<string>, v: string)
    ensures DropLeadingEmpty(vs + [v])
         == if DropLeadingEmpty(vs) == [] then (if v == "" then [] else [v]) else DropLeadingEmpty(vs) + [v]
    ensures DropLeadingEmpty(vs) != [] ==> DropLeadingEmpty(vs)[0] != ""
  {
    if vs != [] && vs[0] == "" {
      DropAppend(vs[1..], v);
      assert (vs + [v])[1..] == vs[1..] + [v];
    }
  }

  /** A further data line goes after a newline, unless nothing but empty ones came before it. */
  lemma {:induction false} DataAppend(block: seq<string>, t: string)
    requires IsDataLine(t)
    ensures DataOf(block + [t])
         == if DataOf(block) != "" then DataOf(block) + "\n" + DataValue(t) else DataValue(t)
  {
    assert (block + [t])[..|block|] == block;
    var vs := DropLeadingEmpty(DataValues(block));
    DropAppend(DataValues(block), DataValue(t));
    if vs != [] {
      JoinAppend(vs, DataValue(t));
      assert JoinLines(vs) != "";
    }
  }

  /** What one more line does to the blocks. */
  lemma {:induction false} OneMoreLine(lines: seq<string>, line: string)
    ensures var t := Trimmed(line);
            && OpenBlock(lines + [line]) == (if t == "" then [] else OpenBlock(lines) + [t])
            && ClosedBlocks(lines + [line]) == ClosedBlocks(lines) + if t == "" then [OpenBlock(lines)] else []
  {
    assert (lines + [line])[..|lines|] == lines;
  }

  lemma {:induction false} EventsAppend(blocks: seq<seq<string>>, block: seq<string>, isSpace: char -> bool)
    ensures var e := Collected(block, isSpace);
            EventsOf(blocks + [block], isSpace) == EventsOf(blocks, isSpace) + if Nothing(e) then [] else [e]
  {
    assert (blocks + [block])[..|blocks|] == blocks;
  }

  /** Lines of other kinds add neither an event name nor data. */
  lemma {:induction false} OtherLine(block: seq<string>, t: string, isSpace: char -> bool)
    ensures !IsEventLine(t) ==> EventOf(block + [t], isSpace) == EventOf(block, isSpace)
    ensures IsEventLine(t) ==> EventOf(block + [t], isSpace) == EventValue(t, isSpace)
    ensures !IsDataLine(t) ==> DataOf(block + [t]) == DataOf(block)
  {
    assert (block + [t])[..|block|] == block;
    assert !IsDataLine(t) ==> DataValues(block + [t]) == DataValues(block);
  }

  /** The branches on a line that is not blank. */
  method Accumulate(current: SseEvent, t: string, isSpace: char -> bool, ghost block: seq<string>) returns (r: SseEvent)
    requires current == Collected(block, isSpace)
    ensures r == Collected(block + [t], isSpace)
  {
    r := current;
    OtherLine(block, t, isSpace);
    if HasPrefix(t, "event:") {
      r := r.(event := TrimSpace(t[6..], isSpace));
    } else if HasPrefix(t, "data:") {
      DataAppend(block, t);
      var data := t[5..];
      if HasPrefix(data, " ") {
        data := data[1..];
      }
      if r.data != "" {
        r := r.(data := r.data + "\n");
      } else {
        assert "" + data == data;
      }
      r := r.(data := r.data + data);
    }
  }

  lemma {:induction false} ChunkAllAppend(parts: seq<string>, part: string)
    ensures ChunkAll(parts + [part]) == ChunkAll(parts) + Chunk(part)
  {
    if parts == [] {
      assert ChunkAll([part]) == Chunk(part) + ChunkAll([]);
    } else {
      ChunkAllAppend(parts[1..], part);
      assert (parts + [part])[1..] == parts[1..] + [part];
    }
  }

  lemma {:induction false} AfterAfter(done: seq<string>, lines: seq<string>, s: Split)
    ensures After(done, After(lines, s)) == After(done + lines, s)
  {
    Associative(done, lines, s.lines);
  }

  lemma {:induction false} NextLine(done: seq<string>, rest: string, n: nat)
    requires n == LineEnd(rest, 0) < |rest|
    ensures After(done, Lines(rest)) == After(done + [rest[..n + 1]], Lines(rest[n + 1..]))
  {
    AfterAfter(done, [rest[..n + 1]], Lines(rest[n + 1..]));
  }

  lemma {:induction false} NoMoreLines(done: seq<string>, rest: string)
    requires LineEnd(rest, 0) == |rest|
    ensures After(done, Lines(rest)) == Split(done, rest)
    ensures rest != "" ==> ChunkAll(done + [rest]) == ChunkAll(done) + Chunk(rest)
    ensures done + [] == done
  {
    ChunkAllAppend(done, rest);
  }

  /** A blank line ends the block; any other line is added to it. */
  method TakeLine(line: string, isSpace: char -> bool, current: SseEvent, events: seq<SseEvent>, ghost done: seq<string>)
    returns (current': SseEvent, events': seq<SseEvent>)
    requires current == Collected(OpenBlock(done), isSpace) && events == EventsOf(ClosedBlocks(done), isSpace)
    ensures current' == Collected(OpenBlock(done + [line]), isSpace)
    ensures events' == EventsOf(ClosedBlocks(done + [line]), isSpace)
  {
    current', events' := current, events;
    OneMoreLine(done, line);
    var t := Trimmed(line);
    if t == "" {
      EventsAppend(ClosedBlocks(done), OpenBlock(done), isSpace);
      if current.data != "" || current.event != "" {
        events' := events + [current];
        current' := SseEvent("", "");
      }
    } else {
      current' := Accumulate(current, t, isSpace, OpenBlock(done));
      assert ClosedBlocks(done + [line]) == ClosedBlocks(done);
    }
  }

  /** The relay loop: the bytes written after the response head, and the events dispatched. */
  method StreamSSEResponse(body: string, isSpace: char -> bool) returns (sent: string, events: seq<SseEvent>)
    ensures sent == Passed(body)
    ensures events == EventsOf(ClosedBlocks(Lines(body).lines), isSpace)
  {
    sent, events := "", [];
    var current := SseEvent("", "");
    var rest := body;
    ghost var done: seq<string> := [];
    while true
      invariant Lines(body) == After(done, Lines(rest))
      invariant sent == ChunkAll(done)
      invariant current == Collected(OpenBlock(done), isSpace)
      invariant events == EventsOf(ClosedBlocks(done), isSpace)
      decreases |rest|
    {
      var n := LineEnd(rest, 0);
      if n == |rest| {
        NoMoreLines(done, rest);
        if |rest| > 0 {
          sent := sent + Chunk(rest);
        }
        sent := sent + "0\r\n\r\n";
        return;
      }
      NextLine(done, rest, n);
      var line := rest[..n + 1];
      ChunkAllAppend(done, line);
      sent := sent + Chunk(line);
      current, events := TakeLine(line, isSpace, current, events, done);
      done := done + [line];
      rest := rest[n + 1..];
    }
  }

  // ---------------------------------------------------------------- line by line

  /** A line with its newline, and no other in it. */
  predicate IsLine(l: string) {
    l != "" && l[|l| - 1] == '\n' && forall i :: 0 <= i < |l| - 1 ==> l[i] != '\n'
  }

  /** Every chunk but one for a partial line at the end is one line of the body. */
  lemma {:induction false} PartsAreLines(body: string)
    ensures var parts := Parts(body);
            forall k :: 0 <= k < |parts| ==>
              IsLine(parts[k]) || (k == |parts| - 1 && forall i :: 0 <= i < |parts[k]| ==> parts[k][i] != '\n')
    decreases |body|
  {
    var n := LineEnd(body, 0);
    if n < |body| {
      var rest := body[n + 1..];
      PartsAreLines(rest);
      assert Parts(body) == [body[..n + 1]] + Parts(rest);
      assert IsLine(body[..n + 1]);
    }
  }

  /** Chunk sizes are in lower case, with no zero in front. */
  lemma {:induction false} HexIsPlain(n: nat)
    ensures forall i :: 0 <= i < |Hex(n)| ==> '0' <= Hex(n)[i] <= '9' || 'a' <= Hex(n)[i] <= 'f'
    ensures n > 0 ==> Hex(n)[0] != '0'
  {
    if n < 16 {
      HexDigitIsLower(n);
    } else {
      HexIsPlain(n / 16);
      HexDigitIsLower(n % 16);
    }
  }

  // ---------------------------------------------------------------- events as they are sent

  /** An event as its sender has it: a name, or none, and lines of data. */
  datatype Sent = Sent(name: string, data: seq<string>)

  predicate OneLine(s: string) {
    forall i :: 0 <= i < |s| ==> s[i] != '\n' && s[i] != '\r'
  }

  /** Either line end. */
  predicate IsLineEnd(eol: string) {
    eol == "\n" || eol == "\r\n"
  }

  /**
   What can be sent and collected: a name without white space at its ends, lines without line ends, the
   first of them not empty, and a name or a line at all.
   */
  predicate Sendable(e: Sent, isSpace: char -> bool) {
    && OneLine(e.name) && (e.name != "" ==> !isSpace(e.name[0]) && !isSpace(e.name[|e.name| - 1]))
    && (forall d :: d in e.data ==> OneLine(d))
    && (e.data != [] ==> e.data[0] != "") && (e.name != "" || e.data != [])
  }

  function DataLines(ds: seq<string>, eol: string): seq<string> {
    if ds == [] then [] else DataLines(ds[..|ds| - 1], eol) + ["data: " + ds[|ds| - 1] + eol]
  }

  function NameLines(name: string, eol: string): seq<string> {
    if name == "" then [] else ["event: " + name + eol]
  }

  /** The lines of an event, the blank one last. */
  function EventLines(e: Sent, eol: string): seq<string> {
    NameLines(e.name, eol) + DataLines(e.data, eol) + [eol]
  }

  function StreamLines(es: seq<Sent>, eol: string): seq<string> {
    if es == [] then [] else StreamLines(es[..|es| - 1], eol) + EventLines(es[|es| - 1], eol)
  }

  /** What is to be collected of an event. */
  function Collects(e: Sent): SseEvent {
    SseEvent(e.name, JoinLines(e.data))
  }

  function CollectsAll(es: seq<Sent>): seq<SseEvent> {
    if es == [] then [] else CollectsAll(es[..|es| - 1]) + [Collects(es[|es| - 1])]
  }

  lemma {:induction false} LineEndOf(l: string, rest: string, i: nat)
    requires IsLine(l) && i < |l|
    ensures LineEnd(l + rest, i) == |l| - 1
    decreases |l| - i
  {
    if i < |l| - 1 {
      LineEndOf(l, rest, i + 1);
    }
  }

  /** Lines put together are taken apart again. */
  lemma {:induction false} LinesOfLines(ls: seq<string>)
    requires forall l :: l in ls ==> IsLine(l)
    ensures Lines(Concat(ls)) == Split(ls, "")
  {
    if ls != [] {
      var l, rest := ls[0], Concat(ls[1..]);
      LinesOfLines(ls[1..]);
      LineEndOf(l, rest, 0);
      var body := l + rest;
      assert body[..|l|] == l && body[|l|..] == rest;
      assert [l] + ls[1..] == ls;
    }
  }

  lemma {:induction false} PrintedIsLine(s: string, eol: string)
    requires OneLine(s) && IsLineEnd(eol)
    ensures IsLine(s + eol)
  {
  }

  /** Of a printed line the line end goes, whichever it is, and nothing else. */
  lemma {:induction false} PrintedTrims(s: string, eol: string)
    requires OneLine(s) && IsLineEnd(eol)
    ensures Trimmed(s + eol) == s
  {
    TrimRightDrops(s, eol, IsEol);
  }

  lemma {:induction false} OneLineAfter(prefix: string, s: string)
    requires OneLine(prefix) && OneLine(s)
    ensures OneLine(prefix + s)
  {
  }

  /** `after` has the blocks of `before`, and in the open one the data lines `ds` besides. */
  ghost predicate Extends(before: seq<string>, after: seq<string>, ds: seq<string>, isSpace: char -> bool) {
    && ClosedBlocks(after) == ClosedBlocks(before)
    && EventOf(OpenBlock(after), isSpace) == EventOf(OpenBlock(before), isSpace)
    && DataValues(OpenBlock(after)) == DataValues(OpenBlock(before)) + ds
  }

  lemma {:induction false} ExtendsOn(
    a: seq<string>, b: seq<string>, c: seq<string>, ds: seq<string>, d: string, isSpace: char -> bool)
    requires Extends(a, b, ds, isSpace) && Extends(b, c, [d], isSpace)
    ensures Extends(a, c, ds + [d], isSpace)
  {
    Associative(DataValues(OpenBlock(a)), ds, [d]);
  }

  /** Printed data lines belong to the block that is open, with their values, and close none. */
  lemma {:induction false} DataLinesJoin(done: seq<string>, ds: seq<string>, eol: string, isSpace: char -> bool)
    requires IsLineEnd(eol) && forall d :: d in ds ==> OneLine(d)
    ensures Extends(done, done + DataLines(ds, eol), ds, isSpace)
  {
    if ds == [] {
      assert done + [] == done;
      assert DataValues(OpenBlock(done)) + [] == DataValues(OpenBlock(done));
    } else {
      var front, d := ds[..|ds| - 1], ds[|ds| - 1];
      var before, line := done + DataLines(front, eol), "data: " + d + eol;
      DataLinesJoin(done, front, eol, isSpace);
      OneDataLine(before, d, eol, isSpace);
      ExtendsOn(done, before, before + [line], front, d, isSpace);
      Associative(done, DataLines(front, eol), [line]);
      assert front + [d] == ds;
    }
  }

  lemma {:induction false} DataLinesAreLines(ds: seq<string>, eol: string)
    requires IsLineEnd(eol) && forall d :: d in ds ==> OneLine(d)
    ensures forall l :: l in DataLines(ds, eol) ==> IsLine(l)
  {
    if ds != [] {
      var d := ds[|ds| - 1];
      DataLinesAreLines(ds[..|ds| - 1], eol);
      OneLineAfter("data: ", d);
      PrintedIsLine("data: " + d, eol);
    }
  }

  lemma {:induction false} OneDataLine(done: seq<string>, d: string, eol: string, isSpace: char -> bool)
    requires IsLineEnd(eol) && OneLine(d)
    ensures Extends(done, done + ["data: " + d + eol], [d], isSpace)
  {
    var t := "data: " + d;
    OneLineAfter("data: ", d);
    PrintedTrims(t, eol);
    OneMoreLine(done, t + eol);
    DataLineValue(d);
    OtherLine(OpenBlock(done), t, isSpace);
    assert (OpenBlock(done) + [t])[..|OpenBlock(done)|] == OpenBlock(done);
    assert ClosedBlocks(done) + [] == ClosedBlocks(done);
  }

  lemma {:induction false} DataLineValue(d: string)
    ensures IsDataLine("data: " + d) && DataValue("data: " + d) == d
  {
    var t := "data: " + d;
    assert t[..5] == "data:" && t[5..] == " " + d;
    assert t[0] == 'd';
  }

  /** The space after the colon is optional, and only one is taken away. */
  lemma {:induction false} DataLineBare(d: string)
    requires d == "" || d[0] != ' '
    ensures IsDataLine("data:" + d) && DataValue("data:" + d) == d
  {
    var t := "data:" + d;
    assert t[..5] == "data:" && t[5..] == d;
    assert t[0] == 'd';
  }

  lemma {:induction false} EventLineValue(name: string, isSpace: char -> bool)
    requires isSpace(' ') && name != "" && !isSpace(name[0]) && !isSpace(name[|name| - 1])
    ensures IsEventLine("event: " + name) && EventValue("event: " + name, isSpace) == name
  {
    var t := "event: " + name;
    assert t[..6] == "event:" && t[6..] == " " + name + "";
    TrimDropsEnds(" ", name, "", isSpace);
  }

  /** A printed name opens a block with that name. */
  lemma {:induction false} NameLineOpens(done: seq<string>, name: string, eol: string, isSpace: char -> bool)
    requires IsLineEnd(eol) && isSpace(' ') && OneLine(name) && OpenBlock(done) == []
    requires name != "" ==> !isSpace(name[0]) && !isSpace(name[|name| - 1])
    ensures var after := done + NameLines(name, eol);
            && ClosedBlocks(after) == ClosedBlocks(done)
            && EventOf(OpenBlock(after), isSpace) == name && DataValues(OpenBlock(after)) == []
  {
    if name == "" {
      assert done + [] == done;
    } else {
      var t := "event: " + name;
      OneLineAfter("event: ", name);
      PrintedTrims(t, eol);
      OneMoreLine(done, t + eol);
      EventLineValue(name, isSpace);
      assert [] + [t] == [t] && [t][..0] == [];
      assert ClosedBlocks(done) + [] == ClosedBlocks(done);
    }
  }

  /** A block with the event's name and data is collected as the event. */
  lemma {:induction false} BlockCollects(block: seq<string>, e: Sent, isSpace: char -> bool)
    requires Sendable(e, isSpace) && EventOf(block, isSpace) == e.name && DataValues(block) == e.data
    ensures Collected(block, isSpace) == Collects(e) && !Nothing(Collects(e))
  {
    assert DropLeadingEmpty(e.data) == e.data;
    JoinsToSomething(e.data);
  }

  lemma {:induction false} BlankLineCloses(full: seq<string>, eol: string, isSpace: char -> bool)
    requires IsLineEnd(eol) && !Nothing(Collected(OpenBlock(full), isSpace))
    ensures OpenBlock(full + [eol]) == []
    ensures EventsOf(ClosedBlocks(full + [eol]), isSpace)
         == EventsOf(ClosedBlocks(full), isSpace) + [Collected(OpenBlock(full), isSpace)]
  {
    PrintedTrims("", eol);
    assert "" + eol == eol;
    OneMoreLine(full, eol);
    EventsAppend(ClosedBlocks(full), OpenBlock(full), isSpace);
  }

  /** The lines of one event make one block, which is collected as that event. */
  lemma {:induction false} EventLinesCollect(done: seq<string>, e: Sent, eol: string, isSpace: char -> bool)
    requires IsLineEnd(eol) && isSpace(' ') && Sendable(e, isSpace) && OpenBlock(done) == []
    ensures var after := done + EventLines(e, eol);
            && OpenBlock(after) == []
            && EventsOf(ClosedBlocks(after), isSpace) == EventsOf(ClosedBlocks(done), isSpace) + [Collects(e)]
  {
    var named := done + NameLines(e.name, eol);
    var full := named + DataLines(e.data, eol);
    NameLineOpens(done, e.name, eol, isSpace);
    DataLinesJoin(named, e.data, eol, isSpace);
    assert [] + e.data == e.data;
    BlockCollects(OpenBlock(full), e, isSpace);
    BlankLineCloses(full, eol, isSpace);
    Regathered(done, NameLines(e.name, eol), DataLines(e.data, eol), [eol]);
  }

  lemma {:induction false} Regathered(a: seq<string>, b: seq<string>, c: seq<string>, d: seq<string>)
    ensures a + (b + c + d) == a + b + c + d
  {
  }

  lemma {:induction false} EventLinesAreLines(e: Sent, eol: string, isSpace: char -> bool)
    requires IsLineEnd(eol) && Sendable(e, isSpace)
    ensures forall l :: l in EventLines(e, eol) ==> IsLine(l)
  {
    OneLineAfter("event: ", e.name);
    PrintedIsLine("event: " + e.name, eol);
    DataLinesAreLines(e.data, eol);
    PrintedIsLine("", eol);
    assert "" + eol == eol;
  }

  lemma {:induction false} JoinsToSomething(ds: seq<string>)
    requires ds != [] ==> ds[0] != ""
    ensures ds != [] ==> JoinLines(ds) != ""
  {
  }

  lemma {:induction false} StreamCollects(es: seq<Sent>, eol: string, isSpace: char -> bool)
    requires IsLineEnd(eol) && isSpace(' ') && forall e :: e in es ==> Sendable(e, isSpace)
    ensures OpenBlock(StreamLines(es, eol)) == []
    ensures EventsOf(ClosedBlocks(StreamLines(es, eol)), isSpace) == CollectsAll(es)
    ensures forall l :: l in StreamLines(es, eol) ==> IsLine(l)
  {
    if es != [] {
      StreamCollects(es[..|es| - 1], eol, isSpace);
      EventLinesCollect(StreamLines(es[..|es| - 1], eol), es[|es| - 1], eol, isSpace);
      EventLinesAreLines(es[|es| - 1], eol, isSpace);
    }
  }

  /**
   Any run of events, printed with either line end, is collected as just those events, in order, each
   with its name and its lines of data joined by newlines.
   */
  lemma {:induction false} SentIsCollected(es: seq<Sent>, eol: string, isSpace: char -> bool)
    requires IsLineEnd(eol) && isSpace(' ') && forall e :: e in es ==> Sendable(e, isSpace)
    ensures EventsOf(ClosedBlocks(Lines(Concat(StreamLines(es, eol))).lines), isSpace) == CollectsAll(es)
  {
    StreamCollects(es, eol, isSpace);
    LinesOfLines(StreamLines(es, eol));
  }

  /** Joined data is its lines again, between newlines. */
  lemma {:induction false} JoinedLines(ds: seq<string>, d: string)
    ensures JoinLines([]) == "" && JoinLines([d]) == d
    ensures ds != [] ==> JoinLines(ds + [d]) == JoinLines(ds) + "\n" + d
  {
    if ds != [] {
      JoinAppend(ds, d);
    }
  }
}
