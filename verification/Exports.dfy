/**
 The CSV export and the shell quoting of pkg/storage/har.go, read back by the fields and records of
 RFC 4180, section 2, with its line ends or with bare newlines, and by section 2.2 of the POSIX shell
 command language.
 */
module Exports {
  import opened Bytes
  import opened Text
  import opened Sequences

  // ---------------------------------------------------------------- writing CSV

  /** What keeps a spreadsheet from taking a text for a formula. */
  function Guarded(s: string): string {
    if s != "" && s[0] in "=+-@" then "'" + s else s
  }

  /** `csvField`. */
  function CsvField(s: string): string {
    var doubled := ReplaceAll(s, "\"", "\"\"");
    "\"" + Guarded(doubled) + "\""
  }

  /** `%d`. */
  function IntText(n: int): string {
    if n < 0 then "-" + Decimal(-n) else Decimal(n)
  }

  datatype Answer = Answer(status: int, contentType: string, bodySize: int)

  /** What the export shows of a request, with its response if there is one. */
  datatype Exported = Exported(
    id: string, httpMethod: string, url: string, host: string, path: string, response: Option<Answer>,
    durationMs: int, startTime: string)

  /** A cell of the export: a quoted text, a number, or a title written as it is. */
  datatype Cell = Txt(s: string) | Num(n: int) | Title(s: string)

  function Written(c: Cell): string {
    match c
    case Txt(s) => CsvField(s)
    case Num(n) => IntText(n)
    case Title(s) => s
  }

  /** Cells between commas, ended by a newline. */
  function Line(cells: seq<Cell>): string {
    if cells == [] then "\n"
    else Written(cells[0]) + (if |cells| == 1 then "\n" else "," + Line(cells[1..]))
  }

  const TITLES := ["ID", "Method", "URL", "Host", "Path", "Status", "Content-Type", "Duration(ms)", "BodySize(bytes)", "StartTime"]

  function Header(titles: seq<string>): (cells: seq<Cell>)
    ensures |cells| == |titles|
  {
    seq(|titles|, i requires 0 <= i < |titles| => Title(titles[i]))
  }

  /** The ten cells of a row. */
  function Cells(r: Exported): (cells: seq<Cell>)
    ensures |cells| == 10
  {
    var answer := match r.response case Some(a) => a case None => Answer(0, "", 0);
    [Txt(r.id), Txt(r.httpMethod), Txt(r.url), Txt(r.host), Txt(r.path), Num(answer.status),
     Txt(answer.contentType), Num(r.durationMs), Num(answer.bodySize), Txt(r.startTime)]
  }

  function Rows(rs: seq<Exported>): string {
    if rs == [] then "" else Rows(rs[..|rs| - 1]) + Line(Cells(rs[|rs| - 1]))
  }

  method ExportToCSV(rs: seq<Exported>) returns (text: string)
    ensures text == Line(Header(TITLES)) + Rows(rs)
  {
    text := WriteRows(Line(Header(TITLES)), rs);
  }

  /** The row loop of `ExportToCSV`, onto what is written already. */
  method WriteRows(head: string, rs: seq<Exported>) returns (text: string)
    ensures text == head + Rows(rs)
  {
    text := head;
    for i := 0 to |rs|
      invariant text == head + Rows(rs[..i])
    {
      var line := Line(Cells(rs[i]));
      RowsGrow(rs, i);
      Associative(head, Rows(rs[..i]), line);
      text := text + line;
    }
    assert rs[..|rs|] == rs;
  }

  lemma {:induction false} RowsGrow(rs: seq<Exported>, i: nat)
    requires i < |rs|
    ensures Rows(rs[..i + 1]) == Rows(rs[..i]) + Line(Cells(rs[i]))
  {
    assert rs[..i + 1][..i] == rs[..i];
  }

  // ---------------------------------------------------------------- reading CSV

  /** The rest of a quoted field: a doubled quote stands for one, a single one ends the field. */
  function ReadQuoted(s: string): (r: Option<(string, string)>)
    ensures r.Some? ==> |r.value.1| < |s|
  {
    if s == "" then None
    else if s[0] != '"' then
      match ReadQuoted(s[1..])
      case None => None
      case Some((value, rest)) => Some(([s[0]] + value, rest))
    else if |s| >= 2 && s[1] == '"' then
      match ReadQuoted(s[2..])
      case None => None
      case Some((value, rest)) => Some((['"'] + value, rest))
    else Some(("", s[1..]))
  }

  predicate Plain(c: char) {
    c != ',' && c != '"' && c != '\r' && c != '\n'
  }

  /** An unquoted field. */
  function ReadPlain(s: string): (r: (string, string))
    ensures |r.1| <= |s|
  {
    if s == "" || !Plain(s[0]) then ("", s)
    else
      var (value, rest) := ReadPlain(s[1..]);
      ([s[0]] + value, rest)
  }

  function ReadField(s: string): (r: Option<(string, string)>)
    ensures r.Some? ==> |r.value.1| <= |s|
  {
    if s != "" && s[0] == '"' then ReadQuoted(s[1..]) else Some(ReadPlain(s))
  }

  /** Which line ends a reader takes: CRLF alone, as RFC 4180 has it, or a bare newline too. */
  datatype LineEnds = CrlfOnly | CrlfOrNewline

  /** The size of the line end `s` begins with, or 0 when it begins with none. */
  function LineEndSize(s: string, ends: LineEnds): (n: nat)
    ensures n <= |s|
  {
    if |s| >= 2 && s[0] == '\r' && s[1] == '\n' then 2
    else if ends == CrlfOrNewline && s != "" && s[0] == '\n' then 1
    else 0
  }

  /** A record: fields between commas, up to a line end or the end of the file. */
  function ReadRecord(s: string, ends: LineEnds): (r: Option<(seq<string>, string)>)
    ensures r.Some? ==> |r.value.1| <= |s| && (s != "" ==> |r.value.1| < |s|)
    decreases |s|
  {
    match ReadField(s)
    case None => None
    case Some((value, rest)) =>
      var n := LineEndSize(rest, ends);
      if rest == "" || n > 0 then Some(([value], rest[n..]))
      else if rest[0] == ',' then
        match ReadRecord(rest[1..], ends)
        case None => None
        case Some((more, left)) => Some(([value] + more, left))
      else None
  }

  /** A file: records up to its end. */
  function ReadFile(s: string, ends: LineEnds): Option<seq<seq<string>>>
    decreases |s|
  {
    if s == "" then Some([])
    else
      match ReadRecord(s, ends)
      case None => None
      case Some((record, rest)) =>
        match ReadFile(rest, ends)
        case None => None
        case Some(more) => Some([record] + more)
  }

  // ---------------------------------------------------------------- the round trip

  function Doubled(s: string): string {
    if s == "" then "" else (if s[0] == '"' then "\"\"" else [s[0]]) + Doubled(s[1..])
  }

  lemma {:induction false} ReplaceDoubles(s: string)
    ensures ReplaceAll(s, "\"", "\"\"") == Doubled(s)
  {
    if s != "" {
      ReplaceDoubles(s[1..]);
      assert s[..1] == [s[0]];
    }
  }

  predicate NotQuote(rest: string) {
    rest == "" || rest[0] != '"'
  }

  lemma {:induction false} QuotedReads(s: string, rest: string)
    requires NotQuote(rest)
    ensures ReadQuoted(Doubled(s) + "\"" + rest) == Some((s, rest))
  {
    var text := Doubled(s) + "\"" + rest;
    if s == "" {
      assert text == ['"'] + rest;
    } else {
      var tail := Doubled(s[1..]) + "\"" + rest;
      QuotedReads(s[1..], rest);
      var first := if s[0] == '"' then "\"\"" else [s[0]];
      assert text == first + tail;
      assert text[|first|..] == tail;
      assert [s[0]] + s[1..] == s;
    }
  }

  /** A guarded, quoted field reads back as its guarded original, before a comma or a line end. */
  lemma {:induction false} FieldReads(s: string, rest: string)
    requires NotQuote(rest)
    ensures ReadField(CsvField(s) + rest) == Some((Guarded(s), rest))
  {
    ReplaceDoubles(s);
    assert Guarded(Doubled(s)) == Doubled(Guarded(s)) by {
      if s != "" && s[0] in "=+-@" {
        assert ("'" + s)[1..] == s;
      }
    }
    QuotedReads(Guarded(s), rest);
    assert CsvField(s) + rest == ['"'] + (Doubled(Guarded(s)) + "\"" + rest);
  }

  predicate AllPlain(s: string) {
    forall i :: 0 <= i < |s| ==> Plain(s[i])
  }

  lemma {:induction false} PlainReads(s: string, rest: string)
    requires AllPlain(s) && (rest == "" || !Plain(rest[0]))
    ensures ReadPlain(s + rest) == (s, rest)
  {
    if s == "" {
      assert s + rest == rest;
    } else {
      PlainReads(s[1..], rest);
      assert (s + rest)[1..] == s[1..] + rest;
      assert [s[0]] + s[1..] == s;
    }
  }

  /** A cell that reads back: a title must not hold commas, quotes or line ends. */
  predicate Legible(c: Cell) {
    c.Title? ==> AllPlain(c.s)
  }

  /** What a cell reads back as: a text guarded, a number as its numeral. */
  function Shown(c: Cell): string {
    match c
    case Txt(s) => Guarded(s)
    case Num(n) => IntText(n)
    case Title(s) => s
  }

  function Record(cells: seq<Cell>): (values: seq<string>)
    ensures |values| == |cells|
  {
    if cells == [] then [] else [Shown(cells[0])] + Record(cells[1..])
  }

  lemma {:induction false} BareReads(s: string, rest: string)
    requires AllPlain(s) && rest != "" && (rest[0] == ',' || rest[0] == '\n')
    ensures ReadField(s + rest) == Some((s, rest))
  {
    PlainReads(s, rest);
    assert (s + rest)[0] == if s == "" then rest[0] else s[0];
  }

  lemma {:induction false} CellReads(c: Cell, rest: string)
    requires Legible(c) && rest != "" && (rest[0] == ',' || rest[0] == '\n')
    ensures ReadField(Written(c) + rest) == Some((Shown(c), rest))
  {
    match c {
      case Txt(s) => FieldReads(s, rest);
      case Num(n) =>
        assert AllPlain(IntText(n));
        BareReads(IntText(n), rest);
      case Title(s) => BareReads(s, rest);
    }
  }

  lemma {:induction false} LineUnfolds(cells: seq<Cell>, rest: string)
    requires cells != []
    ensures |cells| == 1 ==> Line(cells) + rest == Written(cells[0]) + (['\n'] + rest)
    ensures |cells| > 1 ==> Line(cells) + rest == Written(cells[0]) + ([','] + (Line(cells[1..]) + rest))
  {
    if |cells| == 1 {
      Associative(Written(cells[0]), ['\n'], rest);
    } else {
      var tail := Line(cells[1..]);
      Associative([','], tail, rest);
      Associative(Written(cells[0]), [','] + tail, rest);
    }
  }

  /** A written line reads back as its cells, or not at all where only CRLF ends a line. */
  lemma {:induction false} LineReads(cells: seq<Cell>, rest: string, ends: LineEnds)
    requires cells != [] && forall c :: c in cells ==> Legible(c)
    ensures ReadRecord(Line(cells) + rest, ends)
         == if ends == CrlfOrNewline then Some((Record(cells), rest)) else None
    decreases |cells|
  {
    LineUnfolds(cells, rest);
    if |cells| == 1 {
      CellReads(cells[0], ['\n'] + rest);
      LastCell(cells[0], rest, ends);
      assert cells[1..] == [];
      assert Record(cells) == [Shown(cells[0])];
    } else {
      var tail := Line(cells[1..]) + rest;
      LineReads(cells[1..], rest, ends);
      CellReads(cells[0], [','] + tail);
      FirstCell(cells[0], tail, ends);
    }
  }

  lemma {:induction false} LastCell(c: Cell, rest: string, ends: LineEnds)
    requires ReadField(Written(c) + (['\n'] + rest)) == Some((Shown(c), ['\n'] + rest))
    ensures ReadRecord(Written(c) + (['\n'] + rest), ends)
         == if ends == CrlfOrNewline then Some(([Shown(c)], rest)) else None
  {
    assert (['\n'] + rest)[1..] == rest;
  }

  lemma {:induction false} FirstCell(c: Cell, tail: string, ends: LineEnds)
    requires ReadField(Written(c) + ([','] + tail)) == Some((Shown(c), [','] + tail))
    ensures ReadRecord(Written(c) + ([','] + tail), ends)
         == match ReadRecord(tail, ends) case None => None case Some((more, left)) => Some(([Shown(c)] + more, left))
  {
    assert ([','] + tail)[1..] == tail;
  }

  function Records(rs: seq<Exported>): seq<seq<string>> {
    if rs == [] then [] else Records(rs[..|rs| - 1]) + [Record(Cells(rs[|rs| - 1]))]
  }

  lemma {:induction false} FileReads(cells: seq<Cell>, rest: string)
    requires cells != [] && (forall c :: c in cells ==> Legible(c)) && ReadFile(rest, CrlfOrNewline).Some?
    ensures ReadFile(Line(cells) + rest, CrlfOrNewline) == Some([Record(cells)] + ReadFile(rest, CrlfOrNewline).value)
  {
    LineReads(cells, rest, CrlfOrNewline);
    assert |Line(cells)| >= 1;
  }

  lemma {:induction false} RowsRead(rs: seq<Exported>, rest: string)
    requires ReadFile(rest, CrlfOrNewline).Some?
    ensures ReadFile(Rows(rs) + rest, CrlfOrNewline) == Some(Records(rs) + ReadFile(rest, CrlfOrNewline).value)
  {
    if rs == [] {
      assert Rows(rs) + rest == rest;
      assert Records(rs) + ReadFile(rest, CrlfOrNewline).value == ReadFile(rest, CrlfOrNewline).value;
    } else {
      var front, cells := rs[..|rs| - 1], Cells(rs[|rs| - 1]);
      FileReads(cells, rest);
      RowsRead(front, Line(cells) + rest);
      Associative(Rows(front), Line(cells), rest);
      Associative(Records(front), [Record(cells)], ReadFile(rest, CrlfOrNewline).value);
    }
  }

  /**
   A reader that takes newlines for line ends reads the export as one header and, for each request in
   order, its record of ten fields. One that takes only the line ends of RFC 4180 reads no export at all.
   */
  lemma {:induction false} ExportReadsBack(rs: seq<Exported>)
    ensures ReadFile(Line(Header(TITLES)) + Rows(rs), CrlfOrNewline) == Some([TITLES] + Records(rs))
    ensures ReadFile(Line(Header(TITLES)) + Rows(rs), CrlfOnly) == None
    ensures forall r :: r in Records(rs) ==> |r| == 10
  {
    RowsReadAlone(rs);
    var cells := Header(TITLES);
    TitlesArePlain();
    HeaderReads(TITLES);
    FileReads(cells, Rows(rs));
    LineReads(cells, Rows(rs), CrlfOnly);
    RecordsHaveTenFields(rs);
  }


  /** The ten columns of a request. Without a response there is no status, type or size: zero, nothing and zero. */
  lemma {:induction false} RecordInColumns(r: Exported)
    ensures var record := Record(Cells(r));
            && |record| == 10
            && record[..5] == [Guarded(r.id), Guarded(r.httpMethod), Guarded(r.url), Guarded(r.host), Guarded(r.path)]
            && record[7] == IntText(r.durationMs) && record[9] == Guarded(r.startTime)
            && (r.response == None ==> record[5] == "0" && record[6] == "" && record[8] == "0")
            && (r.response.Some? ==>
                  && record[5] == IntText(r.response.value.status) && record[6] == Guarded(r.response.value.contentType)
                  && record[8] == IntText(r.response.value.bodySize))
  {
    var cells := Cells(r);
    assert forall i :: 0 <= i < 10 ==> Record(cells)[i] == Shown(cells[i]) by {
      forall i | 0 <= i < 10
        ensures Record(cells)[i] == Shown(cells[i])
      {
        RecordAt(cells, i);
      }
    }
    assert IntText(0) == "0" by {
      DecimalDigit(0);
    }
  }

  lemma {:induction false} RecordAt(cells: seq<Cell>, i: nat)
    requires i < |cells|
    ensures Record(cells)[i] == Shown(cells[i])
  {
    if i > 0 {
      RecordAt(cells[1..], i - 1);
    }
  }

  /** One record a request, in order, under the ten titles. */
  lemma {:induction false} RecordsInOrder(rs: seq<Exported>, i: nat)
    requires i < |rs|
    ensures |Records(rs)| == |rs| && Records(rs)[i] == Record(Cells(rs[i]))
    ensures |TITLES| == 10 && TITLES[0] == "ID" && TITLES[1] == "Method" && TITLES[2] == "URL" && TITLES[3] == "Host"
    ensures TITLES[4] == "Path" && TITLES[5] == "Status" && TITLES[6] == "Content-Type" && TITLES[7] == "Duration(ms)"
    ensures TITLES[8] == "BodySize(bytes)" && TITLES[9] == "StartTime"
  {
    RecordsAt(rs, i);
  }

  lemma {:induction false} RecordsAt(rs: seq<Exported>, i: nat)
    requires i < |rs|
    ensures |Records(rs)| == |rs| && Records(rs)[i] == Record(Cells(rs[i]))
    decreases |rs|
  {
    if |rs| > 1 {
      RecordsAt(rs[..|rs| - 1], if i < |rs| - 1 then i else 0);
    }
  }

  /** A text that a spreadsheet would take for a formula gets a sign in front; any other stays as it is. */
  lemma {:induction false} GuardedExactly(s: string)
    ensures var formula := s != "" && (s[0] == '=' || s[0] == '+' || s[0] == '-' || s[0] == '@');
            Guarded(s) == if formula then "'" + s else s
    ensures Guarded(s) != "" ==> Guarded(s)[0] !in {'=', '+', '-', '@'}
  {
  }

  /** A number is its sign, if it is negative, and its numeral. */
  lemma {:induction false} IntTextReadsBack(n: int)
    ensures n >= 0 ==> Digits(IntText(n)) && Numeral(IntText(n)) == n
    ensures n < 0 ==> IntText(n)[0] == '-' && Digits(IntText(n)[1..]) && Numeral(IntText(n)[1..]) == -n
    ensures n != 0 ==> |IntText(n)| > 0 && IntText(n)[if n < 0 then 1 else 0] != '0'
  {
    var m := if n < 0 then -n else n;
    NumeralOfDecimal(m);
    DecimalStarts(m);
    if n < 0 {
      assert IntText(n)[1..] == Decimal(m);
    }
  }

  lemma {:induction false} TitlesArePlain()
    ensures forall i :: 0 <= i < |TITLES| ==> AllPlain(TITLES[i])
  {
    assert AllPlain("ID") && AllPlain("Method") && AllPlain("URL") && AllPlain("Host") && AllPlain("Path");
    assert AllPlain("Status") && AllPlain("Content-Type") && AllPlain("Duration(ms)") && AllPlain("BodySize(bytes)");
    assert AllPlain("StartTime");
  }

  lemma {:induction false} HeaderReads(titles: seq<string>)
    ensures Record(Header(titles)) == titles
  {
    if titles != [] {
      HeaderReads(titles[1..]);
      assert Header(titles)[1..] == Header(titles[1..]);
    }
  }

  lemma {:induction false} RowsReadAlone(rs: seq<Exported>)
    ensures ReadFile(Rows(rs), CrlfOrNewline) == Some(Records(rs))
  {
    RowsRead(rs, "");
    assert Rows(rs) + "" == Rows(rs);
    assert Records(rs) + [] == Records(rs);
  }

  lemma {:induction false} RecordsHaveTenFields(rs: seq<Exported>)
    ensures forall r :: r in Records(rs) ==> |r| == 10
  {
    if rs != [] {
      RecordsHaveTenFields(rs[..|rs| - 1]);
    }
  }

  // ---------------------------------------------------------------- shell quoting

  /** `shellQuote`. */
  function ShellQuote(s: string): string {
    "'" + ReplaceAll(s, "'", "'\\''") + "'"
  }

  predicate Blank(c: char) {
    c == ' ' || c == '\t' || c == '\n'
  }

  /** The characters that mean something to the shell outside quotes. */
  predicate Operator(c: char) {
    c in "|&;<>()$`\"*?[#~=%!{}"
  }

  /**
   The word at the front of a command, with its quotes removed, and what follows it: plain
   characters, characters after a backslash, and single-quoted stretches. None outside these.
   */
  function LexWord(s: string): Option<(string, string)>
    decreases |s|, 1
  {
    if s == "" || Blank(s[0]) then Some(("", s))
    else if s[0] == '\'' then LexSingle(s[1..])
    else if s[0] == '\\' then
      if |s| < 2 || s[1] == '\n' then None
      else
        match LexWord(s[2..])
        case None => None
        case Some((word, rest)) => Some(([s[1]] + word, rest))
    else if Operator(s[0]) then None
    else
      match LexWord(s[1..])
      case None => None
      case Some((word, rest)) => Some(([s[0]] + word, rest))
  }

  /** Inside single quotes every character stands for itself, up to the next single quote. */
  function LexSingle(s: string): Option<(string, string)>
    decreases |s|, 0
  {
    if s == "" then None
    else if s[0] == '\'' then LexWord(s[1..])
    else
      match LexSingle(s[1..])
      case None => None
      case Some((word, rest)) => Some(([s[0]] + word, rest))
  }

  function Escaped(s: string): string {
    if s == "" then "" else (if s[0] == '\'' then "'\\''" else [s[0]]) + Escaped(s[1..])
  }

  lemma {:induction false} ReplaceEscapes(s: string)
    ensures ReplaceAll(s, "'", "'\\''") == Escaped(s)
  {
    if s != "" {
      ReplaceEscapes(s[1..]);
      assert s[..1] == [s[0]];
    }
  }

  lemma {:induction false} QuoteReopens(tail: string)
    ensures LexSingle("'\\''" + tail)
         == match LexSingle(tail) case None => None case Some((word, rest)) => Some((['\''] + word, rest))
  {
    var t0 := "'\\''" + tail;
    assert t0[1..] == "\\''" + tail;
    var t1 := "\\''" + tail;
    assert t1[2..] == "'" + tail;
    assert ("'" + tail)[1..] == tail;
    assert LexWord("'" + tail) == LexSingle(tail);
  }

  lemma {:induction false} SingleReads(s: string, rest: string)
    requires rest == "" || Blank(rest[0])
    ensures LexSingle(Escaped(s) + "'" + rest) == Some((s, rest))
  {
    if s == "" {
      assert Escaped(s) + "'" + rest == ['\''] + rest;
    } else {
      var tail := Escaped(s[1..]) + "'" + rest;
      SingleReads(s[1..], rest);
      if s[0] == '\'' {
        QuoteReopens(tail);
        assert Escaped(s) + "'" + rest == "'\\''" + tail;
        assert "'\\''" + tail == Escaped(s) + "'" + rest;
      } else {
        assert Escaped(s) + "'" + rest == [s[0]] + tail;
      }
      assert [s[0]] + s[1..] == s;
    }
  }

  /** A quoted value is one word of the shell, and that word is the value, whatever it contains. */
  lemma {:induction false} ShellReadsBack(s: string, rest: string)
    requires rest == "" || Blank(rest[0])
    ensures LexWord(ShellQuote(s) + rest) == Some((s, rest))
  {
    ReplaceEscapes(s);
    SingleReads(s, rest);
    assert ShellQuote(s) + rest == ['\''] + (Escaped(s) + "'" + rest);
  }
}
