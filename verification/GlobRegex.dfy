/**
 Host and URL patterns: how pkg/interceptor/filter.go, hosts.go and rewrite.go turn a glob into the
 text of a regular expression, and what that text means.

 The meaning is not read off the construction: the text is parsed by the grammar of the regular
 expressions it uses, and the parsed expression is matched by its own semantics.
 */
module GlobRegex {
  import opened Bytes
  import opened Text

  // ---------------------------------------------------------------- regular expressions

  /** The part of the RE2 syntax that the pattern compilers emit. */
  datatype Re =
    | Empty
    | Lit(c: char)
    | AnyChar
    | Begin
    | End
    | Cat(first: Re, second: Re)
    | Star(body: Re)
    | Opt(body: Re)

  /**
   A compiled expression. Characters are compared after `fold`: the identity, or a case folding when
   the text began with the flag `(?i)`.
   */
  datatype Regex = Regex(re: Re, ignoreCase: bool)

  /** `re` matches the characters of `s` from `i` up to `j`. A dot does not match a newline. */
  predicate Matches(re: Re, s: string, i: nat, j: nat, fold: char -> char)
    requires i <= j <= |s|
    decreases re, j - i
  {
    match re
    case Empty => i == j
    case Lit(c) => j == i + 1 && fold(s[i]) == fold(c)
    case AnyChar => j == i + 1 && s[i] != '\n'
    case Begin => i == j == 0
    case End => i == j == |s|
    case Cat(a, b) => exists k :: i <= k <= j && Matches(a, s, i, k, fold) && Matches(b, s, k, j, fold)
    case Star(a) =>
      i == j || exists k :: i < k <= j && Matches(a, s, i, k, fold) && Matches(Star(a), s, k, j, fold)
    case Opt(a) => i == j || Matches(a, s, i, j, fold)
  }

  function Identity(c: char): char {
    c
  }

  predicate MatchesSomewhere(re: Re, s: string, fold: char -> char) {
    exists i, j :: 0 <= i <= j <= |s| && Matches(re, s, i, j, fold)
  }

  /** `MatchString`: the expression matches somewhere in `s`. */
  predicate MatchString(r: Regex, s: string, fold: char -> char) {
    MatchesSomewhere(r.re, s, if r.ignoreCase then fold else Identity)
  }

  /** `strings.EqualFold`, `strings.TrimSpace` and the compiler of user expressions. */
  datatype Library = Library(fold: char -> char, isSpace: char -> bool, compileUser: string -> Option<Regex>)

  // ---------------------------------------------------------------- their syntax

  /** The characters `regexp.QuoteMeta` escapes. */
  predicate Special(c: char) {
    c in "\\.+*?()|[]{}^$"
  }

  /** A sequence of items, up to the end of the text or a closing parenthesis; and what is left. */
  function ParseItems(text: string): (r: Option<(Re, string)>)
    ensures r.Some? ==> |r.value.1| <= |text|
    decreases |text|, 2
  {
    if text == "" || text[0] == ')' then Some((Empty, text))
    else
      match ParseItem(text)
      case None => None
      case Some((re, rest)) =>
        match ParseItems(rest)
        case None => None
        case Some((more, left)) => Some((Cat(re, more), left))
  }

  /** An atom and the repetition sign after it, if there is one. */
  function ParseItem(text: string): (r: Option<(Re, string)>)
    requires text != ""
    ensures r.Some? ==> |r.value.1| < |text|
    decreases |text|, 1
  {
    match ParseAtom(text)
    case None => None
    case Some((re, rest)) =>
      if rest != "" && rest[0] == '*' then Some((Star(re), rest[1..]))
      else if rest != "" && rest[0] == '?' then Some((Opt(re), rest[1..]))
      else Some((re, rest))
  }

  function ParseAtom(text: string): (r: Option<(Re, string)>)
    requires text != ""
    ensures r.Some? ==> |r.value.1| < |text|
    decreases |text|, 0
  {
    var c := text[0];
    if c == '\\' then
      if |text| >= 2 && Special(text[1]) then Some((Lit(text[1]), text[2..])) else None
    else if c == '.' then Some((AnyChar, text[1..]))
    else if c == '^' then Some((Begin, text[1..]))
    else if c == '$' then Some((End, text[1..]))
    else if c == '(' then
      match ParseItems(text[1..])
      case None => None
      case Some((re, rest)) => if rest != "" && rest[0] == ')' then Some((re, rest[1..])) else None
    else if Special(c) then None
    else Some((Lit(c), text[1..]))
  }

  /** `regexp.Compile` on this part of the syntax; None is a compile error. */
  function Compile(text: string): Option<Regex> {
    var ignoreCase := HasPrefix(text, "(?i)");
    match ParseItems(if ignoreCase then text[4..] else text)
    case Some((re, rest)) => if rest == "" then Some(Regex(re, ignoreCase)) else None
    case None => None
  }

  // ---------------------------------------------------------------- globs

  /** `s` matches the glob `p`: a star stands for any characters, anything else for itself. */
  predicate Glob(p: string, s: string, fold: char -> char)
    decreases |p|
  {
    if p == "" then s == ""
    else if p[0] == '*' then exists k :: 0 <= k <= |s| && Glob(p[1..], s[k..], fold)
    else s != "" && fold(s[0]) == fold(p[0]) && Glob(p[1..], s[1..], fold)
  }

  predicate NoNewline(s: string) {
    forall i :: 0 <= i < |s| ==> s[i] != '\n'
  }

  /** As `Glob`, but a star does not stand for a newline. */
  predicate LineGlob(p: string, s: string, fold: char -> char)
    decreases |p|
  {
    if p == "" then s == ""
    else if p[0] == '*' then exists k :: 0 <= k <= |s| && NoNewline(s[..k]) && LineGlob(p[1..], s[k..], fold)
    else s != "" && fold(s[0]) == fold(p[0]) && LineGlob(p[1..], s[1..], fold)
  }

  /** On strings without a newline the two readings of a glob are the same. */
  lemma {:induction false} LineGlobIsGlob(p: string, s: string, fold: char -> char)
    requires NoNewline(s)
    ensures LineGlob(p, s, fold) <==> Glob(p, s, fold)
    decreases |p|
  {
    if p != "" {
      if p[0] == '*' {
        forall k | 0 <= k <= |s|
          ensures LineGlob(p[1..], s[k..], fold) <==> Glob(p[1..], s[k..], fold)
        {
          LineGlobIsGlob(p[1..], s[k..], fold);
        }
        assert forall k :: 0 <= k <= |s| ==> NoNewline(s[..k]);
      } else if s != "" {
        LineGlobIsGlob(p[1..], s[1..], fold);
      }
    }
  }

  /** With a newline they are not: a lone star matches everything as a glob, but only a single line here. */
  lemma {:induction false} LoneStar(s: string, fold: char -> char)
    ensures Glob("*", s, fold)
    ensures LineGlob("*", s, fold) <==> NoNewline(s)
  {
    assert s[..|s|] == s && s[|s|..] == "";
    assert "*"[1..] == "";
    assert Glob("", s[|s|..], fold) && LineGlob("", s[|s|..], fold);
  }

  // ---------------------------------------------------------------- the text

  /** `regexp.QuoteMeta`. */
  function QuoteMeta(p: string): string {
    if p == "" then "" else (if Special(p[0]) then ['\\', p[0]] else [p[0]]) + QuoteMeta(p[1..])
  }

  /** Quote a pattern, then open its quoted stars again. */
  function GlobText(p: string): string {
    ReplaceAll(QuoteMeta(p), "\\*", ".*")
  }

  /** What each character of a pattern becomes. */
  function Piece(c: char): string {
    if c == '*' then ".*" else if Special(c) then ['\\', c] else [c]
  }

  function Pieces(p: string): string {
    if p == "" then "" else Piece(p[0]) + Pieces(p[1..])
  }

  /** A quoted pattern never begins with a star, so no star is opened across a quoted backslash. */
  lemma {:induction false} QuotedStart(p: string)
    ensures QuoteMeta(p) == "" || QuoteMeta(p)[0] != '*'
  {
  }

  lemma {:induction false} ReplaceSkips(c: char, rest: string)
    requires c != '\\' || rest == "" || rest[0] != '*'
    ensures ReplaceAll([c] + rest, "\\*", ".*") == [c] + ReplaceAll(rest, "\\*", ".*")
  {
    var s := [c] + rest;
    if |s| >= 2 {
      assert s[..2] == [c, rest[0]];
      assert s[1..] == rest;
    }
  }

  lemma {:induction false} ReplaceSkipsQuoted(c: char, rest: string)
    requires c != '*' && (c != '\\' || rest == "" || rest[0] != '*')
    ensures ReplaceAll(['\\', c] + rest, "\\*", ".*") == ['\\', c] + ReplaceAll(rest, "\\*", ".*")
  {
    ReplaceSkips('\\', [c] + rest);
    ReplaceSkips(c, rest);
    OneThenOne('\\', c, rest);
    OneThenOne('\\', c, ReplaceAll(rest, "\\*", ".*"));
  }

  lemma {:induction false} OneThenOne(c: char, d: char, rest: string)
    ensures [c, d] + rest == [c] + ([d] + rest)
  {
  }

  /** The replacement touches exactly the stars of the pattern, backslashes before them or not. */
  lemma {:induction false} GlobTextIsPieces(p: string)
    ensures GlobText(p) == Pieces(p)
    decreases |p|
  {
    if p != "" {
      var c, rest := p[0], QuoteMeta(p[1..]);
      GlobTextIsPieces(p[1..]);
      QuotedStart(p[1..]);
      if c == '*' {
        var text := QuoteMeta(p);
        assert text[..2] == "\\*" && text[2..] == rest;
      } else if Special(c) {
        ReplaceSkipsQuoted(c, rest);
        assert QuoteMeta(p) == ['\\', c] + rest;
      } else {
        ReplaceSkips(c, rest);
      }
    }
  }

  // ---------------------------------------------------------------- what the text means

  /** The expression a pattern's text parses to, in front of what follows it. */
  function GlobRe(p: string, tail: Re): Re {
    if p == "" then tail
    else Cat(if p[0] == '*' then Star(AnyChar) else Lit(p[0]), GlobRe(p[1..], tail))
  }

  /** A repetition sign would be taken with the last piece of the pattern. */
  predicate NoSign(rest: string) {
    rest == "" || (rest[0] != '*' && rest[0] != '?')
  }

  lemma {:induction false} PiecesStart(p: string, rest: string)
    requires NoSign(rest)
    ensures NoSign(Pieces(p) + rest)
  {
    if p != "" {
      assert (Pieces(p) + rest)[0] == Piece(p[0])[0];
    } else {
      assert Pieces(p) + rest == rest;
    }
  }

  lemma {:induction false} PieceParses(c: char, rest: string)
    requires NoSign(rest)
    ensures ParseItem(Piece(c) + rest) == Some((if c == '*' then Star(AnyChar) else Lit(c), rest))
  {
    var text := Piece(c) + rest;
    if c == '*' {
      assert text[1..] == "*" + rest && text[1..][1..] == rest;
    } else if Special(c) {
      assert text[1] == c && text[2..] == rest;
    } else {
      assert text[1..] == rest;
    }
  }

  lemma {:induction false} PiecesParse(p: string, rest: string)
    requires NoSign(rest) && ParseItems(rest).Some?
    ensures ParseItems(Pieces(p) + rest)
         == Some((GlobRe(p, ParseItems(rest).value.0), ParseItems(rest).value.1))
    decreases |p|
  {
    if p == "" {
      assert Pieces(p) + rest == rest;
    } else {
      var after := Pieces(p[1..]) + rest;
      assert Pieces(p) + rest == Piece(p[0]) + after;
      PiecesStart(p[1..], rest);
      PieceParses(p[0], after);
      PiecesParse(p[1..], rest);
      assert (Pieces(p) + rest)[0] != ')';
    }
  }

  lemma {:induction false} StarMatches(s: string, i: nat, j: nat, fold: char -> char)
    requires i <= j <= |s|
    ensures Matches(Star(AnyChar), s, i, j, fold) <==> NoNewline(s[i..j])
    decreases j - i
  {
    if i < j {
      StarMatches(s, i + 1, j, fold);
      var t := s[i..j];
      assert t[0] == s[i] && t[1..] == s[i + 1..j];
      assert NoNewline(t) <==> t[0] != '\n' && NoNewline(t[1..]);
      if NoNewline(s[i..j]) {
        assert Matches(AnyChar, s, i, i + 1, fold);
      }
    }
  }

  /** The expression of a pattern matches some characters that match the glob, then the tail. */
  lemma {:induction false} GlobReMatches(p: string, tail: Re, s: string, i: nat, j: nat, fold: char -> char)
    requires i <= j <= |s|
    ensures Matches(GlobRe(p, tail), s, i, j, fold)
       <==> exists k :: i <= k <= j && LineGlob(p, s[i..k], fold) && Matches(tail, s, k, j, fold)
    decreases |p|, 1
  {
    if p == "" {
      assert s[i..i] == "";
      assert forall k :: i <= k <= j && s[i..k] == "" ==> k == i;
    } else {
      if Matches(GlobRe(p, tail), s, i, j, fold) {
        var k := GlobReFirst(p, tail, s, i, j, fold);
      }
      if k :| i <= k <= j && LineGlob(p, s[i..k], fold) && Matches(tail, s, k, j, fold) {
        GlobReJoin(p, tail, s, i, k, j, fold);
      }
    }
  }

  lemma {:induction false} CatSplit(a: Re, b: Re, s: string, i: nat, j: nat, fold: char -> char) returns (k: nat)
    requires i <= j <= |s| && Matches(Cat(a, b), s, i, j, fold)
    ensures i <= k <= j && Matches(a, s, i, k, fold) && Matches(b, s, k, j, fold)
  {
    k :| i <= k <= j && Matches(a, s, i, k, fold) && Matches(b, s, k, j, fold);
  }

  lemma {:induction false} CatJoin(a: Re, b: Re, s: string, i: nat, k: nat, j: nat, fold: char -> char)
    requires i <= k <= j <= |s| && Matches(a, s, i, k, fold) && Matches(b, s, k, j, fold)
    ensures Matches(Cat(a, b), s, i, j, fold)
  {
  }

  lemma {:induction false} GlobReFirst(p: string, tail: Re, s: string, i: nat, j: nat, fold: char -> char) returns (k: nat)
    requires i <= j <= |s| && p != "" && Matches(GlobRe(p, tail), s, i, j, fold)
    ensures i <= k <= j && LineGlob(p, s[i..k], fold) && Matches(tail, s, k, j, fold)
    decreases |p|, 0
  {
    var m := CatSplit(if p[0] == '*' then Star(AnyChar) else Lit(p[0]), GlobRe(p[1..], tail), s, i, j, fold);
    GlobReMatches(p[1..], tail, s, m, j, fold);
    k :| m <= k <= j && LineGlob(p[1..], s[m..k], fold) && Matches(tail, s, k, j, fold);
    StarMatches(s, i, m, fold);
    HeadGlob(p, s, i, m, k, fold);
  }

  lemma {:induction false} GlobReJoin(p: string, tail: Re, s: string, i: nat, k: nat, j: nat, fold: char -> char)
    requires i <= k <= j <= |s| && p != "" && LineGlob(p, s[i..k], fold) && Matches(tail, s, k, j, fold)
    ensures Matches(GlobRe(p, tail), s, i, j, fold)
    decreases |p|, 0
  {
    var m := GlobHead(p, s, i, k, fold);
    StarMatches(s, i, m, fold);
    GlobReMatches(p[1..], tail, s, m, j, fold);
    CatJoin(if p[0] == '*' then Star(AnyChar) else Lit(p[0]), GlobRe(p[1..], tail), s, i, m, j, fold);
  }

  lemma {:induction false} GlobReSplit(p: string, tail: Re, s: string, i: nat, j: nat, fold: char -> char) returns (k: nat)
    requires i <= j <= |s| && Matches(GlobRe(p, tail), s, i, j, fold)
    ensures i <= k <= j && LineGlob(p, s[i..k], fold) && Matches(tail, s, k, j, fold)
  {
    GlobReMatches(p, tail, s, i, j, fold);
    k :| i <= k <= j && LineGlob(p, s[i..k], fold) && Matches(tail, s, k, j, fold);
  }

  /** A glob is matched by what its first character stands for, followed by the rest. */
  lemma {:induction false} HeadGlob(p: string, s: string, i: nat, m: nat, k: nat, fold: char -> char)
    requires p != "" && i <= m <= k <= |s| && LineGlob(p[1..], s[m..k], fold)
    requires if p[0] == '*' then NoNewline(s[i..m]) else m == i + 1 && fold(s[i]) == fold(p[0])
    ensures LineGlob(p, s[i..k], fold)
  {
    var t := s[i..k];
    assert t[..m - i] == s[i..m] && t[m - i..] == s[m..k];
  }

  lemma {:induction false} GlobHead(p: string, s: string, i: nat, k: nat, fold: char -> char) returns (m: nat)
    requires p != "" && i <= k <= |s| && LineGlob(p, s[i..k], fold)
    ensures i <= m <= k && LineGlob(p[1..], s[m..k], fold)
    ensures if p[0] == '*' then NoNewline(s[i..m]) else m == i + 1 && fold(s[i]) == fold(p[0])
  {
    var t := s[i..k];
    if p[0] == '*' {
      var n :| 0 <= n <= |t| && NoNewline(t[..n]) && LineGlob(p[1..], t[n..], fold);
      m := i + n;
      assert t[..n] == s[i..m] && t[n..] == s[m..k];
    } else {
      m := i + 1;
      assert t[1..] == s[m..k];
    }
  }

  // ---------------------------------------------------------------- anchored patterns

  /** The text a host pattern is compiled from: anchored at both ends. */
  function HostText(p: string): string {
    "^" + GlobText(p) + "$"
  }

  /**
   For every pattern the text is well formed, and what it compiles to matches a host exactly when
   the host matches the glob with stars that stop at newlines; on a host without newlines, exactly
   when it matches the glob.
   */
  lemma {:induction false} HostTextMeansGlob(p: string, s: string, fold: char -> char)
    ensures Compile(HostText(p)).Some?
    ensures MatchString(Compile(HostText(p)).value, s, fold) <==> LineGlob(p, s, Identity)
    ensures NoNewline(s) ==> (MatchString(Compile(HostText(p)).value, s, fold) <==> Glob(p, s, Identity))
  {
    if NoNewline(s) {
      LineGlobIsGlob(p, s, Identity);
    }
    GlobTextIsPieces(p);
    var text := HostText(p);
    assert text == ['^'] + (Pieces(p) + "$");
    assert ParseItems("$") == Some((Cat(End, Empty), "")) by {
      assert ParseItem("$") == Some((End, ""));
    }
    PiecesParse(p, "$");
    PiecesStart(p, "$");
    assert text[1..] == Pieces(p) + "$";
    var body := GlobRe(p, Cat(End, Empty));
    assert ParseItem(text) == Some((Begin, text[1..]));
    assert ParseItems(text) == Some((Cat(Begin, body), ""));
    assert text[0] != '(' && !HasPrefix(text, "(?i)");
    AnchoredMatches(p, s);
    assert Compile(text) == Some(Regex(Cat(Begin, body), false));
  }

  lemma {:induction false} AtEnd(s: string, i: nat, j: nat)
    requires i <= j <= |s|
    ensures Matches(Cat(End, Empty), s, i, j, Identity) <==> i == j == |s|
  {
    if i == j == |s| {
      assert Matches(End, s, i, i, Identity) && Matches(Empty, s, i, i, Identity);
    }
  }

  lemma {:induction false} AnchoredMatches(p: string, s: string)
    ensures MatchesSomewhere(Cat(Begin, GlobRe(p, Cat(End, Empty))), s, Identity) <==> LineGlob(p, s, Identity)
  {
    var tail := Cat(End, Empty);
    var body := GlobRe(p, tail);
    assert s[0..|s|] == s;
    if MatchesSomewhere(Cat(Begin, body), s, Identity) {
      var i, j :| 0 <= i <= j <= |s| && Matches(Cat(Begin, body), s, i, j, Identity);
      var m := CatSplit(Begin, body, s, i, j, Identity);
      var k := GlobReSplit(p, tail, s, 0, j, Identity);
      AtEnd(s, k, j);
    }
    if LineGlob(p, s, Identity) {
      AtEnd(s, |s|, |s|);
      GlobReMatches(p, tail, s, 0, |s|, Identity);
      CatJoin(Begin, body, s, 0, 0, |s|, Identity);
    }
  }

  // ---------------------------------------------------------------- URL patterns

  const SCHEME := "(https?://)?"

  /** The text a URL pattern without the `regex:` prefix is compiled from: not anchored, ignoring case. */
  function UrlText(p: string): string {
    "(?i)" + (if Contains(p, "://") then "" else SCHEME) + GlobText(p)
  }

  /** The expression of the optional scheme. */
  function SchemeRe(): Re {
    Opt(Cat(Lit('h'), Cat(Lit('t'), Cat(Lit('t'), Cat(Lit('p'),
      Cat(Opt(Lit('s')), SlashesRe()))))))
  }

  function SlashesRe(): Re {
    Cat(Lit(':'), Cat(Lit('/'), Cat(Lit('/'), Empty)))
  }

  lemma {:induction false} SlashesParse(close: string)
    requires close != "" && close[0] == ')'
    ensures ParseItems([':'] + (['/'] + (['/'] + close))) == Some((SlashesRe(), close))
  {
    ParseLiteral('/', close);
    ParseLiteral('/', ['/'] + close);
    ParseLiteral(':', ['/'] + (['/'] + close));
  }

  lemma {:induction false} OptionalParses(c: char, rest: string)
    requires !Special(c) && c != ')' && ParseItems(rest).Some?
    ensures var text := [c] + (['?'] + rest);
            ParseItems(text) == Some((Cat(Opt(Lit(c)), ParseItems(rest).value.0), ParseItems(rest).value.1))
  {
    var text := [c] + (['?'] + rest);
    assert text[1..] == ['?'] + rest && text[1..][1..] == rest;
    assert ParseItem(text) == Some((Opt(Lit(c)), rest));
  }

  lemma {:induction false} LettersParse(close: string)
    requires close != "" && close[0] == ')'
    ensures ParseItems("https?://" + close) == Some((SchemeRe().body, close))
  {
    var colon := [':'] + (['/'] + (['/'] + close));
    var optional := ['s'] + (['?'] + colon);
    SlashesParse(close);
    OptionalParses('s', colon);
    ParseLiteral('p', optional);
    ParseLiteral('t', ['p'] + optional);
    ParseLiteral('t', ['t'] + (['p'] + optional));
    ParseLiteral('h', ['t'] + (['t'] + (['p'] + optional)));
    LettersOf(close);
  }

  lemma {:induction false} LettersOf(close: string)
    ensures "https?://" + close
         == ['h'] + (['t'] + (['t'] + (['p'] + (['s'] + (['?'] + ([':'] + (['/'] + (['/'] + close))))))))
  {
  }

  /** The optional scheme is well formed, whatever text follows it. */
  lemma {:induction false} SchemeParses(rest: string)
    requires ParseItems(rest).Some?
    ensures ParseItems(SCHEME + rest) == Some((Cat(SchemeRe(), ParseItems(rest).value.0), ParseItems(rest).value.1))
  {
    var close := ")?" + rest;
    LettersParse(close);
    assert (SCHEME + rest)[1..] == "https?://" + close;
    assert close[1..] == "?" + rest && close[1..][1..] == rest;
    assert ParseItem(SCHEME + rest) == Some((SchemeRe(), rest));
  }

  lemma {:induction false} ParseLiteral(c: char, rest: string)
    requires !Special(c) && c != ')' && NoSign(rest) && ParseItems(rest).Some?
    ensures ParseItems([c] + rest) == Some((Cat(Lit(c), ParseItems(rest).value.0), ParseItems(rest).value.1))
  {
    assert ([c] + rest)[1..] == rest;
    assert ParseItem([c] + rest) == Some((Lit(c), rest));
  }

  /** Some characters of `s` next to each other match the glob. */
  predicate GlobWithin(p: string, s: string, fold: char -> char) {
    exists i, j :: 0 <= i <= j <= |s| && LineGlob(p, s[i..j], fold)
  }

  lemma {:induction false} UnanchoredMatches(p: string, s: string, fold: char -> char)
    ensures MatchesSomewhere(GlobRe(p, Empty), s, fold) <==> GlobWithin(p, s, fold)
    ensures MatchesSomewhere(Cat(SchemeRe(), GlobRe(p, Empty)), s, fold) <==> GlobWithin(p, s, fold)
  {
    var body := GlobRe(p, Empty);
    if MatchesSomewhere(body, s, fold) {
      var i, j :| 0 <= i <= j <= |s| && Matches(body, s, i, j, fold);
      var k := GlobReSplit(p, Empty, s, i, j, fold);
    }
    if MatchesSomewhere(Cat(SchemeRe(), body), s, fold) {
      var i, j :| 0 <= i <= j <= |s| && Matches(Cat(SchemeRe(), body), s, i, j, fold);
      var m := CatSplit(SchemeRe(), body, s, i, j, fold);
      var k := GlobReSplit(p, Empty, s, m, j, fold);
    }
    if GlobWithin(p, s, fold) {
      var i, j :| 0 <= i <= j <= |s| && LineGlob(p, s[i..j], fold);
      assert Matches(Empty, s, j, j, fold);
      GlobReMatches(p, Empty, s, i, j, fold);
      assert Matches(SchemeRe(), s, i, i, fold);
      CatJoin(SchemeRe(), body, s, i, i, j, fold);
    }
  }

  /**
   For every pattern the text is well formed, and what it compiles to matches a URL exactly when some
   part of the URL matches the glob, upper and lower case alike: the optional scheme changes nothing.
   */
  lemma {:induction false} UrlTextMeansGlob(p: string, s: string, fold: char -> char)
    ensures Compile(UrlText(p)).Some?
    ensures MatchString(Compile(UrlText(p)).value, s, fold) <==> GlobWithin(p, s, fold)
  {
    UrlTextParses(p);
    UnanchoredMatches(p, s, fold);
  }

  lemma {:induction false} GlobTextParses(p: string)
    ensures ParseItems(GlobText(p)) == Some((GlobRe(p, Empty), ""))
  {
    GlobTextIsPieces(p);
    assert Pieces(p) + "" == Pieces(p);
    PiecesParse(p, "");
  }

  lemma {:induction false} UrlTextParses(p: string)
    ensures Compile(UrlText(p))
         == Some(Regex(if Contains(p, "://") then GlobRe(p, Empty) else Cat(SchemeRe(), GlobRe(p, Empty)), true))
  {
    GlobTextParses(p);
    var text := UrlText(p);
    assert text[..4] == "(?i)";
    if Contains(p, "://") {
      assert text[4..] == GlobText(p);
    } else {
      SchemeParses(GlobText(p));
      assert text[4..] == SCHEME + GlobText(p);
    }
  }

  /** On URLs without a newline the parts that count are those that match the glob outright. */
  lemma {:induction false} UrlGlobOnOneLine(p: string, s: string, fold: char -> char)
    requires NoNewline(s)
    ensures GlobWithin(p, s, fold) <==> exists i, j :: 0 <= i <= j <= |s| && Glob(p, s[i..j], fold)
  {
    forall i, j | 0 <= i <= j <= |s|
      ensures LineGlob(p, s[i..j], fold) <==> Glob(p, s[i..j], fold)
    {
      LineGlobIsGlob(p, s[i..j], fold);
    }
  }

  /** A rule's compiled URL pattern: none for a blank one, or an error, or an expression. */
  datatype UrlPattern = Unset | Refused | Ready(re: Regex)

  /** `compilePatternErr`. */
  function CompilePatternErr(pattern: string, lib: Library): UrlPattern {
    if TrimSpace(pattern, lib.isSpace) == "" then Unset
    else
      match if HasPrefix(pattern, "regex:") then lib.compileUser(pattern[6..]) else Compile(UrlText(pattern))
      case None => Refused
      case Some(re) => Ready(re)
  }

  /**
   A pattern is unset exactly when it is all white space; any other pattern without the prefix
   `regex:` compiles without an error, and matches a URL exactly when part of the URL matches the glob.
   What follows the prefix is compiled as the user's own expression.
   */
  lemma {:induction false} UrlRuleMeansGlob(pattern: string, s: string, lib: Library)
    ensures var r := CompilePatternErr(pattern, lib);
            && (r.Unset? <==> AllSpace(pattern, lib.isSpace))
            && (!AllSpace(pattern, lib.isSpace) && !HasPrefix(pattern, "regex:") ==>
                  r.Ready? && (MatchString(r.re, s, lib.fold) <==> GlobWithin(pattern, s, lib.fold)))
            && (forall user: string :: pattern == "regex:" + user && !AllSpace(pattern, lib.isSpace) ==>
                  if lib.compileUser(user) == None then r == Refused else r == Ready(lib.compileUser(user).value))
  {
    assert forall user: string :: pattern == "regex:" + user ==> HasPrefix(pattern, "regex:") && pattern[6..] == user;
    UrlTextMeansGlob(pattern, s, lib.fold);
    TrimLeftToNothing(pattern, lib.isSpace);
    if !AllSpace(pattern, lib.isSpace) {
      TrimRightKeeps(TrimLeft(pattern, lib.isSpace), lib.isSpace);
    }
  }
}
