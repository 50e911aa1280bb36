/** The string operations the modelled code takes from Go's `strings` and `fmt`. */
module Text {

  /** `strings.ReplaceAll` for a non-empty `from`: left to right, without overlaps. */
  function ReplaceAll(s: string, from: string, to: string): string
    requires from != ""
    decreases |s|
  {
    if |s| < |from| then s
    else if s[..|from|] == from then to + ReplaceAll(s[|from|..], from, to)
    else [s[0]] + ReplaceAll(s[1..], from, to)
  }

  /** `strings.HasPrefix`. */
  predicate HasPrefix(s: string, prefix: string) {
    prefix <= s
  }

  /** `strings.Contains`. */
  predicate Contains(s: string, part: string) {
    exists i :: 0 <= i <= |s| && part <= s[i..]
  }

  function TrimLeft(s: string, isSpace: char -> bool): string {
    if s != "" && isSpace(s[0]) then TrimLeft(s[1..], isSpace) else s
  }

  function TrimRight(s: string, isSpace: char -> bool): string {
    if s != "" && isSpace(s[|s| - 1]) then TrimRight(s[..|s| - 1], isSpace) else s
  }

  /** `strings.TrimSpace`, for any notion of white space. */
  function TrimSpace(s: string, isSpace: char -> bool): string {
    TrimRight(TrimLeft(s, isSpace), isSpace)
  }

  predicate AllSpace(s: string, isSpace: char -> bool) {
    forall i :: 0 <= i < |s| ==> isSpace(s[i])
  }

  lemma {:induction false} TrimLeftToNothing(s: string, isSpace: char -> bool)
    ensures if AllSpace(s, isSpace) then TrimLeft(s, isSpace) == ""
            else TrimLeft(s, isSpace) != "" && !isSpace(TrimLeft(s, isSpace)[0])
  {
    if s != "" && isSpace(s[0]) {
      TrimLeftToNothing(s[1..], isSpace);
      assert s == [s[0]] + s[1..];
    }
  }

  lemma {:induction false} TrimRightKeeps(s: string, isSpace: char -> bool)
    requires s != "" && !isSpace(s[0])
    ensures TrimRight(s, isSpace) != ""
  {
    if isSpace(s[|s| - 1]) {
      TrimRightKeeps(s[..|s| - 1], isSpace);
    }
  }

  lemma {:induction false} TrimLeftDrops(left: string, s: string, isSpace: char -> bool)
    requires AllSpace(left, isSpace) && (s == "" || !isSpace(s[0]))
    ensures TrimLeft(left + s, isSpace) == s
  {
    if left == "" {
      assert left + s == s;
    } else {
      assert (left + s)[1..] == left[1..] + s;
      TrimLeftDrops(left[1..], s, isSpace);
    }
  }

  lemma {:induction false} TrimRightDrops(s: string, right: string, isSpace: char -> bool)
    requires AllSpace(right, isSpace) && (s == "" || !isSpace(s[|s| - 1]))
    ensures TrimRight(s + right, isSpace) == s
    decreases |right|
  {
    if right == "" {
      assert s + right == s;
    } else {
      var front := right[..|right| - 1];
      assert (s + right)[..|s + right| - 1] == s + front;
      TrimRightDrops(s, front, isSpace);
    }
  }

  /** White space at both ends goes, and nothing else. */
  lemma {:induction false} TrimDropsEnds(left: string, core: string, right: string, isSpace: char -> bool)
    requires AllSpace(left, isSpace) && AllSpace(right, isSpace)
    requires core != "" && !isSpace(core[0]) && !isSpace(core[|core| - 1])
    ensures TrimSpace(left + core + right, isSpace) == core
  {
    assert left + core + right == left + (core + right);
    TrimLeftDrops(left, core + right, isSpace);
    TrimRightDrops(core, right, isSpace);
  }

  lemma {:induction false} TrimLeftKeepsEnd(s: string, isSpace: char -> bool) returns (left: string)
    ensures s == left + TrimLeft(s, isSpace) && AllSpace(left, isSpace)
    ensures TrimLeft(s, isSpace) == "" || !isSpace(TrimLeft(s, isSpace)[0])
  {
    left := "";
    if s != "" && isSpace(s[0]) {
      var more := TrimLeftKeepsEnd(s[1..], isSpace);
      left := [s[0]] + more;
      assert s == [s[0]] + s[1..];
    }
  }

  lemma {:induction false} TrimRightKeepsFront(s: string, isSpace: char -> bool) returns (right: string)
    ensures s == TrimRight(s, isSpace) + right && AllSpace(right, isSpace)
    ensures TrimRight(s, isSpace) == "" || !isSpace(TrimRight(s, isSpace)[|TrimRight(s, isSpace)| - 1])
    ensures TrimRight(s, isSpace) != "" ==> TrimRight(s, isSpace)[0] == s[0]
  {
    right := "";
    if s != "" && isSpace(s[|s| - 1]) {
      var more := TrimRightKeepsFront(s[..|s| - 1], isSpace);
      right := more + [s[|s| - 1]];
      assert s == s[..|s| - 1] + [s[|s| - 1]];
    }
  }

  /** What is trimmed away is white space, and what is left has none at its ends. */
  lemma {:induction false} TrimmedEnds(s: string, isSpace: char -> bool) returns (left: string, right: string)
    ensures s == left + TrimSpace(s, isSpace) + right && AllSpace(left, isSpace) && AllSpace(right, isSpace)
    ensures var core := TrimSpace(s, isSpace); core == "" || (!isSpace(core[0]) && !isSpace(core[|core| - 1]))
  {
    left := TrimLeftKeepsEnd(s, isSpace);
    right := TrimRightKeepsFront(TrimLeft(s, isSpace), isSpace);
  }

  /** A mapping applied to every character, as `strings.ToLower` does. */
  function MapChars(s: string, f: char -> char): (t: string)
    ensures |t| == |s| && forall i :: 0 <= i < |s| ==> t[i] == f(s[i])
  {
    seq(|s|, i requires 0 <= i < |s| => f(s[i]))
  }

  /** `strings.EqualFold`, by a case folding of characters. */
  predicate EqualFold(a: string, b: string, fold: char -> char) {
    |a| == |b| && forall i :: 0 <= i < |a| ==> fold(a[i]) == fold(b[i])
  }

  lemma {:induction false} EqualFoldExactly(a: string, b: string, fold: char -> char)
    ensures EqualFold(a, b, fold) <==> MapChars(a, fold) == MapChars(b, fold)
  {
    if MapChars(a, fold) == MapChars(b, fold) {
      assert forall i :: 0 <= i < |a| ==> MapChars(a, fold)[i] == fold(a[i]) && MapChars(b, fold)[i] == fold(b[i]);
    }
  }

  // ---------------------------------------------------------------- decimal numerals

  function Digit(d: nat): (c: char)
    requires d < 10
    ensures '0' <= c <= '9'
  {
    (48 + d) as char
  }

  predicate Digits(s: string) {
    forall i :: 0 <= i < |s| ==> '0' <= s[i] <= '9'
  }

  /** `%d` of a natural number. */
  function Decimal(n: nat): (s: string)
    ensures s != "" && Digits(s)
  {
    if n < 10 then [Digit(n)] else Decimal(n / 10) + [Digit(n % 10)]
  }

  /** The number a string of digits stands for. */
  function Numeral(s: string): nat
    requires Digits(s)
  {
    if s == "" then 0 else Numeral(s[..|s| - 1]) * 10 + (s[|s| - 1] as nat - 48)
  }

  lemma {:induction false} NumeralOfDecimal(n: nat)
    ensures Numeral(Decimal(n)) == n
  {
    if n >= 10 {
      NumeralOfDecimal(n / 10);
      assert Decimal(n)[..|Decimal(n)| - 1] == Decimal(n / 10);
    } else {
      assert Decimal(n)[..0] == "";
    }
  }

  /** A numeral has no zero in front. */
  lemma {:induction false} DecimalStarts(n: nat)
    ensures |Decimal(n)| > 1 ==> Decimal(n)[0] != '0'
    ensures n > 0 ==> Decimal(n)[0] != '0'
  {
    if n >= 10 {
      DecimalStarts(n / 10);
    }
  }

  /** The numeral of a one-digit number is its digit. */
  lemma {:induction false} DecimalDigit(n: nat)
    requires n < 10
    ensures |Decimal(n)| == 1 && Decimal(n)[0] as int == '0' as int + n
  {
  }

  lemma {:induction false} DecimalInjective(m: nat, n: nat)
    requires Decimal(m) == Decimal(n)
    ensures m == n
  {
    NumeralOfDecimal(m);
    NumeralOfDecimal(n);
  }

  // ---------------------------------------------------------------- hexadecimal digits

  function HexDigit(d: nat): char
    requires d < 16
  {
    if d < 10 then (48 + d) as char else (87 + d) as char
  }

  /** In lower case. */
  lemma {:induction false} HexDigitIsLower(d: nat)
    requires d < 16
    ensures HexDigit(d) as int == if d < 10 then '0' as int + d else 'a' as int + (d - 10)
  {
  }

  predicate IsHexDigit(c: char) {
    '0' <= c <= '9' || 'a' <= c <= 'f' || 'A' <= c <= 'F'
  }

  function HexDigitValue(c: char): nat
    requires IsHexDigit(c)
  {
    if c <= '9' then c as nat - 48 else if c <= 'F' then c as nat - 55 else c as nat - 87
  }
}
