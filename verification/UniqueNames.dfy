/**
 The search for a name that is not taken yet, by numbering: the loop that
 pkg/interceptor/rule_ids.go and pkg/storage/session_repo.go both run, and why it ends.
 */
module UniqueNames {
  import opened Text

  /** `base` numbered with `n`, between two fixed marks: `base-n`, or `base (n)`. */
  function Numbered(base: string, before: string, n: nat, after: string): string {
    base + before + Decimal(n) + after
  }

  /** The number stands between the marks, in decimal and without a zero in front. */
  lemma {:induction false} NumberedShows(base: string, before: string, n: nat, after: string) returns (digits: string)
    ensures Numbered(base, before, n, after) == base + before + digits + after
    ensures digits != "" && Digits(digits) && Numeral(digits) == n && (|digits| > 1 ==> digits[0] != '0')
  {
    digits := Decimal(n);
    NumeralOfDecimal(n);
    DecimalStarts(n);
  }

  lemma {:induction false} NumberedInjective(base: string, before: string, m: nat, n: nat, after: string)
    requires Numbered(base, before, m, after) == Numbered(base, before, n, after)
    ensures m == n
  {
    var s, t := Numbered(base, before, m, after), Numbered(base, before, n, after);
    var k := |base + before|;
    assert s[k..|s| - |after|] == Decimal(m);
    assert t[k..|t| - |after|] == Decimal(n);
    DecimalInjective(m, n);
  }

  /** Pigeonhole: if the numbers from `first` to `n - 1` are all taken, there are no more of them than names. */
  lemma {:induction false} TakenNumbersAreFew(base: string, before: string, after: string, first: nat, n: nat, taken: set<string>)
    requires first <= n && forall m :: first <= m < n ==> Numbered(base, before, m, after) in taken
    ensures n - first <= |taken|
    decreases n - first
  {
    if first < n {
      var last := Numbered(base, before, n - 1, after);
      forall m | first <= m < n - 1
        ensures Numbered(base, before, m, after) in taken - {last}
      {
        if Numbered(base, before, m, after) == last {
          NumberedInjective(base, before, m, n - 1, after);
        }
      }
      TakenNumbersAreFew(base, before, after, first, n - 1, taken - {last});
      assert |taken - {last}| == |taken| - 1;
    }
  }

  /** The first number from `first` on that makes a free name. */
  method FirstFree(base: string, before: string, after: string, first: nat, taken: set<string>) returns (name: string, ghost n: nat)
    ensures name !in taken && name == Numbered(base, before, n, after) && n >= first
    ensures forall m :: first <= m < n ==> Numbered(base, before, m, after) in taken
  {
    var k := first;
    TakenNumbersAreFew(base, before, after, first, k, taken);
    while Numbered(base, before, k, after) in taken
      invariant first <= k
      invariant forall m :: first <= m < k ==> Numbered(base, before, m, after) in taken
      decreases |taken| + first - k
    {
      TakenNumbersAreFew(base, before, after, first, k + 1, taken);
      k := k + 1;
    }
    name, n := Numbered(base, before, k, after), k;
  }
}
