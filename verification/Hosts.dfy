/**
 The hosts interceptor of pkg/interceptor/hosts.go: rules that redirect a host, first match wins.
 `regex:` patterns are arbitrary and their compiler is a parameter.
 */
module Hosts {
  import opened Bytes
  import opened Text
  import opened GlobRegex
  import opened RuleIds

  /** A rule apart from its identifier. `regex` is what `SetRules` compiled for it, if anything. */
  datatype HostRule = HostRule(enabled: bool, pattern: string, targetIP: string, regex: Option<Regex>)

  /** What `SetRules` leaves in a rule's expression field: plain patterns keep what was there. */
  function Compiled(pattern: string, before: Option<Regex>, lib: Library): Option<Regex> {
    if HasPrefix(pattern, "regex:") then lib.compileUser(pattern[6..])
    else if Contains(pattern, "*") then Compile(HostText(pattern))
    else before
  }

  /** Whether a pattern means a host: a user expression, a glob, or the name itself in any case. */
  ghost predicate Means(pattern: string, host: string, lib: Library) {
    if HasPrefix(pattern, "regex:") then
      match lib.compileUser(pattern[6..])
      case Some(r) => MatchString(r, host, lib.fold)
      case None => EqualFold(pattern, host, lib.fold)
    else if Contains(pattern, "*") then LineGlob(pattern, host, Identity)
    else EqualFold(pattern, host, lib.fold)
  }

  predicate Hits(pattern: string, regex: Option<Regex>, host: string, lib: Library) {
    match regex
    case Some(r) => MatchString(r, host, lib.fold)
    case None => EqualFold(pattern, host, lib.fold)
  }

  /** A name, neither a user expression nor a wildcard: the patterns `SetRules` does not compile. */
  predicate Plain(pattern: string) {
    !HasPrefix(pattern, "regex:") && !Contains(pattern, "*")
  }

  /** A plain rule that carries an expression it was not compiled from. */
  predicate Stale(pattern: string, regex: Option<Regex>) {
    Plain(pattern) && regex.Some?
  }

  /** A rule means its pattern, unless it was plain and an earlier wildcard left its expression behind. */
  lemma {:induction false} CompiledMeansPattern(pattern: string, before: Option<Regex>, host: string, lib: Library)
    requires !Stale(pattern, before)
    ensures Hits(pattern, Compiled(pattern, before, lib), host, lib) <==> Means(pattern, host, lib)
  {
    if !HasPrefix(pattern, "regex:") && Contains(pattern, "*") {
      HostTextMeansGlob(pattern, host, lib.fold);
    }
  }

  // ---------------------------------------------------------------- rules submitted again

  /** A host the wildcard `p` matches: every star stands for `n` letters. */
  function Filled(p: string, n: nat): string {
    if p == "" then "" else (if p[0] == '*' then Letters(n) else [p[0]]) + Filled(p[1..], n)
  }

  function Letters(n: nat): (s: string)
    ensures |s| == n && NoNewline(s)
  {
    seq(n, _ => 'a')
  }

  lemma {:induction false} FilledMatches(p: string, n: nat)
    ensures LineGlob(p, Filled(p, n), Identity)
    decreases |p|
  {
    if p != "" {
      FilledMatches(p[1..], n);
      var s := Filled(p, n);
      if p[0] == '*' {
        assert s[..n] == Letters(n) && s[n..] == Filled(p[1..], n);
      } else {
        assert s[1..] == Filled(p[1..], n);
      }
    }
  }

  lemma {:induction false} FilledIsLong(p: string, n: nat, i: nat)
    requires i < |p| && p[i] == '*'
    ensures |Filled(p, n)| >= n
    decreases |p|
  {
    if i > 0 {
      FilledIsLong(p[1..], n, i - 1);
    }
  }

  /** A stale rule follows the glob left behind, and so is wrong for just the hosts where that differs from the name. */
  lemma {:induction false} StaleRuleFollowsOldPattern(p: string, q: string, host: string, lib: Library)
    requires !HasPrefix(p, "regex:") && Contains(p, "*") && Plain(q)
    ensures Hits(q, Compiled(q, Compiled(p, None, lib), lib), host, lib) <==> LineGlob(p, host, Identity)
    ensures Means(q, host, lib) <==> EqualFold(q, host, lib.fold)
  {
    HostTextMeansGlob(p, host, lib.fold);
  }

  /** No wildcard's expression is right for a plain pattern: some host it matches is not the name. */
  lemma {:induction false} WildcardIsNoName(p: string, q: string, lib: Library) returns (host: string)
    requires !HasPrefix(p, "regex:") && Contains(p, "*") && Plain(q)
    ensures Hits(q, Compiled(q, Compiled(p, None, lib), lib), host, lib) && !Means(q, host, lib)
  {
    host := Filled(p, |q| + 1);
    var i :| 0 <= i <= |p| && "*" <= p[i..];
    FilledIsLong(p, |q| + 1, i);
    FilledMatches(p, |q| + 1);
    StaleRuleFollowsOldPattern(p, q, host, lib);
  }

  /** What a rule carries after it was submitted with each of the patterns `ps` in turn. */
  function Carried(ps: seq<string>, lib: Library): Option<Regex> {
    if ps == [] then None else Compiled(ps[|ps| - 1], Carried(ps[..|ps| - 1], lib), lib)
  }

  /** The last pattern that `SetRules` compiled. */
  function LastCompiled(ps: seq<string>): Option<string> {
    if ps == [] then None
    else if Plain(ps[|ps| - 1]) then LastCompiled(ps[..|ps| - 1])
    else Some(ps[|ps| - 1])
  }

  lemma {:induction false} CarriedIsLastCompiled(ps: seq<string>, lib: Library)
    ensures LastCompiled(ps).Some? ==> !Plain(LastCompiled(ps).value)
    ensures Carried(ps, lib) == match LastCompiled(ps) case None => None case Some(p) => Compiled(p, None, lib)
  {
    if ps != [] {
      CarriedIsLastCompiled(ps[..|ps| - 1], lib);
    }
  }

  /** A rule last submitted with `pattern`, after the patterns `ps`, means it for every host. */
  ghost predicate Right(ps: seq<string>, pattern: string, lib: Library) {
    forall host :: Hits(pattern, Compiled(pattern, Carried(ps, lib), lib), host, lib) <==> Means(pattern, host, lib)
  }

  /**
   A rule means its pattern for every host if and only if the pattern is not plain or nothing was
   compiled for the rule before; a wildcard compiled before always makes it wrong for some host. Only
   a user's own expression can be right for a plain pattern by chance: when it does not compile, or
   matches exactly that name.
   */
  lemma {:induction false} RightExactly(ps: seq<string>, pattern: string, lib: Library)
    ensures match LastCompiled(ps)
            case None => Right(ps, pattern, lib)
            case Some(p) =>
              if !HasPrefix(p, "regex:") then Right(ps, pattern, lib) <==> !Plain(pattern)
              else
                Right(ps, pattern, lib) <==>
                !Plain(pattern) || lib.compileUser(p[6..]) == None
                || forall host :: MatchString(lib.compileUser(p[6..]).value, host, lib.fold) <==> EqualFold(pattern, host, lib.fold)
  {
    CarriedIsLastCompiled(ps, lib);
    var before := Carried(ps, lib);
    if LastCompiled(ps).Some? && !HasPrefix(LastCompiled(ps).value, "regex:") {
      HostTextMeansGlob(LastCompiled(ps).value, "", lib.fold);
    }
    if !Stale(pattern, before) {
      forall host
        ensures Hits(pattern, Compiled(pattern, before, lib), host, lib) <==> Means(pattern, host, lib)
      {
        CompiledMeansPattern(pattern, before, host, lib);
      }
    } else if !HasPrefix(LastCompiled(ps).value, "regex:") {
      var host := WildcardIsNoName(LastCompiled(ps).value, pattern, lib);
    } else {
      assert forall host :: Hits(pattern, Compiled(pattern, before, lib), host, lib) <==> MatchString(before.value, host, lib.fold);
      assert forall host :: Means(pattern, host, lib) <==> EqualFold(pattern, host, lib.fold);
    }
  }

  class HostsInterceptor {
    const lib: Library
    var rules: seq<Rule<HostRule>>

    constructor (lib: Library)
      ensures this.lib == lib && rules == []
    {
      this.lib, rules := lib, [];
    }

    /**
     Every rule gets an identifier of its own, keeping the one it has where they all differ already,
     and the expression of its pattern; nothing else of it changes.
     */
    method SetRules(rules: seq<Rule<HostRule>>, newId: nat -> string)
      requires forall i :: newId(i) != ""
      modifies this, rules
      ensures this.rules == rules && UniquelyNamed(rules)
      ensures NoRepeats(rules) && old(UniquelyNamed(rules)) ==> forall r :: r in rules ==> r.id == old(r.id)
      ensures forall r :: r in rules ==>
                r.body == old(r.body).(regex := Compiled(old(r.body).pattern, old(r.body).regex, lib))
    {
      ghost var names, wanted := EnsureUniqueIDs(rules, newId);
      CompileRules(rules);
      this.rules := rules;
    }

    /** The loop that compiles the patterns. */
    method CompileRules(rules: seq<Rule<HostRule>>)
      modifies rules`body
      ensures forall r :: r in rules ==>
                r.body == old(r.body).(regex := Compiled(old(r.body).pattern, old(r.body).regex, lib))
    {
      for i := 0 to |rules|
        invariant forall r :: r in rules ==>
                    r.body == if r in rules[..i] then old(r.body).(regex := Compiled(old(r.body).pattern, old(r.body).regex, lib))
                              else old(r.body)
      {
        var r := rules[i];
        assert rules[..i + 1] == rules[..i] + [r];
        if HasPrefix(r.body.pattern, "regex:") {
          r.body := r.body.(regex := lib.compileUser(r.body.pattern[6..]));
        } else if Contains(r.body.pattern, "*") {
          r.body := r.body.(regex := Compile(HostText(r.body.pattern)));
        }
      }
    }

    predicate Redirects(r: HostRule, host: string) {
      r.enabled && Hits(r.pattern, r.regex, host, lib) && TrimSpace(r.targetIP, lib.isSpace) != ""
    }

    /**
     A rule redirects a host if it is enabled, has a target that is not white space, and hits the host: by
     its expression if it has one, and else by its name in any case.
     */
    lemma {:induction false} RedirectsExactly(r: HostRule, host: string)
      ensures Redirects(r, host) <==>
              && r.enabled && !AllSpace(r.targetIP, lib.isSpace)
              && match r.regex case Some(re) => MatchString(re, host, lib.fold)
                               case None => MapChars(r.pattern, lib.fold) == MapChars(host, lib.fold)
    {
      EqualFoldExactly(r.pattern, host, lib.fold);
      TrimLeftToNothing(r.targetIP, lib.isSpace);
      if !AllSpace(r.targetIP, lib.isSpace) {
        TrimRightKeeps(TrimLeft(r.targetIP, lib.isSpace), lib.isSpace);
      }
    }

    /** The trimmed target of the first rule that redirects the host, or the host itself when none does. */
    method PreConnect(host: string) returns (target: string)
      ensures (exists i :: 0 <= i < |rules| && Redirects(rules[i].body, host)
                 && target == TrimSpace(rules[i].body.targetIP, lib.isSpace)
                 && forall j :: 0 <= j < i ==> !Redirects(rules[j].body, host))
           || (target == host && forall j :: 0 <= j < |rules| ==> !Redirects(rules[j].body, host))
    {
      target := host;
      for i := 0 to |rules|
        invariant target == host
        invariant forall j :: 0 <= j < i ==> !Redirects(rules[j].body, host)
      {
        var r := rules[i].body;
        if !r.enabled {
          continue;
        }
        var matched := false;
        if r.regex.Some? {
          matched := MatchString(r.regex.value, host, lib.fold);
        } else {
          matched := EqualFold(r.pattern, host, lib.fold);
        }
        if matched && TrimSpace(r.targetIP, lib.isSpace) != "" {
          target := TrimSpace(r.targetIP, lib.isSpace);
          assert Redirects(rules[i].body, host);
          return;
        }
      }
    }
  }
}
