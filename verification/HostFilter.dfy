/**
 The host filter of pkg/interceptor/filter.go: raw pattern lists beside the expressions compiled from
 them. `strings.ToLower` works rune by rune and `strings.TrimSpace` by a class of runes, so both are
 given by a parameter and nothing below depends on which.
 */
module HostFilter {
  import opened Bytes
  import opened Text
  import opened GlobRegex

  datatype Config = Config(
    whitelistEnabled: bool, whitelist: seq<string>,
    blacklistEnabled: bool, blacklist: seq<string>)

  /** Lower casing and white space, as Go defines them. */
  datatype Locale = Locale(lower: char -> char, isSpace: char -> bool)

  /** What a configured pattern is read as. */
  function Normal(p: string, loc: Locale): string {
    TrimSpace(MapChars(p, loc.lower), loc.isSpace)
  }

  /** `compileHostPattern`; None for a blank pattern, or one that does not compile. */
  function CompileHostPattern(p: string, loc: Locale): Option<Regex> {
    if Normal(p, loc) == "" then None else Compile(HostText(Normal(p, loc)))
  }

  /** The expressions compiled from a list of patterns, in order, blank ones left out. */
  function CompileAll(ps: seq<string>, loc: Locale): seq<Regex> {
    if ps == [] then []
    else
      CompileAll(ps[..|ps| - 1], loc)
      + match CompileHostPattern(ps[|ps| - 1], loc) case Some(r) => [r] case None => []
  }

  lemma {:induction false} CompileAllAppend(ps: seq<string>, p: string, loc: Locale)
    ensures CompileAll(ps + [p], loc)
         == CompileAll(ps, loc) + match CompileHostPattern(p, loc) case Some(r) => [r] case None => []
  {
    assert (ps + [p])[..|ps|] == ps;
  }

  // ---------------------------------------------------------------- the decision, on raw patterns

  predicate Blank(p: string, loc: Locale) {
    Normal(p, loc) == ""
  }

  /** Some pattern of the list, read as a glob, matches the host. */
  ghost predicate Listed(ps: seq<string>, host: string, loc: Locale) {
    exists i :: 0 <= i < |ps| && !Blank(ps[i], loc) && LineGlob(Normal(ps[i], loc), host, Identity)
  }

  ghost predicate AllBlank(ps: seq<string>, loc: Locale) {
    forall i :: 0 <= i < |ps| ==> Blank(ps[i], loc)
  }

  /**
   Whether a host is bypassed: with a whitelist in force, unless it is on it; otherwise, with a
   blacklist in force, if it is on it. A list of blank patterns is not in force.
   */
  ghost predicate Bypassed(cfg: Config, host: string, loc: Locale) {
    var h := MapChars(host, loc.lower);
    if cfg.whitelistEnabled && !AllBlank(cfg.whitelist, loc) then !Listed(cfg.whitelist, h, loc)
    else cfg.blacklistEnabled && Listed(cfg.blacklist, h, loc)
  }

  /**
   A pattern names a host: in lower case and without the white space around it the pattern is not empty,
   and matches the host in lower case as a glob.
   */
  ghost predicate Names(p: string, host: string, loc: Locale) {
    exists left, core, right ::
      && MapChars(p, loc.lower) == left + core + right
      && AllSpace(left, loc.isSpace) && AllSpace(right, loc.isSpace)
      && core != "" && !loc.isSpace(core[0]) && !loc.isSpace(core[|core| - 1])
      && LineGlob(core, MapChars(host, loc.lower), Identity)
  }

  /** A pattern of nothing but white space. */
  predicate OnlySpace(p: string, loc: Locale) {
    AllSpace(MapChars(p, loc.lower), loc.isSpace)
  }

  lemma {:induction false} NamesExactly(p: string, host: string, loc: Locale)
    ensures Names(p, host, loc) <==> !Blank(p, loc) && LineGlob(Normal(p, loc), MapChars(host, loc.lower), Identity)
    ensures Blank(p, loc) <==> OnlySpace(p, loc)
  {
    var lowered := MapChars(p, loc.lower);
    var left, right := TrimmedEnds(lowered, loc.isSpace);
    if left, core, right :|
      && lowered == left + core + right && AllSpace(left, loc.isSpace) && AllSpace(right, loc.isSpace)
      && core != "" && !loc.isSpace(core[0]) && !loc.isSpace(core[|core| - 1])
      && LineGlob(core, MapChars(host, loc.lower), Identity)
    {
      TrimDropsEnds(left, core, right, loc.isSpace);
    }
    TrimLeftToNothing(lowered, loc.isSpace);
    if !AllSpace(lowered, loc.isSpace) {
      TrimRightKeeps(TrimLeft(lowered, loc.isSpace), loc.isSpace);
    }
  }

  /**
   With a whitelist in force, enabled and not of white space alone, a host is bypassed if and only if no
   pattern of it names the host; otherwise if and only if the blacklist is enabled and a pattern of it does.
   */
  lemma {:induction false} BypassedExactly(cfg: Config, host: string, loc: Locale)
    ensures cfg.whitelistEnabled && (exists i :: 0 <= i < |cfg.whitelist| && !OnlySpace(cfg.whitelist[i], loc)) ==>
              (Bypassed(cfg, host, loc) <==> !exists i :: 0 <= i < |cfg.whitelist| && Names(cfg.whitelist[i], host, loc))
    ensures !cfg.whitelistEnabled || (forall i :: 0 <= i < |cfg.whitelist| ==> OnlySpace(cfg.whitelist[i], loc)) ==>
              (Bypassed(cfg, host, loc)
               <==> cfg.blacklistEnabled && exists i :: 0 <= i < |cfg.blacklist| && Names(cfg.blacklist[i], host, loc))
  {
    ListedExactly(cfg.whitelist, host, loc);
    ListedExactly(cfg.blacklist, host, loc);
  }

  lemma {:induction false} ListedExactly(ps: seq<string>, host: string, loc: Locale)
    ensures Listed(ps, MapChars(host, loc.lower), loc) <==> exists i :: 0 <= i < |ps| && Names(ps[i], host, loc)
    ensures AllBlank(ps, loc) <==> forall i :: 0 <= i < |ps| ==> OnlySpace(ps[i], loc)
  {
    forall i | 0 <= i < |ps|
      ensures Names(ps[i], host, loc)
         <==> !Blank(ps[i], loc) && LineGlob(Normal(ps[i], loc), MapChars(host, loc.lower), Identity)
      ensures Blank(ps[i], loc) <==> OnlySpace(ps[i], loc)
    {
      NamesExactly(ps[i], host, loc);
    }
  }

  // ---------------------------------------------------------------- compiled lists agree

  predicate SomeMatch(rs: seq<Regex>, host: string) {
    exists i :: 0 <= i < |rs| && MatchString(rs[i], host, Identity)
  }

  lemma {:induction false} SomeMatchAppend(rs: seq<Regex>, r: Regex, host: string)
    ensures SomeMatch(rs + [r], host) <==> SomeMatch(rs, host) || MatchString(r, host, Identity)
  {
    var all := rs + [r];
    if SomeMatch(rs, host) {
      var i :| 0 <= i < |rs| && MatchString(rs[i], host, Identity);
      assert all[i] == rs[i];
    }
    assert all[|rs|] == r;
  }

  lemma {:induction false} ListedAppend(ps: seq<string>, p: string, host: string, loc: Locale)
    ensures Listed(ps + [p], host, loc)
       <==> Listed(ps, host, loc) || (!Blank(p, loc) && LineGlob(Normal(p, loc), host, Identity))
    ensures AllBlank(ps + [p], loc) <==> AllBlank(ps, loc) && Blank(p, loc)
  {
    var all := ps + [p];
    assert all[|ps|] == p;
    assert forall i :: 0 <= i < |ps| ==> all[i] == ps[i];
    if Listed(ps, host, loc) {
      var i :| 0 <= i < |ps| && !Blank(ps[i], loc) && LineGlob(Normal(ps[i], loc), host, Identity);
      assert all[i] == ps[i];
    }
    if AllBlank(all, loc) {
      assert Blank(all[|ps|], loc);
    }
  }

  /** A compiled list is empty just when its patterns are blank, and matches just the hosts they do. */
  lemma {:induction false} CompiledListAgrees(ps: seq<string>, host: string, loc: Locale)
    ensures SomeMatch(CompileAll(ps, loc), host) <==> Listed(ps, host, loc)
    ensures CompileAll(ps, loc) == [] <==> AllBlank(ps, loc)
  {
    if ps != [] {
      var front, p := ps[..|ps| - 1], ps[|ps| - 1];
      assert ps == front + [p];
      CompiledListAgrees(front, host, loc);
      ListedAppend(front, p, host, loc);
      if !Blank(p, loc) {
        HostTextMeansGlob(Normal(p, loc), host, Identity);
        SomeMatchAppend(CompileAll(front, loc), CompileHostPattern(p, loc).value, host);
      } else {
        assert CompileAll(ps, loc) == CompileAll(front, loc);
      }
    }
  }

  /** A decision depends on the patterns: one written over another is decided differently. */
  lemma {:induction false} EditedPatternDisagrees(loc: Locale)
    requires loc.lower == Identity && forall c :: !loc.isSpace(c)
    ensures Bypassed(Config(false, [], true, ["a"]), "a", loc)
    ensures !Bypassed(Config(false, [], true, ["b"]), "a", loc)
  {
    forall c
      ensures Normal([c], loc) == [c]
    {
      assert MapChars([c], Identity) == [c];
    }
    assert MapChars("a", Identity) == "a";
    assert Listed(["a"], "a", loc) by {
      assert !Blank(["a"][0], loc) && LineGlob(Normal(["a"][0], loc), "a", Identity);
    }
    assert !LineGlob("b", "a", Identity);
  }

  // ---------------------------------------------------------------- the filter

  /** `HostFilterConfig`, with its slices. */
  datatype HostFilterConfig = HostFilterConfig(
    whitelistEnabled: bool, whitelist: array<string>,
    blacklistEnabled: bool, blacklist: array<string>)

  ghost function ValueOf(cfg: HostFilterConfig): Config
    reads cfg.whitelist, cfg.blacklist
  {
    Config(cfg.whitelistEnabled, cfg.whitelist[..], cfg.blacklistEnabled, cfg.blacklist[..])
  }

  /**
   The filter. `SetConfig` keeps the caller's slices, so a caller that writes to one later changes the
   raw list and not the expressions; `listed` is the configuration that those were compiled from.
   */
  class Filter {
    const loc: Locale
    var whitelistEnabled: bool
    var rawWhitelist: array<string>
    var whitelist: seq<Regex>
    var blacklistEnabled: bool
    var rawBlacklist: array<string>
    var blacklist: seq<Regex>
    ghost var listed: Config

    ghost predicate Valid()
      reads this
    {
      && listed.whitelistEnabled == whitelistEnabled && listed.blacklistEnabled == blacklistEnabled
      && whitelist == CompileAll(listed.whitelist, loc) && blacklist == CompileAll(listed.blacklist, loc)
    }

    /** The configuration as the raw lists have it now. */
    ghost function Raw(): Config
      reads this, rawWhitelist, rawBlacklist
    {
      Config(whitelistEnabled, rawWhitelist[..], blacklistEnabled, rawBlacklist[..])
    }

    constructor (loc: Locale)
      ensures Valid() && this.loc == loc && fresh(rawWhitelist) && fresh(rawBlacklist)
      ensures Raw() == listed == Config(false, [], true, ["*.apple.com", "*.icloud.com"])
    {
      this.loc := loc;
      whitelistEnabled, rawWhitelist, whitelist := false, new string[0], [];
      blacklistEnabled, rawBlacklist, blacklist := true, new string[0], [];
      listed := Config(false, [], true, []);
      new;
      AddBlacklist("*.apple.com");
      AddBlacklist("*.icloud.com");
    }

    /** A pattern's expression, if it has one, after those of the patterns `ps`. */
    method CompileOneMore(rs: seq<Regex>, pattern: string, ghost ps: seq<string>) returns (rs': seq<Regex>)
      requires rs == CompileAll(ps, loc)
      ensures rs' == CompileAll(ps + [pattern], loc)
    {
      CompileAllAppend(ps, pattern, loc);
      var r := CompileHostPattern(pattern, loc);
      rs' := if r.Some? then rs + [r.value] else rs;
    }

    method CompileList(ps: array<string>) returns (rs: seq<Regex>)
      ensures rs == CompileAll(ps[..], loc)
    {
      rs := [];
      for i := 0 to ps.Length
        invariant rs == CompileAll(ps[..i], loc)
      {
        rs := CompileOneMore(rs, ps[i], ps[..i]);
        assert ps[..i + 1] == ps[..i] + [ps[i]];
      }
      assert ps[..ps.Length] == ps[..];
    }

    /** The slices become the raw lists as they are, not copied. */
    method SetConfig(cfg: HostFilterConfig)
      modifies this
      ensures Valid() && Raw() == listed == old(ValueOf(cfg))
      ensures rawWhitelist == cfg.whitelist && rawBlacklist == cfg.blacklist
    {
      whitelistEnabled, rawWhitelist := cfg.whitelistEnabled, cfg.whitelist;
      whitelist := CompileList(cfg.whitelist);
      blacklistEnabled, rawBlacklist := cfg.blacklistEnabled, cfg.blacklist;
      blacklist := CompileList(cfg.blacklist);
      listed := ValueOf(cfg);
    }

    /** The raw lists are copied, so what the caller does with the result cannot reach the filter. */
    method GetConfig() returns (cfg: HostFilterConfig)
      ensures ValueOf(cfg) == Raw()
      ensures fresh(cfg.whitelist) && fresh(cfg.blacklist) && cfg.whitelist != cfg.blacklist
    {
      var wl := Appended(rawWhitelist, []);
      var bl := Appended(rawBlacklist, []);
      cfg := HostFilterConfig(whitelistEnabled, wl, blacklistEnabled, bl);
    }

    /** A new array with the elements of `a` and then those of `more`. */
    method Appended(a: array<string>, more: seq<string>) returns (b: array<string>)
      ensures fresh(b) && b[..] == a[..] + more
    {
      b := new string[a.Length + |more|](i requires 0 <= i < a.Length + |more| reads a =>
        if i < a.Length then a[i] else more[i - a.Length]);
    }

    /** What the raw list gains the compiled one gains, whatever a caller made of the slice before. */
    method AddWhitelist(pattern: string)
      requires Valid()
      modifies this`rawWhitelist, this`whitelist, this`listed
      ensures Valid() && fresh(rawWhitelist)
      ensures Raw() == old(Raw()).(whitelist := old(Raw()).whitelist + [pattern])
      ensures listed == old(listed).(whitelist := old(listed).whitelist + [pattern])
    {
      ghost var was := Raw();
      var compiled := CompileOneMore(whitelist, pattern, listed.whitelist);
      var raw := Appended(rawWhitelist, [pattern]);
      assert Raw() == was && raw[..] == was.whitelist + [pattern];
      rawWhitelist, whitelist := raw, compiled;
      assert rawWhitelist[..] == was.whitelist + [pattern] && rawBlacklist[..] == was.blacklist;
      listed := listed.(whitelist := listed.whitelist + [pattern]);
    }

    method AddBlacklist(pattern: string)
      requires Valid()
      modifies this`rawBlacklist, this`blacklist, this`listed
      ensures Valid() && fresh(rawBlacklist)
      ensures Raw() == old(Raw()).(blacklist := old(Raw()).blacklist + [pattern])
      ensures listed == old(listed).(blacklist := old(listed).blacklist + [pattern])
    {
      ghost var was := Raw();
      var compiled := CompileOneMore(blacklist, pattern, listed.blacklist);
      var raw := Appended(rawBlacklist, [pattern]);
      assert Raw() == was && raw[..] == was.blacklist + [pattern];
      rawBlacklist, blacklist := raw, compiled;
      assert rawBlacklist[..] == was.blacklist + [pattern] && rawWhitelist[..] == was.whitelist;
      listed := listed.(blacklist := listed.blacklist + [pattern]);
    }

    method AnyMatch(rs: seq<Regex>, host: string) returns (found: bool)
      ensures found == SomeMatch(rs, host)
    {
      for i := 0 to |rs|
        invariant forall j :: 0 <= j < i ==> !MatchString(rs[j], host, Identity)
      {
        if MatchString(rs[i], host, Identity) {
          return true;
        }
      }
      return false;
    }

    /**
     The decision taken on the compiled lists is the one that glob matching on the patterns handed in
     calls for. Unless a caller wrote to its slices since, these are the raw lists.
     */
    method ShouldFilter(host: string) returns (bypass: bool)
      requires Valid()
      ensures bypass == Bypassed(listed, host, loc)
      ensures Raw() == listed ==> bypass == Bypassed(Raw(), host, loc)
      ensures listed.whitelistEnabled && (exists i :: 0 <= i < |listed.whitelist| && !OnlySpace(listed.whitelist[i], loc)) ==>
                (bypass <==> !exists i :: 0 <= i < |listed.whitelist| && Names(listed.whitelist[i], host, loc))
      ensures !listed.whitelistEnabled || (forall i :: 0 <= i < |listed.whitelist| ==> OnlySpace(listed.whitelist[i], loc)) ==>
                (bypass
                 <==> listed.blacklistEnabled
                      && exists i :: 0 <= i < |listed.blacklist| && Names(listed.blacklist[i], host, loc))
    {
      BypassedExactly(listed, host, loc);
      var h := MapChars(host, loc.lower);
      CompiledListAgrees(listed.whitelist, h, loc);
      CompiledListAgrees(listed.blacklist, h, loc);
      if whitelistEnabled && |whitelist| > 0 {
        var found := AnyMatch(whitelist, h);
        return !found;
      }
      if blacklistEnabled && |blacklist| > 0 {
        var found := AnyMatch(blacklist, h);
        return found;
      }
      return false;
    }
  }

  /** One pattern more on the blacklist never lets a bypassed host through. */
  method BlacklistOnlyBlocks(f: Filter, pattern: string, host: string) returns (before: bool, after: bool)
    requires f.Valid()
    modifies f
    ensures f.Valid() && (before ==> after)
  {
    before := f.ShouldFilter(host);
    ghost var cfg := f.listed;
    f.AddBlacklist(pattern);
    BlacklistGrows(cfg, pattern, host, f.loc);
    after := f.ShouldFilter(host);
  }

  /** One pattern more on a whitelist in force never bypasses another host. */
  method WhitelistOnlyAdmits(f: Filter, pattern: string, host: string) returns (before: bool, after: bool)
    requires f.Valid() && f.whitelistEnabled
    requires exists i :: 0 <= i < |f.listed.whitelist| && !OnlySpace(f.listed.whitelist[i], f.loc)
    modifies f
    ensures f.Valid() && (after ==> before)
  {
    before := f.ShouldFilter(host);
    ghost var cfg := f.listed;
    f.AddWhitelist(pattern);
    WhitelistGrows(cfg, pattern, host, f.loc);
    after := f.ShouldFilter(host);
  }

  lemma {:induction false} BlacklistGrows(cfg: Config, pattern: string, host: string, loc: Locale)
    ensures Bypassed(cfg, host, loc) ==> Bypassed(cfg.(blacklist := cfg.blacklist + [pattern]), host, loc)
  {
    ListedAppend(cfg.blacklist, pattern, MapChars(host, loc.lower), loc);
  }

  lemma {:induction false} WhitelistGrows(cfg: Config, pattern: string, host: string, loc: Locale)
    requires cfg.whitelistEnabled && exists i :: 0 <= i < |cfg.whitelist| && !OnlySpace(cfg.whitelist[i], loc)
    ensures Bypassed(cfg.(whitelist := cfg.whitelist + [pattern]), host, loc) ==> Bypassed(cfg, host, loc)
  {
    ListedExactly(cfg.whitelist, host, loc);
    ListedAppend(cfg.whitelist, pattern, MapChars(host, loc.lower), loc);
  }

  /**
   A caller that writes to a slice it handed to `SetConfig` changes the raw list and not the decision:
   the host stays bypassed although no raw pattern matches it any more.
   */
  method EditedSliceDisagrees() returns (f: Filter, bypass: bool)
    ensures fresh(f) && fresh(f.rawBlacklist) && f.Valid()
    ensures f.Raw() == Config(false, [], true, ["b"]) && f.listed == Config(false, [], true, ["a"])
    ensures bypass && !Bypassed(f.Raw(), "a", f.loc)
  {
    f := new Filter(Locale(Identity, _ => false));
    var none, patterns := new string[0], new string[1](_ => "a");
    f.SetConfig(HostFilterConfig(false, none, true, patterns));
    assert f.listed.blacklist == ["a"] && f.listed.whitelist == [];
    patterns[0] := "b";
    assert f.Raw().blacklist == ["b"];
    EditedPatternDisagrees(f.loc);
    bypass := f.ShouldFilter("a");
  }
}
