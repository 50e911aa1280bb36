/** Unique rule identifiers: `EnsureUniqueIDs` of pkg/interceptor/rule_ids.go. */
module RuleIds {
  import opened UniqueNames
  import opened Text

  /** A rule of any family: its identifier, and the rest of it. */
  class Rule<T> {
    var id: string
    var body: T

    constructor (id: string, body: T)
      ensures this.id == id && this.body == body
    {
      this.id, this.body := id, body;
    }
  }

  /** Non-empty identifiers, different for different rules. */
  ghost predicate UniquelyNamed<T>(rules: seq<Rule<T>>)
    reads rules
  {
    && (forall i :: 0 <= i < |rules| ==> rules[i].id != "")
    && (forall i, j :: 0 <= i < |rules| && 0 <= j < |rules| && rules[i] != rules[j] ==> rules[i].id != rules[j].id)
  }

  ghost predicate NoRepeats<T>(rules: seq<Rule<T>>) {
    forall i, j :: 0 <= i < j < |rules| ==> rules[i] != rules[j]
  }

  /** The identifier a rule gets is not empty, and new: the one it wants if that is free, or it with the first free suffix. */
  ghost predicate Chosen(name: string, want: string, taken: seq<string>) {
    name != "" && name !in taken &&
    if want !in taken then name == want
    else
      exists n: nat :: n >= 1 && name == Numbered(want, "-", n, "")
        && forall m :: 1 <= m < n ==> Numbered(want, "-", m, "") in taken
  }

  /** So the second rule that wants a name gets it with "-1". */
  lemma {:induction false} SecondChoice(name: string, want: string)
    requires want != ""
    ensures Chosen(name, want, [want]) <==> name == want + "-1"
  {
    var first := Numbered(want, "-", 1, "");
    DecimalDigit(1);
    assert Decimal(1) == "1";
    assert first == want + "-1";
    assert |first| > |want|;
    if Chosen(name, want, [want]) {
      var n: nat :| n >= 1 && name == Numbered(want, "-", n, "")
                    && forall m :: 1 <= m < n ==> Numbered(want, "-", m, "") in [want];
      assert n > 1 ==> first in [want];
    }
  }

  /** The identifier a rule asks for: its own, or a new one when it has none. */
  function Wanted(id: string, i: nat, newId: nat -> string): string {
    if id == "" then newId(i) else id
  }

  /** Each name is the first choice left by the ones before it. */
  ghost predicate AllChosen(names: seq<string>, wanted: seq<string>) {
    && |names| == |wanted|
    && forall i {:trigger Chosen(names[i], wanted[i], names[..i])} :: 0 <= i < |names| ==>
         Chosen(names[i], wanted[i], names[..i])
  }

  lemma {:induction false} AllChosenAppend(names: seq<string>, wanted: seq<string>, name: string, want: string)
    requires AllChosen(names, wanted) && Chosen(name, want, names)
    ensures AllChosen(names + [name], wanted + [want])
  {
    var all := names + [name];
    forall i | 0 <= i <= |names|
      ensures Chosen(all[i], (wanted + [want])[i], all[..i])
    {
      assert all[..i] == names[..i];
      assert i < |names| ==> Chosen(names[i], wanted[i], names[..i]);
    }
  }

  /** One turn of the outer loop: name a rule, by its own identifier or by `spare` when it has none. */
  method NameRule<T>(r: Rule<T>, spare: string, seen: set<string>, ghost names: seq<string>, ghost wanted: seq<string>)
    returns (seen': set<string>, ghost names': seq<string>, ghost wanted': seq<string>)
    requires spare != "" && AllChosen(names, wanted)
    requires forall name :: name in seen <==> name in names
    modifies r`id
    ensures r.id != "" && r.id !in seen && seen' == seen + {r.id}
    ensures names' == names + [r.id] && wanted' == wanted + [if old(r.id) == "" then spare else old(r.id)]
    ensures AllChosen(names', wanted')
  {
    var id := r.id;
    if id == "" {
      id := spare;
    }
    ghost var want := id;
    if id in seen {
      ghost var n;
      id, n := FirstFree(id, "-", "", 1, seen);
      assert n >= 1 && id == Numbered(want, "-", n, "");
    }
    AllChosenAppend(names, wanted, id, want);
    seen', names', wanted' := seen + {id}, names + [id], wanted + [want];
    r.id := id;
  }

  lemma {:induction false} ChosenNamesDiffer(names: seq<string>, wanted: seq<string>, i: nat, j: nat)
    requires AllChosen(names, wanted) && i < j < |names|
    ensures names[i] != names[j]
  {
    assert names[..j][i] == names[i];
    assert Chosen(names[j], wanted[j], names[..j]);
  }

  /**
   The identifiers given out, in order, are each the first choice left by those before; every rule
   ends with one of its own, so different rules end with different ones even when the list holds a
   rule twice. `newId` stands for the generator of fresh identifiers, assumed only not to be empty.
   */
  method EnsureUniqueIDs<T>(rules: seq<Rule<T>>, newId: nat -> string)
    returns (ghost names: seq<string>, ghost wanted: seq<string>)
    requires forall i :: newId(i) != ""
    modifies rules`id
    ensures UniquelyNamed(rules)
    ensures AllChosen(names, wanted) && |names| == |rules|
    ensures NoRepeats(rules) ==>
              forall i :: 0 <= i < |rules| ==> rules[i].id == names[i] && wanted[i] == Wanted(old(rules[i].id), i, newId)
    ensures NoRepeats(rules) && old(UniquelyNamed(rules)) ==> forall r :: r in rules ==> r.id == old(r.id)
  {
    var seen: set<string> := {};
    names, wanted := [], [];
    ghost var given: map<Rule<T>, string> := map[];
    ghost var was := seq(|rules|, i requires 0 <= i < |rules| => old(rules[i].id));
    for i := 0 to |rules|
      invariant |names| == i && AllChosen(names, wanted)
      invariant forall name :: name in seen <==> name in names
      invariant AllDifferent(given, seen)
      invariant forall j :: 0 <= j < i ==> rules[j] in given
      invariant forall r :: r in given ==> r.id == given[r]
      invariant forall j :: 0 <= j < |rules| && rules[j] !in given ==> rules[j].id == was[j]
      invariant NoRepeats(rules) ==> InOrder(rules, given, names, wanted, was, newId)
    {
      var r := rules[i];
      ghost var before, beforeNames, beforeWanted := seen, names, wanted;
      seen, names, wanted := NameRule(r, newId(i), seen, names, wanted);
      OneMoreDifferent(given, before, r, r.id);
      if NoRepeats(rules) {
        OneMoreInOrder(rules, given, beforeNames, beforeWanted, was, newId, r.id);
      }
      given := given[r := r.id];
    }
    if NoRepeats(rules) && old(UniquelyNamed(rules)) {
      UniqueIdsAreKept(names, wanted);
    }
  }

  /** The first rules were given `names`, in order, and wanted their own identifiers or new ones. */
  ghost predicate InOrder<T>(rules: seq<Rule<T>>, given: map<Rule<T>, string>, names: seq<string>, wanted: seq<string>,
                          was: seq<string>, newId: nat -> string)
  {
    && |names| == |wanted| <= |rules| == |was|
    && (forall j :: |names| <= j < |rules| ==> rules[j] !in given)
    && (forall j :: 0 <= j < |names| ==>
          rules[j] in given && given[rules[j]] == names[j] && wanted[j] == Wanted(was[j], j, newId))
  }

  lemma {:induction false} OneMoreInOrder<T>(rules: seq<Rule<T>>, given: map<Rule<T>, string>, names: seq<string>, wanted: seq<string>,
                       was: seq<string>, newId: nat -> string, id: string)
    requires NoRepeats(rules) && InOrder(rules, given, names, wanted, was, newId) && |names| < |rules|
    ensures var i := |names|;
            InOrder(rules, given[rules[i] := id], names + [id], wanted + [Wanted(was[i], i, newId)], was, newId)
  {
  }

  /** No two rules were given the same identifier, and all that were given are in `seen`. */
  ghost predicate AllDifferent<T>(given: map<Rule<T>, string>, seen: set<string>) {
    && (forall r :: r in given ==> given[r] in seen && given[r] != "")
    && (forall r, q :: r in given && q in given && r != q ==> given[r] != given[q])
  }

  lemma {:induction false} OneMoreDifferent<T>(given: map<Rule<T>, string>, seen: set<string>, r: Rule<T>, id: string)
    requires AllDifferent(given, seen) && id != "" && id !in seen
    ensures AllDifferent(given[r := id], seen + {id})
  {
  }

  /** Idempotence: identifiers that are there and differ already are the ones given out. */
  lemma {:induction false} UniqueIdsAreKept(names: seq<string>, wanted: seq<string>)
    requires AllChosen(names, wanted)
    requires forall i, j :: 0 <= i < j < |wanted| ==> wanted[i] != wanted[j]
    ensures names == wanted
    decreases |names|
  {
    if names != [] {
      var k := |names| - 1;
      assert forall i :: 0 <= i < k ==> names[..k][..i] == names[..i];
      UniqueIdsAreKept(names[..k], wanted[..k]);
      assert Chosen(names[k], wanted[k], names[..k]);
      assert wanted[k] !in wanted[..k];
      assert names == names[..k] + [names[k]] && wanted == wanted[..k] + [wanted[k]];
    }
  }
}
