/** The repository of pkg/storage/session_repo.go as an object over its tables, one method a call. */
module SessionRepo {
  import opened Bytes
  import opened UniqueNames
  import opened SessionStore

  datatype Saved = Stored | Skipped | EmptySession | Refused

  /** A query result: every row of `rows` once, newest first. */
  ghost predicate NewestFirst(list: seq<(string, Content)>, rows: map<string, Content>) {
    && |list| == |rows| && EachOnce(list) && Falling(list)
    && forall i :: 0 <= i < |list| ==> list[i].0 in rows && rows[list[i].0] == list[i].1
  }

  function ToMap(list: seq<(string, Content)>): map<string, Content> {
    if list == [] then map[] else ToMap(list[..|list| - 1])[list[|list| - 1].0 := list[|list| - 1].1]
  }

  ghost predicate EachOnce(list: seq<(string, Content)>) {
    forall i, j :: 0 <= i < j < |list| ==> list[i].0 != list[j].0
  }

  /** Newest first. */
  ghost predicate Falling(list: seq<(string, Content)>) {
    forall i, j :: 0 <= i < j < |list| ==> list[i].1.startTime >= list[j].1.startTime
  }

  lemma {:induction false} ToMapKeys(list: seq<(string, Content)>, id: string)
    ensures id in ToMap(list) <==> exists i :: 0 <= i < |list| && list[i].0 == id
    ensures EachOnce(list) ==> forall i :: 0 <= i < |list| ==> list[i].0 in ToMap(list) && ToMap(list)[list[i].0] == list[i].1
  {
    if list != [] {
      var front, last := list[..|list| - 1], list[|list| - 1];
      ToMapKeys(front, id);
      if id in ToMap(front) {
        var i :| 0 <= i < |front| && front[i].0 == id;
        assert list[i].0 == id;
      }
      assert forall i :: 0 <= i < |front| ==> front[i] == list[i];
    }
  }

  /** A query result is its rows. */
  lemma {:induction false} NewestFirstIsRows(list: seq<(string, Content)>, rows: map<string, Content>)
    requires NewestFirst(list, rows)
    ensures ToMap(list) == rows && EachOnce(list)
  {
    var keys := set i | 0 <= i < |list| :: list[i].0;
    forall id
      ensures id in ToMap(list) <==> id in keys
    {
      ToMapKeys(list, id);
    }
    KeysCount(list);
    SubsetOfSameSize(keys, rows.Keys);
    forall id | id in keys
      ensures ToMap(list)[id] == rows[id]
    {
      ToMapKeys(list, id);
    }
  }

  lemma {:induction false} KeysCount(list: seq<(string, Content)>)
    requires EachOnce(list)
    ensures |set i | 0 <= i < |list| :: list[i].0| == |list|
  {
    var keys := set i | 0 <= i < |list| :: list[i].0;
    if list != [] {
      var k := |list| - 1;
      var front := list[..k];
      var fewer := set i | 0 <= i < |front| :: front[i].0;
      KeysCount(front);
      assert keys == (set i | 0 <= i < k :: list[i].0) + {list[k].0};
      assert fewer == set i | 0 <= i < k :: list[i].0;
      assert list[k].0 !in fewer;
    } else {
      assert keys == {};
    }
  }

  lemma {:induction false} SubsetOfSameSize<T>(a: set<T>, b: set<T>)
    requires a <= b && |a| == |b|
    ensures a == b
  {
    assert |b - a| == |b| - |a|;
  }

  class Repository {
    var sessions: map<string, Session>
    var requests: map<string, Row>
    var favorites: map<string, Content>

    ghost function View(): Store
      reads this
    {
      Store(sessions, requests, favorites)
    }

    constructor ()
      ensures View() == Fresh()
    {
      sessions, requests, favorites := map["favorites" := Session("Favorites", 0)], map[], map[];
    }

    method SaveRequest(sid: string, req: Option<Captured>) returns (r: Saved)
      modifies this
      ensures View() == SessionStore.SaveRequest(old(View()), sid, req)
      ensures r == if req == None then Skipped
                   else if sid == "" then EmptySession
                   else if CanInsert(old(View()), sid, req.value.id) then Stored else Refused
    {
      if req == None {
        return Skipped;
      }
      if sid == "" {
        return EmptySession;
      }
      var q := req.value;
      if q.id in requests || sid !in sessions {
        return Refused;
      }
      requests := requests[q.id := Row(sid, q.favorite, q.content)];
      sessions := sessions[sid := sessions[sid].(requestCount := sessions[sid].requestCount + 1)];
      return Stored;
    }

    /** All rows of the batch, or none: a refused row rolls back those before it. */
    method SaveRequestsBatch(sid: string, reqs: seq<Option<Captured>>) returns (r: Saved)
      modifies this
      ensures View() == SessionStore.SaveRequestsBatch(old(View()), sid, reqs)
      ensures r == if sid == "" then EmptySession
                   else if InsertAll(old(View()), sid, reqs).Some? then Stored else Refused
    {
      if sid == "" {
        return EmptySession;
      }
      var before := requests;
      var rest := reqs;
      while |rest| > 0
        invariant sessions == old(sessions) && favorites == old(favorites)
        invariant InsertAll(old(View()), sid, reqs) == InsertAll(View(), sid, rest)
        decreases |rest|
      {
        if rest[0].Some? {
          var q := rest[0].value;
          if q.id in requests || sid !in sessions {
            requests := before;
            return Refused;
          }
          requests := requests[q.id := Row(sid, q.favorite, q.content)];
        }
        rest := rest[1..];
      }
      if sid in sessions {
        sessions := sessions[sid := sessions[sid].(requestCount := sessions[sid].requestCount + |reqs|)];
      }
      return Stored;
    }

    /** `id` is the response's request identifier or, when that is empty, its own; both empty is an error. */
    method SaveResponse(id: string, data: string) returns (ok: bool)
      modifies this
      ensures View() == SessionStore.SaveResponse(old(View()), id, data)
      ensures ok <==> id != ""
    {
      if id == "" {
        return false;
      }
      ok := true;
      if id in requests {
        var row := requests[id];
        requests := requests[id := row.(content := row.content.(data := data))];
      }
    }

    /** `ORDER BY start_time ASC LIMIT n` over the rows `from`. */
    method SelectOldest(from: set<string>, n: nat) returns (victims: set<string>)
      requires from <= requests.Keys && n <= |from|
      ensures Oldest(View(), victims, from, n)
    {
      victims := {};
      while |victims| < n
        invariant |victims| <= n && Oldest(View(), victims, from, |victims|)
        decreases n - |victims|
      {
        var rest := from - victims;
        assert |rest| == |from| - |victims|;
        var v :| v in rest;
        var todo := rest - {v};
        while todo != {}
          invariant todo <= rest && v in rest
          invariant forall s :: s in rest - todo ==> requests[v].content.startTime <= requests[s].content.startTime
          decreases |todo|
        {
          var w :| w in todo;
          if requests[w].content.startTime < requests[v].content.startTime {
            v := w;
          }
          todo := todo - {w};
        }
        victims := victims + {v};
      }
    }

    method EnforceSessionCeiling(sid: string, max: int) returns (ghost victims: set<string>)
      modifies this
      ensures MayPrune(old(View()), sid, max, victims)
      ensures View() == Prune(old(View()), sid, victims)
    {
      victims := {};
      if sid == "" || max <= 0 {
        return;
      }
      var plain := set id | id in requests && requests[id].session == sid && !requests[id].favorite;
      assert plain == PlainRows(View(), sid);
      if |plain| <= max {
        return;
      }
      var oldest := SelectOldest(plain, |plain| - max);
      victims := oldest;
      requests := requests - oldest;
      if sid in sessions {
        var total := |set id | id in requests && requests[id].session == sid|;
        sessions := sessions[sid := sessions[sid].(requestCount := total)];
      }
    }

    /** Favourite rows are copied before the session's rows are deleted. */
    method DeleteSession(sid: string) returns (ok: bool)
      modifies this
      ensures View() == SessionStore.DeleteSession(old(View()), sid)
      ensures ok <==> sid != "" && sid != "favorites"
      ensures FavView(View()) == FavView(old(View()))
      ensures ok ==> sessions == old(sessions) - {sid}
                     && forall id :: id in requests <==> id in old(requests) && old(requests)[id].session != sid
      ensures forall id :: id in requests ==> id in old(requests) && requests[id] == old(requests)[id]
    {
      DeleteSessionKeepsFavorites(View(), sid);
      DeletionDeletes(View(), sid);
      if sid == "" || sid == "favorites" {
        return false;
      }
      var copies := map id | id in requests && requests[id].session == sid && requests[id].favorite :: requests[id].content;
      favorites := favorites + copies;
      requests := requests - set id | id in requests && requests[id].session == sid;
      sessions := sessions - {sid};
      return true;
    }

    method ToggleFavorite(id: string, favorite: bool)
      modifies this
      ensures View() == SessionStore.ToggleFavorite(old(View()), id, favorite)
    {
      if id in requests {
        requests := requests[id := requests[id].(favorite := favorite)];
      }
      if favorite {
        if id in requests {
          favorites := favorites[id := requests[id].content];
        }
      } else {
        favorites := favorites - {id};
      }
    }

    method DeleteFavorite(id: string)
      modifies this
      ensures View() == SessionStore.DeleteFavorite(old(View()), id)
    {
      favorites := favorites - {id};
      requests := requests - {id};
    }

    /** `uniqueSessionNameExcluding`. */
    method UniqueSessionName(wanted: string, exclude: string) returns (name: string)
      ensures FirstFreeName(name, wanted, NamesTaken(View(), exclude))
    {
      var taken := set id | id in sessions && id != exclude :: sessions[id].name;
      assert taken == NamesTaken(View(), exclude);
      if wanted !in taken {
        return wanted;
      }
      ghost var n;
      name, n := FirstFree(wanted, " (", ")", 2, taken);
    }

    /** `newId` is a fresh identifier and `stamp` the time, which names a session that has no name. */
    method CreateSession(newId: string, name: string, stamp: string) returns (ok: bool, ghost unique: string)
      requires newId != ""
      modifies this`sessions
      ensures var op := CreateOp(newId, if name == "" then stamp else name, unique);
              Possible(old(View()), op) && View() == Apply(old(View()), op)
      ensures ok <==> newId !in old(sessions)
    {
      var wanted := if name == "" then stamp else name;
      var found := UniqueSessionName(wanted, "");
      unique := found;
      ok := newId !in sessions;
      if ok {
        sessions := sessions[newId := Session(found, 0)];
      }
    }

    method RenameSession(sid: string, name: string) returns (ok: bool, ghost unique: string)
      modifies this`sessions
      ensures Possible(old(View()), RenameOp(sid, name, unique))
      ensures View() == Apply(old(View()), RenameOp(sid, name, unique))
      ensures ok <==> sid != "" && name != ""
    {
      unique := "";
      if sid == "" || name == "" {
        return false, unique;
      }
      var found := UniqueSessionName(name, sid);
      unique := found;
      if sid in sessions {
        sessions := sessions[sid := sessions[sid].(name := found)];
      }
      return true, unique;
    }

    /** A scan `ORDER BY start_time DESC`. */
    method Scan(rows: map<string, Content>) returns (list: seq<(string, Content)>)
      ensures NewestFirst(list, rows)
    {
      list := [];
      var rest := rows;
      while |rest| > 0
        invariant rest.Keys <= rows.Keys && (forall id :: id in rest ==> rest[id] == rows[id])
        invariant |list| + |rest| == |rows|
        invariant forall i :: 0 <= i < |list| ==> list[i].0 in rows && list[i].0 !in rest && rows[list[i].0] == list[i].1
        invariant EachOnce(list) && Falling(list)
        invariant forall i, id :: 0 <= i < |list| && id in rest ==> list[i].1.startTime >= rest[id].startTime
        decreases |rest|
      {
        var id := Newest(rest);
        list := list + [(id, rest[id])];
        assert (rest - {id}).Keys == rest.Keys - {id};
        rest := rest - {id};
      }
    }

    method Newest(rows: map<string, Content>) returns (id: string)
      requires |rows| > 0
      ensures id in rows && forall k :: k in rows ==> rows[k].startTime <= rows[id].startTime
    {
      assert rows.Keys != {};
      id :| id in rows.Keys;
      var todo := rows.Keys - {id};
      while todo != {}
        invariant id in rows && todo <= rows.Keys
        invariant forall k :: k in rows.Keys - todo ==> rows[k].startTime <= rows[id].startTime
        decreases |todo|
      {
        var k :| k in todo;
        if rows[k].startTime > rows[id].startTime {
          id := k;
        }
        todo := todo - {k};
      }
    }

    /** Flagged rows, newest first, then the durable copies not listed yet, newest first; each identifier once. */
    method GetFavorites() returns (merged: seq<(string, Content)>)
      ensures EachOnce(merged) && ToMap(merged) == FavView(View())
      ensures exists k :: 0 <= k <= |merged| && NewestFirst(merged[..k], FlaggedRows(requests)) && Falling(merged[k..])
    {
      FavViewMerges(View());
      var reqs := Scan(FlaggedRows(requests));
      var favs := Scan(favorites);
      NewestFirstIsRows(reqs, FlaggedRows(requests));
      NewestFirstIsRows(favs, favorites);
      merged := Merge(reqs, favs);
      UnseenMerges(reqs, favs);
      UnseenFalls(ToMap(reqs).Keys, favs);
      assert merged[..|reqs|] == reqs;
    }

    /** The merging loops, with the identifiers merged so far in `seen`. */
    method Merge(reqs: seq<(string, Content)>, favs: seq<(string, Content)>) returns (merged: seq<(string, Content)>)
      requires EachOnce(reqs) && EachOnce(favs)
      ensures merged == reqs + Unseen(ToMap(reqs).Keys, favs)
    {
      var seen: set<string>;
      merged, seen := AddUnseen([], {}, reqs);
      UnseenOfNone(reqs);
      assert [] + reqs == reqs && {} + ToMap(reqs).Keys == ToMap(reqs).Keys;
      merged, seen := AddUnseen(merged, seen, favs);
    }

    method AddUnseen(merged: seq<(string, Content)>, seen: set<string>, list: seq<(string, Content)>)
      returns (merged': seq<(string, Content)>, seen': set<string>)
      requires EachOnce(list)
      ensures merged' == merged + Unseen(seen, list) && seen' == seen + ToMap(list).Keys
    {
      merged', seen' := merged, seen;
      for i := 0 to |list|
        invariant merged' == merged + Unseen(seen, list[..i])
        invariant seen' == seen + ToMap(list[..i]).Keys
      {
        OneMoreListed(list, i, seen);
        if list[i].0 !in seen' {
          merged' := merged' + [list[i]];
          seen' := seen' + {list[i].0};
        }
      }
      assert list[..|list|] == list;
    }
  }

  function FlaggedRows(requests: map<string, Row>): map<string, Content> {
    map id | id in requests && requests[id].favorite :: requests[id].content
  }

  lemma {:induction false} FavViewMerges(st: Store)
    ensures FavView(st) == st.favorites + FlaggedRows(st.requests)
  {
  }

  /** The items of a list whose identifiers are not taken. */
  function Unseen(taken: set<string>, list: seq<(string, Content)>): seq<(string, Content)> {
    if list == [] then []
    else Unseen(taken, list[..|list| - 1]) + if list[|list| - 1].0 in taken then [] else [list[|list| - 1]]
  }

  lemma {:induction false} OneMoreListed(list: seq<(string, Content)>, i: nat, taken: set<string>)
    requires EachOnce(list) && i < |list|
    ensures list[i].0 !in ToMap(list[..i])
    ensures ToMap(list[..i + 1]) == ToMap(list[..i])[list[i].0 := list[i].1]
    ensures Unseen(taken, list[..i + 1]) == Unseen(taken, list[..i]) + if list[i].0 in taken then [] else [list[i]]
  {
    ToMapKeys(list[..i], list[i].0);
    assert list[..i + 1][..i] == list[..i];
  }

  lemma {:induction false} UnseenOfNone(list: seq<(string, Content)>)
    ensures Unseen({}, list) == list
  {
    if list != [] {
      UnseenOfNone(list[..|list| - 1]);
    }
  }

  /** Appending the unseen items merges two lists, the first taking precedence. */
  lemma {:induction false} UnseenMerges(reqs: seq<(string, Content)>, favs: seq<(string, Content)>)
    requires EachOnce(reqs) && EachOnce(favs)
    ensures var merged := reqs + Unseen(ToMap(reqs).Keys, favs);
            EachOnce(merged) && ToMap(merged) == ToMap(favs) + ToMap(reqs)
    decreases |favs|
  {
    if favs == [] {
      assert reqs + [] == reqs;
    } else {
      var k := |favs| - 1;
      var taken, front, r := ToMap(reqs).Keys, favs[..k], favs[k];
      UnseenMerges(reqs, front);
      assert favs[..k + 1] == favs;
      OneMoreListed(favs, k, taken);
      MergeOne(reqs + Unseen(taken, front), ToMap(front), ToMap(reqs), r);
      assert reqs + (Unseen(taken, front) + [r]) == reqs + Unseen(taken, front) + [r];
      assert Unseen(taken, front) + [] == Unseen(taken, front);
    }
  }

  lemma {:induction false} MergeOne(merged: seq<(string, Content)>, m: map<string, Content>, n: map<string, Content>, r: (string, Content))
    requires EachOnce(merged) && ToMap(merged) == m + n && r.0 !in m
    ensures r.0 in n ==> m[r.0 := r.1] + n == ToMap(merged)
    ensures r.0 !in n ==> EachOnce(merged + [r]) && ToMap(merged + [r]) == m[r.0 := r.1] + n
  {
    if r.0 !in n {
      AppendNew(merged, r);
      assert m[r.0 := r.1] + n == (m + n)[r.0 := r.1];
    }
  }

  lemma {:induction false} AppendNew(list: seq<(string, Content)>, r: (string, Content))
    requires EachOnce(list) && r.0 !in ToMap(list)
    ensures EachOnce(list + [r]) && ToMap(list + [r]) == ToMap(list)[r.0 := r.1]
  {
    ToMapKeys(list, r.0);
    assert (list + [r])[..|list|] == list;
  }

  lemma {:induction false} UnseenFalls(taken: set<string>, list: seq<(string, Content)>)
    requires Falling(list)
    ensures Falling(Unseen(taken, list)) && forall r :: r in Unseen(taken, list) ==> r in list
  {
    if list != [] {
      var front := list[..|list| - 1];
      UnseenFalls(taken, front);
      forall r | r in Unseen(taken, front)
        ensures r in list && r.1.startTime >= list[|list| - 1].1.startTime
      {
        var i :| 0 <= i < |front| && front[i] == r;
        assert list[i] == r;
      }
    }
  }
}
