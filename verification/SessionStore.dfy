/**
 The session and favourites tables of pkg/storage/session_repo.go, with the schema of
 pkg/storage/db.go: each repository method is one step on three keyed tables.

 A row's columns other than its key, session and favourite flag are its content; both tables keep
 them. SQL errors other than key violations are not modelled.
 */
module SessionStore {
  import opened Bytes
  import opened UniqueNames
  import Text

  datatype Content = Content(startTime: int, data: string)

  datatype Row = Row(session: string, favorite: bool, content: Content)

  datatype Session = Session(name: string, requestCount: int)

  datatype Store = Store(sessions: map<string, Session>, requests: map<string, Row>, favorites: map<string, Content>)

  /** A captured request, as handed to the repository. */
  datatype Captured = Captured(id: string, favorite: bool, content: Content)

  /** A database as `initSchema` makes it. */
  function Fresh(): Store {
    Store(map["favorites" := Session("Favorites", 0)], map[], map[])
  }

  // ---------------------------------------------------------------- the steps

  /** Rows of one session. */
  function RowsOf(st: Store, sid: string): set<string> {
    set id | id in st.requests && st.requests[id].session == sid
  }

  /** Rows of one session that are not favourites: the ones that may be pruned. */
  function PlainRows(st: Store, sid: string): set<string> {
    set id | id in st.requests && st.requests[id].session == sid && !st.requests[id].favorite
  }

  function AddToCount(st: Store, sid: string, n: int): Store {
    if sid in st.sessions then
      st.(sessions := st.sessions[sid := st.sessions[sid].(requestCount := st.sessions[sid].requestCount + n)])
    else st
  }

  /** The primary key and the foreign key let a row in. */
  predicate CanInsert(st: Store, sid: string, id: string) {
    id !in st.requests && sid in st.sessions
  }

  function Insert(st: Store, sid: string, r: Captured): Store {
    st.(requests := st.requests[r.id := Row(sid, r.favorite, r.content)])
  }

  function SaveRequest(st: Store, sid: string, req: Option<Captured>): Store {
    if req == None || sid == "" || !CanInsert(st, sid, req.value.id) then st
    else AddToCount(Insert(st, sid, req.value), sid, 1)
  }

  /** The rows of a batch, nil entries skipped; None when one of them is refused. */
  function InsertAll(st: Store, sid: string, reqs: seq<Option<Captured>>): Option<Store>
    decreases |reqs|
  {
    if reqs == [] then Some(st)
    else if reqs[0] == None then InsertAll(st, sid, reqs[1..])
    else if !CanInsert(st, sid, reqs[0].value.id) then None
    else InsertAll(Insert(st, sid, reqs[0].value), sid, reqs[1..])
  }

  function SaveRequestsBatch(st: Store, sid: string, reqs: seq<Option<Captured>>): Store {
    if sid == "" || InsertAll(st, sid, reqs) == None then st
    else AddToCount(InsertAll(st, sid, reqs).value, sid, |reqs|)
  }

  function SaveResponse(st: Store, id: string, data: string): Store {
    if id != "" && id in st.requests then
      st.(requests := st.requests[id := st.requests[id].(content := st.requests[id].content.(data := data))])
    else st
  }

  /** Rows `ORDER BY start_time ASC LIMIT n` may return: n of them, none newer than one left behind. */
  ghost predicate Oldest(st: Store, victims: set<string>, from: set<string>, n: nat) {
    && victims <= from <= st.requests.Keys && |victims| == n
    && forall v, s :: v in victims && s in from - victims ==>
         st.requests[v].content.startTime <= st.requests[s].content.startTime
  }

  /** The victims `EnforceSessionCeiling` may choose: none when the session is within the ceiling. */
  ghost predicate MayPrune(st: Store, sid: string, max: int, victims: set<string>) {
    var plain := PlainRows(st, sid);
    if sid == "" || max <= 0 || |plain| <= max then victims == {}
    else Oldest(st, victims, plain, |plain| - max)
  }

  function SetCount(st: Store, sid: string): Store {
    if sid in st.sessions then
      st.(sessions := st.sessions[sid := st.sessions[sid].(requestCount := |RowsOf(st, sid)|)])
    else st
  }

  function Prune(st: Store, sid: string, victims: set<string>): Store {
    if victims == {} then st else SetCount(st.(requests := st.requests - victims), sid)
  }

  /** The favourites among a session's rows. */
  function FavoriteRows(st: Store, sid: string): map<string, Content> {
    map id | id in st.requests && st.requests[id].session == sid && st.requests[id].favorite :: st.requests[id].content
  }

  function DeleteSession(st: Store, sid: string): Store {
    if sid == "" || sid == "favorites" then st
    else Store(st.sessions - {sid}, st.requests - RowsOf(st, sid), st.favorites + FavoriteRows(st, sid))
  }

  function SetFlag(st: Store, id: string, favorite: bool): Store {
    if id in st.requests then st.(requests := st.requests[id := st.requests[id].(favorite := favorite)]) else st
  }

  function ToggleFavorite(st: Store, id: string, favorite: bool): Store {
    var flagged := SetFlag(st, id, favorite);
    if !favorite then flagged.(favorites := st.favorites - {id})
    else if id in st.requests then flagged.(favorites := st.favorites[id := st.requests[id].content])
    else flagged
  }

  function DeleteFavorite(st: Store, id: string): Store {
    st.(favorites := st.favorites - {id}, requests := st.requests - {id})
  }

  /** The names other sessions have. */
  function NamesTaken(st: Store, exclude: string): set<string> {
    set id | id in st.sessions && id != exclude :: st.sessions[id].name
  }

  /** `name` is what `uniqueSessionNameExcluding` finds for `wanted`: itself, or the first free numbering from 2. */
  ghost predicate FirstFreeName(name: string, wanted: string, taken: set<string>) {
    if wanted !in taken then name == wanted
    else
      exists n: nat :: n >= 2 && name == Numbered(wanted, " (", n, ")") && name !in taken
        && forall m :: 2 <= m < n ==> Numbered(wanted, " (", m, ")") in taken
  }

  function AddSession(st: Store, id: string, name: string): Store {
    st.(sessions := st.sessions[id := Session(name, 0)])
  }

  function SetName(st: Store, id: string, name: string): Store {
    if id in st.sessions then st.(sessions := st.sessions[id := st.sessions[id].(name := name)]) else st
  }

  // ---------------------------------------------------------------- runs

  /**
   A repository call with what it decides besides its arguments: which rows the database returns as
   the oldest, and which name the search ends with. Identifiers of new sessions are not empty.
   */
  datatype Op =
    | SaveOp(sid: string, req: Option<Captured>)
    | BatchOp(sid: string, reqs: seq<Option<Captured>>)
    | ResponseOp(id: string, data: string)
    | PruneOp(sid: string, max: int, victims: set<string>)
    | DeleteSessionOp(sid: string)
    | ToggleOp(id: string, favorite: bool)
    | DeleteFavoriteOp(id: string)
    | CreateOp(id: string, wanted: string, name: string)
    | RenameOp(id: string, wanted: string, name: string)

  ghost predicate Possible(st: Store, op: Op) {
    match op
    case PruneOp(sid, max, victims) => MayPrune(st, sid, max, victims)
    case CreateOp(id, wanted, name) => id != "" && FirstFreeName(name, wanted, NamesTaken(st, ""))
    case RenameOp(id, wanted, name) => id == "" || wanted == "" || FirstFreeName(name, wanted, NamesTaken(st, id))
    case _ => true
  }

  function Apply(st: Store, op: Op): Store {
    match op
    case SaveOp(sid, req) => SaveRequest(st, sid, req)
    case BatchOp(sid, reqs) => SaveRequestsBatch(st, sid, reqs)
    case ResponseOp(id, data) => SaveResponse(st, id, data)
    case PruneOp(sid, _, victims) => Prune(st, sid, victims)
    case DeleteSessionOp(sid) => DeleteSession(st, sid)
    case ToggleOp(id, favorite) => ToggleFavorite(st, id, favorite)
    case DeleteFavoriteOp(id) => DeleteFavorite(st, id)
    case CreateOp(id, _, name) => if id in st.sessions then st else AddSession(st, id, name)
    case RenameOp(id, wanted, name) => if id == "" || wanted == "" then st else SetName(st, id, name)
  }

  ghost predicate PossibleRun(st: Store, ops: seq<Op>)
    decreases |ops|
  {
    ops == [] || (Possible(st, ops[0]) && PossibleRun(Apply(st, ops[0]), ops[1..]))
  }

  function Run(st: Store, ops: seq<Op>): Store
    decreases |ops|
  {
    if ops == [] then st else Run(Apply(st, ops[0]), ops[1..])
  }

  // ---------------------------------------------------------------- table by table

  /** Two tables agree on every key but those in `keys`. */
  ghost predicate SameBut<V>(m: map<string, V>, n: map<string, V>, keys: set<string>) {
    forall k :: k !in keys ==> (k in m <==> k in n) && (k in m && k in n ==> m[k] == n[k])
  }

  /** Saving adds one row, as it was captured, and counts it; or, where a key refuses it, does nothing. */
  lemma {:induction false} SavingStores(st: Store, sid: string, r: Captured)
    ensures var after := SaveRequest(st, sid, Some(r));
            if sid == "" || r.id in st.requests || sid !in st.sessions then after == st
            else
              && r.id in after.requests && after.requests[r.id] == Row(sid, r.favorite, r.content)
              && SameBut(after.requests, st.requests, {r.id}) && after.favorites == st.favorites
              && sid in after.sessions && after.sessions[sid].name == st.sessions[sid].name
              && after.sessions[sid].requestCount == st.sessions[sid].requestCount + 1
              && SameBut(after.sessions, st.sessions, {sid})
    ensures SaveRequest(st, sid, None) == st
  {
  }

  /** No key refuses a row of the batch: all are new, all differ, and the session exists. */
  ghost predicate AllNew(st: Store, sid: string, reqs: seq<Option<Captured>>) {
    && (forall i :: 0 <= i < |reqs| && reqs[i].Some? ==> reqs[i].value.id !in st.requests && sid in st.sessions)
    && forall i, j :: 0 <= i < j < |reqs| && reqs[i].Some? && reqs[j].Some? ==> reqs[i].value.id != reqs[j].value.id
  }

  function IdsOf(reqs: seq<Option<Captured>>): set<string> {
    set i | 0 <= i < |reqs| && reqs[i].Some? :: reqs[i].value.id
  }

  lemma {:induction false} RestIsNew(st: Store, sid: string, reqs: seq<Option<Captured>>)
    requires reqs != [] && reqs[0].Some? && CanInsert(st, sid, reqs[0].value.id)
    ensures AllNew(st, sid, reqs) <==> AllNew(Insert(st, sid, reqs[0].value), sid, reqs[1..])
  {
    var next, rest := Insert(st, sid, reqs[0].value), reqs[1..];
    assert forall i :: 1 <= i < |reqs| ==> reqs[i] == rest[i - 1];
    if AllNew(next, sid, rest) {
      forall i | 0 <= i < |reqs| && reqs[i].Some?
        ensures reqs[i].value.id !in st.requests
        ensures i > 0 ==> reqs[i].value.id != reqs[0].value.id
      {
        if i > 0 {
          assert rest[i - 1].value.id !in next.requests;
        }
      }
      forall i, j | 0 <= i < j < |reqs| && reqs[i].Some? && reqs[j].Some?
        ensures reqs[i].value.id != reqs[j].value.id
      {
        if i > 0 {
          assert rest[i - 1].value.id != rest[j - 1].value.id;
        }
      }
    }
  }

  lemma {:induction false} InsertAllExactly(st: Store, sid: string, reqs: seq<Option<Captured>>)
    ensures InsertAll(st, sid, reqs).Some? <==> AllNew(st, sid, reqs)
    decreases |reqs|
  {
    if reqs != [] {
      assert forall i :: 1 <= i < |reqs| ==> reqs[i] == reqs[1..][i - 1];
      if reqs[0] == None {
        InsertAllExactly(st, sid, reqs[1..]);
      } else if CanInsert(st, sid, reqs[0].value.id) {
        RestIsNew(st, sid, reqs);
        InsertAllExactly(Insert(st, sid, reqs[0].value), sid, reqs[1..]);
      }
    }
  }

  lemma {:induction false} InsertAllStores(st: Store, sid: string, reqs: seq<Option<Captured>>)
    requires InsertAll(st, sid, reqs).Some?
    ensures var after := InsertAll(st, sid, reqs).value;
            && (forall i :: 0 <= i < |reqs| && reqs[i].Some? ==>
                  var r := reqs[i].value; r.id in after.requests && after.requests[r.id] == Row(sid, r.favorite, r.content))
            && SameBut(after.requests, st.requests, IdsOf(reqs))
            && after.favorites == st.favorites && after.sessions == st.sessions
    decreases |reqs|
  {
    if reqs != [] {
      var rest := reqs[1..];
      assert forall i :: 1 <= i < |reqs| ==> reqs[i] == rest[i - 1];
      InsertAllExactly(st, sid, reqs);
      if reqs[0] == None {
        InsertAllStores(st, sid, rest);
        assert IdsOf(reqs) == IdsOf(rest);
      } else {
        var id := reqs[0].value.id;
        var next := Insert(st, sid, reqs[0].value);
        InsertAllStores(next, sid, rest);
        assert id !in IdsOf(rest);
        assert IdsOf(reqs) == {id} + IdsOf(rest);
        assert next.requests[id] == Row(sid, reqs[0].value.favorite, reqs[0].value.content);
      }
    }
  }

  /** A batch that no key refuses adds each of its rows and counts its entries; any other does nothing. */
  lemma {:induction false} BatchStores(st: Store, sid: string, reqs: seq<Option<Captured>>)
    ensures var after := SaveRequestsBatch(st, sid, reqs);
            if sid == "" || !AllNew(st, sid, reqs) then after == st
            else
              && (forall i :: 0 <= i < |reqs| && reqs[i].Some? ==>
                    var r := reqs[i].value; r.id in after.requests && after.requests[r.id] == Row(sid, r.favorite, r.content))
              && SameBut(after.requests, st.requests, IdsOf(reqs)) && after.favorites == st.favorites
              && after.sessions.Keys == st.sessions.Keys && SameBut(after.sessions, st.sessions, {sid})
              && (sid in st.sessions ==>
                    after.sessions[sid] == Session(st.sessions[sid].name, st.sessions[sid].requestCount + |reqs|))
  {
    InsertAllExactly(st, sid, reqs);
    if AllNew(st, sid, reqs) {
      InsertAllStores(st, sid, reqs);
    }
  }

  /** A response replaces what its row holds of one, and nothing else of it, and no other row. */
  lemma {:induction false} ResponseUpdates(st: Store, id: string, data: string)
    ensures var after := SaveResponse(st, id, data);
            && after.sessions == st.sessions && after.favorites == st.favorites
            && after.requests.Keys == st.requests.Keys && SameBut(after.requests, st.requests, {id})
            && (id in st.requests ==>
                  && after.requests[id].session == st.requests[id].session
                  && after.requests[id].favorite == st.requests[id].favorite
                  && after.requests[id].content.startTime == st.requests[id].content.startTime
                  && after.requests[id].content.data == if id == "" then st.requests[id].content.data else data)
  {
  }

  /** Pruning that deletes a row recounts its session, and touches no other session and no name. */
  lemma {:induction false} PruningRecounts(st: Store, sid: string, max: int, victims: set<string>)
    requires MayPrune(st, sid, max, victims)
    ensures var after := Prune(st, sid, victims);
            && after.sessions.Keys == st.sessions.Keys && SameBut(after.sessions, st.sessions, {sid})
            && (sid in st.sessions ==>
                  && after.sessions[sid].name == st.sessions[sid].name
                  && after.sessions[sid].requestCount
                     == if victims == {} then st.sessions[sid].requestCount
                        else |set id | id in after.requests && after.requests[id].session == sid|)
            && (sid == "" || max <= 0 ==> after == st)
  {
  }

  /**
   Deleting a session deletes it and every row of it, and no other session or row; its favourites are
   copied as they are, and no other copy changes. The two reserved identifiers are refused.
   */
  lemma {:induction false} DeletionDeletes(st: Store, sid: string)
    ensures var after := DeleteSession(st, sid);
            if sid == "" || sid == "favorites" then after == st
            else
              && after.sessions == st.sessions - {sid}
              && (forall id :: id in after.requests <==> id in st.requests && st.requests[id].session != sid)
              && (forall id :: id in after.requests ==> after.requests[id] == st.requests[id])
              && (forall id :: id in st.requests && st.requests[id].session == sid && st.requests[id].favorite ==>
                    id in after.favorites && after.favorites[id] == st.requests[id].content)
              && (forall id :: !(id in st.requests && st.requests[id].session == sid && st.requests[id].favorite) ==>
                    (id in after.favorites <==> id in st.favorites)
                    && (id in st.favorites ==> after.favorites[id] == st.favorites[id]))
  {
  }

  /**
   Marking sets the row's flag and copies what it holds now; unmarking clears the flag and drops the
   copy. The row itself stays, and so does everything else. Without a row there is nothing to mark.
   */
  lemma {:induction false} TogglingMarks(st: Store, id: string, favorite: bool)
    ensures var after := ToggleFavorite(st, id, favorite);
            && after.sessions == st.sessions && after.requests.Keys == st.requests.Keys
            && SameBut(after.requests, st.requests, {id}) && SameBut(after.favorites, st.favorites, {id})
            && (id in st.requests ==>
                  after.requests[id] == Row(st.requests[id].session, favorite, st.requests[id].content))
            && (favorite && id in st.requests ==> id in after.favorites && after.favorites[id] == st.requests[id].content)
            && (favorite && id !in st.requests ==> after.favorites == st.favorites)
            && (!favorite ==> id !in after.favorites)
  {
  }

  /** Deleting a favourite deletes its row and its copy, and nothing else. */
  lemma {:induction false} DeletingAFavorite(st: Store, id: string)
    ensures var after := DeleteFavorite(st, id);
            && id !in after.requests && id !in after.favorites && after.sessions == st.sessions
            && SameBut(after.requests, st.requests, {id}) && SameBut(after.favorites, st.favorites, {id})
  {
  }

  /** Creating adds an empty session under the name that was found; renaming gives it that name and keeps its count. */
  lemma {:induction false} NamingNames(st: Store, id: string, wanted: string, name: string)
    ensures var after := Apply(st, CreateOp(id, wanted, name));
            && after.requests == st.requests && after.favorites == st.favorites && SameBut(after.sessions, st.sessions, {id})
            && id in after.sessions && after.sessions[id] == if id in st.sessions then st.sessions[id] else Session(name, 0)
    ensures var after := Apply(st, RenameOp(id, wanted, name));
            && after.requests == st.requests && after.favorites == st.favorites
            && after.sessions.Keys == st.sessions.Keys && SameBut(after.sessions, st.sessions, {id})
            && (id in st.sessions && id != "" && wanted != "" ==>
                  after.sessions[id] == Session(name, st.sessions[id].requestCount))
            && (id == "" || wanted == "" ==> after == st)
  {
  }

  // ---------------------------------------------------------------- favourites

  /** What `GetFavorites` lists, as a map: flagged rows, then the durable copies of other identifiers. */
  function FavView(st: Store): map<string, Content> {
    map id | id in st.requests.Keys + st.favorites.Keys && (id in st.favorites || st.requests[id].favorite) ::
      if id in st.requests && st.requests[id].favorite then st.requests[id].content else st.favorites[id]
  }

  /** The favourites are the flagged rows, with what they hold now, and the copies of other identifiers. */
  lemma {:induction false} FavViewExactly(st: Store, id: string)
    ensures id in FavView(st) <==> (id in st.requests && st.requests[id].favorite) || id in st.favorites
    ensures id in st.requests && st.requests[id].favorite ==> FavView(st)[id] == st.requests[id].content
    ensures id in st.favorites && !(id in st.requests && st.requests[id].favorite) ==> FavView(st)[id] == st.favorites[id]
  {
  }

  /** Deleting any session leaves the favourites as they were, from every state of the tables. */
  lemma {:induction false} DeleteSessionKeepsFavorites(st: Store, sid: string)
    ensures FavView(DeleteSession(st, sid)) == FavView(st)
  {
  }

  /** So does pruning any session. */
  lemma {:induction false} PruneKeepsFavorites(st: Store, sid: string, max: int, victims: set<string>)
    requires MayPrune(st, sid, max, victims)
    ensures FavView(Prune(st, sid, victims)) == FavView(st)
  {
  }

  /** Marking and unmarking do what they say, and to no other identifier. */
  lemma {:induction false} ToggleChangesOneFavorite(st: Store, id: string, favorite: bool)
    ensures var after := FavView(ToggleFavorite(st, id, favorite));
            && after - {id} == FavView(st) - {id}
            && (favorite && id in st.requests ==> id in after && after[id] == st.requests[id].content)
            && (!favorite ==> id !in after)
  {
  }

  /** The identifiers whose place among the favourites a step is about. */
  function Concerns(op: Op): set<string> {
    match op
    case SaveOp(_, req) => if req.Some? && req.value.favorite then {req.value.id} else {}
    case BatchOp(_, reqs) => set r | r in reqs && r.Some? && r.value.favorite :: r.value.id
    case ResponseOp(id, _) => {id}
    case ToggleOp(id, _) => {id}
    case DeleteFavoriteOp(id) => {id}
    case _ => {}
  }

  /** How an identifier is listed among the favourites, if it is. */
  function Listed(st: Store, id: string): Option<Content> {
    if id in FavView(st) then Some(FavView(st)[id]) else None
  }

  lemma {:induction false} InsertAllLists(st: Store, sid: string, reqs: seq<Option<Captured>>, id: string)
    requires InsertAll(st, sid, reqs).Some? && forall r :: r in reqs && r.Some? && r.value.favorite ==> r.value.id != id
    ensures Listed(InsertAll(st, sid, reqs).value, id) == Listed(st, id)
    ensures InsertAll(st, sid, reqs).value.favorites == st.favorites
    decreases |reqs|
  {
    if reqs != [] {
      if reqs[0] == None {
        InsertAllLists(st, sid, reqs[1..], id);
      } else {
        assert reqs[0] in reqs;
        InsertAllLists(Insert(st, sid, reqs[0].value), sid, reqs[1..], id);
      }
    }
  }

  /** An identifier is listed the same when its flag, its content and its durable copy are the same. */
  lemma {:induction false} SameRowSameListing(st: Store, after: Store, id: string)
    requires id in st.favorites <==> id in after.favorites
    requires id in st.favorites ==> st.favorites[id] == after.favorites[id]
    requires id in st.requests && st.requests[id].favorite <==> id in after.requests && after.requests[id].favorite
    requires id in st.requests && st.requests[id].favorite ==> st.requests[id].content == after.requests[id].content
    ensures Listed(after, id) == Listed(st, id)
  {
  }

  lemma {:induction false} BatchKeepsListed(st: Store, sid: string, reqs: seq<Option<Captured>>, id: string)
    requires id !in Concerns(BatchOp(sid, reqs))
    ensures Listed(SaveRequestsBatch(st, sid, reqs), id) == Listed(st, id)
  {
    if sid != "" && InsertAll(st, sid, reqs).Some? {
      InsertAllLists(st, sid, reqs, id);
      SameRowSameListing(InsertAll(st, sid, reqs).value, SaveRequestsBatch(st, sid, reqs), id);
    }
  }

  lemma {:induction false} StepKeepsListed(st: Store, op: Op, id: string)
    requires Possible(st, op) && id !in Concerns(op)
    ensures Listed(Apply(st, op), id) == Listed(st, id)
  {
    match op {
      case BatchOp(sid, reqs) => BatchKeepsListed(st, sid, reqs, id);
      case PruneOp(sid, max, victims) => PruneKeepsFavorites(st, sid, max, victims);
      case DeleteSessionOp(sid) => DeleteSessionKeepsFavorites(st, sid);
      case _ => SameRowSameListing(st, Apply(st, op), id);
    }
  }

  /**
   Over any run an identifier's place among the favourites, and its content there, is as it was
   unless a call is about that very identifier: sessions may be deleted, pruned, renamed and filled
   around it, and its own row deleted with its session.
   */
  lemma {:induction false} FavoriteOutlivesSessions(st: Store, ops: seq<Op>, id: string)
    requires PossibleRun(st, ops) && forall op :: op in ops ==> id !in Concerns(op)
    ensures Listed(Run(st, ops), id) == Listed(st, id)
    decreases |ops|
  {
    if ops != [] {
      StepKeepsListed(st, ops[0], id);
      FavoriteOutlivesSessions(Apply(st, ops[0]), ops[1..], id);
    }
  }

  // ---------------------------------------------------------------- pruning

  /**
   Pruning leaves min(before, max) plain rows in the session, deletes none newer than one it keeps,
   and touches no favourite, no other session and no other table.
   */
  lemma {:induction false} PruneIsFifo(st: Store, sid: string, max: int, victims: set<string>)
    requires MayPrune(st, sid, max, victims) && sid != "" && max > 0
    ensures var after := Prune(st, sid, victims);
            && |PlainRows(after, sid)| == (if |PlainRows(st, sid)| <= max then |PlainRows(st, sid)| else max)
            && (forall id :: id in after.requests ==> id in st.requests && after.requests[id] == st.requests[id])
            && (forall id :: id in st.requests && id !in after.requests ==>
                  st.requests[id].session == sid && !st.requests[id].favorite
                  && forall s :: s in PlainRows(after, sid) ==>
                       st.requests[id].content.startTime <= st.requests[s].content.startTime)
            && after.favorites == st.favorites
  {
    PlainRowsLeft(st, sid, max, victims);
  }

  lemma {:induction false} PlainRowsLeft(st: Store, sid: string, max: int, victims: set<string>)
    requires MayPrune(st, sid, max, victims)
    ensures PlainRows(Prune(st, sid, victims), sid) == PlainRows(st, sid) - victims
    ensures |PlainRows(Prune(st, sid, victims), sid)| == |PlainRows(st, sid)| - |victims|
  {
    var plain := PlainRows(st, sid);
    assert PlainRows(Prune(st, sid, victims), sid) == plain - victims;
    assert |plain - victims| == |plain| - |victims|;
  }

  /** There always are rows to choose: some set of the right size is no newer than the rest. */
  lemma {:induction false} OldestExist(st: Store, from: set<string>, n: nat) returns (victims: set<string>)
    requires from <= st.requests.Keys && n <= |from|
    ensures Oldest(st, victims, from, n)
    decreases n
  {
    if n == 0 {
      victims := {};
    } else {
      victims := OldestExist(st, from, n - 1);
      var rest := from - victims;
      assert |rest| == |from| - (n - 1);
      var v := OldestOf(st, rest);
      victims := victims + {v};
    }
  }

  lemma {:induction false} OldestOf(st: Store, from: set<string>) returns (v: string)
    requires from <= st.requests.Keys && from != {}
    ensures v in from
    ensures forall s :: s in from ==> st.requests[v].content.startTime <= st.requests[s].content.startTime
    decreases |from|
  {
    v :| v in from;
    if from != {v} {
      var w := OldestOf(st, from - {v});
      if st.requests[w].content.startTime < st.requests[v].content.startTime {
        v := w;
      }
    }
  }

  // ---------------------------------------------------------------- request counts

  /** Every row belongs to a session: the foreign key. */
  ghost predicate Referential(st: Store) {
    forall id :: id in st.requests ==> st.requests[id].session in st.sessions
  }

  /** How far a session's counter is above its number of rows. */
  function Drift(st: Store, sid: string): int
    requires sid in st.sessions
  {
    st.sessions[sid].requestCount - |RowsOf(st, sid)|
  }

  function NilEntries(reqs: seq<Option<Captured>>): nat {
    if reqs == [] then 0 else (if reqs[0] == None then 1 else 0) + NilEntries(reqs[1..])
  }

  lemma {:induction false} InsertAllRows(st: Store, sid: string, reqs: seq<Option<Captured>>, other: string)
    requires InsertAll(st, sid, reqs).Some? && Referential(st)
    ensures var after := InsertAll(st, sid, reqs).value;
            && after.sessions == st.sessions && after.favorites == st.favorites && Referential(after)
            && |RowsOf(after, other)| == |RowsOf(st, other)| + if other == sid then |reqs| - NilEntries(reqs) else 0
    decreases |reqs|
  {
    if reqs != [] {
      if reqs[0] == None {
        InsertAllRows(st, sid, reqs[1..], other);
      } else {
        InsertRows(st, sid, reqs[0].value, other);
        InsertAllRows(Insert(st, sid, reqs[0].value), sid, reqs[1..], other);
      }
    }
  }

  lemma {:induction false} InsertRows(st: Store, sid: string, r: Captured, other: string)
    requires CanInsert(st, sid, r.id)
    ensures |RowsOf(Insert(st, sid, r), other)| == |RowsOf(st, other)| + if other == sid then 1 else 0
  {
    assert RowsOf(Insert(st, sid, r), other) == if other == sid then RowsOf(st, other) + {r.id} else RowsOf(st, other);
  }

  /** What one step adds to the drift of a session that outlives it. */
  function DriftStep(st: Store, op: Op, sid: string): int
    requires sid in st.sessions
  {
    match op
    case BatchOp(s, reqs) =>
      if s == sid && s != "" && InsertAll(st, s, reqs).Some? then NilEntries(reqs) else 0
    case DeleteFavoriteOp(id) => if id in RowsOf(st, sid) then 1 else 0
    case PruneOp(s, _, victims) => if s == sid && victims != {} then -Drift(st, sid) else 0
    case _ => 0
  }

  lemma {:induction false} SameDrift(st: Store, after: Store, sid: string)
    requires sid in st.sessions && sid in after.sessions
    requires st.sessions[sid].requestCount == after.sessions[sid].requestCount
    requires forall id :: id in st.requests && st.requests[id].session == sid
                     <==> id in after.requests && after.requests[id].session == sid
    ensures Drift(after, sid) == Drift(st, sid)
  {
    assert RowsOf(st, sid) == RowsOf(after, sid);
  }

  lemma {:induction false} DriftOfSave(st: Store, s: string, req: Option<Captured>, sid: string)
    requires sid in st.sessions
    ensures sid in SaveRequest(st, s, req).sessions && Drift(SaveRequest(st, s, req), sid) == Drift(st, sid)
  {
    if req.Some? && s != "" && CanInsert(st, s, req.value.id) {
      InsertRows(st, s, req.value, sid);
      assert RowsOf(SaveRequest(st, s, req), sid) == RowsOf(Insert(st, s, req.value), sid);
    }
  }

  lemma {:induction false} DriftOfBatch(st: Store, s: string, reqs: seq<Option<Captured>>, sid: string)
    requires Referential(st) && sid in st.sessions
    ensures var after := SaveRequestsBatch(st, s, reqs);
            sid in after.sessions && Drift(after, sid) == Drift(st, sid) + DriftStep(st, BatchOp(s, reqs), sid)
  {
    if s != "" && InsertAll(st, s, reqs).Some? {
      InsertAllRows(st, s, reqs, sid);
      assert RowsOf(SaveRequestsBatch(st, s, reqs), sid) == RowsOf(InsertAll(st, s, reqs).value, sid);
    }
  }

  lemma {:induction false} DriftOfPrune(st: Store, s: string, max: int, victims: set<string>, sid: string)
    requires MayPrune(st, s, max, victims) && sid in st.sessions
    ensures var after := Prune(st, s, victims);
            sid in after.sessions && Drift(after, sid) == if s == sid && victims != {} then 0 else Drift(st, sid)
  {
    var after := Prune(st, s, victims);
    if victims != {} {
      if s == sid {
        assert RowsOf(after, sid) == RowsOf(st.(requests := st.requests - victims), sid);
      } else {
        SameDrift(st, after, sid);
      }
    }
  }

  lemma {:induction false} DriftOfDeleteFavorite(st: Store, id: string, sid: string)
    requires sid in st.sessions
    ensures Drift(DeleteFavorite(st, id), sid) == Drift(st, sid) + if id in RowsOf(st, sid) then 1 else 0
  {
    assert RowsOf(DeleteFavorite(st, id), sid) == RowsOf(st, sid) - {id};
  }

  /**
   A session's counter drifts from its number of rows by exactly this much at every step: up by the
   nil entries of a batch, up by one when a favourite's row is deleted, and back to nothing when
   pruning deletes rows. No other step moves it.
   */
  lemma {:induction false} DriftExactly(st: Store, op: Op, sid: string)
    requires Referential(st) && Possible(st, op) && sid in st.sessions && sid in Apply(st, op).sessions
    ensures Drift(Apply(st, op), sid) == Drift(st, sid) + DriftStep(st, op, sid)
  {
    match op {
      case SaveOp(s, req) => DriftOfSave(st, s, req, sid);
      case BatchOp(s, reqs) => DriftOfBatch(st, s, reqs, sid);
      case PruneOp(s, max, victims) => DriftOfPrune(st, s, max, victims, sid);
      case DeleteFavoriteOp(id) => DriftOfDeleteFavorite(st, id, sid);
      case _ => SameDrift(st, Apply(st, op), sid);
    }
  }

  lemma {:induction false} StepKeepsReferential(st: Store, op: Op)
    requires Referential(st) && Possible(st, op)
    ensures Referential(Apply(st, op))
  {
    match op {
      case BatchOp(s, reqs) =>
        if s != "" && InsertAll(st, s, reqs).Some? {
          InsertAllRows(st, s, reqs, s);
        }
      case _ =>
    }
  }

  lemma {:induction false} InsertAllKeepsSessions(st: Store, sid: string, reqs: seq<Option<Captured>>)
    ensures InsertAll(st, sid, reqs).Some? ==> InsertAll(st, sid, reqs).value.sessions == st.sessions
    decreases |reqs|
  {
    if reqs != [] {
      if reqs[0] == None {
        InsertAllKeepsSessions(st, sid, reqs[1..]);
      } else {
        InsertAllKeepsSessions(Insert(st, sid, reqs[0].value), sid, reqs[1..]);
      }
    }
  }

  /** A session the step made has no rows yet, and a counter of zero. */
  lemma {:induction false} NewSessionIsEmpty(st: Store, op: Op, sid: string)
    requires Referential(st) && Possible(st, op) && sid !in st.sessions && sid in Apply(st, op).sessions
    ensures Drift(Apply(st, op), sid) == 0
  {
    if op.BatchOp? {
      InsertAllKeepsSessions(st, op.sid, op.reqs);
    }
    assert op.CreateOp?;
    assert RowsOf(Apply(st, op), sid) == {};
  }

  ghost predicate Counted(st: Store) {
    Referential(st) && forall sid :: sid in st.sessions ==> Drift(st, sid) >= 0
  }

  lemma {:induction false} StepKeepsCounted(st: Store, op: Op)
    requires Counted(st) && Possible(st, op)
    ensures Counted(Apply(st, op))
  {
    StepKeepsReferential(st, op);
    forall sid | sid in Apply(st, op).sessions
      ensures Drift(Apply(st, op), sid) >= 0
    {
      if sid in st.sessions {
        DriftExactly(st, op, sid);
      } else {
        NewSessionIsEmpty(st, op, sid);
      }
    }
  }

  /** Over every run from a new database no counter is ever below the number of rows it counts. */
  lemma {:induction false} CountsNeverShort(st: Store, ops: seq<Op>)
    requires Counted(st) && PossibleRun(st, ops)
    ensures Counted(Run(st, ops))
    decreases |ops|
  {
    if ops != [] {
      StepKeepsCounted(st, ops[0]);
      CountsNeverShort(Apply(st, ops[0]), ops[1..]);
    }
  }

  /** The steps that let a counter run ahead of its rows. */
  predicate Overcounts(st: Store, op: Op) {
    match op
    case BatchOp(sid, reqs) => sid in st.sessions && sid != "" && InsertAll(st, sid, reqs).Some? && NilEntries(reqs) > 0
    case DeleteFavoriteOp(id) => id in st.requests
    case _ => false
  }

  ghost predicate Exact(st: Store) {
    Referential(st) && forall sid :: sid in st.sessions ==> Drift(st, sid) == 0
  }

  /** From exact counters a step leaves them exact if and only if it is not one of those. */
  lemma {:induction false} StepExactIff(st: Store, op: Op)
    requires Exact(st) && Possible(st, op)
    ensures Exact(Apply(st, op)) <==> !Overcounts(st, op)
  {
    StepKeepsReferential(st, op);
    var after := Apply(st, op);
    forall sid | sid in after.sessions
      ensures sid in st.sessions ==> Drift(after, sid) == DriftStep(st, op, sid)
      ensures sid !in st.sessions ==> Drift(after, sid) == 0
    {
      if sid in st.sessions {
        DriftExactly(st, op, sid);
      } else {
        NewSessionIsEmpty(st, op, sid);
      }
    }
    if Overcounts(st, op) {
      var sid := if op.BatchOp? then op.sid else st.requests[op.id].session;
      if op.BatchOp? {
        InsertAllKeepsSessions(st, op.sid, op.reqs);
      }
      assert sid in after.sessions;
      assert Drift(after, sid) > 0;
    }
  }

  /** No step of a run lets a counter run ahead. */
  ghost predicate NeverOvercounts(st: Store, ops: seq<Op>)
    decreases |ops|
  {
    ops == [] || (!Overcounts(st, ops[0]) && NeverOvercounts(Apply(st, ops[0]), ops[1..]))
  }

  /** Over a run without such steps exact counters stay exact. */
  lemma {:induction false} RunStaysExact(st: Store, ops: seq<Op>)
    requires Exact(st) && PossibleRun(st, ops) && NeverOvercounts(st, ops)
    ensures Exact(Run(st, ops))
    decreases |ops|
  {
    if ops != [] {
      StepExactIff(st, ops[0]);
      RunStaysExact(Apply(st, ops[0]), ops[1..]);
    }
  }

  // ---------------------------------------------------------------- session names

  /** No two sessions share a name, and none has the empty identifier. */
  ghost predicate NamesDistinct(st: Store) {
    "" !in st.sessions &&
    forall a, b :: a in st.sessions && b in st.sessions && a != b ==> st.sessions[a].name != st.sessions[b].name
  }

  lemma {:induction false} CreateKeepsNames(st: Store, id: string, wanted: string, name: string)
    requires NamesDistinct(st) && id != "" && FirstFreeName(name, wanted, NamesTaken(st, ""))
    ensures NamesDistinct(AddSession(st, id, name))
  {
    assert forall a :: a in st.sessions ==> st.sessions[a].name in NamesTaken(st, "");
  }

  lemma {:induction false} RenameKeepsNames(st: Store, id: string, wanted: string, name: string)
    requires NamesDistinct(st) && FirstFreeName(name, wanted, NamesTaken(st, id))
    ensures NamesDistinct(SetName(st, id, name))
  {
    assert forall a :: a in st.sessions && a != id ==> st.sessions[a].name in NamesTaken(st, id);
  }

  /** So the second session that wants a name gets it with " (2)", and a name that is free is kept. */
  lemma {:induction false} SecondName(name: string, wanted: string)
    ensures FirstFreeName(name, wanted, {wanted}) <==> name == wanted + " (2)"
    ensures FirstFreeName(name, wanted, {}) <==> name == wanted
  {
    var first := Numbered(wanted, " (", 2, ")");
    Text.DecimalDigit(2);
    assert Text.Decimal(2) == "2";
    assert first == wanted + " (2)";
    assert |first| > |wanted|;
    if FirstFreeName(name, wanted, {wanted}) {
      var n: nat :| n >= 2 && name == Numbered(wanted, " (", n, ")")
                    && forall m :: 2 <= m < n ==> Numbered(wanted, " (", m, ")") in {wanted};
      assert n > 2 ==> first in {wanted};
    }
  }

  /**
   Choosing a name and storing it are one step here. Where two calls choose before either stores, they
   can choose the same name; one after the other they cannot.
   */
  lemma {:induction false} TwoChoicesOneName(st: Store, a: string, b: string, wanted: string, name: string)
    requires a != b && FirstFreeName(name, wanted, NamesTaken(st, ""))
    requires a != "" && b != ""
    ensures !NamesDistinct(AddSession(AddSession(st, a, name), b, name))
    ensures !FirstFreeName(name, wanted, NamesTaken(AddSession(st, a, name), ""))
  {
    var both := AddSession(AddSession(st, a, name), b, name);
    assert both.sessions[a].name == both.sessions[b].name;
    assert AddSession(st, a, name).sessions[a].name in NamesTaken(AddSession(st, a, name), "");
  }

  /** Steps that leave every session's name alone, or delete sessions. */
  lemma {:induction false} FewerNames(st: Store, after: Store)
    requires NamesDistinct(st)
    requires forall a :: a in after.sessions ==> a in st.sessions && after.sessions[a].name == st.sessions[a].name
    ensures NamesDistinct(after)
  {
  }

  lemma {:induction false} StepKeepsNames(st: Store, op: Op)
    requires NamesDistinct(st) && Possible(st, op)
    ensures NamesDistinct(Apply(st, op))
  {
    match op {
      case CreateOp(id, wanted, name) => CreateKeepsNames(st, id, wanted, name);
      case RenameOp(id, wanted, name) =>
        if id != "" && wanted != "" {
          RenameKeepsNames(st, id, wanted, name);
        }
      case BatchOp(s, reqs) =>
        InsertAllKeepsSessions(st, s, reqs);
        FewerNames(st, Apply(st, op));
      case _ => FewerNames(st, Apply(st, op));
    }
  }

  lemma {:induction false} RunKeepsNames(st: Store, ops: seq<Op>)
    requires NamesDistinct(st) && PossibleRun(st, ops)
    ensures NamesDistinct(Run(st, ops))
    decreases |ops|
  {
    if ops != [] {
      StepKeepsNames(st, ops[0]);
      RunKeepsNames(Apply(st, ops[0]), ops[1..]);
    }
  }

  /**
   Over every run of repository calls on a new database: session names stay pairwise distinct, every
   row has its session, and no session's counter is below its number of rows.
   */
  lemma {:induction false} EveryRunIsSound(ops: seq<Op>)
    requires PossibleRun(Fresh(), ops)
    ensures NamesDistinct(Run(Fresh(), ops)) && Counted(Run(Fresh(), ops))
  {
    assert RowsOf(Fresh(), "favorites") == {};
    RunKeepsNames(Fresh(), ops);
    CountsNeverShort(Fresh(), ops);
  }
}
