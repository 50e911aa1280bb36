/**
 The per-client fixed-window rate limiter of pkg/proxy/mobile_api.go.

 Time is a parameter of every call and is assumed not to run backwards. A window opens at a client's
 first call after the last one expired and lasts `window`, both ends included. A call that opens a
 window is allowed without looking at the limit, so a limit below one acts as a limit of one.
 */
module RateLimiter {

  datatype Entry = Entry(count: nat, reset: int)

  datatype Limiter<!K> = Limiter(window: nat, limit: int, clients: map<K, Entry>, lastSweep: int)

  /** One call of `allow`: who calls and when. */
  datatype Call<K> = Call(client: K, time: int)

  function Max(a: int, b: int): int {
    if a >= b then a else b
  }

  function Min(a: int, b: int): int {
    if a <= b then a else b
  }

  // ---------------------------------------------------------------- one call

  predicate Expired(e: Entry, now: int) {
    now > e.reset
  }

  function Sweep<K>(l: Limiter<K>, now: int): Limiter<K> {
    if now - l.lastSweep >= l.window then
      l.(clients := map k | k in l.clients && !Expired(l.clients[k], now) :: l.clients[k], lastSweep := now)
    else l
  }

  /** The entry a call leaves, given the one it finds. */
  function NextEntry(found: bool, e: Entry, window: nat, now: int): Entry {
    if !found || Expired(e, now) then Entry(1, now + window) else e.(count := e.count + 1)
  }

  predicate Answer(found: bool, e: Entry, limit: int, now: int) {
    !found || Expired(e, now) || e.count + 1 <= limit
  }

  function Lookup<K>(l: Limiter<K>, k: K): Entry {
    if k in l.clients then l.clients[k] else Entry(0, 0)
  }

  /** The limiter that never sweeps. */
  function CountCall<K>(l: Limiter<K>, c: Call<K>): Limiter<K> {
    l.(clients := l.clients[c.client := NextEntry(c.client in l.clients, Lookup(l, c.client), l.window, c.time)])
  }

  predicate Allowed<K>(l: Limiter<K>, c: Call<K>) {
    Answer(c.client in l.clients, Lookup(l, c.client), l.limit, c.time)
  }

  /** `rateLimiter.allow` on its own state. */
  class FixedWindowLimiter<K(==)> {
    const window: nat
    const limit: int
    var clients: map<K, Entry>
    var lastSweep: int

    ghost function View(): Limiter<K>
      reads this
    {
      Limiter(window, limit, clients, lastSweep)
    }

    constructor (limit: int, window: nat, now: int)
      ensures View() == Limiter(window, limit, map[], now)
    {
      this.limit, this.window := limit, window;
      clients, lastSweep := map[], now;
    }

    method Allow(client: K, now: int) returns (ok: bool)
      modifies this
      ensures View() == CountCall(Sweep(old(View()), now), Call(client, now))
      ensures ok == Allowed(Sweep(old(View()), now), Call(client, now))
    {
      if now - lastSweep >= window {
        var todo := clients.Keys;
        ghost var before := clients;
        while todo != {}
          invariant todo <= clients.Keys <= before.Keys
          invariant forall k :: k in clients ==> clients[k] == before[k]
          invariant forall k :: k in before && k !in todo ==> (k in clients <==> !Expired(before[k], now))
          decreases |todo|
        {
          var k :| k in todo;
          todo := todo - {k};
          if now > clients[k].reset {
            clients := clients - {k};
          }
        }
        lastSweep := now;
      }
      if client !in clients || now > clients[client].reset {
        clients := clients[client := Entry(1, now + window)];
        return true;
      }
      var e := clients[client];
      clients := clients[client := e.(count := e.count + 1)];
      return e.count + 1 <= limit;
    }
  }

  // ---------------------------------------------------------------- runs

  predicate Chronological<K>(calls: seq<Call<K>>) {
    forall i, j :: 0 <= i <= j < |calls| ==> calls[i].time <= calls[j].time
  }

  function RunSweeping<K>(l: Limiter<K>, calls: seq<Call<K>>): (answers: seq<bool>)
    ensures |answers| == |calls|
    decreases |calls|
  {
    if calls == [] then []
    else
      var swept := Sweep(l, calls[0].time);
      [Allowed(swept, calls[0])] + RunSweeping(CountCall(swept, calls[0]), calls[1..])
  }

  function RunCounting<K>(l: Limiter<K>, calls: seq<Call<K>>): (answers: seq<bool>)
    ensures |answers| == |calls|
    decreases |calls|
  {
    if calls == [] then [] else [Allowed(l, calls[0])] + RunCounting(CountCall(l, calls[0]), calls[1..])
  }

  /** At time `now` the two limiters differ only in entries that have expired. */
  ghost predicate Similar<K>(s: Limiter<K>, n: Limiter<K>, now: int) {
    && s.window == n.window && s.limit == n.limit
    && (forall k :: k in s.clients ==> k in n.clients && s.clients[k] == n.clients[k])
    && (forall k :: k in n.clients && k !in s.clients ==> Expired(n.clients[k], now))
  }

  lemma {:induction false} CallKeepsSimilar<K>(s: Limiter<K>, n: Limiter<K>, now: int, c: Call<K>)
    requires Similar(s, n, now) && now <= c.time
    ensures var swept := Sweep(s, c.time);
            Allowed(swept, c) == Allowed(n, c) && Similar(CountCall(swept, c), CountCall(n, c), c.time)
  {
    var swept := Sweep(s, c.time);
    assert Similar(swept, n, c.time);
  }

  lemma {:induction false} SimilarRunsAgree<K>(s: Limiter<K>, n: Limiter<K>, now: int, calls: seq<Call<K>>)
    requires Similar(s, n, now) && Chronological(calls)
    requires calls != [] ==> now <= calls[0].time
    ensures RunSweeping(s, calls) == RunCounting(n, calls)
    decreases |calls|
  {
    if calls != [] {
      var c := calls[0];
      CallKeepsSimilar(s, n, now, c);
      SimilarRunsAgree(CountCall(Sweep(s, c.time), c), CountCall(n, c), c.time, calls[1..]);
    }
  }

  /** Sweeping cannot be observed: from any state, every call of every run gets the same answer without it. */
  lemma {:induction false} SweepIsUnobservable<K>(l: Limiter<K>, calls: seq<Call<K>>)
    requires Chronological(calls)
    ensures RunSweeping(l, calls) == RunCounting(l, calls)
  {
    SimilarRunsAgree(l, l, if calls == [] then 0 else calls[0].time, calls);
  }

  // ---------------------------------------------------------------- the sliding-window bound

  /** How many of the calls of `client` in the closed interval from `from` to `to` are allowed. */
  function Count<K(==)>(calls: seq<Call<K>>, answers: seq<bool>, client: K, from: int, to: int): nat
    requires |calls| == |answers|
  {
    if calls == [] then 0
    else
      (if calls[0].client == client && from <= calls[0].time <= to && answers[0] then 1 else 0)
      + Count(calls[1..], answers[1..], client, from, to)
  }

  /** The most calls of a client that are allowed in any closed interval as long as the window. */
  function WindowMost(limit: int, window: nat): int {
    if window == 0 then Max(1, limit) else 2 * Max(1, limit) - 1
  }

  /**
   How many calls of `client` in a window's length from `from` can have been allowed before time
   `now`, given its entry: none if its window was never opened, all but the opening one if the window
   opened before `from`, and otherwise one window more. A window of length zero is over at once.
   */
  ghost predicate Budget<K>(l: Limiter<K>, client: K, from: int, now: int, allowed: int) {
    var most := Max(1, l.limit);
    if now < from then allowed == 0
    else if client !in l.clients then allowed == 0
    else
      var e := l.clients[client];
      e.count >= 1 &&
      if l.window == 0 then allowed <= if e.reset < from then 0 else Min(e.count, most)
      else if e.reset - l.window < from then allowed <= Min(e.count, most) - 1
      else allowed <= most - 1 + Min(e.count, most)
  }

  lemma {:induction false} CountUnfolds<K>(l: Limiter<K>, calls: seq<Call<K>>, client: K, from: int, to: int)
    requires calls != []
    ensures Count(calls, RunCounting(l, calls), client, from, to)
         == (if calls[0].client == client && from <= calls[0].time <= to && Allowed(l, calls[0]) then 1 else 0)
            + Count(calls[1..], RunCounting(CountCall(l, calls[0]), calls[1..]), client, from, to)
  {
    assert RunCounting(l, calls)[1..] == RunCounting(CountCall(l, calls[0]), calls[1..]);
  }

  /** Once time is past the interval nothing more is counted. */
  lemma {:induction false} NothingAfter<K>(calls: seq<Call<K>>, answers: seq<bool>, client: K, from: int, to: int)
    requires |calls| == |answers| && Chronological(calls)
    requires calls != [] ==> calls[0].time > to
    ensures Count(calls, answers, client, from, to) == 0
  {
    if calls != [] {
      NothingAfter(calls[1..], answers[1..], client, from, to);
    }
  }

  ghost predicate WellTimed<K>(l: Limiter<K>, now: int) {
    forall k :: k in l.clients ==> l.clients[k].count >= 1 && l.clients[k].reset <= now + l.window
  }

  lemma {:induction false} BudgetStep<K>(l: Limiter<K>, client: K, from: int, now: int, allowed: int, c: Call<K>)
    requires WellTimed(l, now) && Budget(l, client, from, now, allowed)
    requires now <= c.time <= from + l.window
    ensures WellTimed(CountCall(l, c), c.time)
    ensures Budget(CountCall(l, c), client, from, c.time,
                   allowed + if c.client == client && from <= c.time && Allowed(l, c) then 1 else 0)
  {
  }

  lemma {:induction false} BudgetBound<K>(l: Limiter<K>, client: K, from: int, now: int, allowed: int)
    requires Budget(l, client, from, now, allowed)
    ensures allowed <= WindowMost(l.limit, l.window)
  {
  }

  lemma {:induction false} RunWithinBudget<K>(l: Limiter<K>, calls: seq<Call<K>>, client: K, from: int, now: int, allowed: int)
    requires WellTimed(l, now) && Budget(l, client, from, now, allowed)
    requires Chronological(calls) && (calls != [] ==> now <= calls[0].time)
    ensures allowed + Count(calls, RunCounting(l, calls), client, from, from + l.window) <= WindowMost(l.limit, l.window)
    decreases |calls|
  {
    BudgetBound(l, client, from, now, allowed);
    if calls != [] {
      var c, to := calls[0], from + l.window;
      if c.time > to {
        NothingAfter(calls, RunCounting(l, calls), client, from, to);
      } else {
        var one := if c.client == client && from <= c.time && Allowed(l, c) then 1 else 0;
        BudgetStep(l, client, from, now, allowed, c);
        CountUnfolds(l, calls, client, from, to);
        RunWithinBudget(CountCall(l, c), calls[1..], client, from, c.time, allowed + one);
      }
    }
  }

  /**
   Over any run from a new limiter, a client is allowed at most 2 * max(1, limit) - 1 times in any
   closed interval as long as the window, and max(1, limit) times when that length is zero.
   */
  lemma {:induction false} SlidingWindowBound<K>(limit: int, window: nat, start: int, calls: seq<Call<K>>, client: K, from: int)
    requires Chronological(calls)
    ensures var l := Limiter(window, limit, map[], start);
            Count(calls, RunSweeping(l, calls), client, from, from + window) <= WindowMost(limit, window)
  {
    var l: Limiter<K> := Limiter(window, limit, map[], start);
    SweepIsUnobservable(l, calls);
    RunWithinBudget(l, calls, client, from, if calls == [] then 0 else calls[0].time, 0);
  }

  // ---------------------------------------------------------------- one fixed window

  /** How many calls `client` makes. */
  function CallsOf<K(==)>(calls: seq<Call<K>>, client: K): nat {
    if calls == [] then 0 else (if calls[0].client == client then 1 else 0) + CallsOf(calls[1..], client)
  }

  lemma {:induction false} OpenWindow<K>(l: Limiter<K>, calls: seq<Call<K>>, client: K, from: int)
    requires client in l.clients && l.clients[client].count >= 1
    requires forall c :: c in calls ==> from <= c.time <= l.clients[client].reset
    ensures var most, e := Max(1, l.limit), l.clients[client];
            Count(calls, RunCounting(l, calls), client, from, e.reset)
            == Min(e.count + CallsOf(calls, client), most) - Min(e.count, most)
    decreases |calls|
  {
    if calls != [] {
      var c := calls[0];
      var next := CountCall(l, c);
      assert next.clients[client].reset == l.clients[client].reset;
      CountUnfolds(l, calls, client, from, l.clients[client].reset);
      OpenWindow(next, calls[1..], client, from);
    }
  }

  lemma {:induction false} OpenedWindow<K>(l: Limiter<K>, calls: seq<Call<K>>, client: K, from: int, to: int)
    requires calls != [] && calls[0] == Call(client, from) && to == from + l.window
    requires client !in l.clients || Expired(l.clients[client], from)
    requires forall c :: c in calls ==> from <= c.time <= to
    ensures Count(calls, RunCounting(l, calls), client, from, to) == Min(CallsOf(calls, client), Max(1, l.limit))
  {
    var next := CountCall(l, calls[0]);
    assert next.clients[client] == Entry(1, to);
    CountUnfolds(l, calls, client, from, to);
    OpenWindow(next, calls[1..], client, from);
  }

  /**
   Of the n calls a client makes from the one that opens a window to the window's end, whoever else
   calls in between, exactly min(n, max(1, limit)) are allowed.
   */
  lemma {:induction false} FixedWindowCount<K>(l: Limiter<K>, calls: seq<Call<K>>)
    requires calls != [] && Chronological(calls)
    requires var c := calls[0]; c.client !in l.clients || Expired(l.clients[c.client], c.time)
    requires forall c :: c in calls ==> c.time <= calls[0].time + l.window
    ensures var client, from := calls[0].client, calls[0].time;
            Count(calls, RunSweeping(l, calls), client, from, from + l.window)
            == Min(CallsOf(calls, client), Max(1, l.limit))
  {
    SweepIsUnobservable(l, calls);
    OpenedWindow(l, calls, calls[0].client, calls[0].time, calls[0].time + l.window);
  }

  // ---------------------------------------------------------------- the bound is attained

  function Burst<K>(client: K, time: int, n: nat): (calls: seq<Call<K>>)
    ensures |calls| == n && forall c :: c in calls ==> c == Call(client, time)
  {
    if n == 0 then [] else [Call(client, time)] + Burst(client, time, n - 1)
  }

  function RunState<K>(l: Limiter<K>, calls: seq<Call<K>>): Limiter<K>
    decreases |calls|
  {
    if calls == [] then l else RunState(CountCall(l, calls[0]), calls[1..])
  }

  lemma {:induction false} CountSplits<K>(l: Limiter<K>, a: seq<Call<K>>, b: seq<Call<K>>, client: K, from: int, to: int)
    ensures Count(a + b, RunCounting(l, a + b), client, from, to)
         == Count(a, RunCounting(l, a), client, from, to)
            + Count(b, RunCounting(RunState(l, a), b), client, from, to)
    decreases |a|
  {
    if a == [] {
      assert a + b == b;
    } else {
      var next := CountCall(l, a[0]);
      assert (a + b)[1..] == a[1..] + b;
      CountSplits(next, a[1..], b, client, from, to);
      assert RunCounting(l, a + b)[1..] == RunCounting(next, a[1..] + b);
      assert RunCounting(l, a)[1..] == RunCounting(next, a[1..]);
    }
  }

  /** A burst within the limit of an open window is allowed whole. */
  lemma {:induction false} BurstAllowed<K>(l: Limiter<K>, client: K, time: int, n: nat, from: int, to: int)
    requires client in l.clients && !Expired(l.clients[client], time) && from <= time <= to
    requires l.clients[client].count + n <= l.limit
    ensures Count(Burst(client, time, n), RunCounting(l, Burst(client, time, n)), client, from, to) == n
    ensures RunState(l, Burst(client, time, n))
         == l.(clients := l.clients[client := Entry(l.clients[client].count + n, l.clients[client].reset)])
    decreases n
  {
    var calls := Burst(client, time, n);
    if n > 0 {
      var next := CountCall(l, calls[0]);
      assert calls[1..] == Burst(client, time, n - 1);
      CountUnfolds(l, calls, client, from, to);
      BurstAllowed(next, client, time, n - 1, from, to);
    } else {
      assert l.clients[client := l.clients[client]] == l.clients;
    }
  }

  /**
   The run that attains the bound: one call, a burst as its window closes, a burst just after. A limit
   below one allows no more than the call that opens a window, and a window of length zero one burst.
   */
  function WorstCase<K>(client: K, limit: int, window: nat): seq<Call<K>> {
    if limit < 1 then [Call(client, window)]
    else if window == 0 then Burst(client, window, limit)
    else [Call(client, 0)] + Burst(client, window, limit - 1) + Burst(client, window + 1, limit)
  }

  lemma {:induction false} WorstCaseIsChronological<K>(client: K, limit: int, window: nat)
    ensures Chronological(WorstCase(client, limit, window))
  {
    var calls := WorstCase(client, limit, window);
    if limit < 1 || window == 0 {
      assert forall i :: 0 <= i < |calls| ==> calls[i] in calls;
      return;
    }
    var second, third := Burst(client, window, limit - 1), Burst(client, window + 1, limit);
    forall i | 0 <= i < |calls|
      ensures calls[i].time == if i == 0 then 0 else if i < limit then window else window + 1
    {
      assert 1 <= i < limit ==> calls[i] == second[i - 1] && second[i - 1] in second;
      assert i >= limit ==> calls[i] == third[i - limit] && third[i - limit] in third;
    }
  }

  /** A burst within the limit that opens a window is allowed whole. */
  lemma {:induction false} OpeningBurst<K>(l: Limiter<K>, client: K, time: int, n: nat, from: int, to: int)
    requires client !in l.clients || Expired(l.clients[client], time)
    requires 1 <= n <= l.limit && from <= time <= to
    ensures Count(Burst(client, time, n), RunCounting(l, Burst(client, time, n)), client, from, to) == n
  {
    var calls := Burst(client, time, n);
    var next := CountCall(l, calls[0]);
    assert calls[1..] == Burst(client, time, n - 1);
    CountUnfolds(l, calls, client, from, to);
    BurstAllowed(next, client, time, n - 1, from, to);
  }

  /** The first window of the run: its opening call lies before the interval, the rest of it inside. */
  lemma {:induction false} FirstWindow<K>(l: Limiter<K>, client: K)
    requires l.limit >= 1 && l.window >= 1 && client !in l.clients
    ensures var calls := [Call(client, 0)] + Burst(client, l.window, l.limit - 1);
            var after := RunState(l, calls);
            && Count(calls, RunCounting(l, calls), client, l.window, 2 * l.window) == l.limit - 1
            && after == l.(clients := l.clients[client := Entry(l.limit, l.window)])
  {
    var burst := Burst(client, l.window, l.limit - 1);
    var calls := [Call(client, 0)] + burst;
    var next := CountCall(l, calls[0]);
    assert calls[1..] == burst;
    assert next == l.(clients := l.clients[client := Entry(1, l.window)]);
    CountUnfolds(l, calls, client, l.window, 2 * l.window);
    BurstAllowed(next, client, l.window, l.limit - 1, l.window, 2 * l.window);
    assert RunState(l, calls) == RunState(next, burst);
  }

  lemma {:induction false} TwoWindows<K>(client: K, limit: nat, window: nat)
    requires limit >= 1 && window >= 1
    ensures var l := Limiter(window, limit, map[], 0);
            var calls := WorstCase(client, limit, window);
            Count(calls, RunCounting(l, calls), client, window, 2 * window) == 2 * limit - 1
  {
    var l: Limiter<K> := Limiter(window, limit, map[], 0);
    var front := [Call(client, 0)] + Burst(client, window, limit - 1);
    var last := Burst(client, window + 1, limit);
    CountSplits(l, front, last, client, window, 2 * window);
    FirstWindow(l, client);
    OpeningBurst(RunState(l, front), client, window + 1, limit, window, 2 * window);
  }

  /** The bound cannot be lowered: for every limit and window some run attains it. */
  lemma {:induction false} SlidingWindowBoundIsTight<K>(client: K, limit: int, window: nat)
    ensures var l := Limiter(window, limit, map[], 0);
            var calls := WorstCase(client, limit, window);
            Chronological(calls) &&
            Count(calls, RunSweeping(l, calls), client, window, window + window) == WindowMost(limit, window)
  {
    var l: Limiter<K> := Limiter(window, limit, map[], 0);
    var calls := WorstCase(client, limit, window);
    WorstCaseIsChronological(client, limit, window);
    SweepIsUnobservable(l, calls);
    if limit < 1 {
      CountUnfolds(l, calls, client, window, window + window);
      assert calls[1..] == [];
    } else if window == 0 {
      OpeningBurst(l, client, window, limit, window, window + window);
    } else {
      TwoWindows(client, limit, window);
    }
  }
}
