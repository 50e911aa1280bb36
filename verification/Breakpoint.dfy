/**
 The pause/resume protocol of pkg/interceptor/breakpoint.go.

 A paused exchange has a waiter (the proxy goroutine in `select`), a cleaner (the goroutine that
 waits for the context to end) and a channel of capacity one; user commands and timers race with
 both. Every event below is one critical section or one channel operation, so a run of events, in
 any order, is an interleaving. The code for requests and for responses is the same; `T` is either.
 */
module Breakpoint {
  import opened Bytes
  import opened Text
  import opened RuleIds
  import Glob = GlobRegex

  datatype Outcome<T> = Resumed(value: T) | Aborted | TimedOut

  /** Waiting in `select`; the timer was picked but its cleanup has not run; or returned. */
  datatype Waiter<T> = Waiting | TimerPicked | Done(outcome: Outcome<T>)

  /** No context to watch; waiting for it; entry deleted but channel not closed yet; closed. */
  datatype Cleaner = NoContext | Watching | Deleted | Closed

  /**
   One pause, with its channel: the buffered messages (nil is None) and whether it is closed.
   `sent` records every message ever sent on the channel and `closes` how often it was closed.
   */
  datatype Pause<T> = Pause(
    id: string,
    original: T,
    buffer: seq<Option<T>>,
    closed: bool,
    waiter: Waiter<T>,
    cleaner: Cleaner,
    sent: seq<Option<T>>,
    closes: nat)

  /** What must never happen: the first and third panic, the second blocks with the lock held. */
  datatype Fault = SendOnClosed | SendBlocks | CloseOfClosed

  /** The pauses begun so far, and the map from identifier to the pause a command would reach. */
  datatype State<T> = State(pauses: seq<Pause<T>>, paused: map<string, nat>, faults: set<Fault>)

  datatype Event<T> =
    | Begin(id: string, original: T, cancellable: bool)
    | Resume(id: string, msg: Option<T>)
    | ResumeUnmodified(id: string)
    | Receive(t: nat)
    | PickTimer(t: nat)
    | TimeoutCleanup(t: nat)
    | ContextDone(t: nat)
    | CloseChannel(t: nat)

  function Initial<T>(): State<T> {
    State([], map[], {})
  }

  function WithPause<T>(s: State<T>, t: nat, p: Pause<T>): State<T>
    requires t < |s.pauses|
  {
    s.(pauses := s.pauses[t := p])
  }

  /** Sending on the channel of pause `t`, with Go's three ways it can go. */
  function SendTo<T>(s: State<T>, t: nat, msg: Option<T>): State<T>
    requires t < |s.pauses|
  {
    var p := s.pauses[t];
    if p.closed then s.(faults := s.faults + {SendOnClosed})
    else if |p.buffer| >= 1 then s.(faults := s.faults + {SendBlocks})
    else WithPause(s, t, p.(buffer := p.buffer + [msg], sent := p.sent + [msg]))
  }

  /** A command: take the entry out of the map and send, all under the lock. */
  function Command<T>(s: State<T>, id: string, msg: Option<T>): State<T> {
    if id in s.paused && s.paused[id] < |s.pauses| then
      SendTo(s.(paused := s.paused - {id}), s.paused[id], msg)
    else s
  }

  /** One event. An event that cannot happen yet changes nothing. */
  function Step<T>(s: State<T>, e: Event<T>): State<T> {
    match e
    case Begin(id, original, cancellable) =>
      var cleaner := if cancellable then Watching else NoContext;
      s.(pauses := s.pauses + [Pause(id, original, [], false, Waiting, cleaner, [], 0)],
         paused := s.paused[id := |s.pauses|])
    case Resume(id, msg) => Command(s, id, msg)
    case ResumeUnmodified(id) =>
      if id in s.paused && s.paused[id] < |s.pauses| then
        Command(s, id, Some(s.pauses[s.paused[id]].original))
      else s
    case Receive(t) =>
      if t >= |s.pauses| || s.pauses[t].waiter != Waiting then s
      else
        var p := s.pauses[t];
        if p.buffer != [] then
          var outcome := match p.buffer[0] case Some(v) => Resumed(v) case None => Aborted;
          WithPause(s, t, p.(buffer := p.buffer[1..], waiter := Done(outcome)))
        else if p.closed then WithPause(s, t, p.(waiter := Done(Aborted)))
        else s
    case PickTimer(t) =>
      if t >= |s.pauses| || s.pauses[t].waiter != Waiting then s
      else WithPause(s, t, s.pauses[t].(waiter := TimerPicked))
    case TimeoutCleanup(t) =>
      if t >= |s.pauses| || s.pauses[t].waiter != TimerPicked then s
      else
        WithPause(s.(paused := s.paused - {s.pauses[t].id}), t, s.pauses[t].(waiter := Done(TimedOut)))
    case ContextDone(t) =>
      if t >= |s.pauses| || s.pauses[t].cleaner != Watching then s
      else
        WithPause(s.(paused := s.paused - {s.pauses[t].id}), t, s.pauses[t].(cleaner := Deleted))
    case CloseChannel(t) =>
      if t >= |s.pauses| || s.pauses[t].cleaner != Deleted then s
      else
        var p := s.pauses[t];
        var after := WithPause(s, t, p.(cleaner := Closed, closed := true, closes := p.closes + 1));
        if p.closed then after.(faults := s.faults + {CloseOfClosed}) else after
  }

  function Run<T>(s: State<T>, es: seq<Event<T>>): State<T>
    decreases |es|
  {
    if es == [] then s else Run(Step(s, es[0]), es[1..])
  }

  // ---------------------------------------------------------------- the invariant

  /** The history of one pause: what its channel, waiter and cleaner can have come to. */
  ghost predicate PauseOk<T>(p: Pause<T>) {
    && |p.sent| <= 1 && p.closes <= 1
    && (p.closed <==> p.closes == 1) && (p.closed <==> p.cleaner == Closed)
    && (p.buffer == [] || p.buffer == p.sent)
    && (p.waiter == Waiting || p.waiter == TimerPicked || p.waiter == Done(TimedOut) ==> p.buffer == p.sent)
    && match p.waiter
       case Done(Resumed(v)) => p.sent == [Some(v)]
       case Done(Aborted) => p.sent == [None] || (p.sent == [] && p.closed)
       case _ => true
  }

  /** What a pause in the map is like: unfinished, unanswered and not given up by its cleaner. */
  ghost predicate Answerable<T>(p: Pause<T>) {
    !p.waiter.Done? && p.sent == [] && !p.closed && (p.cleaner == Watching || p.cleaner == NoContext)
  }

  ghost predicate Inv<T>(s: State<T>) {
    && s.faults == {}
    && (forall t :: 0 <= t < |s.pauses| ==> PauseOk(s.pauses[t]))
    && (forall id :: id in s.paused ==>
          s.paused[id] < |s.pauses| && s.pauses[s.paused[id]].id == id && Answerable(s.pauses[s.paused[id]]))
  }

  /** Changing one pause keeps the invariant, if the map does not reach it or it stays answerable. */
  lemma {:induction false} WithPauseKeepsInv<T>(s: State<T>, t: nat, p: Pause<T>)
    requires Inv(s) && t < |s.pauses|
    requires PauseOk(p) && p.id == s.pauses[t].id
    requires Answerable(p) || p.id !in s.paused || s.paused[p.id] != t
    ensures Inv(WithPause(s, t, p))
  {
  }

  lemma {:induction false} ForgetKeepsInv<T>(s: State<T>, id: string)
    requires Inv(s)
    ensures Inv(s.(paused := s.paused - {id}))
  {
  }

  lemma {:induction false} BeginKeepsInv<T>(s: State<T>, id: string, original: T, cancellable: bool)
    requires Inv(s)
    ensures Inv(Step(s, Begin(id, original, cancellable)))
  {
  }

  /** Sending is safe because an entry of the map is only ever an open channel nothing was sent on. */
  lemma {:induction false} CommandKeepsInv<T>(s: State<T>, id: string, msg: Option<T>)
    requires Inv(s)
    ensures Inv(Command(s, id, msg))
  {
    if id in s.paused {
      var t := s.paused[id];
      var p := s.pauses[t];
      assert Answerable(p) && PauseOk(p) && p.buffer == [];
      ForgetKeepsInv(s, id);
      WithPauseKeepsInv(s.(paused := s.paused - {id}), t, p.(buffer := p.buffer + [msg], sent := p.sent + [msg]));
    }
  }

  lemma {:induction false} StepKeepsInv<T>(s: State<T>, e: Event<T>)
    requires Inv(s)
    ensures Inv(Step(s, e))
  {
    match e {
      case Begin(id, original, cancellable) => BeginKeepsInv(s, id, original, cancellable);
      case Resume(id, msg) => CommandKeepsInv(s, id, msg);
      case ResumeUnmodified(id) =>
        if id in s.paused {
          CommandKeepsInv(s, id, Some(s.pauses[s.paused[id]].original));
        }
      case Receive(t) =>
        if Step(s, e) != s {
          assert PauseOk(s.pauses[t]);
          WithPauseKeepsInv(s, t, Step(s, e).pauses[t]);
        }
      case PickTimer(t) =>
        if Step(s, e) != s {
          assert PauseOk(s.pauses[t]);
          WithPauseKeepsInv(s, t, Step(s, e).pauses[t]);
        }
      case TimeoutCleanup(t) =>
        if Step(s, e) != s {
          assert PauseOk(s.pauses[t]);
          ForgetKeepsInv(s, s.pauses[t].id);
          WithPauseKeepsInv(s.(paused := s.paused - {s.pauses[t].id}), t, Step(s, e).pauses[t]);
        }
      case ContextDone(t) =>
        if Step(s, e) != s {
          assert PauseOk(s.pauses[t]);
          ForgetKeepsInv(s, s.pauses[t].id);
          WithPauseKeepsInv(s.(paused := s.paused - {s.pauses[t].id}), t, Step(s, e).pauses[t]);
        }
      case CloseChannel(t) =>
        if Step(s, e) != s {
          assert PauseOk(s.pauses[t]);
          WithPauseKeepsInv(s, t, Step(s, e).pauses[t]);
        }
    }
  }

  lemma {:induction false} RunKeepsInv<T>(s: State<T>, es: seq<Event<T>>)
    requires Inv(s)
    ensures Inv(Run(s, es))
    decreases es
  {
    if es != [] {
      StepKeepsInv(s, es[0]);
      RunKeepsInv(Step(s, es[0]), es[1..]);
    }
  }

  /**
   In every interleaving, with identifiers fresh or not: no send meets a closed or a full channel
   and no channel is closed twice; each pause is sent at most one message and closed at most once;
   a resumed waiter returns the very value it was sent, an aborted one was sent nil, or sent nothing
   and closed; one that timed out left whatever it was sent unread in its channel; and a pause that
   finished has no entry left in the map.
   */
  lemma {:induction false} EveryRunIsSafe<T>(es: seq<Event<T>>)
    ensures var s := Run(Initial<T>(), es);
            && s.faults == {}
            && (forall t :: 0 <= t < |s.pauses| ==> |s.pauses[t].sent| <= 1 && s.pauses[t].closes <= 1)
            && (forall t, v :: 0 <= t < |s.pauses| && s.pauses[t].waiter == Done(Resumed(v)) ==>
                  s.pauses[t].sent == [Some(v)])
            && (forall t :: 0 <= t < |s.pauses| && s.pauses[t].waiter == Done(Aborted) ==>
                  s.pauses[t].sent == [None] || (s.pauses[t].sent == [] && s.pauses[t].closed))
            && (forall t :: 0 <= t < |s.pauses| && s.pauses[t].waiter == Done(TimedOut) ==>
                  s.pauses[t].buffer == s.pauses[t].sent)
            && (forall t, id :: 0 <= t < |s.pauses| && s.pauses[t].waiter.Done? && id in s.paused ==>
                  s.paused[id] != t)
  {
    RunKeepsInv(Initial<T>(), es);
  }

  // ---------------------------------------------------------------- outcomes are final

  lemma {:induction false} OutcomeIsFinal<T>(s: State<T>, es: seq<Event<T>>, t: nat)
    requires t < |s.pauses| && s.pauses[t].waiter.Done?
    ensures t < |Run(s, es).pauses| && Run(s, es).pauses[t].waiter == s.pauses[t].waiter
    ensures Run(s, es).pauses[t].id == s.pauses[t].id
    decreases es
  {
    if es != [] {
      OutcomeIsFinal(Step(s, es[0]), es[1..], t);
    }
  }

  // ---------------------------------------------------------------- which answers arrive

  /** What a waiter returns for a message. */
  function OutcomeOf<T>(msg: Option<T>): Outcome<T> {
    match msg case Some(v) => Resumed(v) case None => Aborted
  }

  /** Of the two branches of `t`'s `select` the receiving one is picked first. */
  predicate ReceivesFirst<T(==)>(es: seq<Event<T>>, t: nat)
    decreases es
  {
    es != [] && (es[0] == Receive(t) || (es[0] != PickTimer(t) && ReceivesFirst(es[1..], t)))
  }

  /** The timer is. */
  predicate TimerFirst<T(==)>(es: seq<Event<T>>, t: nat)
    decreases es
  {
    es != [] && (es[0] == PickTimer(t) || (es[0] != Receive(t) && TimerFirst(es[1..], t)))
  }

  lemma {:induction false} PickedTimerTimesOut<T>(s: State<T>, es: seq<Event<T>>, t: nat)
    requires t < |s.pauses| && (s.pauses[t].waiter == TimerPicked || s.pauses[t].waiter == Done(TimedOut))
    ensures t < |Run(s, es).pauses|
    ensures Run(s, es).pauses[t].waiter == TimerPicked || Run(s, es).pauses[t].waiter == Done(TimedOut)
    decreases es
  {
    if es != [] {
      PickedTimerTimesOut(Step(s, es[0]), es[1..], t);
    }
  }

  /** Other events leave an answered pause waiting, with its answer. */
  lemma {:induction false} StepKeepsAnswer<T>(s: State<T>, e: Event<T>, t: nat, msg: Option<T>)
    requires Inv(s) && t < |s.pauses| && s.pauses[t].waiter == Waiting && s.pauses[t].sent == [msg]
    requires e != Receive(t) && e != PickTimer(t)
    ensures t < |Step(s, e).pauses| && Step(s, e).pauses[t].waiter == Waiting && Step(s, e).pauses[t].sent == [msg]
  {
    assert PauseOk(s.pauses[t]);
    StepKeepsInv(s, e);
    assert PauseOk(Step(s, e).pauses[t]);
  }

  /**
   An answer that was sent to a waiter in `select` is returned if and only if the receiving branch is
   picked before the timer: the timer may be picked although the answer is there, and then the answer
   is lost. Until one is picked the waiter waits.
   */
  lemma {:induction false} AnswerArrivesExactly<T>(s: State<T>, es: seq<Event<T>>, t: nat, msg: Option<T>)
    requires Inv(s) && t < |s.pauses| && s.pauses[t].waiter == Waiting && s.pauses[t].sent == [msg]
    ensures t < |Run(s, es).pauses|
    ensures var w := Run(s, es).pauses[t].waiter;
            && (w == Done(OutcomeOf(msg)) <==> ReceivesFirst(es, t))
            && (w == TimerPicked || w == Done(TimedOut) <==> TimerFirst(es, t))
            && (w == Waiting <==> !ReceivesFirst(es, t) && !TimerFirst(es, t))
    decreases es
  {
    if es != [] {
      assert PauseOk(s.pauses[t]);
      var s' := Step(s, es[0]);
      if es[0] == Receive(t) {
        OutcomeIsFinal(s', es[1..], t);
      } else if es[0] == PickTimer(t) {
        PickedTimerTimesOut(s', es[1..], t);
      } else {
        StepKeepsInv(s, es[0]);
        StepKeepsAnswer(s, es[0], t, msg);
        AnswerArrivesExactly(s', es[1..], t, msg);
      }
    }
  }

  lemma {:induction false} RunFour<T>(s: State<T>, a: Event<T>, b: Event<T>, c: Event<T>, d: Event<T>)
    ensures Run(s, [a, b, c, d]) == Step(Step(Step(Step(s, a), b), c), d)
  {
    var s1 := Step(s, a);
    var s2 := Step(s1, b);
    assert [a, b, c, d][1..] == [b, c, d] && [b, c, d][1..] == [c, d] && [c, d][1..] == [d] && [d][1..] == [];
    assert Run(Step(Step(s2, c), d), []) == Step(Step(s2, c), d);
    assert Run(s2, [c, d]) == Run(Step(s2, c), [d]) == Step(Step(s2, c), d);
    assert Run(s, [a, b, c, d]) == Run(s1, [b, c, d]) == Run(s2, [c, d]);
  }

  /**
   Answers do get lost, sent before or after the timer is picked: the command takes the entry and
   reports nothing, and the waiter returns a timeout.
   */
  lemma {:induction false} AnswersGetLost<T>(id: string, original: T, cancellable: bool, v: T)
    ensures var begin, resume := Begin(id, original, cancellable), Resume(id, Some(v));
            var early := Run(Initial<T>(), [begin, resume, PickTimer(0), TimeoutCleanup(0)]);
            var late := Run(Initial<T>(), [begin, PickTimer(0), resume, TimeoutCleanup(0)]);
            && |early.pauses| == 1 && early.pauses[0].sent == [Some(v)] && early.pauses[0].waiter == Done(TimedOut)
            && |late.pauses| == 1 && late.pauses[0].sent == [Some(v)] && late.pauses[0].waiter == Done(TimedOut)
  {
    var begin, resume := Begin(id, original, cancellable), Resume(id, Some(v));
    RunFour(Initial<T>(), begin, resume, PickTimer(0), TimeoutCleanup(0));
    RunFour(Initial<T>(), begin, PickTimer(0), resume, TimeoutCleanup(0));
  }

  // ---------------------------------------------------------------- commands reach their pause

  /** No other pause has the identifier of `t`. */
  ghost predicate Alone<T>(s: State<T>, t: nat)
    requires t < |s.pauses|
  {
    forall u :: 0 <= u < |s.pauses| && u != t ==> s.pauses[u].id != s.pauses[t].id
  }

  /** Pauses whose identifier is used once are in the map for as long as they can be answered. */
  ghost predicate Reachable<T>(s: State<T>) {
    forall t :: 0 <= t < |s.pauses| && Alone(s, t) && Answerable(s.pauses[t]) ==>
      s.pauses[t].id in s.paused && s.paused[s.pauses[t].id] == t
  }

  /** Only a new pause, or a command or cleanup for its own identifier, moves a pause's entry. */
  lemma {:induction false} StepKeepsEntry<T>(s: State<T>, e: Event<T>, t: nat)
    requires Inv(s) && t < |s.pauses| && Alone(Step(s, e), t) && Answerable(Step(s, e).pauses[t])
    requires Answerable(s.pauses[t]) && s.pauses[t].id in s.paused && s.paused[s.pauses[t].id] == t
    ensures s.pauses[t].id in Step(s, e).paused && Step(s, e).paused[s.pauses[t].id] == t
  {
    if e.Begin? {
      assert Step(s, e).pauses[|s.pauses|].id == e.id;
    } else if e.TimeoutCleanup? || e.ContextDone? {
      assert e.t < |s.pauses| && e.t != t ==> Step(s, e).pauses[e.t].id != s.pauses[t].id;
    }
  }

  lemma {:induction false} StepKeepsPauses<T>(s: State<T>, e: Event<T>, t: nat)
    requires t < |s.pauses|
    ensures t < |Step(s, e).pauses| && Step(s, e).pauses[t].id == s.pauses[t].id
    ensures Answerable(Step(s, e).pauses[t]) ==> Answerable(s.pauses[t])
  {
  }

  lemma {:induction false} StepKeepsReachable<T>(s: State<T>, e: Event<T>)
    requires Inv(s) && Reachable(s)
    ensures Reachable(Step(s, e))
  {
    var s' := Step(s, e);
    forall t | 0 <= t < |s'.pauses| && Alone(s', t) && Answerable(s'.pauses[t])
      ensures s'.pauses[t].id in s'.paused && s'.paused[s'.pauses[t].id] == t
    {
      if t < |s.pauses| {
        forall u | 0 <= u < |s.pauses|
          ensures s'.pauses[u].id == s.pauses[u].id
        {
          StepKeepsPauses(s, e, u);
        }
        StepKeepsPauses(s, e, t);
        assert Alone(s, t);
        StepKeepsEntry(s, e, t);
      }
    }
  }

  lemma {:induction false} RunKeepsReachable<T>(s: State<T>, es: seq<Event<T>>)
    requires Inv(s) && Reachable(s)
    ensures Reachable(Run(s, es))
    decreases es
  {
    if es != [] {
      StepKeepsInv(s, es[0]);
      StepKeepsReachable(s, es[0]);
      RunKeepsReachable(Step(s, es[0]), es[1..]);
    }
  }

  /**
   After any run, a command for an identifier used once reaches its pause whenever that pause is
   unanswered, not cancelled and still in `select`; and whatever happens then, the waiter returns just
   what was sent, or the abort that nil means, if and only if it receives before its timer is picked.
   */
  lemma {:induction false} CommandReachesItsPause<T>(es: seq<Event<T>>, t: nat, msg: Option<T>, fs: seq<Event<T>>)
    requires var s := Run(Initial<T>(), es);
             t < |s.pauses| && Alone(s, t) && Answerable(s.pauses[t]) && s.pauses[t].waiter == Waiting
    ensures var s := Run(Initial<T>(), es);
            var answered := Step(s, Resume(s.pauses[t].id, msg));
            var after := Run(answered, fs);
            && t < |answered.pauses| && answered.pauses[t].sent == [msg] && s.pauses[t].id !in answered.paused
            && t < |after.pauses|
            && (after.pauses[t].waiter == Done(OutcomeOf(msg)) <==> ReceivesFirst(fs, t))
            && (after.pauses[t].waiter == Waiting <==> !ReceivesFirst(fs, t) && !TimerFirst(fs, t))
  {
    var s := Run(Initial<T>(), es);
    RunKeepsInv(Initial<T>(), es);
    RunKeepsReachable(Initial<T>(), es);
    var answered := Step(s, Resume(s.pauses[t].id, msg));
    StepKeepsInv(s, Resume(s.pauses[t].id, msg));
    assert PauseOk(s.pauses[t]);
    AnswerArrivesExactly(answered, fs, t, msg);
  }

  /** A new pause waits, unanswered and open, under its identifier; its cleaner watches if there is a context. */
  lemma {:induction false} NewPauseWaits<T>(s: State<T>, id: string, original: T, cancellable: bool)
    ensures var s', t := Step(s, Begin(id, original, cancellable)), |s.pauses|;
            && |s'.pauses| == t + 1 && (forall u :: 0 <= u < t ==> s'.pauses[u] == s.pauses[u])
            && id in s'.paused && s'.paused[id] == t
            && (forall other :: other != id ==>
                  (other in s'.paused <==> other in s.paused) && (other in s.paused ==> s'.paused[other] == s.paused[other]))
            && s'.pauses[t].waiter == Waiting && s'.pauses[t].sent == [] && s'.pauses[t].buffer == []
            && !s'.pauses[t].closed && (s'.pauses[t].cleaner == Watching <==> cancellable)
            && (s'.pauses[t].cleaner == NoContext <==> !cancellable)
  {
  }

  /** Nothing changes a pause's identifier and what was paused. */
  lemma {:induction false} RunKeepsOriginal<T>(s: State<T>, es: seq<Event<T>>, t: nat)
    requires t < |s.pauses|
    ensures t < |Run(s, es).pauses|
    ensures Run(s, es).pauses[t].original == s.pauses[t].original && Run(s, es).pauses[t].id == s.pauses[t].id
    decreases es
  {
    if es != [] {
      RunKeepsOriginal(Step(s, es[0]), es[1..], t);
    }
  }

  /** After any run a pause holds the very exchange and identifier it began with. */
  lemma {:induction false} OriginalIsWhatBegan<T>(
    es: seq<Event<T>>, id: string, original: T, cancellable: bool, fs: seq<Event<T>>)
    ensures var before := Run(Initial<T>(), es);
            var s := Run(Step(before, Begin(id, original, cancellable)), fs);
            var t := |before.pauses|;
            t < |s.pauses| && s.pauses[t].original == original && s.pauses[t].id == id
  {
    var before := Run(Initial<T>(), es);
    RunKeepsOriginal(Step(before, Begin(id, original, cancellable)), fs, |before.pauses|);
  }

  /**
   Resuming unmodified reaches a pause just as a command does, and sends what was paused: whatever
   happens then, the waiter returns that if and only if it receives before its timer is picked.
   */
  lemma {:induction false} UnmodifiedReturnsTheOriginal<T>(es: seq<Event<T>>, t: nat, fs: seq<Event<T>>)
    requires var s := Run(Initial<T>(), es);
             t < |s.pauses| && Alone(s, t) && Answerable(s.pauses[t]) && s.pauses[t].waiter == Waiting
    ensures var s := Run(Initial<T>(), es);
            var answered := Step(s, ResumeUnmodified(s.pauses[t].id));
            var after := Run(answered, fs);
            && t < |answered.pauses| && answered.pauses[t].sent == [Some(s.pauses[t].original)]
            && s.pauses[t].id !in answered.paused && t < |after.pauses|
            && (after.pauses[t].waiter == Done(Resumed(s.pauses[t].original)) <==> ReceivesFirst(fs, t))
            && (after.pauses[t].waiter == Waiting <==> !ReceivesFirst(fs, t) && !TimerFirst(fs, t))
  {
    var s := Run(Initial<T>(), es);
    RunKeepsInv(Initial<T>(), es);
    RunKeepsReachable(Initial<T>(), es);
    var answered := Step(s, ResumeUnmodified(s.pauses[t].id));
    StepKeepsInv(s, ResumeUnmodified(s.pauses[t].id));
    assert PauseOk(s.pauses[t]);
    AnswerArrivesExactly(answered, fs, t, Some(s.pauses[t].original));
  }

  // ---------------------------------------------------------------- cancelled and timed out

  /** With nothing sent and the channel open there is nothing to receive. */
  lemma {:induction false} NothingToReceive<T>(s: State<T>, t: nat)
    requires Inv(s) && t < |s.pauses| && s.pauses[t].waiter == Waiting && s.pauses[t].sent == [] && !s.pauses[t].closed
    ensures Step(s, Receive(t)) == s
  {
    assert PauseOk(s.pauses[t]);
  }

  lemma {:induction false} StepKeepsClosed<T>(s: State<T>, e: Event<T>, t: nat)
    requires Inv(s) && t < |s.pauses| && s.pauses[t].waiter == Waiting && s.pauses[t].sent == [] && s.pauses[t].closed
    requires e != Receive(t) && e != PickTimer(t)
    ensures var s' := Step(s, e);
            t < |s'.pauses| && s'.pauses[t].waiter == Waiting && s'.pauses[t].sent == [] && s'.pauses[t].closed
  {
    assert PauseOk(s.pauses[t]);
  }

  /** A waiter whose channel was closed unanswered aborts if and only if it receives before its timer is picked. */
  lemma {:induction false} ClosedAbortsExactly<T>(s: State<T>, es: seq<Event<T>>, t: nat)
    requires Inv(s) && t < |s.pauses| && s.pauses[t].waiter == Waiting && s.pauses[t].sent == [] && s.pauses[t].closed
    ensures t < |Run(s, es).pauses|
    ensures var w := Run(s, es).pauses[t].waiter;
            && (w == Done(Aborted) <==> ReceivesFirst(es, t))
            && (w == TimerPicked || w == Done(TimedOut) <==> TimerFirst(es, t))
    decreases es
  {
    if es != [] {
      assert PauseOk(s.pauses[t]);
      var s' := Step(s, es[0]);
      if es[0] == Receive(t) {
        OutcomeIsFinal(s', es[1..], t);
      } else if es[0] == PickTimer(t) {
        PickedTimerTimesOut(s', es[1..], t);
      } else {
        StepKeepsInv(s, es[0]);
        StepKeepsClosed(s, es[0], t);
        ClosedAbortsExactly(s', es[1..], t);
      }
    }
  }

  /** A context that ends takes the entry away and closes the channel, and so aborts a waiter that was not answered. */
  lemma {:induction false} CancelledWaiterAborts<T>(es: seq<Event<T>>, t: nat, fs: seq<Event<T>>)
    requires var s := Run(Initial<T>(), es);
             t < |s.pauses| && s.pauses[t].waiter == Waiting && s.pauses[t].sent == [] && s.pauses[t].cleaner == Watching
    ensures var s := Run(Initial<T>(), es);
            var done := Step(s, ContextDone(t));
            var closed := Step(done, CloseChannel(t));
            && s.pauses[t].id !in done.paused && t < |closed.pauses| && closed.pauses[t].closed
            && t < |Run(closed, fs).pauses|
            && (Run(closed, fs).pauses[t].waiter == Done(Aborted) <==> ReceivesFirst(fs, t))
  {
    var s := Run(Initial<T>(), es);
    RunKeepsInv(Initial<T>(), es);
    StepKeepsInv(s, ContextDone(t));
    var done := Step(s, ContextDone(t));
    StepKeepsInv(done, CloseChannel(t));
    assert PauseOk(s.pauses[t]) && PauseOk(done.pauses[t]);
    ClosedAbortsExactly(Step(done, CloseChannel(t)), fs, t);
  }

  /** Without a context a channel is never closed. */
  lemma {:induction false} NoContextStaysOpen<T>(s: State<T>, es: seq<Event<T>>, t: nat)
    requires Inv(s) && t < |s.pauses| && s.pauses[t].cleaner == NoContext
    ensures t < |Run(s, es).pauses| && Run(s, es).pauses[t].cleaner == NoContext && !Run(s, es).pauses[t].closed
    decreases es
  {
    assert PauseOk(s.pauses[t]);
    if es != [] {
      StepKeepsInv(s, es[0]);
      NoContextStaysOpen(Step(s, es[0]), es[1..], t);
    }
  }

  /** A timer that was picked ends in a timeout, with no entry left. */
  lemma {:induction false} PickedTimerEnds<T>(s: State<T>, t: nat)
    requires t < |s.pauses| && s.pauses[t].waiter == Waiting
    ensures var after := Step(Step(s, PickTimer(t)), TimeoutCleanup(t));
            t < |after.pauses| && after.pauses[t].waiter == Done(TimedOut) && s.pauses[t].id !in after.paused
  {
  }

  /** The map reaches pause `t`. */
  ghost predicate InMap<T>(s: State<T>, t: nat) {
    exists id :: id in s.paused && s.paused[id] == t
  }

  lemma {:induction false} GoneForGood<T>(s: State<T>, es: seq<Event<T>>, t: nat)
    requires t < |s.pauses| && !InMap(s, t)
    ensures t < |Run(s, es).pauses| && Run(s, es).pauses[t].sent == s.pauses[t].sent
    decreases es
  {
    if es != [] {
      GoneForGood(Step(s, es[0]), es[1..], t);
    }
  }

  /**
   A pause can still be sent something, now or after any further events, if and only if the map
   reaches it.
   */
  lemma {:induction false} AnswerableExactlyInMap<T>(es: seq<Event<T>>, t: nat)
    requires t < |Run(Initial<T>(), es).pauses|
    ensures var s := Run(Initial<T>(), es);
            InMap(s, t) <==> exists fs: seq<Event<T>> ::
              t < |Run(s, fs).pauses| && Run(s, fs).pauses[t].sent != s.pauses[t].sent
  {
    var s := Run(Initial<T>(), es);
    RunKeepsInv(Initial<T>(), es);
    if InMap(s, t) {
      var id :| id in s.paused && s.paused[id] == t;
      var fs := [Resume(id, None)];
      assert Run(s, fs) == Run(Step(s, fs[0]), []);
      assert Run(s, fs).pauses[t].sent != s.pauses[t].sent;
    } else {
      forall fs: seq<Event<T>> | t < |Run(s, fs).pauses|
        ensures Run(s, fs).pauses[t].sent == s.pauses[t].sent
      {
        GoneForGood(s, fs, t);
      }
    }
  }

  // ---------------------------------------------------------------- identifiers used again

  /** The events that change the map's entry for `id`, whichever pause they belong to. */
  predicate Touches<T>(s: State<T>, e: Event<T>, id: string) {
    match e
    case Begin(other, _, _) => other == id
    case Resume(other, _) => other == id
    case ResumeUnmodified(other) => other == id
    case TimeoutCleanup(t) => t < |s.pauses| && s.pauses[t].waiter == TimerPicked && s.pauses[t].id == id
    case ContextDone(t) => t < |s.pauses| && s.pauses[t].cleaner == Watching && s.pauses[t].id == id
    case _ => false
  }

  predicate Untouched<T>(s: State<T>, es: seq<Event<T>>, id: string)
    decreases es
  {
    es == [] || (!Touches(s, es[0], id) && Untouched(Step(s, es[0]), es[1..], id))
  }

  lemma {:induction false} EntryOfItsOwn<T>(s: State<T>, t: nat)
    requires Inv(s) && t < |s.pauses|
    ensures InMap(s, t) <==> s.pauses[t].id in s.paused && s.paused[s.pauses[t].id] == t
  {
  }

  lemma {:induction false} StepKeepsReach<T>(s: State<T>, e: Event<T>, t: nat)
    requires Inv(s) && t < |s.pauses| && InMap(s, t)
    ensures InMap(Step(s, e), t) <==> !Touches(s, e, s.pauses[t].id)
  {
    StepKeepsInv(s, e);
    StepKeepsPauses(s, e, t);
    EntryOfItsOwn(s, t);
    EntryOfItsOwn(Step(s, e), t);
  }

  lemma {:induction false} NeverBackInMap<T>(s: State<T>, es: seq<Event<T>>, t: nat)
    requires t < |s.pauses| && !InMap(s, t)
    ensures !InMap(Run(s, es), t)
    decreases es
  {
    if es != [] {
      NeverBackInMap(Step(s, es[0]), es[1..], t);
    }
  }

  lemma {:induction false} InMapExactlyUntouched<T>(s: State<T>, es: seq<Event<T>>, t: nat)
    requires Inv(s) && t < |s.pauses| && InMap(s, t)
    ensures InMap(Run(s, es), t) <==> Untouched(s, es, s.pauses[t].id)
    decreases es
  {
    if es != [] {
      StepKeepsInv(s, es[0]);
      StepKeepsPauses(s, es[0], t);
      StepKeepsReach(s, es[0], t);
      if InMap(Step(s, es[0]), t) {
        InMapExactlyUntouched(Step(s, es[0]), es[1..], t);
      } else {
        NeverBackInMap(Step(s, es[0]), es[1..], t);
      }
    }
  }

  /**
   After any run, a pause that begins can be answered for exactly as long as nothing touches its
   identifier: no pause begins with it, no command names it, and no timeout or context end of a pause
   with it takes effect, whether that pause is this one or another.
   */
  lemma {:induction false} AnswerableExactlyUntouched<T>(
    es: seq<Event<T>>, id: string, original: T, cancellable: bool, fs: seq<Event<T>>)
    ensures var before := Run(Initial<T>(), es);
            var s := Step(before, Begin(id, original, cancellable));
            InMap(Run(s, fs), |before.pauses|) <==> Untouched(s, fs, id)
  {
    var before := Run(Initial<T>(), es);
    var s := Step(before, Begin(id, original, cancellable));
    RunKeepsInv(Initial<T>(), es);
    BeginKeepsInv(before, id, original, cancellable);
    assert id in s.paused && s.paused[id] == |before.pauses|;
    InMapExactlyUntouched(s, fs, |before.pauses|);
  }

  /**
   That is what fresh identifiers are for: a second pause that takes the identifier of one still
   waiting strands the first, which only its timer or its context can end.
   */
  lemma {:induction false} ReusedIdentifierStrandsTheFirst<T>(id: string, a: T, b: T)
    ensures var s := Step(Step(Initial<T>(), Begin(id, a, true)), Begin(id, b, true));
            Inv(s) && Answerable(s.pauses[0]) && !InMap(s, 0)
  {
  }

  /** And when the first then times out, it takes the entry of the second away: neither can be answered. */
  lemma {:induction false} FirstTimeoutStrandsTheSecond<T>(id: string, a: T, b: T)
    ensures var es := [Begin(id, a, true), Begin(id, b, true), PickTimer(0), TimeoutCleanup(0)];
            var s := Run(Initial<T>(), es);
            && |s.pauses| == 2 && s.pauses[1].waiter == Waiting && Answerable(s.pauses[1])
            && !InMap(s, 0) && !InMap(s, 1)
  {
    var s2 := Step(Step(Initial<T>(), Begin(id, a, true)), Begin(id, b, true));
    var s4 := Step(Step(s2, PickTimer(0)), TimeoutCleanup(0));
    var last: seq<Event<T>> := [PickTimer(0), TimeoutCleanup(0)];
    assert Run(s2, last) == Run(Step(s2, PickTimer(0)), last[1..]) == s4;
    var more: seq<Event<T>> := [Begin(id, b, true)] + last;
    assert more[1..] == last;
    var es: seq<Event<T>> := [Begin(id, a, true), Begin(id, b, true), PickTimer(0), TimeoutCleanup(0)];
    assert es[1..] == more;
    assert Run(Initial<T>(), es) == s4;
  }

  // ---------------------------------------------------------------- what is paused

  datatype Side = OnRequest | OnResponse

  /** A breakpoint rule apart from its identifier, with the expression compiled from its URL pattern. */
  datatype BreakpointRule = BreakpointRule(
    enabled: bool, onRequest: bool, onResponse: bool, httpMethod: string, pattern: string, regex: Option<Glob.Regex>)

  /** The rule is enabled for this side and for the method. */
  predicate Concerns(r: BreakpointRule, side: Side, httpMethod: string, fold: char -> char) {
    && r.enabled && (if side == OnRequest then r.onRequest else r.onResponse)
    && (r.httpMethod == "" || EqualFold(r.httpMethod, httpMethod, fold))
  }

  predicate Applies(r: BreakpointRule, side: Side, url: string, httpMethod: string, fold: char -> char) {
    Concerns(r, side, httpMethod, fold) && r.regex.Some? && Glob.MatchString(r.regex.value, url, fold)
  }

  /** A rule must be enabled, be for this side, be for the method in any case or for all, and match the URL. */
  lemma {:induction false} AppliesExactly(r: BreakpointRule, side: Side, url: string, httpMethod: string, fold: char -> char)
    ensures Applies(r, side, url, httpMethod, fold) <==>
            && r.enabled && (side == OnRequest ==> r.onRequest) && (side == OnResponse ==> r.onResponse)
            && (r.httpMethod == "" || MapChars(r.httpMethod, fold) == MapChars(httpMethod, fold))
            && r.regex.Some? && Glob.MatchString(r.regex.value, url, fold)
  {
    EqualFoldExactly(r.httpMethod, httpMethod, fold);
  }

  /** What `SetRules` keeps of a compiled pattern. */
  function RegexOf(p: Glob.UrlPattern): Option<Glob.Regex> {
    match p case Ready(re) => Some(re) case _ => None
  }

  /**
   A rule with a URL pattern that is not a user's own expression applies to just the URLs a part of
   which matches the pattern as a glob; with a blank pattern it applies to none.
   */
  lemma {:induction false} RuleAppliesToGlob(r: BreakpointRule, side: Side, url: string, httpMethod: string, lib: Glob.Library)
    requires !HasPrefix(r.pattern, "regex:") && r.regex == RegexOf(Glob.CompilePatternErr(r.pattern, lib))
    ensures Applies(r, side, url, httpMethod, lib.fold)
       <==> Concerns(r, side, httpMethod, lib.fold)
            && !AllSpace(r.pattern, lib.isSpace) && Glob.GlobWithin(r.pattern, url, lib.fold)
  {
    Glob.UrlRuleMeansGlob(r.pattern, url, lib);
  }

  // ---------------------------------------------------------------- the code

  /** The interceptor, with its channels in place of Go's. Every method is one critical section. */
  class RequestBreakpointInterceptor<T> {
    const side: Side
    const lib: Glob.Library
    var rules: seq<Rule<BreakpointRule>>
    var pauses: seq<Pause<T>>
    var paused: map<string, nat>

    ghost function View(): State<T>
      reads this
    {
      State(pauses, paused, {})
    }

    constructor (side: Side, lib: Glob.Library)
      ensures View() == Initial() && Inv(View()) && rules == [] && this.side == side && this.lib == lib
    {
      this.side, this.lib := side, lib;
      rules, pauses, paused := [], [], map[];
    }

    /** Every rule gets an identifier of its own and the expression of its pattern; nothing else of it changes. */
    method SetRules(rules: seq<Rule<BreakpointRule>>, newId: nat -> string)
      requires forall i :: newId(i) != ""
      modifies this`rules, rules
      ensures this.rules == rules && UniquelyNamed(rules)
      ensures forall r :: r in rules ==>
                r.body == old(r.body).(regex := RegexOf(Glob.CompilePatternErr(old(r.body).pattern, lib)))
    {
      ghost var names, wanted := EnsureUniqueIDs(rules, newId);
      CompileRules(rules);
      this.rules := rules;
    }

    /** The loop that compiles the patterns. */
    method CompileRules(rules: seq<Rule<BreakpointRule>>)
      modifies rules`body
      ensures forall r :: r in rules ==>
                r.body == old(r.body).(regex := RegexOf(Glob.CompilePatternErr(old(r.body).pattern, lib)))
    {
      for i := 0 to |rules|
        invariant forall r :: r in rules ==>
                    r.body == if r in rules[..i] then old(r.body).(regex := RegexOf(Glob.CompilePatternErr(old(r.body).pattern, lib)))
                              else old(r.body)
      {
        var r := rules[i];
        assert rules[..i + 1] == rules[..i] + [r];
        r.body := r.body.(regex := RegexOf(Glob.CompilePatternErr(r.body.pattern, lib)));
      }
    }

    /** The search for a rule. The code keeps the first that applies but only asks whether there is one. */
    method RuleApplies(url: string, httpMethod: string) returns (found: bool)
      ensures found <==> exists i :: 0 <= i < |rules| && Applies(rules[i].body, side, url, httpMethod, lib.fold)
    {
      for i := 0 to |rules|
        invariant forall j :: 0 <= j < i ==> !Applies(rules[j].body, side, url, httpMethod, lib.fold)
      {
        var r := rules[i].body;
        var on := if side == OnRequest then r.onRequest else r.onResponse;
        if !r.enabled || !on || r.regex == None || !Glob.MatchString(r.regex.value, url, lib.fold) {
          continue;
        }
        if r.httpMethod != "" && !EqualFold(r.httpMethod, httpMethod, lib.fold) {
          continue;
        }
        return true;
      }
      return false;
    }

    /** `OnRequest`/`OnResponse` up to the `select`: the exchange is paused if and only if a rule applies to it. */
    method Arrive(id: string, original: T, cancellable: bool, url: string, httpMethod: string) returns (t: Option<nat>)
      requires Inv(View())
      modifies this`pauses, this`paused
      ensures t.Some? <==> exists i :: 0 <= i < |rules| && Applies(rules[i].body, side, url, httpMethod, lib.fold)
      ensures t == None ==> View() == old(View())
      ensures t.Some? ==> t.value == old(|pauses|) && View() == Step(old(View()), Begin(id, original, cancellable))
      ensures Inv(View())
    {
      var found := RuleApplies(url, httpMethod);
      if !found {
        return None;
      }
      var at := PauseExchange(id, original, cancellable);
      assert rules == old(rules);
      return Some(at);
    }

    /** The part of `OnRequest`/`OnResponse` before the `select`. */
    method PauseExchange(id: string, original: T, cancellable: bool) returns (t: nat)
      requires Inv(View())
      modifies this`pauses, this`paused
      ensures View() == Step(old(View()), Begin(id, original, cancellable)) && Inv(View())
      ensures t == old(|pauses|)
    {
      t := |pauses|;
      pauses := pauses + [Pause(id, original, [], false, Waiting, if cancellable then Watching else NoContext, [], 0)];
      paused := paused[id := t];
    }

    /** `resChan <- msg`: the channel is open and empty, so this neither panics nor blocks. */
    method Send(t: nat, msg: Option<T>)
      requires t < |pauses| && !pauses[t].closed && pauses[t].buffer == []
      modifies this`pauses
      ensures pauses == old(pauses)[t := old(pauses)[t].(buffer := old(pauses)[t].buffer + [msg], sent := old(pauses)[t].sent + [msg])]
    {
      var p := pauses[t];
      pauses := pauses[t := p.(buffer := p.buffer + [msg], sent := p.sent + [msg])];
    }

    /** `ResumeRequest`; with nil it is `AbortRequest`. */
    method Resume(id: string, msg: Option<T>)
      requires Inv(View())
      modifies this`pauses, this`paused
      ensures View() == Step(old(View()), Event.Resume(id, msg)) && Inv(View())
    {
      StepKeepsInv(View(), Event.Resume(id, msg));
      if id in paused {
        var t := paused[id];
        paused := paused - {id};
        Send(t, msg);
      }
    }

    method ResumeUnmodified(id: string)
      requires Inv(View())
      modifies this`pauses, this`paused
      ensures View() == Step(old(View()), Event.ResumeUnmodified(id)) && Inv(View())
    {
      StepKeepsInv(View(), Event.ResumeUnmodified(id));
      if id in paused {
        var t := paused[id];
        paused := paused - {id};
        Send(t, Some(pauses[t].original));
      }
    }

    /** The receiving branch of the `select`, once it is ready. */
    method Receive(t: nat) returns (outcome: Outcome<T>)
      requires Inv(View()) && t < |pauses| && pauses[t].waiter == Waiting
      requires pauses[t].buffer != [] || pauses[t].closed
      modifies this`pauses, this`paused
      ensures View() == Step(old(View()), Event.Receive(t)) && Inv(View())
      ensures pauses[t].waiter == Done(outcome)
    {
      StepKeepsInv(View(), Event.Receive(t));
      var p := pauses[t];
      var msg: Option<T> := None;
      if |p.buffer| > 0 {
        msg := p.buffer[0];
        p := p.(buffer := p.buffer[1..]);
      }
      outcome := match msg case Some(v) => Resumed(v) case None => Aborted;
      pauses := pauses[t := p.(waiter := Done(outcome))];
    }

    /** The timer branch after it was picked: delete the entry and give up. */
    method TimeOut(t: nat) returns (outcome: Outcome<T>)
      requires Inv(View()) && t < |pauses| && pauses[t].waiter == TimerPicked
      modifies this`pauses, this`paused
      ensures View() == Step(old(View()), Event.TimeoutCleanup(t)) && Inv(View())
      ensures outcome == TimedOut && pauses[t].waiter == Done(outcome)
    {
      StepKeepsInv(View(), Event.TimeoutCleanup(t));
      paused := paused - {pauses[t].id};
      outcome := TimedOut;
      pauses := pauses[t := pauses[t].(waiter := Done(outcome))];
    }

    /** The cleaner once the context ends: delete the entry under the lock. */
    method ForgetCancelled(t: nat)
      requires Inv(View()) && t < |pauses| && pauses[t].cleaner == Watching
      modifies this`pauses, this`paused
      ensures View() == Step(old(View()), Event.ContextDone(t)) && Inv(View())
    {
      StepKeepsInv(View(), Event.ContextDone(t));
      paused := paused - {pauses[t].id};
      pauses := pauses[t := pauses[t].(cleaner := Deleted)];
    }

    /** `close(resChan)`, after the lock was released. */
    method Close(t: nat)
      requires Inv(View()) && t < |pauses| && pauses[t].cleaner == Deleted
      modifies this`pauses, this`paused
      ensures View() == Step(old(View()), Event.CloseChannel(t)) && Inv(View())
    {
      StepKeepsInv(View(), Event.CloseChannel(t));
      assert !pauses[t].closed;
      pauses := pauses[t := pauses[t].(cleaner := Closed, closed := true, closes := pauses[t].closes + 1)];
    }
  }
}
