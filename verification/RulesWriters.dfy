/**
 Saves of rules.json that run at the same time. internal/services/rules.go takes no lock, and every
 save writes through the same temporary file, so a name and the file behind it are kept apart here: a
 writer goes on writing to the file it opened, whatever that file is called by then.
 */
module RulesWriters {
  import opened Bytes
  import opened RulesFile

  /** The files that were ever made, and what each of the three names stands for. */
  datatype Files = Files(contents: seq<Octets>, temp: Option<nat>, primary: Option<nat>, backup: Option<nat>)

  /** A save in progress, with the file it opened and how much it has written there. */
  datatype Writer<C> = Writer(phase: Phase, config: C, bytes: Octets, file: nat, at: nat)

  /** `saved` is the configuration of the last final rename that succeeded, or what was there at the start. */
  datatype Shared<C> = Shared(files: Files, writers: map<nat, Writer<C>>, saved: Option<C>)

  /** An event of one of the saves; a crash ends them all. */
  datatype Act<C> = By(writer: nat, event: Event<C>)

  function Content(f: Files, name: Option<nat>): Option<Octets> {
    if name.Some? && name.value < |f.contents| then Some(f.contents[name.value]) else None
  }

  function DiskOf(f: Files): Disk {
    Disk(Content(f, f.temp), Content(f, f.primary), Content(f, f.backup))
  }

  // ---------------------------------------------------------------- the steps

  function Zeros(n: nat): (s: Octets)
    ensures |s| == n
  {
    seq(n, _ => 0)
  }

  /** `part` written over a file's bytes from `at`. */
  function Overlay(content: Octets, at: nat, part: Octets): Octets {
    (if at <= |content| then content[..at] else content + Zeros(at - |content|))
    + part
    + (if at + |part| < |content| then content[at + |part|..] else [])
  }

  function WriteAt(f: Files, file: nat, at: nat, part: Octets): Files {
    if file < |f.contents| then f.(contents := f.contents[file := Overlay(f.contents[file], at, part)]) else f
  }

  /** Opening the temporary file for a save: the one that is there is emptied, or a new one is made. */
  function Opened(f: Files): (g: Files)
    ensures g.temp.Some?
  {
    if f.temp.Some? && f.temp.value < |f.contents| then f.(contents := f.contents[f.temp.value := []])
    else f.(contents := f.contents + [[]], temp := Some(|f.contents|))
  }

  function RotateNames(f: Files, ok: bool): Files {
    if f.primary.Some? && ok then f.(backup := f.primary, primary := None) else f
  }

  function RestoreNames(f: Files, ok: bool): Files {
    if f.backup.Some? && ok then f.(primary := f.backup, backup := None) else f
  }

  /** An event of the save `x` of writer `w`. The final rename also fails when the temporary file is gone. */
  function WriterStep<C>(s: Shared<C>, w: nat, x: Writer<C>, e: Event<C>): Shared<C> {
    match e
    case WritePart(n) =>
      if x.phase != Writing || n < x.at || n > |x.bytes| then s
      else Shared(WriteAt(s.files, x.file, x.at, x.bytes[x.at..n]), s.writers[w := x.(at := n)], s.saved)
    case WriteFails => if x.phase != Writing then s else s.(writers := s.writers - {w})
    case WriteDone =>
      if x.phase != Writing || x.at > |x.bytes| then s
      else
        Shared(WriteAt(s.files, x.file, x.at, x.bytes[x.at..]),
               s.writers[w := x.(phase := Phase.Written, at := |x.bytes|)], s.saved)
    case Rotate(ok) =>
      if x.phase != Phase.Written then s
      else Shared(RotateNames(s.files, ok), s.writers[w := x.(phase := Rotated)], s.saved)
    case Install(ok) =>
      if x.phase != Rotated then s
      else if ok && s.files.temp.Some? then
        Shared(s.files.(primary := s.files.temp, temp := None), s.writers - {w}, Some(x.config))
      else s.(writers := s.writers[w := x.(phase := InstallFailed)])
    case Restore(ok) =>
      if x.phase != InstallFailed then s else Shared(RestoreNames(s.files, ok), s.writers - {w}, s.saved)
    case _ => s
  }

  function Apply<C>(s: Shared<C>, a: Act<C>, k: Codec<C>): Shared<C> {
    match a.event
    case Crash => s.(writers := map[])
    case Begin(c) =>
      if a.writer in s.writers then s
      else
        var f := Opened(s.files);
        Shared(f, s.writers[a.writer := Writer(Writing, c, k.render(c), f.temp.value, 0)], s.saved)
    case _ => if a.writer in s.writers then WriterStep(s, a.writer, s.writers[a.writer], a.event) else s
  }

  function RunActs<C>(s: Shared<C>, acts: seq<Act<C>>, k: Codec<C>): Shared<C>
    decreases |acts|
  {
    if acts == [] then s else RunActs(Apply(s, acts[0], k), acts[1..], k)
  }

  lemma {:induction false} RunActsFirst<C>(s: Shared<C>, a: Act<C>, acts: seq<Act<C>>, k: Codec<C>)
    ensures RunActs(s, [a] + acts, k) == RunActs(Apply(s, a, k), acts, k)
  {
    assert ([a] + acts)[1..] == acts;
  }

  // ---------------------------------------------------------------- one save at a time

  /** The names stand for different files. */
  predicate Apart(f: Files) {
    && (f.temp.Some? ==> f.temp.value < |f.contents|)
    && (f.primary.Some? ==> f.primary.value < |f.contents| && f.primary != f.temp)
    && (f.backup.Some? ==> f.backup.value < |f.contents| && f.backup != f.temp && f.backup != f.primary)
  }

  /** What the only save in progress has written so far. */
  predicate Tracks<C>(f: Files, x: Writer<C>) {
    && x.phase != Idle && x.phase != Installed
    && f.temp == Some(x.file) && x.file < |f.contents| && x.at <= |x.bytes|
    && (x.phase == Writing ==> f.contents[x.file] == x.bytes[..x.at])
  }

  /** The shared state, with at most one save in progress, as the state of that save alone. */
  function AsOne<C>(s: Shared<C>, p: Option<(nat, Writer<C>)>): State<C> {
    match p
    case None => State(DiskOf(s.files), Idle, None, [], s.saved)
    case Some((_, x)) => State(DiskOf(s.files), x.phase, Some(x.config), x.bytes, s.saved)
  }

  ghost predicate Guarded<C>(s: Shared<C>, p: Option<(nat, Writer<C>)>, k: Codec<C>) {
    && s.writers == (match p case None => map[] case Some((w, x)) => map[w := x])
    && Apart(s.files)
    && (p.Some? ==> Tracks(s.files, p.value.1))
    && Inv(AsOne(s, p), k) && RotatedAway(AsOne(s, p))
  }

  /** Writing to the temporary file changes it alone. */
  lemma {:induction false} TempChanges(f: Files, i: nat, content: Octets)
    requires Apart(f) && f.temp == Some(i)
    ensures DiskOf(f.(contents := f.contents[i := content])) == DiskOf(f).(temp := Some(content))
  {
  }

  lemma {:induction false} OpenedDisk(f: Files)
    requires Apart(f)
    ensures Apart(Opened(f)) && DiskOf(Opened(f)) == DiskOf(f).(temp := Some([]))
    ensures Opened(f).temp.value < |Opened(f).contents| && Opened(f).contents[Opened(f).temp.value] == []
  {
  }

  lemma {:induction false} OverlayContinues(bytes: Octets, at: nat, n: nat)
    requires at <= n <= |bytes|
    ensures Overlay(bytes[..at], at, bytes[at..n]) == bytes[..n]
  {
  }

  /** One event of a lone save is the same event of the save by itself. */
  lemma {:induction false} LoneStep<C(!new)>(s: Shared<C>, w: nat, x: Writer<C>, e: Event<C>, k: Codec<C>)
    returns (p: Option<(nat, Writer<C>)>)
    requires Inverse(k) && Guarded(s, Some((w, x)), k) && e != Rotate(false)
    requires !e.Begin? && !e.Crash? && !e.Install?
    ensures Guarded(WriterStep(s, w, x, e), p, k)
  {
    var one, after := AsOne(s, Some((w, x))), WriterStep(s, w, x, e);
    p := if w in after.writers then Some((w, after.writers[w])) else None;
    if after == s {
      return;
    }
    if e.WritePart? || e.WriteDone? {
      var n := if e.WritePart? then e.n else |x.bytes|;
      assert x.bytes[x.at..] == x.bytes[x.at..|x.bytes|] && x.bytes[..|x.bytes|] == x.bytes;
      OverlayContinues(x.bytes, x.at, n);
      TempChanges(s.files, x.file, x.bytes[..n]);
    }
    assert AsOne(after, p) == Step(one, e, k);
    StepKeepsInv(one, e, k);
  }

  lemma {:induction false} LoneInstall<C(!new)>(s: Shared<C>, w: nat, x: Writer<C>, ok: bool, k: Codec<C>)
    returns (p: Option<(nat, Writer<C>)>)
    requires Inverse(k) && Guarded(s, Some((w, x)), k)
    ensures Guarded(WriterStep(s, w, x, Install(ok)), p, k)
  {
    var one, after := AsOne(s, Some((w, x))), WriterStep(s, w, x, Install(ok));
    p := if w in after.writers then Some((w, after.writers[w])) else None;
    if after == s {
      return;
    }
    StepKeepsInv(one, Install(ok), k);
    if ok {
      StepKeepsInv(Step(one, Install(ok), k), Return, k);
      assert AsOne(after, p) == Step(Step(one, Install(ok), k), Return, k);
    } else {
      assert AsOne(after, p) == Step(one, Install(ok), k);
    }
  }

  lemma {:induction false} LoneBegin<C(!new)>(s: Shared<C>, w: nat, c: C, k: Codec<C>) returns (p: Option<(nat, Writer<C>)>)
    requires Inverse(k) && Guarded(s, None, k)
    ensures Guarded(Apply(s, By(w, Begin(c)), k), p, k)
  {
    var after := Apply(s, By(w, Begin(c)), k);
    p := Some((w, after.writers[w]));
    OpenedDisk(s.files);
    assert AsOne(after, p) == Step(AsOne(s, None), Begin(c), k);
    StepKeepsInv(AsOne(s, None), Begin(c), k);
    assert k.render(c)[..0] == [];
  }

  lemma {:induction false} LoneCrash<C(!new)>(s: Shared<C>, p: Option<(nat, Writer<C>)>, w: nat, k: Codec<C>)
    requires Inverse(k) && Guarded(s, p, k)
    ensures Guarded(Apply(s, By(w, Crash), k), None, k)
  {
    StepKeepsInv(AsOne(s, p), Crash, k);
    assert AsOne(Apply(s, By(w, Crash), k), None) == Step(AsOne(s, p), Crash, k);
  }

  lemma {:induction false} GuardedWriter<C>(s: Shared<C>, p: Option<(nat, Writer<C>)>, k: Codec<C>)
    requires Guarded(s, p, k)
    ensures p.Some? ==> s.writers != map[]
  {
    if p.Some? {
      assert p.value.0 in s.writers;
    }
  }

  lemma {:induction false} SerialStep<C(!new)>(s: Shared<C>, p: Option<(nat, Writer<C>)>, a: Act<C>, k: Codec<C>)
    returns (q: Option<(nat, Writer<C>)>)
    requires Inverse(k) && Guarded(s, p, k) && a.event != Rotate(false)
    requires a.event.Begin? ==> s.writers == map[]
    ensures Guarded(Apply(s, a, k), q, k)
  {
    q := p;
    if a.event.Crash? {
      LoneCrash(s, p, a.writer, k);
      q := None;
    } else if a.event.Begin? {
      GuardedWriter(s, p, k);
      q := LoneBegin(s, a.writer, a.event.config, k);
    } else if a.writer in s.writers {
      assert p == Some((a.writer, s.writers[a.writer]));
      if a.event.Install? {
        q := LoneInstall(s, a.writer, s.writers[a.writer], a.event.ok, k);
      } else {
        q := LoneStep(s, a.writer, s.writers[a.writer], a.event, k);
      }
    }
  }

  /** No save begins before the one before it has ended. */
  predicate Serial<C>(s: Shared<C>, acts: seq<Act<C>>, k: Codec<C>)
    decreases |acts|
  {
    acts == [] || ((acts[0].event.Begin? ==> s.writers == map[]) && Serial(Apply(s, acts[0], k), acts[1..], k))
  }

  predicate RotatesAlways<C(==)>(acts: seq<Act<C>>) {
    forall i :: 0 <= i < |acts| ==> acts[i].event != Rotate(false)
  }

  lemma {:induction false} SerialKeepsGuarded<C(!new)>(
    s: Shared<C>, p: Option<(nat, Writer<C>)>, acts: seq<Act<C>>, k: Codec<C>) returns (q: Option<(nat, Writer<C>)>)
    requires Inverse(k) && Guarded(s, p, k) && Serial(s, acts, k) && RotatesAlways(acts)
    ensures Guarded(RunActs(s, acts, k), q, k)
    decreases |acts|
  {
    q := p;
    if acts != [] {
      assert acts[0].event != Rotate(false);
      assert forall i :: 0 <= i < |acts| - 1 ==> acts[1..][i] == acts[i + 1];
      q := SerialStep(s, p, acts[0], k);
      q := SerialKeepsGuarded(Apply(s, acts[0], k), q, acts[1..], k);
    }
  }

  /** Between saves, with nothing in progress, on a disk no unreadable rules.json of which hides a readable backup. */
  ghost predicate AtRest<C>(s: Shared<C>, k: Codec<C>) {
    s.writers == map[] && Apart(s.files) && Sound(DiskOf(s.files), k) && s.saved == Load(DiskOf(s.files), k)
  }

  /**
   If no save begins before the one before it has ended, then over every run with working rotations,
   whichever writers save and wherever they crash or fail, a load returns the configuration of the last
   final rename that succeeded.
   */
  lemma {:induction false} SerialSavesAreSafe<C(!new)>(s: Shared<C>, acts: seq<Act<C>>, k: Codec<C>)
    requires Inverse(k) && AtRest(s, k) && Serial(s, acts, k) && RotatesAlways(acts)
    ensures Load(DiskOf(RunActs(s, acts, k).files), k) == RunActs(s, acts, k).saved
  {
    var q := SerialKeepsGuarded(s, None, acts, k);
  }

  // ---------------------------------------------------------------- two at a time

  /** The end of a save whose temporary file another save has renamed into place. */
  function Tail<C>(b: nat): seq<Act<C>> {
    [By(b, WriteDone), By(b, Rotate(true)), By(b, Install(true)), By(b, Restore(true))]
  }

  /** How the save of `b`, begun while that of `a` is in the given phase, undoes the latter. */
  function Undoing<C>(phase: Phase, a: nat, b: nat): seq<Act<C>> {
    match phase
    case Rotated => [By(a, Install(true))] + Tail(b)
    case Written => [By(a, Rotate(true))] + ([By(a, Install(true))] + Tail(b))
    case InstallFailed => [By(b, WriteDone), By(b, Rotate(true)), By(b, Install(true)), By(a, Restore(true))]
    case _ => [By(a, WriteDone)] + ([By(a, Rotate(true))] + ([By(a, Install(true))] + Tail(b)))
  }

  lemma {:induction false} RunFour<C>(s: Shared<C>, a: Act<C>, b: Act<C>, c: Act<C>, d: Act<C>, k: Codec<C>)
    ensures RunActs(s, [a, b, c, d], k) == Apply(Apply(Apply(Apply(s, a, k), b, k), c, k), d, k)
  {
    var s1 := Apply(s, a, k);
    var s2 := Apply(s1, b, k);
    var s3 := Apply(s2, c, k);
    RunActsFirst(s3, d, [], k);
    RunActsFirst(s2, c, [d], k);
    RunActsFirst(s1, b, [c, d], k);
    RunActsFirst(s, a, [b, c, d], k);
    assert [a] + [b, c, d] == [a, b, c, d] && [b] + [c, d] == [b, c, d] && [c] + [d] == [c, d] && [d] + [] == [d];
  }

  lemma {:induction false} OverlayCovers(content: Octets, part: Octets)
    requires |content| <= |part|
    ensures Overlay(content, 0, part) == part
  {
  }

  /** The save of `b` writes into rules.json itself, fails, and still leaves its configuration there. */
  lemma {:induction false} TailUndoes<C(!new)>(s: Shared<C>, b: nat, c: C, i: nat, k: Codec<C>)
    requires Inverse(k) && s.writers == map[b := Writer(Writing, c, k.render(c), i, 0)]
    requires i < |s.files.contents| && |s.files.contents[i]| <= |k.render(c)|
    requires s.files.primary == Some(i) && s.files.temp == None
    ensures var t := RunActs(s, Tail(b), k);
            t.writers == map[] && t.saved == s.saved && Load(DiskOf(t.files), k) == Some(c)
  {
    var bytes := k.render(c);
    RunFour(s, By(b, WriteDone), By(b, Rotate(true)), By(b, Install(true)), By(b, Restore(true)), k);
    OverlayCovers(s.files.contents[i], bytes);
    assert bytes[0..] == bytes;
    var s1 := Apply(s, By(b, WriteDone), k);
    assert s1.files == s.files.(contents := s.files.contents[i := bytes]);
    var s2 := Apply(s1, By(b, Rotate(true)), k);
    assert s2.files == s1.files.(primary := None, backup := Some(i));
    var s3 := Apply(s2, By(b, Install(true)), k);
    assert s3.files == s2.files && s3.writers.Keys == {b};
    var s4 := Apply(s3, By(b, Restore(true)), k);
    assert s4.files == s3.files.(primary := Some(i), backup := None);
    assert s4.writers == map[];
    assert k.parse(bytes) == Some(c);
  }

  /** Two saves hold the same temporary file, and that of `b` has written nothing yet. */
  predicate Sharing<C(==)>(s: Shared<C>, a: nat, x: Writer<C>, b: nat, c: C, k: Codec<C>) {
    && a != b && s.writers == map[a := x, b := Writer(Writing, c, k.render(c), x.file, 0)]
    && s.files.temp == Some(x.file) && x.file < |s.files.contents|
  }

  lemma {:induction false} InstallUndone<C(!new)>(s: Shared<C>, a: nat, x: Writer<C>, b: nat, c: C, k: Codec<C>)
    requires Inverse(k) && Sharing(s, a, x, b, c, k) && x.phase == Rotated
    requires |s.files.contents[x.file]| <= |k.render(c)|
    ensures var t := RunActs(s, [By(a, Install(true))] + Tail(b), k);
            t.writers == map[] && t.saved == Some(x.config) && Load(DiskOf(t.files), k) == Some(c)
  {
    var s1 := Apply(s, By(a, Install(true)), k);
    assert s1.writers == map[b := Writer(Writing, c, k.render(c), x.file, 0)];
    RunActsFirst(s, By(a, Install(true)), Tail(b), k);
    TailUndoes(s1, b, c, x.file, k);
  }

  lemma {:induction false} RotationUndone<C(!new)>(s: Shared<C>, a: nat, x: Writer<C>, b: nat, c: C, k: Codec<C>)
    requires Inverse(k) && Sharing(s, a, x, b, c, k) && x.phase == Phase.Written
    requires |s.files.contents[x.file]| <= |k.render(c)|
    ensures var t := RunActs(s, [By(a, Rotate(true))] + ([By(a, Install(true))] + Tail(b)), k);
            t.writers == map[] && t.saved == Some(x.config) && Load(DiskOf(t.files), k) == Some(c)
  {
    var s1 := Apply(s, By(a, Rotate(true)), k);
    RunActsFirst(s, By(a, Rotate(true)), [By(a, Install(true))] + Tail(b), k);
    InstallUndone(s1, a, x.(phase := Rotated), b, c, k);
  }

  lemma {:induction false} WriteUndone<C(!new)>(s: Shared<C>, a: nat, x: Writer<C>, b: nat, c: C, k: Codec<C>)
    requires Inverse(k) && Sharing(s, a, x, b, c, k) && x.phase == Writing
    requires s.files.contents[x.file] == [] && x.at <= |x.bytes| <= |k.render(c)|
    ensures var t := RunActs(s, Undoing(Writing, a, b), k);
            t.writers == map[] && t.saved == Some(x.config) && Load(DiskOf(t.files), k) == Some(c)
  {
    var s1 := Apply(s, By(a, WriteDone), k);
    assert |s1.files.contents[x.file]| == |x.bytes|;
    RunActsFirst(s, By(a, WriteDone), [By(a, Rotate(true))] + ([By(a, Install(true))] + Tail(b)), k);
    RotationUndone(s1, a, x.(phase := Phase.Written, at := |x.bytes|), b, c, k);
  }

  /** The failed save of `a` restores the backup over what `b` has saved since. */
  lemma {:induction false} RestoreUndoes<C(!new)>(s: Shared<C>, a: nat, x: Writer<C>, b: nat, c: C, k: Codec<C>)
    requires Inverse(k) && Sharing(s, a, x, b, c, k) && x.phase == InstallFailed
    requires Apart(s.files) && s.files.contents[x.file] == []
    requires s.files.primary == None && s.files.backup.Some? && s.saved == Load(DiskOf(s.files), k)
    ensures var t := RunActs(s, Undoing(InstallFailed, a, b), k);
            t.writers == map[] && t.saved == Some(c) && Load(DiskOf(t.files), k) == s.saved
  {
    var bytes := k.render(c);
    RunFour(s, By(b, WriteDone), By(b, Rotate(true)), By(b, Install(true)), By(a, Restore(true)), k);
    OverlayCovers([], bytes);
    assert bytes[0..] == bytes;
    var s1 := Apply(s, By(b, WriteDone), k);
    assert s1.files == s.files.(contents := s.files.contents[x.file := bytes]);
    var s2 := Apply(s1, By(b, Rotate(true)), k);
    var s3 := Apply(s2, By(b, Install(true)), k);
    assert s3.files == s1.files.(primary := Some(x.file), temp := None) && s3.writers == map[a := x];
    var s4 := Apply(s3, By(a, Restore(true)), k);
    assert s4.files == s3.files.(primary := s.files.backup, backup := None);
    assert s4.writers == map[];
  }

  /** One save can be undone by another begun before it ended: it is not too late, and there is something to undo. */
  predicate CanBeUndone<C>(f: Files, x: Writer<C>) {
    x.phase != InstallFailed || f.backup.Some?
  }

  /**
   The condition cannot be dropped. Wherever one save of any safe run stands before its end, a second
   one begun there with another configuration, long enough to cover the first, can leave the disk
   without the configuration of the last final rename that succeeded, although every rotation works,
   nothing crashes and no other save begins.
   */
  lemma {:induction false} OverlapLosesSave<C(!new)>(s: Shared<C>, a: nat, x: Writer<C>, b: nat, c: C, k: Codec<C>)
    requires Inverse(k) && Guarded(s, Some((a, x)), k) && CanBeUndone(s.files, x) && b != a
    requires c != x.config && Some(c) != s.saved && |x.bytes| <= |k.render(c)|
    ensures forall i :: 0 <= i < |Undoing<C>(x.phase, a, b)| ==>
              var e := Undoing<C>(x.phase, a, b)[i].event; e != Rotate(false) && !e.Begin? && !e.Crash?
    ensures var t := RunActs(s, [By(b, Begin(c))] + Undoing(x.phase, a, b), k);
            && t.writers == map[] && Load(DiskOf(t.files), k) != t.saved
  {
    var s1 := SecondBegins(s, a, x, b, c, k);
    RunActsFirst(s, By(b, Begin(c)), Undoing(x.phase, a, b), k);
    UndoingIsQuiet<C>(x.phase, a, b);
    if x.phase == InstallFailed {
      RestoreUndoes(s1, a, x, b, c, k);
    } else {
      SaveUndone(s1, a, x, b, c, k);
    }
  }

  predicate Quiet<C(==)>(acts: seq<Act<C>>) {
    RotatesAlways(acts) && forall i :: 0 <= i < |acts| ==> !acts[i].event.Begin?
  }

  function Without<C>(s: Shared<C>, a: nat): Shared<C> {
    s.(writers := s.writers - {a})
  }

  /** The save of `a`, if it is still there, only has a restore left, and there is nothing to restore. */
  predicate Spent<C>(s: Shared<C>, a: nat) {
    s.files.backup == None && (a in s.writers ==> s.writers[a].phase == InstallFailed)
  }

  lemma {:induction false} SpentStep<C>(s: Shared<C>, e: Act<C>, k: Codec<C>)
    requires Spent(s, e.writer) && !e.event.Begin? && !e.event.Crash?
    ensures Spent(Apply(s, e, k), e.writer) && Without(Apply(s, e, k), e.writer) == Without(s, e.writer)
  {
  }

  /** What the other save does it does as if the spent one were not there. */
  lemma {:induction false} OtherStep<C>(s: Shared<C>, a: nat, e: Act<C>, k: Codec<C>)
    requires Spent(s, a) && !e.event.Begin? && (e.writer != a || e.event.Crash?)
    requires s.files.primary.Some? ==> Without(s, a).writers == map[]
    ensures Without(Apply(s, e, k), a) == Apply(Without(s, a), e, k) && Spent(Apply(s, e, k), a)
  {
    assert e.writer != a && e.writer in s.writers ==> e.writer in Without(s, a).writers;
  }

  lemma {:induction false} OthersEnd<C(!new)>(s: Shared<C>, p: Option<(nat, Writer<C>)>, e: Act<C>, k: Codec<C>)
    requires Guarded(s, p, k) && !e.event.Begin? && s.files.backup == None && (s.files.primary.Some? ==> s.writers == map[])
    ensures Apply(s, e, k).files.primary.Some? ==> Apply(s, e, k).writers == map[]
  {
  }

  lemma {:induction false} WithoutSpent<C(!new)>(s: Shared<C>, p: Option<(nat, Writer<C>)>, a: nat, e: Act<C>, k: Codec<C>)
    returns (q: Option<(nat, Writer<C>)>)
    requires Inverse(k) && Guarded(Without(s, a), p, k) && !e.event.Begin? && e.event != Rotate(false)
    requires Spent(s, a) && (s.files.primary.Some? ==> Without(s, a).writers == map[])
    ensures var s' := Apply(s, e, k);
            Guarded(Without(s', a), q, k) && Spent(s', a) && (s'.files.primary.Some? ==> Without(s', a).writers == map[])
  {
    q := p;
    if e.writer == a && !e.event.Crash? {
      SpentStep(s, e, k);
    } else {
      OtherStep(s, a, e, k);
      q := SerialStep(Without(s, a), p, e, k);
      OthersEnd(Without(s, a), p, e, k);
    }
  }

  lemma {:induction false} SpentStaysHarmless<C(!new)>(
    s: Shared<C>, p: Option<(nat, Writer<C>)>, a: nat, acts: seq<Act<C>>, k: Codec<C>)
    requires Inverse(k) && Guarded(Without(s, a), p, k) && Quiet(acts)
    requires Spent(s, a) && (s.files.primary.Some? ==> Without(s, a).writers == map[])
    ensures Load(DiskOf(RunActs(s, acts, k).files), k) == RunActs(s, acts, k).saved
    decreases |acts|
  {
    if acts != [] {
      assert acts[0].event != Rotate(false) && !acts[0].event.Begin?;
      assert forall i :: 0 <= i < |acts| - 1 ==> acts[1..][i] == acts[i + 1];
      var q := WithoutSpent(s, p, a, acts[0], k);
      SpentStaysHarmless(Apply(s, acts[0], k), q, a, acts[1..], k);
    }
  }

  /**
   The other way round: a save whose final rename has failed, with no backup to restore, cannot be undone
   and undoes nothing. Whatever follows a second save begun there, short of a third, a load returns the
   configuration of the last final rename that succeeded.
   */
  lemma {:induction false} SpentSaveIsHarmless<C(!new)>(
    s: Shared<C>, a: nat, x: Writer<C>, b: nat, c: C, acts: seq<Act<C>>, k: Codec<C>)
    requires Inverse(k) && Guarded(s, Some((a, x)), k) && !CanBeUndone(s.files, x) && b != a && Quiet(acts)
    ensures var t := RunActs(s, [By(b, Begin(c))] + acts, k); Load(DiskOf(t.files), k) == t.saved
  {
    var s1 := Apply(s, By(b, Begin(c)), k);
    assert Guarded(Without(s, a), None, k);
    var p := LoneBegin(Without(s, a), b, c, k);
    assert Without(s1, a) == Apply(Without(s, a), By(b, Begin(c)), k);
    RunActsFirst(s, By(b, Begin(c)), acts, k);
    SpentStaysHarmless(s1, p, a, acts, k);
  }

  lemma {:induction false} SecondBegins<C(!new)>(s: Shared<C>, a: nat, x: Writer<C>, b: nat, c: C, k: Codec<C>)
    returns (s1: Shared<C>)
    requires Inverse(k) && Guarded(s, Some((a, x)), k) && b != a
    ensures s1 == Apply(s, By(b, Begin(c)), k) && Sharing(s1, a, x, b, c, k) && s1.files.contents[x.file] == []
    ensures Apart(s1.files) && s1.saved == s.saved
    ensures s1.files.primary == s.files.primary && s1.files.backup == s.files.backup
    ensures x.phase == InstallFailed ==> s1.files.primary == None && Load(DiskOf(s1.files), k) == s.saved
  {
    OpenedDisk(s.files);
    s1 := Apply(s, By(b, Begin(c)), k);
    assert s1.files == s.files.(contents := s.files.contents[x.file := []]);
  }

  lemma {:induction false} SaveUndone<C(!new)>(s: Shared<C>, a: nat, x: Writer<C>, b: nat, c: C, k: Codec<C>)
    requires Inverse(k) && Sharing(s, a, x, b, c, k) && s.files.contents[x.file] == []
    requires x.at <= |x.bytes| <= |k.render(c)| && x.phase != Idle && x.phase != Installed && x.phase != InstallFailed
    ensures var t := RunActs(s, Undoing(x.phase, a, b), k);
            t.writers == map[] && t.saved == Some(x.config) && Load(DiskOf(t.files), k) == Some(c)
  {
    match x.phase {
      case Rotated => InstallUndone(s, a, x, b, c, k);
      case Written => RotationUndone(s, a, x, b, c, k);
      case Writing => WriteUndone(s, a, x, b, c, k);
    }
  }

  /** Every rotation in it works, and nothing begins or crashes. */
  lemma {:induction false} UndoingIsQuiet<C>(phase: Phase, a: nat, b: nat)
    ensures forall i :: 0 <= i < |Undoing<C>(phase, a, b)| ==>
              var e := Undoing<C>(phase, a, b)[i].event; e != Rotate(false) && !e.Begin? && !e.Crash?
  {
  }

  /**
   A crash makes it worse: a second save that has only opened the temporary file empties the one the
   first has written, which the first then renames into place and reports as saved. What a load returns
   afterwards is the older configuration in the backup.
   */
  lemma {:induction false} TornSaveIsLost<C(!new)>(s: Shared<C>, a: nat, x: Writer<C>, b: nat, c: C, k: Codec<C>)
    requires Inverse(k) && k.parse([]) == None && Guarded(s, Some((a, x)), k) && x.phase == Phase.Written && b != a
    ensures var t := RunActs(s, [By(b, Begin(c)), By(a, Rotate(true)), By(a, Install(true)), By(b, Crash)], k);
            t.writers == map[] && t.saved == Some(x.config) && Load(DiskOf(t.files), k) == s.saved
  {
    RunFour(s, By(b, Begin(c)), By(a, Rotate(true)), By(a, Install(true)), By(b, Crash), k);
    OpenedDisk(s.files);
    var s1 := Apply(s, By(b, Begin(c)), k);
    assert s1.writers[a] == x;
    var s2 := Apply(s1, By(a, Rotate(true)), k);
    var s3 := Apply(s2, By(a, Install(true)), k);
    assert DiskOf(s3.files).primary == Some([]);
  }
}
