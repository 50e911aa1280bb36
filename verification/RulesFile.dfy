/**
 Saving and loading rules.json in internal/services/rules.go, with a crash between any two file
 operations or inside the temporary write, and with every operation allowed to fail.

 Saves run one at a time here; RulesWriters lets them overlap.

 A configuration is rendered and parsed by parameters of which only `parse(render(c)) == c` is assumed.
 A rename replaces its target atomically, and what was written is there after a crash.
 */
module RulesFile {
  import opened Bytes

  /** The three files: `.rules.json.tmp`, `rules.json` and `rules.json.bak`. */
  datatype Disk = Disk(temp: Option<Octets>, primary: Option<Octets>, backup: Option<Octets>)

  /** Where a save has got to. */
  datatype Phase = Idle | Writing | Written | Rotated | Installed | InstallFailed

  /** The disk, the save in progress with its bytes, and the configuration saved last, if any. */
  datatype State<C> = State(disk: Disk, phase: Phase, saving: Option<C>, bytes: Octets, last: Option<C>)

  datatype Codec<!C> = Codec(render: C -> Octets, parse: Octets -> Option<C>)

  ghost predicate Inverse<C(!new)>(k: Codec<C>) {
    forall c :: k.parse(k.render(c)) == Some(c)
  }

  datatype Event<C> =
    | Begin(config: C)
    | WritePart(n: nat)
    | WriteFails
    | WriteDone
    | Rotate(ok: bool)
    | Install(ok: bool)
    | Restore(ok: bool)
    | Return
    | Crash

  // ---------------------------------------------------------------- the save, step by step

  function Settle<C>(s: State<C>): State<C> {
    s.(phase := Idle, saving := None, bytes := [])
  }

  function DoRotate(d: Disk, ok: bool): Disk {
    if d.primary.Some? && ok then d.(backup := d.primary, primary := None) else d
  }

  function DoInstall(d: Disk): Disk {
    d.(primary := d.temp, temp := None)
  }

  function DoRestore(d: Disk, ok: bool): Disk {
    if d.backup.Some? && ok then d.(primary := d.backup, backup := None) else d
  }

  /** One file operation of a save, its return, or a crash. An event out of turn changes nothing. */
  function Step<C>(s: State<C>, e: Event<C>, k: Codec<C>): State<C> {
    match e
    case Begin(c) =>
      if s.phase != Idle then s
      else s.(disk := s.disk.(temp := Some([])), phase := Writing, saving := Some(c), bytes := k.render(c))
    case WritePart(n) =>
      if s.phase != Writing || n > |s.bytes| then s else s.(disk := s.disk.(temp := Some(s.bytes[..n])))
    case WriteFails => if s.phase != Writing then s else Settle(s)
    case WriteDone =>
      if s.phase != Writing then s else s.(disk := s.disk.(temp := Some(s.bytes)), phase := Written)
    case Rotate(ok) =>
      if s.phase != Written then s else s.(disk := DoRotate(s.disk, ok), phase := Rotated)
    case Install(ok) =>
      if s.phase != Rotated then s
      else if ok then s.(disk := DoInstall(s.disk), phase := Installed)
      else s.(phase := InstallFailed)
    case Restore(ok) =>
      if s.phase != InstallFailed then s else Settle(s.(disk := DoRestore(s.disk, ok)))
    case Return => if s.phase != Installed then s else Settle(s.(last := s.saving))
    case Crash => Settle(if s.phase == Installed then s.(last := s.saving) else s)
  }

  function Run<C>(s: State<C>, es: seq<Event<C>>, k: Codec<C>): State<C>
    decreases |es|
  {
    if es == [] then s else Run(Step(s, es[0], k), es[1..], k)
  }

  /** `loadRulesFile`: rules.json, or the backup when it is missing or does not parse. */
  function Load<C>(d: Disk, k: Codec<C>): Option<C> {
    if d.primary.Some? && k.parse(d.primary.value).Some? then k.parse(d.primary.value)
    else if d.backup.Some? then k.parse(d.backup.value)
    else None
  }

  // ---------------------------------------------------------------- what survives

  /** No unreadable rules.json has a readable backup behind it. */
  predicate Sound<C>(d: Disk, k: Codec<C>) {
    d.primary.Some? && k.parse(d.primary.value) == None && d.backup.Some? ==> k.parse(d.backup.value) == None
  }

  /** A load returns what was saved last or, once its rename happened, what is being saved. */
  predicate Kept<C(==)>(s: State<C>, k: Codec<C>) {
    Load(s.disk, k) == s.last || (s.phase == Installed && Load(s.disk, k) == s.saving && s.saving.Some?)
  }

  /** A new start: nothing in progress, and what a load returns counts as saved last. */
  ghost predicate Started<C>(s: State<C>, k: Codec<C>) {
    s.phase == Idle && s.saving == None && Sound(s.disk, k) && s.last == Load(s.disk, k)
  }

  ghost predicate Inv<C>(s: State<C>, k: Codec<C>) {
    && Sound(s.disk, k)
    && (s.phase == Idle <==> s.saving == None)
    && (s.saving.Some? ==> s.bytes == k.render(s.saving.value))
    && (s.phase == Written || s.phase == Rotated || s.phase == InstallFailed ==> s.disk.temp == Some(s.bytes))
    && Load(s.disk, k) == if s.phase == Installed then s.saving else s.last
  }

  /**
   The one step that can bring back an older configuration: after the rotation failed and left
   rules.json in place, and the final rename failed too, restoring puts an older backup over it.
   */
  predicate Hazard<C>(s: State<C>, e: Event<C>) {
    s.phase == InstallFailed && e == Restore(true) && s.disk.primary.Some? && s.disk.backup.Some?
  }

  lemma {:induction false} StepKeepsInv<C(!new)>(s: State<C>, e: Event<C>, k: Codec<C>)
    requires Inverse(k) && Inv(s, k) && !Hazard(s, e)
    ensures Inv(Step(s, e, k), k)
  {
    if e.Begin? {
      assert k.parse(k.render(e.config)) == Some(e.config);
    } else if s.saving.Some? {
      assert k.parse(k.render(s.saving.value)) == s.saving;
    }
  }

  /** At the hazard the invariant survives if and only if the backup reads as what was saved last. */
  lemma {:induction false} HazardExactly<C(!new)>(s: State<C>, e: Event<C>, k: Codec<C>)
    requires Inverse(k) && Inv(s, k) && Hazard(s, e)
    ensures Load(Step(s, e, k).disk, k) == k.parse(s.disk.backup.value)
    ensures Inv(Step(s, e, k), k) <==> k.parse(s.disk.backup.value) == s.last
  {
  }

  predicate HazardFree<C>(s: State<C>, es: seq<Event<C>>, k: Codec<C>)
    decreases |es|
  {
    es == [] || (!Hazard(s, es[0]) && HazardFree(Step(s, es[0], k), es[1..], k))
  }

  lemma {:induction false} RunKeepsInv<C(!new)>(s: State<C>, es: seq<Event<C>>, k: Codec<C>)
    requires Inverse(k) && Inv(s, k) && HazardFree(s, es, k)
    ensures Inv(Run(s, es, k), k)
    decreases |es|
  {
    if es != [] {
      StepKeepsInv(s, es[0], k);
      RunKeepsInv(Step(s, es[0], k), es[1..], k);
    }
  }

  /**
   Over any run of saves, crashes and failures without the hazard, a load at any moment returns the
   configuration saved last or, once its rename happened, the one being saved; never a torn one.
   */
  lemma {:induction false} LoadReturnsLastOrNew<C(!new)>(s: State<C>, es: seq<Event<C>>, k: Codec<C>)
    requires Inverse(k) && Started(s, k) && HazardFree(s, es, k)
    ensures Kept(Run(s, es, k), k)
  {
    RunKeepsInv(s, es, k);
  }

  // ---------------------------------------------------------------- when the rotation works

  predicate RotationsWork<C>(es: seq<Event<C>>) {
    forall i :: 0 <= i < |es| ==> es[i] != Rotate(false)
  }

  /** Past the rotation there is no rules.json. */
  predicate RotatedAway<C>(s: State<C>) {
    s.phase == Rotated || s.phase == InstallFailed ==> s.disk.primary == None
  }

  lemma {:induction false} WorkingRotationsAvoidHazard<C>(s: State<C>, es: seq<Event<C>>, k: Codec<C>)
    requires RotatedAway(s) && RotationsWork(es)
    ensures HazardFree(s, es, k)
    decreases |es|
  {
    if es != [] {
      assert es[0] != Rotate(false);
      assert forall i :: 0 <= i < |es| - 1 ==> es[1..][i] == es[i + 1];
      WorkingRotationsAvoidHazard(Step(s, es[0], k), es[1..], k);
    }
  }

  /**
   If the rotation succeeds whenever rules.json exists, every run is safe: temporary writes torn,
   final renames and restores failing, and crashes anywhere notwithstanding.
   */
  lemma {:induction false} CrashSafe<C(!new)>(s: State<C>, es: seq<Event<C>>, k: Codec<C>)
    requires Inverse(k) && Started(s, k) && RotationsWork(es)
    ensures Kept(Run(s, es, k), k)
  {
    WorkingRotationsAvoidHazard(s, es, k);
    LoadReturnsLastOrNew(s, es, k);
  }

  // ---------------------------------------------------------------- what does not

  /** Unrolls a run by one event. */
  lemma {:induction false} RunFirst<C>(s: State<C>, e: Event<C>, es: seq<Event<C>>, k: Codec<C>)
    ensures Run(s, [e] + es, k) == Run(Step(s, e, k), es, k)
  {
    assert ([e] + es)[1..] == es;
  }

  /**
   With `b` in rules.json and an older `a` in the backup, a save whose rotation and final rename both
   fail puts `a` back: the configuration saved last is lost.
   */
  lemma {:induction false} FailedRotationCanRestoreOlder<C(!new)>(a: C, b: C, c: C, k: Codec<C>)
    requires Inverse(k)
    ensures var s := State(Disk(None, Some(k.render(b)), Some(k.render(a))), Idle, None, [], Some(b));
            Started(s, k) &&
            Load(Run(s, [Begin(c), WriteDone, Rotate(false), Install(false), Restore(true)], k).disk, k) == Some(a)
  {
    var s := State(Disk(None, Some(k.render(b)), Some(k.render(a))), Idle, None, [], Some(b));
    assert k.parse(k.render(a)) == Some(a) && k.parse(k.render(b)) == Some(b);
    var s1 := Step(s, Begin(c), k);
    var s2 := Step(s1, WriteDone, k);
    var s3 := Step(s2, Rotate(false), k);
    var s4 := Step(s3, Install(false), k);
    var s5 := Step(s4, Restore(true), k);
    RunFirst(s4, Restore(true), [], k);
    RunFirst(s3, Install(false), [Restore(true)], k);
    RunFirst(s2, Rotate(false), [Install(false), Restore(true)], k);
    RunFirst(s1, WriteDone, [Rotate(false), Install(false), Restore(true)], k);
    RunFirst(s, Begin(c), [WriteDone, Rotate(false), Install(false), Restore(true)], k);
  }

  /**
   A rules.json that cannot be read is rotated over the backup like any other, so from every disk that
   is not sound, whose load falls back to the backup, a crash after the rotation leaves nothing to load.
   */
  lemma {:induction false} UnsoundDiskLosesBackup<C>(d: Disk, k: Codec<C>)
    requires !Sound(d, k)
    ensures Load(d, k).Some? && Load(DoRotate(d, true), k) == None
  {
  }

  /** A start from the disk `d`: what a load returns counts as saved last. */
  function StartOf<C>(d: Disk, k: Codec<C>): State<C> {
    State(d, Idle, None, [], Load(d, k))
  }

  /**
   From a given disk every run with working rotations is safe if and only if no unreadable rules.json
   on it has a readable backup.
   */
  lemma {:induction false} SafeExactlyFromSound<C(!new)>(d: Disk, c: C, k: Codec<C>)
    requires Inverse(k)
    ensures (forall es :: RotationsWork(es) ==> Kept(Run(StartOf(d, k), es, k), k)) <==> Sound(d, k)
  {
    var s := StartOf(d, k);
    if Sound(d, k) {
      forall es | RotationsWork(es)
        ensures Kept(Run(s, es, k), k)
      {
        CrashSafe(s, es, k);
      }
    } else {
      var es: seq<Event<C>> := [Begin(c), WriteDone, Rotate(true)];
      UnsoundDiskLosesBackup(d, k);
      RunFirst(s, Begin(c), [WriteDone, Rotate(true)], k);
      var s1 := Step(s, Begin(c), k);
      RunFirst(s1, WriteDone, [Rotate(true)], k);
      RunFirst(Step(s1, WriteDone, k), Rotate(true), [], k);
      assert RotationsWork(es) && !Kept(Run(s, es, k), k);
    }
  }

  // ---------------------------------------------------------------- the code

  /** Between saves, on the disk `d`. */
  function Saving<C>(d: Disk, last: Option<C>): State<C> {
    State(d, Idle, None, [], last)
  }

  /** The events of one save that returns, by the outcome of its file operations. */
  function SaveEvents<C>(config: C, part: bool, written: nat, rotates: bool, installs: bool, restores: bool): seq<Event<C>> {
    if part then [Begin(config), WritePart(written), WriteFails]
    else [Begin(config), WriteDone, Rotate(rotates)] + Finish(installs, restores)
  }

  function Finish<C>(installs: bool, restores: bool): seq<Event<C>> {
    if installs then [Install(true), Return] else [Install(false), Restore(restores)]
  }

  lemma {:induction false} RunTwo<C>(s: State<C>, e: Event<C>, f: Event<C>, k: Codec<C>)
    ensures Run(s, [e, f], k) == Step(Step(s, e, k), f, k)
  {
    RunFirst(Step(s, e, k), f, [], k);
    RunFirst(s, e, [f], k);
  }

  lemma {:induction false} RunThree<C>(s: State<C>, a: Event<C>, b: Event<C>, c: Event<C>, es: seq<Event<C>>, k: Codec<C>)
    ensures Run(s, [a, b, c] + es, k) == Run(Step(Step(Step(s, a, k), b, k), c, k), es, k)
  {
    RunFirst(Step(Step(s, a, k), b, k), c, es, k);
    RunFirst(Step(s, a, k), b, [c] + es, k);
    RunFirst(s, a, [b] + ([c] + es), k);
    assert [a, b, c] + es == [a] + ([b] + ([c] + es));
  }

  lemma {:induction false} CutSaveRuns<C>(
    d: Disk, config: C, written: nat, rotates: bool, installs: bool, restores: bool, k: Codec<C>)
    requires written < |k.render(config)|
    ensures Run(Saving(d, None), SaveEvents(config, true, written, rotates, installs, restores), k).disk
         == d.(temp := Some(k.render(config)[..written]))
  {
    var es: seq<Event<C>> := [Begin(config), WritePart(written), WriteFails];
    RunThree(Saving(d, None), Begin(config), WritePart(written), WriteFails, [], k);
    assert es + [] == es;
  }

  lemma {:induction false} WholeSaveRuns<C>(
    d: Disk, config: C, written: nat, rotates: bool, installs: bool, restores: bool, k: Codec<C>)
    ensures var rotated := DoRotate(d.(temp := Some(k.render(config))), rotates);
            Run(Saving(d, None), SaveEvents(config, false, written, rotates, installs, restores), k).disk
            == if installs then DoInstall(rotated) else DoRestore(rotated, restores)
  {
    var s: State<C> := Saving(d, None);
    var s3 := Step(Step(Step(s, Begin(config), k), WriteDone, k), Rotate(rotates), k);
    RunThree(s, Begin(config), WriteDone, Rotate(rotates), Finish(installs, restores), k);
    if installs {
      RunTwo(s3, Install(true), Return, k);
    } else {
      RunTwo(s3, Install(false), Restore(restores), k);
    }
  }

  /** The directory the rules are kept in. */
  class RulesDir<C> {
    const codec: Codec<C>
    var temp: Option<Octets>
    var primary: Option<Octets>
    var backup: Option<Octets>

    ghost function View(): Disk
      reads this
    {
      Disk(temp, primary, backup)
    }

    constructor (codec: Codec<C>)
      ensures this.codec == codec && View() == Disk(None, None, None)
    {
      this.codec := codec;
      temp, primary, backup := None, None, None;
    }

    /**
     `atomicWriteRulesFile`, with the outcome of each file operation: how much of the temporary file
     was written before an error, and whether each rename succeeded.
     */
    method AtomicWriteRulesFile(config: C, written: nat, rotates: bool, installs: bool, restores: bool) returns (ok: bool)
      modifies this
      ensures var part := written < |codec.render(config)|;
              && ok == (!part && installs)
              && View() == Run(Saving(old(View()), None), SaveEvents(config, part, written, rotates, installs, restores), codec).disk
      ensures var data := codec.render(config);
              var rotated := old(primary).Some? && rotates;
              var left, saved := if rotated then None else old(primary), if rotated then old(primary) else old(backup);
              if written < |data| then
                !ok && temp == Some(data[..written]) && primary == old(primary) && backup == old(backup)
              else if installs then
                ok && temp == None && primary == Some(data) && backup == saved
              else
                && !ok && temp == Some(data)
                && if saved.Some? && restores then primary == saved && backup == None
                   else primary == left && backup == saved
    {
      var data := codec.render(config);
      if written < |data| {
        CutSaveRuns(View(), config, written, rotates, installs, restores, codec);
        temp := Some(data[..written]);
        return false;
      }
      WholeSaveRuns(View(), config, written, rotates, installs, restores, codec);
      temp := Some(data);
      if primary.Some? && rotates {
        backup, primary := primary, None;
      }
      if !installs {
        if backup.Some? && restores {
          primary, backup := backup, None;
        }
        return false;
      }
      primary, temp := temp, None;
      return true;
    }

    method LoadRulesFile() returns (config: Option<C>)
      ensures config == Load(View(), codec)
      ensures primary.Some? && codec.parse(primary.value).Some? ==> config == codec.parse(primary.value)
      ensures primary == None || codec.parse(primary.value) == None ==>
                config == if backup.Some? then codec.parse(backup.value) else None
    {
      var data := primary;
      if data == None {
        data := backup;
        if data == None {
          return None;
        }
      }
      config := codec.parse(data.value);
      if config == None {
        if backup == None {
          return None;
        }
        config := codec.parse(backup.value);
      }
    }
  }
}
