/**
 * Moving sealed EntrySegments to S3 (storage/offloader.rs, with the registry of fjall.rs and the
 * start-up resets of entry_cache.rs), step by step and with process crashes.
 */
module Offload {
  import opened Words
  import opened TieredReads

  /** The offloader's position in `process_pending`. */
  datatype Worker =
    | Resting
    | Uploading(segment: nat)
    | Uploaded(segment: nat)
    | Verified(segment: nat)
    | Switched(segment: nat)

  /** The flush loop's start-up: seal orphaned active segments, then reset stuck uploads, each from a
      list taken at the start of its phase. */
  datatype Startup = SealOrphans(todo: set<nat>) | ResetStuck(todo: set<nat>) | Finished

  /** `indexed`: segments with a location in `entry_index`. `used`: every id ever given to a segment.
      `final`: the bytes of each segment at the moment it was sealed. */
  datatype Tier = Tier(
    registry: map<nat, Meta>,
    files: map<nat, Bytes>,
    objects: map<nat, Bytes>,
    indexed: set<nat>,
    worker: Worker,
    startup: Startup,
    opening: set<nat>,
    nextId: nat,
    used: set<nat>,
    final: map<nat, Bytes>)

  datatype Step =
    | CreateFile
    | RegisterActive(id: nat)
    | Grow(id: nat, bytes: Bytes)
    | Seal(id: nat)
    | Pick(id: nat)
    | Upload(ok: bool)
    | Verify(ok: bool)
    | Switch
    | RemoveFile(removed: bool)
    | Crash
    | SealOrphan(id: nat)
    | ListStuck
    | Reset(id: nat)
    | FinishStartup(next: nat)

  /** `cas_status`. */
  function Cas(registry: map<nat, Meta>, id: nat, expected: Status, new_: Status): map<nat, Meta> {
    if id in registry && registry[id].status == expected
    then registry[id := registry[id].(status := new_)] else registry
  }

  /** `cas_to_s3`; its caller takes a lost race for a success. */
  function CasToS3(registry: map<nat, Meta>, id: nat): map<nat, Meta> {
    if id in registry && registry[id].status == Offloading then registry[id := Meta(S3, false, true)] else registry
  }

  ghost function WithStatus(s: Tier, status: Status): set<nat> {
    set id <- s.registry | s.registry[id].status == status
  }

  /** Recovery registers files the registry does not know, as Local. */
  ghost function Registered(s: Tier): map<nat, Meta> {
    s.registry + map id | id in s.files && id !in s.registry :: Meta(Local, true, false)
  }

  ghost predicate Enabled(s: Tier, step: Step) {
    match step
    case CreateFile => s.startup == Finished
    case RegisterActive(id) => id in s.opening
    case Grow(id, _) => s.startup == Finished && id in s.registry && s.registry[id].status == Active && id in s.files
    case Seal(id) => s.startup == Finished && id in s.registry && s.registry[id].status == Active && id in s.files
    case Pick(id) =>
      s.worker == Resting && id in s.registry && s.registry[id].status == Local && s.registry[id].localPath
    case Upload(ok) => s.worker.Uploading? && (ok ==> s.worker.segment in s.files)
    case Verify(ok) => s.worker.Uploaded? && (ok ==> s.worker.segment in s.objects)
    case Switch => s.worker.Verified?
    case RemoveFile(_) => s.worker.Switched?
    case Crash => true
    case SealOrphan(id) => s.startup.SealOrphans? && id in s.startup.todo
    case ListStuck => s.startup == SealOrphans({})
    case Reset(id) => s.startup.ResetStuck? && id in s.startup.todo
    case FinishStartup(next) =>
      s.startup == ResetStuck({}) && forall id :: id in s.registry || id in s.files ==> id < next
  }

  ghost function Next(s: Tier, step: Step): Tier
    requires Enabled(s, step)
  {
    match step
    case CreateFile =>
      s.(files := s.files[s.nextId := []], opening := s.opening + {s.nextId}, used := s.used + {s.nextId},
         nextId := s.nextId + 1)
    case RegisterActive(id) =>
      s.(registry := s.registry[id := Meta(Active, true, false)], opening := s.opening - {id})
    case Grow(id, bytes) => s.(files := s.files[id := s.files[id] + bytes], indexed := s.indexed + {id})
    case Seal(id) => s.(registry := Cas(s.registry, id, Active, Local), final := s.final[id := s.files[id]])
    case Pick(id) => s.(registry := Cas(s.registry, id, Local, Offloading), worker := Uploading(id))
    case Upload(ok) =>
      var id := s.worker.segment;
      if ok then s.(objects := s.objects[id := s.files[id]], worker := Uploaded(id))
      else s.(registry := Cas(s.registry, id, Offloading, Local), worker := Resting)
    case Verify(ok) =>
      var id := s.worker.segment;
      if ok then s.(worker := Verified(id))
      else s.(registry := Cas(s.registry, id, Offloading, Local), worker := Resting)
    case Switch => s.(registry := CasToS3(s.registry, s.worker.segment), worker := Switched(s.worker.segment))
    case RemoveFile(removed) =>
      s.(files := if removed then s.files - {s.worker.segment} else s.files, worker := Resting)
    case Crash =>
      var registry := Registered(s);
      s.(registry := registry, worker := Resting, opening := {},
         startup := SealOrphans(set id <- registry | registry[id].status == Active),
         final := s.final
           + map id | id in s.files && (id !in s.registry || s.registry[id].status == Active) :: s.files[id])
    case SealOrphan(id) =>
      s.(registry := Cas(s.registry, id, Active, Local), startup := SealOrphans(s.startup.todo - {id}))
    case ListStuck => s.(startup := ResetStuck(WithStatus(s, Offloading)))
    case Reset(id) =>
      s.(registry := Cas(s.registry, id, Offloading, Local), startup := ResetStuck(s.startup.todo - {id}))
    case FinishStartup(next) => s.(startup := Finished, nextId := next)
  }

  /** The segment can be read, with the bytes it was sealed with: from its local file, or from S3. */
  ghost predicate Available(s: Tier, id: nat) {
    id in s.registry &&
    match s.registry[id].status
    case Active => s.registry[id].localPath && id in s.files
    case S3 => s.registry[id].s3Key && id in s.objects && id in s.final && s.objects[id] == s.final[id]
    case Deleted => false
    case _ => s.registry[id].localPath && id in s.files && id in s.final && s.files[id] == s.final[id]
  }

  /** No reset that is still to come can hit the segment: the start-up has finished, or the list of
      stuck uploads has been taken and does not name it. */
  ghost predicate Settled(s: Tier, id: nat) {
    s.startup == Finished || (s.startup.ResetStuck? && id !in s.startup.todo)
  }

  ghost predicate WorkerOk(s: Tier) {
    match s.worker
    case Resting => true
    case Uploading(id) => Settled(s, id) && id in s.registry && s.registry[id].status == Offloading
    case Switched(id) => id in s.registry && s.registry[id].status == S3 && !s.startup.SealOrphans?
    case _ =>
      var id := s.worker.segment;
      && Settled(s, id) && id in s.registry && s.registry[id].status == Offloading
      && id in s.objects && id in s.files && s.objects[id] == s.files[id]
  }

  /** During start-up nothing writes to an orphaned active segment. */
  ghost predicate OrphansFinal(s: Tier) {
    && s.opening == {}
    && forall id <- s.registry :: s.registry[id].status == Active ==> Unchanged(s, id)
  }

  ghost predicate Unchanged(s: Tier, id: nat) {
    id in s.files && id in s.final && s.files[id] == s.final[id]
  }

  ghost predicate AllAvailable(s: Tier) {
    forall id <- s.registry :: Available(s, id)
  }

  ghost predicate IdsOk(s: Tier) {
    && s.indexed <= s.registry.Keys
    && s.used <= s.registry.Keys + s.files.Keys
    && (forall id <- s.opening :: id in s.files && id !in s.registry)
    && (s.startup == Finished ==> forall id :: id in s.registry || id in s.files || id in s.used ==> id < s.nextId)
  }

  ghost predicate Inv(s: Tier) {
    && IdsOk(s)
    && AllAvailable(s)
    && WorkerOk(s)
    && (s.startup != Finished ==> OrphansFinal(s))
  }

  /** The offloader takes up no segment that a start-up reset may still hit. */
  ghost predicate Orderly(s: Tier, step: Step) {
    step.Pick? ==> Settled(s, step.id)
  }

  lemma FlushKeeps(s: Tier, step: Step)
    requires Inv(s) && Enabled(s, step)
    requires step.CreateFile? || step.RegisterActive? || step.Grow? || step.Seal?
    ensures Inv(Next(s, step))
  {
    var t := Next(s, step);
    forall id | id in t.registry ensures Available(t, id) {
      if id in s.registry {
        assert Available(s, id);
      }
    }
  }

  lemma UploadKeeps(s: Tier, step: Step)
    requires Inv(s) && Enabled(s, step)
    requires step.Upload? || step.Verify?
    ensures Inv(Next(s, step))
  {
    var t := Next(s, step);
    assert t.registry.Keys == s.registry.Keys;
    forall id | id in t.registry ensures Available(t, id) {
      assert Available(s, id);
    }
  }

  lemma WorkerKeeps(s: Tier, step: Step)
    requires Inv(s) && Enabled(s, step) && Orderly(s, step)
    requires step.Pick? || step.Switch? || step.RemoveFile?
    ensures Inv(Next(s, step))
  {
    var t := Next(s, step);
    assert t.registry.Keys == s.registry.Keys;
    forall id | id in t.registry ensures Available(t, id) {
      assert Available(s, id);
    }
  }

  lemma CrashKeeps(s: Tier)
    requires Inv(s)
    ensures Inv(Next(s, Crash))
  {
    var t := Next(s, Crash);
    forall id | id in t.registry ensures Available(t, id) {
      if id in s.registry {
        assert Available(s, id);
      }
    }
    forall id | id in t.registry && t.registry[id].status == Active ensures Unchanged(t, id) {
      assert Available(s, id);
    }
  }

  lemma SealOrphanKeeps(s: Tier, id: nat)
    requires Inv(s) && Enabled(s, SealOrphan(id))
    ensures Inv(Next(s, SealOrphan(id)))
  {
    var t := Next(s, SealOrphan(id));
    assert t.registry.Keys == s.registry.Keys;
    forall other | other in t.registry ensures Available(t, other) {
      assert Available(s, other);
    }
  }

  lemma ResetKeeps(s: Tier, id: nat)
    requires Inv(s) && Enabled(s, Reset(id))
    ensures Inv(Next(s, Reset(id)))
  {
    var t := Next(s, Reset(id));
    assert t.registry.Keys == s.registry.Keys;
    forall other | other in t.registry ensures Available(t, other) {
      assert Available(s, other);
    }
  }

  lemma PhaseKeeps(s: Tier, step: Step)
    requires Inv(s) && Enabled(s, step)
    requires step.ListStuck? || step.FinishStartup?
    ensures Inv(Next(s, step))
  {
    var t := Next(s, step);
    forall id | id in t.registry ensures Available(t, id) {
      assert Available(s, id);
    }
  }

  /** Every step keeps each registered segment available: upload, verification, registry switch,
      deletion, rollback, crash and start-up. */
  lemma StepKeeps(s: Tier, step: Step)
    requires Inv(s) && Enabled(s, step) && Orderly(s, step)
    ensures Inv(Next(s, step))
  {
    hide Inv, Enabled, Next;
    match step
    case CreateFile => FlushKeeps(s, step);
    case RegisterActive(_) => FlushKeeps(s, step);
    case Grow(_, _) => FlushKeeps(s, step);
    case Seal(_) => FlushKeeps(s, step);
    case Crash => CrashKeeps(s);
    case SealOrphan(id) => SealOrphanKeeps(s, id);
    case ListStuck => PhaseKeeps(s, step);
    case Reset(id) => ResetKeeps(s, id);
    case FinishStartup(_) => PhaseKeeps(s, step);
    case Upload(_) => UploadKeeps(s, step);
    case Verify(_) => UploadKeeps(s, step);
    case _ => WorkerKeeps(s, step);
  }

  /** A segment id is never given out twice. */
  lemma IdsAreFresh(s: Tier)
    requires Inv(s) && Enabled(s, CreateFile)
    ensures s.nextId !in s.used
    ensures Next(s, CreateFile).used == s.used + {s.nextId}
  {
  }

  ghost predicate IsRun(states: seq<Tier>, steps: seq<Step>) {
    && |states| == |steps| + 1
    && forall i :: 0 <= i < |steps| ==>
         Enabled(states[i], steps[i]) && Orderly(states[i], steps[i]) && states[i + 1] == Next(states[i], steps[i])
  }

  const EMPTY := Tier(map[], map[], map[], {}, Resting, Finished, {}, 0, {}, map[])

  /** Offload availability: in every state of every orderly run, whatever uploads fail and wherever the
      process crashes, each segment that `entry_index` points into can be read, with the bytes it was
      sealed with, from a local file or from S3. */
  lemma {:induction false} IndexedSegmentsAvailable(states: seq<Tier>, steps: seq<Step>, i: nat)
    requires IsRun(states, steps) && states[0] == EMPTY && i < |states|
    ensures Inv(states[i])
    ensures forall id <- states[i].indexed :: Available(states[i], id)
  {
    hide Enabled, Next, Available, WorkerOk;
    if i == 0 {
      assert WorkerOk(EMPTY) by { EmptyOk(); }
    } else {
      IndexedSegmentsAvailable(states, steps, i - 1);
      StepKeeps(states[i - 1], steps[i - 1]);
    }
  }

  lemma EmptyOk()
    ensures WorkerOk(EMPTY)
  {
  }

  // ── No segment stays behind ───────────────────────────────────────────────

  /** The offloader has the segment in its hands. */
  predicate Working(w: Worker, id: nat) {
    (w.Uploading? || w.Uploaded? || w.Verified?) && w.segment == id
  }

  /** A segment marked as being offloaded is in the offloader's hands, or on the list of those that start-up
      will reset. */
  ghost predicate Accounted(startup: Startup, w: Worker, id: nat) {
    startup.SealOrphans? || (startup.ResetStuck? && id in startup.todo) || Working(w, id)
  }

  ghost predicate NoneStuck(s: Tier) {
    forall id <- s.registry :: s.registry[id].status == Offloading ==> Accounted(s.startup, s.worker, id)
  }

  lemma NoneStuckStep(s: Tier, step: Step)
    requires Inv(s) && NoneStuck(s) && Enabled(s, step)
    ensures NoneStuck(Next(s, step))
  {
    hide IdsOk, AllAvailable, OrphansFinal;
    match step
    case Upload(_) =>
    case Verify(_) =>
    case Pick(_) =>
    case Reset(_) =>
    case _ =>
  }

  /** Whatever uploads and verifications fail and wherever the process crashes: once start-up is done and the
      offloader rests, every segment is still active, or in S3, or local and ready to be taken up again. */
  lemma {:induction false} FailedUploadsAreRetried(states: seq<Tier>, steps: seq<Step>, i: nat)
    requires IsRun(states, steps) && states[0] == EMPTY && i < |states|
    ensures NoneStuck(states[i])
    ensures states[i].startup == Finished && states[i].worker == Resting ==>
              forall id <- states[i].registry ::
                || states[i].registry[id].status in {Active, S3}
                || (states[i].registry[id].status == Local && Enabled(states[i], Pick(id)))
  {
    IndexedSegmentsAvailable(states, steps, i);
    if i > 0 {
      hide Inv, Enabled, Next;
      FailedUploadsAreRetried(states, steps, i - 1);
      IndexedSegmentsAvailable(states, steps, i - 1);
      NoneStuckStep(states[i - 1], steps[i - 1]);
    }
    RestingReady(states[i]);
  }

  lemma RestingReady(s: Tier)
    requires Inv(s) && NoneStuck(s)
    ensures s.startup == Finished && s.worker == Resting ==>
              forall id <- s.registry ::
                || s.registry[id].status in {Active, S3}
                || (s.registry[id].status == Local && Enabled(s, Pick(id)))
  {
    hide IdsOk;
    forall id | id in s.registry ensures Available(s, id) {
    }
  }

  // ── The race with start-up ────────────────────────────────────────────────

  ghost predicate Follows(s: Tier, steps: seq<Step>)
    decreases steps
  {
    steps == [] || (Enabled(s, steps[0]) && Follows(Next(s, steps[0]), steps[1..]))
  }

  ghost function After(s: Tier, steps: seq<Step>): Tier
    requires Follows(s, steps)
    decreases steps
  {
    if steps == [] then s else After(Next(s, steps[0]), steps[1..])
  }

  /** Some continuation, in which the offloader takes up no further segment, makes the segment unreadable. */
  ghost predicate Doomed(s: Tier, id: nat) {
    exists steps :: Loses(s, steps, id)
  }

  ghost predicate Loses(s: Tier, steps: seq<Step>, id: nat) {
    Follows(s, steps) && (forall step <- steps :: !step.Pick?) && !Available(After(s, steps), id)
  }

  lemma DoomedBefore(s: Tier, step: Step, id: nat)
    requires Enabled(s, step) && !step.Pick? && Doomed(Next(s, step), id)
    ensures Doomed(s, id)
  {
    hide Enabled, Next, Available;
    var rest :| Loses(Next(s, step), rest, id);
    var steps := [step] + rest;
    assert steps[1..] == rest;
    assert Loses(s, steps, id);
  }

  /** A Local segment whose upload is still in the offloader's hands: the upload finishes, the lost
      registry switch goes unnoticed and the only local copy is removed. */
  lemma DoomedUpload(s: Tier, id: nat)
    requires s.worker == Uploading(id) && id in s.registry && s.registry[id].status == Local && id in s.files
    ensures Doomed(s, id)
  {
    hide Available, Doomed;
    var s1 := Next(s, Upload(true));
    var s2 := Next(s1, Verify(true));
    DoomedSwitch(s2, id);
    DoomedBefore(s1, Verify(true), id);
    DoomedBefore(s, Upload(true), id);
  }

  lemma DoomedSwitch(s: Tier, id: nat)
    requires s.worker == Verified(id) && id in s.registry && s.registry[id].status == Local
    ensures Doomed(s, id)
  {
    var s1 := Next(s, Switch);
    var s2 := Next(s1, RemoveFile(true));
    assert !Available(s2, id);
    assert Loses(s2, [], id);
    hide Available, Doomed, Loses;
    assert Doomed(s2, id) by { DoomedNow(s2, id); }
    DoomedBefore(s1, RemoveFile(true), id);
    DoomedBefore(s, Switch, id);
  }

  lemma DoomedNow(s: Tier, id: nat)
    requires !Available(s, id)
    ensures Doomed(s, id)
  {
    hide Available;
    assert Loses(s, [], id);
  }

  lemma DoomedReset(s: Tier, id: nat)
    requires s.worker == Uploading(id) && id in s.registry && s.registry[id].status == Offloading && id in s.files
    requires s.startup.ResetStuck? && id in s.startup.todo
    ensures Doomed(s, id)
  {
    hide Available, Doomed;
    DoomedUpload(Next(s, Reset(id)), id);
    DoomedBefore(s, Reset(id), id);
  }

  lemma {:induction false} DoomedOrphans(s: Tier, id: nat, todo: set<nat>)
    requires s.worker == Uploading(id) && id in s.registry && s.registry[id].status == Offloading && id in s.files
    requires s.startup == SealOrphans(todo)
    ensures Doomed(s, id)
    decreases |todo|
  {
    hide Available, Doomed;
    if todo == {} {
      DoomedReset(Next(s, ListStuck), id);
      DoomedBefore(s, ListStuck, id);
    } else {
      var orphan :| orphan in todo;
      DoomedOrphans(Next(s, SealOrphan(orphan)), id, todo - {orphan});
      DoomedBefore(s, SealOrphan(orphan), id);
    }
  }

  /** From a good state no continuation without a further pick makes a registered segment unreadable. */
  lemma {:induction false} NeverLoses(s: Tier, steps: seq<Step>, id: nat)
    requires Inv(s) && id in s.registry && Follows(s, steps) && forall step <- steps :: !step.Pick?
    ensures Available(After(s, steps), id)
    decreases steps
  {
    hide Available, Next, Enabled;
    if steps != [] {
      hide Inv;
      assert !steps[0].Pick?;
      StepKeeps(s, steps[0]);
      RegistryGrows(s, steps[0]);
      NeverLoses(Next(s, steps[0]), steps[1..], id);
    }
  }

  lemma RegistryGrows(s: Tier, step: Step)
    requires Enabled(s, step)
    ensures s.registry.Keys <= Next(s, step).registry.Keys
  {
  }

  /** Exactly the settled segments are safe to take up: taking up any other one lets the start-up
      reset return it to Local under the upload, and then its last copy is removed. */
  lemma PickSafeIff(s: Tier, id: nat)
    requires Inv(s) && Enabled(s, Pick(id))
    ensures Settled(s, id) ==> Inv(Next(s, Pick(id)))
    ensures Doomed(Next(s, Pick(id)), id) <==> !Settled(s, id)
  {
    var t := Next(s, Pick(id));
    assert Available(s, id);
    hide Available, Inv, Doomed, Follows;
    if Settled(s, id) {
      WorkerKeeps(s, Pick(id));
      NotDoomed(t, id);
    } else if s.startup.SealOrphans? {
      DoomedOrphans(t, id, s.startup.todo);
    } else {
      DoomedReset(t, id);
    }
  }

  lemma NotDoomed(s: Tier, id: nat)
    requires Inv(s) && id in s.registry
    ensures !Doomed(s, id)
  {
    hide Available, Inv, Follows;
    if Doomed(s, id) {
      var steps :| Loses(s, steps, id);
      NeverLoses(s, steps, id);
    }
  }

  lemma RunMore(states: seq<Tier>, steps: seq<Step>, step: Step)
    requires IsRun(states, steps) && Enabled(states[|steps|], step) && Orderly(states[|steps|], step)
    ensures IsRun(states + [Next(states[|steps|], step)], steps + [step])
  {
    hide Enabled, Next, Orderly;
  }

  /** The race is reached from an empty node: one segment is written and sealed, the process crashes, and
      the offloader takes the segment up before the start-up has listed the stuck uploads. */
  lemma EarlyPickIsReached(bytes: Bytes) returns (states: seq<Tier>, steps: seq<Step>)
    ensures IsRun(states, steps) && states[0] == EMPTY
    ensures var s := states[|steps|];
            0 in s.indexed && Enabled(s, Pick(0)) && !Settled(s, 0) && Doomed(Next(s, Pick(0)), 0)
  {
    hide IsRun, Doomed, Inv, Available, Settled;
    states, steps := OneActive(bytes);
    SealedThenCrashed(states[3]);
    var sealed := Next(states[3], Seal(0));
    hide Next, Enabled;
    states, steps := Then(states, steps, Seal(0));
    states, steps := Then(states, steps, Crash);
    IndexedSegmentsAvailable(states, steps, 5);
    PickSafeIff(Next(sealed, Crash), 0);
  }

  lemma SealedThenCrashed(s: Tier)
    requires s.startup == Finished && s.registry == map[0 := Meta(Active, true, false)] && 0 in s.files
    requires s.indexed == {0} && s.worker == Resting
    ensures Enabled(s, Seal(0)) && Orderly(s, Seal(0))
    ensures var sealed := Next(s, Seal(0));
            && Enabled(sealed, Crash) && Orderly(sealed, Crash)
            && var t := Next(sealed, Crash);
            0 in t.indexed && Enabled(t, Pick(0)) && !Settled(t, 0)
  {
  }

  lemma OneActive(bytes: Bytes) returns (states: seq<Tier>, steps: seq<Step>)
    ensures IsRun(states, steps) && |states| == 4 && |steps| == 3 && states[0] == EMPTY
    ensures var s := states[3];
            && s.startup == Finished && s.registry == map[0 := Meta(Active, true, false)] && 0 in s.files
            && s.indexed == {0} && s.worker == Resting
  {
    hide IsRun, Orderly;
    states, steps := [EMPTY], [];
    assert IsRun(states, steps) by { RunStart(); }
    assert forall s, step: Step :: !step.Pick? ==> Orderly(s, step) by { OnlyPicksRush(); }
    states, steps := Then(states, steps, CreateFile);
    states, steps := Then(states, steps, RegisterActive(0));
    states, steps := Then(states, steps, Grow(0, bytes));
  }

  lemma OnlyPicksRush()
    ensures forall s, step: Step :: !step.Pick? ==> Orderly(s, step)
  {
  }

  lemma RunStart()
    ensures IsRun([EMPTY], [])
  {
  }

  lemma Then(states: seq<Tier>, steps: seq<Step>, step: Step) returns (more: seq<Tier>, longer: seq<Step>)
    requires IsRun(states, steps) && |states| == |steps| + 1
    requires Enabled(states[|steps|], step) && Orderly(states[|steps|], step)
    ensures IsRun(more, longer) && |more| == |longer| + 1 && |longer| == |steps| + 1
    ensures more[0] == states[0] && more[|longer|] == Next(states[|steps|], step)
  {
    hide Enabled, Next, Orderly;
    RunMore(states, steps, step);
    more, longer := states + [Next(states[|steps|], step)], steps + [step];
  }
}
