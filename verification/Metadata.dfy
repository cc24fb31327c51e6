/**
 * The compare-and-swap metadata store (folio-core/src/metadata.rs). The in-memory store updates under
 * one lock; the etcd store reads and later commits a transaction that compares the stored value.
 */
module Metadata {
  import opened Protocol

  type Ledgers = map<nat, LedgerMeta>

  datatype Op = Put(meta: LedgerMeta) | Transition(id: nat, expected: LedgerState, next: LedgerState)

  function Target(op: Op): nat {
    match op
    case Put(m) => m.id
    case Transition(id, _, _) => id
  }

  /** Whether the operation is refused when the ledger's record is `current`. */
  function Refusal(op: Op, current: LedgerMeta): Option<Error> {
    match op
    case Put(m) => if current.version != m.version then Some(CasConflict) else None
    case Transition(_, expected, _) =>
      if current.state != expected then Some(StateConflict(expected, current.state)) else None
  }

  /** The record the operation writes over `current`. */
  function Updated(op: Op, current: LedgerMeta, now: nat): LedgerMeta {
    match op
    case Put(m) => m.(updatedAt := now, version := m.version + 1)
    case Transition(_, _, next) => current.(state := next, updatedAt := now, version := current.version + 1)
  }

  /** `put_ledger` and `transition_state` as one atomic step. */
  function Atomic(ledgers: Ledgers, op: Op, now: nat): (r: (Ledgers, Result<LedgerMeta>)) {
    var id := Target(op);
    if id !in ledgers then (ledgers, Err(LedgerNotFound))
    else match Refusal(op, ledgers[id])
      case Some(e) => (ledgers, Err(e))
      case None =>
        var updated := Updated(op, ledgers[id], now);
        (ledgers[id := updated], Ok(updated))
  }

  /** Records are stored under their own id. */
  ghost predicate Keyed(ledgers: Ledgers) {
    forall id <- ledgers :: ledgers[id].id == id
  }

  /** An accepted operation writes one record, one version up; a refused one writes nothing. */
  lemma AtomicBumpsVersion(ledgers: Ledgers, op: Op, now: nat)
    requires Keyed(ledgers)
    ensures var (after, result) := Atomic(ledgers, op, now);
            && Keyed(after) && after.Keys == ledgers.Keys
            && (forall id <- ledgers :: id != Target(op) ==> after[id] == ledgers[id])
            && (result.Ok? ==> Target(op) in ledgers && after[Target(op)] == result.value
                               && result.value.version == ledgers[Target(op)].version + 1)
            && (result.Err? ==> after == ledgers)
  {
  }

  /** Compare-and-swap: a put succeeds if and only if the stored version is the one it carries, and stores what
      it carries. A transition succeeds if and only if the stored state is the expected one, and changes the
      state and nothing else but version and time. */
  lemma AtomicCompares(ledgers: Ledgers, op: Op, now: nat)
    ensures var result := Atomic(ledgers, op, now).1;
            match op
            case Put(m) =>
              && (result.Ok? <==> m.id in ledgers && ledgers[m.id].version == m.version)
              && (result.Ok? ==> result.value == m.(updatedAt := now, version := result.value.version))
              && (result.Err? ==> result.error == if m.id in ledgers then CasConflict else LedgerNotFound)
            case Transition(id, expected, next) =>
              && (result.Ok? <==> id in ledgers && ledgers[id].state == expected)
              && (result.Ok? ==>
                    result.value == ledgers[id].(state := next, updatedAt := now, version := result.value.version))
              && (result.Err? ==>
                    result.error == if id in ledgers then StateConflict(expected, ledgers[id].state)
                                    else LedgerNotFound)
  {
  }

  /** The first fragment of a new ledger; quorums are cast to u8. */
  function FirstFragment(o: LedgerOptions, ensemble: seq<NodeId>): seq<Fragment> {
    [Fragment(0, ensemble, o.writeQuorum % 256, o.ackQuorum % 256)]
  }

  /** A new record: open and empty, at version 1, with one fragment from entry 0 on the given ensemble. Its
      quorums are those asked for if and only if they fit a byte. */
  ghost predicate NewLedger(m: LedgerMeta, o: LedgerOptions, ensemble: seq<NodeId>) {
    && m.state == Open && m.version == 1 && m.lastEntry == None && m.lastAddConfirmed == 0
    && |m.fragments| == 1 && m.fragments[0].firstEntry == 0 && m.fragments[0].ensemble == ensemble
    && (m.fragments[0].writeQuorum == o.writeQuorum <==> o.writeQuorum <= 255)
    && (m.fragments[0].ackQuorum == o.ackQuorum <==> o.ackQuorum <= 255)
    && m.fragments[0].writeQuorum <= 255 && m.fragments[0].ackQuorum <= 255
  }

  class InMemoryMetadataStore {
    var nextId: nat
    var ledgers: Ledgers

    ghost predicate Valid()
      reads this
    {
      Keyed(ledgers) && forall id <- ledgers :: 0 < id <= nextId
    }

    constructor ()
      ensures Valid() && ledgers == map[] && nextId == 0
    {
      nextId, ledgers := 0, map[];
    }

    method CreateLedger(options: LedgerOptions, ensemble: seq<NodeId>, now: nat) returns (r: Result<LedgerMeta>)
      requires Valid()
      modifies this
      ensures Valid()
      ensures ValidOptions(options) <==> r.Ok?
      ensures r.Err? ==> ledgers == old(ledgers) && nextId == old(nextId)
      ensures r.Ok? ==> r.value.id !in old(ledgers) && ledgers == old(ledgers)[r.value.id := r.value]
      ensures r.Ok? ==> r.value.id == nextId == old(nextId) + 1
      ensures r.Ok? ==> NewLedger(r.value, options, ensemble) && r.value.updatedAt == now
      ensures r.Ok? ==> r.value.fragments == FirstFragment(options, ensemble)
    {
      if !ValidOptions(options) {
        return Err(MetadataError);
      }
      nextId := nextId + 1;
      var meta := LedgerMeta(nextId, Open, FirstFragment(options, ensemble), None, 0, now, 1);
      ledgers := ledgers[nextId := meta];
      r := Ok(meta);
    }

    method PutLedger(metadata: LedgerMeta, now: nat) returns (r: Result<LedgerMeta>)
      requires Valid()
      modifies this`ledgers
      ensures Valid() && (ledgers, r) == Atomic(old(ledgers), Put(metadata), now)
    {
      if metadata.id !in ledgers {
        return Err(LedgerNotFound);
      }
      if ledgers[metadata.id].version != metadata.version {
        return Err(CasConflict);
      }
      var updated := metadata.(updatedAt := now, version := metadata.version + 1);
      ledgers := ledgers[updated.id := updated];
      r := Ok(updated);
    }

    method TransitionState(id: nat, expected: LedgerState, next: LedgerState, now: nat) returns (r: Result<LedgerMeta>)
      requires Valid()
      modifies this`ledgers
      ensures Valid() && (ledgers, r) == Atomic(old(ledgers), Transition(id, expected, next), now)
    {
      if id !in ledgers {
        return Err(LedgerNotFound);
      }
      var ledger := ledgers[id];
      if ledger.state != expected {
        return Err(StateConflict(expected, ledger.state));
      }
      ledger := ledger.(state := next, version := ledger.version + 1, updatedAt := now);
      ledgers := ledgers[id := ledger];
      r := Ok(ledger);
    }

    method DeleteLedger(id: nat)
      requires Valid()
      modifies this`ledgers
      ensures Valid() && ledgers == old(ledgers) - {id}
    {
      ledgers := ledgers - {id};
    }
  }

  // ── The etcd store: read, then compare the value and write ────────────────

  datatype Call =
    | Started(op: Op)
    | Holding(op: Op, current: LedgerMeta)
    | Answered(op: Op, result: Result<LedgerMeta>)

  /** `used`: every ledger id ever created; ids are never created twice. */
  datatype Etcd = Etcd(kv: Ledgers, used: set<nat>, calls: map<nat, Call>)

  datatype Step =
    | Create(meta: LedgerMeta)
    | Delete(id: nat)
    | Begin(client: nat, op: Op)
    | Get(client: nat)
    | Commit(client: nat, now: nat)

  predicate Enabled(s: Etcd, step: Step) {
    match step
    case Create(m) => m.id !in s.used
    case Delete(_) => true
    case Begin(c, _) => c !in s.calls
    case Get(c) => c in s.calls && s.calls[c].Started?
    case Commit(c, _) => c in s.calls && s.calls[c].Holding?
  }

  function Next(s: Etcd, step: Step): (t: Etcd)
    requires Enabled(s, step)
  {
    match step
    case Create(m) => s.(kv := s.kv[m.id := m], used := s.used + {m.id})
    case Delete(id) => s.(kv := s.kv - {id})
    case Begin(c, op) => s.(calls := s.calls[c := Started(op)])
    case Get(c) =>
      var op := s.calls[c].op;
      var call := if Target(op) !in s.kv then Answered(op, Err(LedgerNotFound))
                  else match Refusal(op, s.kv[Target(op)])
                    case Some(e) => Answered(op, Err(e))
                    case None => Holding(op, s.kv[Target(op)]);
      s.(calls := s.calls[c := call])
    case Commit(c, now) =>
      var op, current := s.calls[c].op, s.calls[c].current;
      if Target(op) in s.kv && s.kv[Target(op)] == current then
        var updated := Updated(op, current, now);
        s.(kv := s.kv[Target(op) := updated], calls := s.calls[c := Answered(op, Ok(updated))])
      else
        s.(calls := s.calls[c := Answered(op, Err(CasConflict))])
  }

  /** `b` is `a` or a later record of the same ledger: versions only grow, and an equal version means
      the very same record. */
  predicate Later(a: LedgerMeta, b: LedgerMeta) {
    a == b || a.version < b.version
  }

  /** What a call holds is a record of its target that the store has not replaced, or has replaced by
      later ones only. */
  ghost predicate HoldingOk(s: Etcd, c: nat)
    requires c in s.calls && s.calls[c].Holding?
  {
    var op, current := s.calls[c].op, s.calls[c].current;
    && Target(op) in s.used
    && Refusal(op, current) == None
    && (Target(op) in s.kv ==> Later(current, s.kv[Target(op)]))
  }

  ghost predicate Inv(s: Etcd) {
    && s.kv.Keys <= s.used
    && forall c <- s.calls :: s.calls[c].Holding? ==> HoldingOk(s, c)
  }

  lemma StepKeeps(s: Etcd, step: Step)
    requires Inv(s) && Enabled(s, step)
    ensures Inv(Next(s, step))
  {
    var t := Next(s, step);
    forall c | c in t.calls && t.calls[c].Holding? ensures HoldingOk(t, c) {
      if c in s.calls && s.calls[c] == t.calls[c] {
        assert HoldingOk(s, c);
      }
    }
  }

  /** Every step of the etcd store is a step of the atomic store or leaves it as it is, and a call is
      answered with what the atomic store would answer at that moment. Two answers differ: a conflict
      reported to a transition whose record changed since it was read, and a conflict reported for a
      ledger deleted since. */
  lemma EtcdRefinesAtomic(s: Etcd, step: Step, c: nat, now: nat)
    requires Inv(s) && Enabled(s, step) && (step == Get(c) || step == Commit(c, now))
    ensures var t := Next(s, step);
            var op := s.calls[c].op;
            var (after, answer) := Atomic(s.kv, op, now);
            match t.calls[c]
            case Answered(_, Ok(m)) => t.kv == after && answer == Ok(m)
            case Answered(_, Err(e)) =>
              && t.kv == s.kv
              && (answer != Err(e) ==>
                    step.Commit? && e == CasConflict && (op.Transition? || answer == Err(LedgerNotFound)))
            case _ => t.kv == s.kv
  {
    if step.Commit? {
      assert HoldingOk(s, c);
    }
  }

  /** Versions only grow along a run, and an unchanged version is an unchanged record. */
  lemma StepGrows(s: Etcd, step: Step, id: nat)
    requires Inv(s) && Enabled(s, step)
    ensures var t := Next(s, step);
            && s.used <= t.used
            && (id in s.kv && id in t.kv ==> Later(s.kv[id], t.kv[id]))
            && (id in s.used && id !in s.kv ==> id !in t.kv)
  {
    if step.Commit? && Target(s.calls[step.client].op) == id {
      assert HoldingOk(s, step.client);
    }
  }

  ghost predicate Legal(s: Etcd, steps: seq<Step>)
    decreases steps
  {
    steps == [] || (Enabled(s, steps[0]) && Legal(Next(s, steps[0]), steps[1..]))
  }

  ghost function RunFrom(s: Etcd, steps: seq<Step>): Etcd
    requires Legal(s, steps)
    decreases steps
  {
    if steps == [] then s else RunFrom(Next(s, steps[0]), steps[1..])
  }

  /** Over every run of any number of clients: versions strictly grow with every change of a record,
      and a ledger once deleted never comes back. */
  lemma {:induction false} RunGrows(s: Etcd, steps: seq<Step>, id: nat)
    requires Inv(s) && Legal(s, steps)
    ensures var t := RunFrom(s, steps);
            && Inv(t) && s.used <= t.used
            && (id in s.kv && id in t.kv ==> Later(s.kv[id], t.kv[id]))
            && (id in s.used && id !in s.kv ==> id !in t.kv)
    decreases steps
  {
    hide Enabled, Next, HoldingOk;
    if steps != [] {
      StepKeeps(s, steps[0]);
      StepGrows(s, steps[0], id);
      RunGrows(Next(s, steps[0]), steps[1..], id);
    }
  }

  lemma {:induction false} RunSplit(s: Etcd, steps: seq<Step>, i: nat)
    requires Legal(s, steps) && i <= |steps|
    ensures Legal(s, steps[..i]) && Legal(RunFrom(s, steps[..i]), steps[i..])
    ensures RunFrom(RunFrom(s, steps[..i]), steps[i..]) == RunFrom(s, steps)
    decreases i
  {
    hide Enabled, Next;
    if i == 0 {
      assert steps[..0] == [] && steps[0..] == steps;
    } else {
      var head, rest := steps[..i], steps[1..];
      assert head[0] == steps[0] && head[1..] == rest[..i - 1] && steps[i..] == rest[i - 1..];
      RunSplit(Next(s, steps[0]), rest, i - 1);
    }
  }

  /** No update is lost: a commit succeeds only if the record is the one its call read, and no state
      since the read held another record of that ledger. */
  lemma NoLostUpdate(s: Etcd, c: nat, steps: seq<Step>, now: nat, i: nat)
    requires Inv(s) && c in s.calls && s.calls[c].Holding? && Legal(s, steps) && i <= |steps|
    requires var id := Target(s.calls[c].op); id in s.kv && s.kv[id] == s.calls[c].current
    requires var t := RunFrom(s, steps);
             c in t.calls && t.calls[c] == s.calls[c] && Next(t, Commit(c, now)).calls[c].result.Ok?
    ensures Legal(s, steps[..i])
    ensures var id, mid := Target(s.calls[c].op), RunFrom(s, steps[..i]);
            id in mid.kv && mid.kv[id] == s.kv[id]
    ensures Next(RunFrom(s, steps), Commit(c, now)).kv
         == RunFrom(s, steps).kv[Target(s.calls[c].op) := Updated(s.calls[c].op, s.calls[c].current, now)]
  {
    hide Enabled, HoldingOk, Updated;
    var id := Target(s.calls[c].op);
    RunSplit(s, steps, i);
    RunGrows(s, steps[..i], id);
    RunGrows(RunFrom(s, steps[..i]), steps[i..], id);
  }

  /** A holder of an older version can never write again: once the record is past the version a client
      holds, no put of that version succeeds in any later state of any run. */
  lemma StaleHolderLockedOut(s: Etcd, steps: seq<Step>, c: nat, now: nat, meta: LedgerMeta)
    requires Inv(s) && Legal(s, steps)
    requires meta.id in s.kv && meta.version < s.kv[meta.id].version
    requires var t := RunFrom(s, steps); c in t.calls && t.calls[c].op == Put(meta) && Enabled(t, Commit(c, now))
    ensures var t := RunFrom(s, steps); Next(t, Commit(c, now)).calls[c].result == Err(CasConflict)
  {
    RunGrows(s, steps, meta.id);
    assert HoldingOk(RunFrom(s, steps), c);
  }

  /** One step of the atomic store. */
  datatype AtomicStep = Do(op: Op, now: nat) | New(meta: LedgerMeta) | Drop(id: nat)

  function AtomicNext(ledgers: Ledgers, a: AtomicStep): Ledgers {
    match a
    case Do(op, now) => Atomic(ledgers, op, now).0
    case New(m) => ledgers[m.id := m]
    case Drop(id) => ledgers - {id}
  }

  function Replay(ledgers: Ledgers, trace: seq<AtomicStep>): Ledgers
    decreases trace
  {
    if trace == [] then ledgers else Replay(AtomicNext(ledgers, trace[0]), trace[1..])
  }

  /** The atomic steps of a run: creations, deletions, and each accepted commit with the operation of
      its call. */
  ghost function Trace(s: Etcd, steps: seq<Step>): seq<AtomicStep>
    requires Legal(s, steps)
    decreases steps
  {
    if steps == [] then [] else StepTrace(s, steps[0]) + Trace(Next(s, steps[0]), steps[1..])
  }

  function StepTrace(s: Etcd, step: Step): (trace: seq<AtomicStep>)
    requires Enabled(s, step)
  {
    match step
    case Create(m) => [New(m)]
    case Delete(id) => [Drop(id)]
    case Commit(c, now) => if Next(s, step).calls[c].result.Ok? then [Do(s.calls[c].op, now)] else []
    case _ => []
  }

  /** The atomic store accepts every operation of the trace when its turn comes. */
  ghost predicate Accepted(ledgers: Ledgers, trace: seq<AtomicStep>)
    decreases trace
  {
    trace == [] ||
    (&& (trace[0].Do? ==> Atomic(ledgers, trace[0].op, trace[0].now).1.Ok?)
     && Accepted(AtomicNext(ledgers, trace[0]), trace[1..]))
  }

  lemma StepRefinesAtomic(s: Etcd, step: Step)
    requires Inv(s) && Enabled(s, step)
    ensures Replay(s.kv, StepTrace(s, step)) == Next(s, step).kv && Accepted(s.kv, StepTrace(s, step))
  {
    hide HoldingOk;
    if step.Commit? {
      EtcdRefinesAtomic(s, step, step.client, step.now);
    }
  }

  lemma JoinTraces(ledgers: Ledgers, step: seq<AtomicStep>, rest: seq<AtomicStep>)
    requires |step| <= 1
    ensures Replay(ledgers, step + rest) == Replay(Replay(ledgers, step), rest)
    ensures Accepted(ledgers, step) && Accepted(Replay(ledgers, step), rest) ==> Accepted(ledgers, step + rest)
  {
    hide Atomic;
    if step != [] {
      assert (step + rest)[1..] == rest && step[1..] == [];
    } else {
      assert step + rest == rest;
    }
  }

  /** Linearisability of the store: every run of interleaved reads and commits by any number of clients
      leaves the store exactly as its accepted operations, done atomically in commit order, would. */
  lemma {:induction false} RunRefinesAtomic(s: Etcd, steps: seq<Step>)
    requires Inv(s) && Legal(s, steps)
    ensures Replay(s.kv, Trace(s, steps)) == RunFrom(s, steps).kv
    ensures Accepted(s.kv, Trace(s, steps))
    decreases steps
  {
    hide Inv, Enabled, Next, StepTrace;
    if steps != [] {
      StepKeeps(s, steps[0]);
      StepRefinesAtomic(s, steps[0]);
      var t := Next(s, steps[0]);
      RunRefinesAtomic(t, steps[1..]);
      AtMostOne(s, steps[0]);
      JoinTraces(s.kv, StepTrace(s, steps[0]), Trace(t, steps[1..]));
    }
  }

  lemma AtMostOne(s: Etcd, step: Step)
    requires Enabled(s, step)
    ensures |StepTrace(s, step)| <= 1
  {
  }

  // ── Ledger ids ────────────────────────────────────────────────────────────

  /** The id counter with its revision, and clients that have read it (`next_ledger_id`). */
  datatype IdGen = IdGen(counter: nat, revision: nat, reading: map<nat, (nat, nat)>, issued: seq<nat>)

  datatype IdStep = ReadCounter(reader: nat) | CommitId(writer: nat)

  predicate IdEnabled(g: IdGen, step: IdStep) {
    step.CommitId? ==> step.writer in g.reading
  }

  /** The commit succeeds only if the counter's revision is the one that was read; otherwise the client
      reads again. */
  function IdNext(g: IdGen, step: IdStep): IdGen
    requires IdEnabled(g, step)
  {
    match step
    case ReadCounter(c) => g.(reading := g.reading[c := (g.counter + 1, g.revision)])
    case CommitId(c) =>
      var (next, revision) := g.reading[c];
      if revision == g.revision then IdGen(next, g.revision + 1, g.reading - {c}, g.issued + [next])
      else g.(reading := g.reading - {c})
  }

  ghost predicate IdInv(g: IdGen) {
    && (forall c <- g.reading :: g.reading[c].1 <= g.revision
                                 && (g.reading[c].1 == g.revision ==> g.reading[c].0 == g.counter + 1))
    && (forall i :: 0 <= i < |g.issued| ==> 1 <= g.issued[i] <= g.counter)
    && (forall i, j :: 0 <= i < j < |g.issued| ==> g.issued[i] < g.issued[j])
    && (forall i :: 0 <= i < |g.issued| ==> g.issued[i] == g.counter - |g.issued| + 1 + i)
  }

  lemma IdStepKeeps(g: IdGen, step: IdStep)
    requires IdInv(g) && IdEnabled(g, step)
    ensures IdInv(IdNext(g, step))
    ensures g.issued <= IdNext(g, step).issued
  {
    var h := IdNext(g, step);
    forall i, j | 0 <= i < j < |h.issued| ensures h.issued[i] < h.issued[j] {
      assert i < |g.issued|;
    }
  }

  ghost predicate IdLegal(g: IdGen, steps: seq<IdStep>)
    decreases steps
  {
    steps == [] || (IdEnabled(g, steps[0]) && IdLegal(IdNext(g, steps[0]), steps[1..]))
  }

  ghost function IdRun(g: IdGen, steps: seq<IdStep>): IdGen
    requires IdLegal(g, steps)
    decreases steps
  {
    if steps == [] then g else IdRun(IdNext(g, steps[0]), steps[1..])
  }

  /** However reads and commits of any number of clients interleave, issued ids count up by one, so no id is
      issued twice and none is left out. */
  lemma {:induction false} IdsUnique(g: IdGen, steps: seq<IdStep>)
    requires IdInv(g) && IdLegal(g, steps)
    ensures var h := IdRun(g, steps);
            && IdInv(h) && g.issued <= h.issued
            && (forall i, j :: 0 <= i < j < |h.issued| ==> h.issued[j] - h.issued[i] == j - i)
            && (h.issued != [] ==> h.issued[|h.issued| - 1] == h.counter)
    decreases steps
  {
    hide IdNext, IdEnabled;
    if steps != [] {
      IdStepKeeps(g, steps[0]);
      IdsUnique(IdNext(g, steps[0]), steps[1..]);
    }
  }
}
