/** Fencing and sealing a ledger (folio-node/src/recovery/mod.rs), and what becomes of its entries. */
module Sealing {
  import opened Words
  import opened Protocol
  import opened Metadata
  import opened Ledger
  import opened QuorumLog

  // ── fence_and_seal ────────────────────────────────────────────────────────

  /** Fencing changes nothing but the fence. */
  ghost predicate OnlyFences(a: Nodes, b: Nodes) {
    a.Keys == b.Keys && forall n <- a :: b[n] == a[n].(fenced := b[n].fenced) && (a[n].fenced ==> b[n].fenced)
  }

  /** Fences every node of the ensemble in turn, and stops at the first that cannot be reached. `answers` is
      what `fence_ledger` returns on each node that can. */
  method FenceEnsemble(nodes: Nodes, ensemble: seq<NodeId>, answers: map<NodeId, nat>)
    returns (after: Nodes, lacs: seq<nat>, ok: bool)
    ensures OnlyFences(nodes, after)
    ensures ok <==> forall n <- ensemble :: n in nodes && n in answers
    ensures ok ==> |lacs| == |ensemble|
    ensures ok ==> forall i :: 0 <= i < |ensemble| ==> after[ensemble[i]].fenced && lacs[i] == answers[ensemble[i]]
    ensures forall n <- nodes :: n !in ensemble ==> after[n] == nodes[n]
  {
    after, lacs := nodes, [];
    for i := 0 to |ensemble|
      invariant |lacs| == i && OnlyFences(nodes, after)
      invariant forall j :: 0 <= j < i ==> ensemble[j] in nodes && ensemble[j] in answers
      invariant forall j :: 0 <= j < i ==> after[ensemble[j]].fenced && lacs[j] == answers[ensemble[j]]
      invariant forall n <- nodes :: n !in ensemble ==> after[n] == nodes[n]
    {
      var n := ensemble[i];
      if n !in after || n !in answers {
        assert n in ensemble;
        return after, lacs, false;
      }
      after := after[n := after[n].(fenced := true)];
      lacs := lacs + [answers[n]];
    }
    ok := true;
  }

  /** The last fragment of a record. */
  function LastFragment(m: LedgerMeta): Fragment
    requires m.fragments != []
  {
    m.fragments[|m.fragments| - 1]
  }

  /** The record that sealing puts: closed, with the highest id found as LAC and one less as last entry. */
  function SealedAs(m: LedgerMeta, lac: nat): LedgerMeta {
    m.(state := Closed, lastAddConfirmed := lac, lastEntry := if lac == 0 then None else Some(lac - 1))
  }

  /** `lac` is the highest answer of the ensemble, or 0. */
  ghost predicate HighestAnswer(answers: map<NodeId, nat>, ensemble: seq<NodeId>, lac: nat)
    requires forall n <- ensemble :: n in answers
  {
    && (forall n <- ensemble :: answers[n] <= lac)
    && (lac > 0 ==> exists n <- ensemble :: answers[n] == lac)
  }

  /** The record fencing works on: moved to InRecovery if it was open, else as it stands. */
  function InRecoveryAs(m: LedgerMeta, now: nat): LedgerMeta {
    if m.state == Open then m.(state := InRecovery, updatedAt := now, version := m.version + 1) else m
  }

  /** Whatever the environment does, an append on the handle is refused with the state found, and changes
      neither the handle, the store nor any node. */
  ghost predicate Refuses(h: Handle, found: LedgerState) {
    forall store, nodes, data, env ::
      Append(h, store, nodes, data, env) == Outcome(h, store, nodes, Some(Err(StateConflict(Open, found))))
  }

  lemma NotOpenRefuses(h: Handle)
    requires h.state != Open
    ensures Refuses(h, h.state)
  {
    hide Attempt;
  }

  /** `fence_and_seal`. Other clients may have changed the store by the time of the put, to `later`. */
  method FenceAndSeal(ledgers: Ledgers, nodes: Nodes, id: nat, answers: map<NodeId, nat>, later: Ledgers, now: nat)
    returns (moved: Ledgers, nodes': Nodes, ledgers': Ledgers, r: Result<LedgerMeta>)
    requires Keyed(ledgers)
    ensures moved == if id in ledgers then ledgers[id := InRecoveryAs(ledgers[id], now)] else ledgers
    ensures id in ledgers ==>
              && (ledgers[id].state == Open ==>
                    moved[id].state == InRecovery && moved[id].version == ledgers[id].version + 1)
              && (ledgers[id].state != Open ==> moved == ledgers)
    ensures OnlyFences(nodes, nodes')
    ensures r.Err? ==> ledgers' == later
    ensures r.Ok? <==>
              && id in ledgers && ledgers[id].fragments != []
              && (forall n <- LastFragment(ledgers[id]).ensemble :: n in nodes && n in answers)
              && id in later && later[id].version == moved[id].version
    ensures r.Ok? ==>
              && (forall n <- LastFragment(ledgers[id]).ensemble :: n in nodes && nodes'[n].fenced)
              && HighestAnswer(answers, LastFragment(ledgers[id]).ensemble, r.value.lastAddConfirmed)
              && ledgers' == later[id := r.value]
              && r.value
                 == SealedAs(ledgers[id], r.value.lastAddConfirmed).(updatedAt := now, version := r.value.version)
              && r.value.version == ledgers[id].version + (if ledgers[id].state == Open then 2 else 1)
              && r.value.state == Closed && r.value.id == id && r.value.fragments == ledgers[id].fragments
              && Refuses(HandleOf(r.value), Closed)
  {
    nodes', ledgers' := nodes, later;
    var (after, _) := Atomic(ledgers, Transition(id, Open, InRecovery), now);
    moved := after;
    if id !in moved {
      return moved, nodes', ledgers', Err(LedgerNotFound);
    }
    assert ledgers[id := ledgers[id]] == ledgers;
    var meta := moved[id];
    if meta.fragments == [] {
      return moved, nodes', ledgers', Err(InvalidFragment);
    }
    var ensemble := LastFragment(meta).ensemble;
    var lacs, ok;
    nodes', lacs, ok := FenceEnsemble(nodes, ensemble, answers);
    if !ok {
      return moved, nodes', ledgers', Err(MetadataError);
    }
    var lac := MaxOf(lacs);
    assert HighestAnswer(answers, ensemble, lac) by { HighestOf(answers, ensemble, lacs); }
    var (put, result) := Atomic(later, Put(SealedAs(meta, lac)), now);
    ledgers', r := put, result;
    if r.Ok? {
      NotOpenRefuses(HandleOf(r.value));
    }
  }

  lemma HighestOf(answers: map<NodeId, nat>, ensemble: seq<NodeId>, lacs: seq<nat>)
    requires |lacs| == |ensemble| && forall n <- ensemble :: n in answers
    requires forall i :: 0 <= i < |ensemble| ==> lacs[i] == answers[ensemble[i]]
    ensures HighestAnswer(answers, ensemble, MaxOf(lacs))
  {
    hide MaxOf;
    var lac := MaxOf(lacs);
    forall n | n in ensemble ensures answers[n] <= lac {
      var i :| 0 <= i < |ensemble| && ensemble[i] == n;
      MaxOfBounds(lacs, i);
    }
    if lac > 0 {
      MaxOfAttained(lacs);
      var i :| 0 <= i < |lacs| && lacs[i] == lac;
      assert ensemble[i] in ensemble;
    }
  }

  lemma {:induction false} MaxOfBounds(xs: seq<nat>, i: nat)
    requires i < |xs|
    ensures xs[i] <= MaxOf(xs)
  {
    if i < |xs| - 1 {
      MaxOfBounds(xs[..|xs| - 1], i);
    }
  }

  lemma {:induction false} MaxOfAttained(xs: seq<nat>)
    requires MaxOf(xs) > 0
    ensures exists i :: 0 <= i < |xs| && xs[i] == MaxOf(xs)
  {
    var last := |xs| - 1;
    if xs[last] == MaxOf(xs) {
    } else {
      MaxOfAttained(xs[..last]);
      var i :| 0 <= i < last && xs[..last][i] == MaxOf(xs[..last]);
      assert xs[i] == MaxOf(xs);
    }
  }

  /** Some reachable node of the entry's fragment holds it. */
  ghost predicate Obtainable(fs: seq<Fragment>, nodes: Nodes, reachable: set<NodeId>, id: nat) {
    Owner(fs, id).Some? && exists n <- Owner(fs, id).value.ensemble :: NodeRead(nodes, reachable, n, id).Ok?
  }

  /** What a handle opened on a sealed ledger can read: exactly the entries below the sealed LAC that a
      reachable node holds. The entry at the LAC, the last one that any node was found to hold, is hidden. */
  lemma SealedReadsIff(m: LedgerMeta, lac: nat, nodes: Nodes, reachable: set<NodeId>, id: nat)
    ensures (exists r :: ReadResult(HandleOf(SealedAs(m, lac)), nodes, reachable, id, r) && r.Ok?)
            <==> id < lac && Obtainable(m.fragments, nodes, reachable, id)
    ensures ReadResult(HandleOf(SealedAs(m, lac)), nodes, reachable, lac, Err(EntryNotFound))
  {
    hide Owner, Resolved;
    var h := HandleOf(SealedAs(m, lac));
    if id < lac && Obtainable(m.fragments, nodes, reachable, id) {
      var f := Owner(m.fragments, id).value;
      var n :| n in f.ensemble && NodeRead(nodes, reachable, n, id).Ok?;
      assert n in Resolved(f.ensemble, nodes);
      assert ReadResult(h, nodes, reachable, id, NodeRead(nodes, reachable, n, id));
    }
  }

  // ── What sealing does to acknowledged entries ─────────────────────────────

  /** The node answers the highest id it holds, or 0. */
  ghost predicate IsHighest(b: Bookie, hi: nat) {
    && (forall id <- b.log :: id <= hi)
    && (hi > 0 ==> hi in b.log)
  }

  ghost predicate ExactAnswers(nodes: Nodes, ensemble: seq<NodeId>, answers: map<NodeId, nat>) {
    forall n <- ensemble :: n in nodes && n in answers && IsHighest(nodes[n], answers[n])
  }

  /** A read of the sealed ledger that gives the acknowledged bytes is possible. */
  ghost predicate SurvivesSeal(m: LedgerMeta, lac: nat, nodes: Nodes, reachable: set<NodeId>, id: nat, bytes: Bytes) {
    ReadResult(HandleOf(SealedAs(m, lac)), nodes, reachable, id, Ok(bytes))
  }

  /** Sealing after any steady run whose fragments the store has: an acknowledged entry can be read from the
      sealed ledger if and only if it lies below the sealed LAC and a reachable node of its fragment holds
      it, and no read gives other bytes. So, with every node reachable, all acknowledged entries survive if
      and only if the LAC is not below their number; with exact answers it never is above it, and reaches
      it only if a node of the last fragment holds an entry that was never acknowledged. */
  lemma SealAfterRun(states: seq<Sys>, steps: seq<QuorumLog.Step>, i: nat, m: LedgerMeta, lac: nat,
                     reachable: set<NodeId>)
    requires IsSteadyRun(states, steps) && Created(states[0]) && i < |states|
    requires m.fragments == states[i].store.fragments == states[i].handle.fragments
    ensures var s := states[i];
            && (forall id :: 0 <= id < |s.data| ==>
                  (SurvivesSeal(m, lac, s.nodes, reachable, id, s.data[id])
                   <==> id < lac && Obtainable(m.fragments, s.nodes, reachable, id)))
            && (forall id: nat, r | ReadResult(HandleOf(SealedAs(m, lac)), s.nodes, reachable, id, r) && r.Ok? ::
                  id < |Sent(s)| && r.value == Sent(s)[id])
            && (s.nodes.Keys <= reachable ==>
                  ((forall id :: 0 <= id < |s.data| ==> SurvivesSeal(m, lac, s.nodes, reachable, id, s.data[id]))
                   <==> |s.data| <= lac))
  {
    hide QuorumLog.Next, Created, ReadResult, Obtainable, LogInv, LacInv;
    QuorumLog.RunKeeps(states, steps, i);
    var s := states[i];
    forall id: nat | id < |s.data|
      ensures SurvivesSeal(m, lac, s.nodes, reachable, id, s.data[id])
              <==> id < lac && Obtainable(m.fragments, s.nodes, reachable, id)
      ensures s.nodes.Keys <= reachable ==> Obtainable(m.fragments, s.nodes, reachable, id)
    {
      SealedReadIsAcked(s, m, lac, reachable, id);
    }
    forall id: nat, r | ReadResult(HandleOf(SealedAs(m, lac)), s.nodes, reachable, id, r) && r.Ok?
      ensures id < |Sent(s)| && r.value == Sent(s)[id]
    {
      SealedReadIsSent(s, m, lac, reachable, id, r);
    }
    if s.data != [] && lac < |s.data| {
      var last := |s.data| - 1;
      assert !SurvivesSeal(m, lac, s.nodes, reachable, last, s.data[last]);
    }
  }

  lemma SealedReadIsSent(s: Sys, m: LedgerMeta, lac: nat, reachable: set<NodeId>, id: nat, r: Result<Bytes>)
    requires LogInv(s) && ReadResult(HandleOf(SealedAs(m, lac)), s.nodes, reachable, id, r) && r.Ok?
    ensures id < |Sent(s)| && r.value == Sent(s)[id]
  {
    hide Owner, Resolved, AllHeld, FragmentsOk;
    var f := Owner(m.fragments, id).value;
    var n :| n in Resolved(f.ensemble, s.nodes) && NodeRead(s.nodes, reachable, n, id) == r;
    assert LogAgrees(s.nodes[n].log, Sent(s));
  }

  lemma SealedReadIsAcked(s: Sys, m: LedgerMeta, lac: nat, reachable: set<NodeId>, id: nat)
    requires LogInv(s) && m.fragments == s.handle.fragments && id < |s.data|
    ensures SurvivesSeal(m, lac, s.nodes, reachable, id, s.data[id])
            <==> id < lac && Obtainable(m.fragments, s.nodes, reachable, id)
    ensures s.nodes.Keys <= reachable ==> Obtainable(m.fragments, s.nodes, reachable, id)
  {
    hide ReadResult, Obtainable, LogInv;
    SealedReadsIff(m, lac, s.nodes, reachable, id);
    if SurvivesSeal(m, lac, s.nodes, reachable, id, s.data[id]) {
      assert ReadResult(HandleOf(SealedAs(m, lac)), s.nodes, reachable, id, Ok(s.data[id]));
    }
    if r :| ReadResult(HandleOf(SealedAs(m, lac)), s.nodes, reachable, id, r) && r.Ok? {
      SealedReadIsSent(s, m, lac, reachable, id, r);
      assert r == Ok(s.data[id]);
    }
    if s.nodes.Keys <= reachable {
      AckedObtainable(s, reachable, id);
    }
  }

  lemma AckedObtainable(s: Sys, reachable: set<NodeId>, id: nat)
    requires LogInv(s) && id < |s.data| && s.nodes.Keys <= reachable
    ensures Obtainable(s.handle.fragments, s.nodes, reachable, id)
  {
    hide Owner, Agree, StraysAgree;
    assert Held(s.handle.fragments, s.nodes, id, s.data[id]);
    var f := Owner(s.handle.fragments, id).value;
    OwnerIsFragment(s.handle.fragments, id);
    assert f.ackQuorum > 0;
    var n :| n in Holders(f, s.nodes, id, s.data[id]);
    assert n in f.ensemble && NodeRead(s.nodes, reachable, n, id).Ok?;
  }

  /** With exact answers the sealed LAC is at most the number of acknowledged entries, so at least the last
      one is hidden, unless a node of the last fragment holds an entry that was not acknowledged. */
  lemma SealedLacBound(s: Sys, m: LedgerMeta, answers: map<NodeId, nat>, lac: nat)
    requires LogInv(s) && m.fragments == s.handle.fragments && m.fragments != []
    requires var e := LastFragment(m).ensemble; ExactAnswers(s.nodes, e, answers) && HighestAnswer(answers, e, lac)
    ensures s.data != [] ==> lac <= |s.data|
    ensures s.data != [] && lac == |s.data| ==>
              s.pending.Some? && exists n <- LastFragment(m).ensemble :: lac in s.nodes[n].log
  {
    hide AllHeld, FragmentsOk;
    var e := LastFragment(m).ensemble;
    if lac > 0 {
      var n :| n in e && answers[n] == lac;
      assert IsHighest(s.nodes[n], lac) && lac in s.nodes[n].log;
      assert LogAgrees(s.nodes[n].log, Sent(s));
    }
  }

  // ── All acknowledged entries hidden ───────────────────────────────────────

  /** The system after two acknowledged entries on node `a`. */
  function TwoAcked(a: NodeId, b: NodeId, x: Bytes, y: Bytes): Sys {
    var fs := [Fragment(0, [a], 1, 1)];
    Sys(map[a := Bookie(map[0 := x, 1 := y], 0, false), b := Bookie(map[], 0, false)], {},
        Handle(Open, fs, 2, 1, Some(1), 1), Stored(fs, 1), [x, y], None, false)
  }

  /** The same after the third append moved on to node `b` and failed there too. */
  function MovedOn(a: NodeId, b: NodeId, x: Bytes, y: Bytes, z: Bytes, retrying: bool): Sys {
    var fs := [Fragment(0, [a], 1, 1), Fragment(2, [b], 1, 1)];
    TwoAcked(a, b, x, y).(handle := Handle(Open, fs, 2, 1, Some(1), 2), store := Stored(fs, 2), pending := Some(z),
                          retrying := retrying)
  }

  lemma TwoAcks(a: NodeId, b: NodeId, x: Bytes, y: Bytes) returns (s0: Sys, s1: Sys)
    requires a != b
    ensures Created(s0)
    ensures var quiet := ChangeEnv(None, Missed);
            && StepOk(s0, First(x, [Delivered], quiet)) && QuorumLog.Next(s0, First(x, [Delivered], quiet), s1)
            && StepOk(s1, First(y, [Delivered], quiet))
            && QuorumLog.Next(s1, First(y, [Delivered], quiet), TwoAcked(a, b, x, y))
  {
    hide Attempt;
    var fs := [Fragment(0, [a], 1, 1)];
    var empty := Bookie(map[], 0, false);
    var quiet := ChangeEnv(None, Missed);
    s0 := Sys(map[a := empty, b := empty], {}, Handle(Open, fs, 0, 0, None, 1), Stored(fs, 1), [], None, false);
    AttemptOnOne(s0.handle, s0.store, s0.nodes, x, Delivered, quiet, true, a);
    s1 := Sys(map[a := Bookie(map[0 := x], 0, false), b := empty], {}, Handle(Open, fs, 1, 0, Some(0), 1),
              Stored(fs, 1), [x], None, false);
    AttemptOnOne(s1.handle, s1.store, s1.nodes, y, Delivered, quiet, true, a);
  }

  lemma ThirdMovesOn(a: NodeId, b: NodeId, x: Bytes, y: Bytes, z: Bytes)
    requires a != b
    ensures var quiet, change := ChangeEnv(None, Missed), ChangeEnv(Some([b]), Delivered);
            var s2, s3 := TwoAcked(a, b, x, y), MovedOn(a, b, x, y, z, true);
            && StepOk(s2, First(z, [Missed], change)) && QuorumLog.Next(s2, First(z, [Missed], change), s3)
            && StepOk(s3, Second([Missed], quiet))
            && QuorumLog.Next(s3, Second([Missed], quiet), MovedOn(a, b, x, y, z, false))
  {
    hide Attempt, Without;
    var quiet, change := ChangeEnv(None, Missed), ChangeEnv(Some([b]), Delivered);
    var s2, s3 := TwoAcked(a, b, x, y), MovedOn(a, b, x, y, z, true);
    OneNode(a, {a});
    OneNode(b, {a});
    assert NextEnsemble(s2.handle.fragments[0], {a}, [b]) == [b];
    AttemptOnOne(s2.handle, s2.store, s2.nodes, z, Missed, change, true, a);
    AttemptOnOne(s3.handle, s3.store, s3.nodes, z, Missed, quiet, false, b);
  }

  /** A steady run after which sealing hides every acknowledged entry. Two entries are acknowledged on `a`;
      the third append is lost, the change to `b` is accepted, and the second attempt is lost too. Sealing
      asks `b` alone, which holds nothing. */
  lemma SealHidesEverything(a: NodeId, b: NodeId, x: Bytes, y: Bytes, z: Bytes)
    returns (states: seq<Sys>, steps: seq<QuorumLog.Step>)
    requires a != b
    ensures IsSteadyRun(states, steps) && |states| == 5 && Created(states[0])
    ensures states[4] == MovedOn(a, b, x, y, z, false) && states[4].data == [x, y]
    ensures ExactAnswers(states[4].nodes, [b], map[b := 0]) && HighestAnswer(map[b := 0], [b], 0)
    ensures forall m: LedgerMeta, reachable, id | m.fragments == states[4].store.fragments && 0 <= id < 2 ::
              !SurvivesSeal(m, 0, states[4].nodes, reachable, id, [x, y][id])
  {
    hide QuorumLog.Next, StepOk, Created, TwoAcked, SurvivesSeal;
    var quiet, change := ChangeEnv(None, Missed), ChangeEnv(Some([b]), Delivered);
    var s0, s1 := TwoAcks(a, b, x, y);
    ThirdMovesOn(a, b, x, y, z);
    states := [s0, s1, TwoAcked(a, b, x, y), MovedOn(a, b, x, y, z, true), MovedOn(a, b, x, y, z, false)];
    steps := [First(x, [Delivered], quiet), First(y, [Delivered], quiet), First(z, [Missed], change),
              Second([Missed], quiet)];
    assert IsSteadyRun(states, steps);
    Moved(a, b, x, y, z);
    forall m: LedgerMeta, reachable, id | m.fragments == states[4].store.fragments && 0 <= id < 2
      ensures !SurvivesSeal(m, 0, states[4].nodes, reachable, id, [x, y][id])
    {
      SealAfterRun(states, steps, 4, m, 0, reachable);
    }
  }

  lemma Moved(a: NodeId, b: NodeId, x: Bytes, y: Bytes, z: Bytes)
    requires a != b
    ensures var s := MovedOn(a, b, x, y, z, false);
            s.data == [x, y] && s.store.fragments == s.handle.fragments && ExactAnswers(s.nodes, [b], map[b := 0])
  {
  }
}
