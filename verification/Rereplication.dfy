/** Re-replication of one fragment after a node failure (folio-node/src/recovery/mod.rs). */
module Rereplication {
  import opened Words
  import opened Protocol
  import opened Metadata
  import opened Ledger
  import opened QuorumLog

  ghost predicate StrictlyIncreasing(fs: seq<Fragment>) {
    forall i, j :: 0 <= i < j < |fs| ==> fs[i].firstEntry < fs[j].firstEntry
  }

  /** The nodes of an ensemble that hold an entry. */
  ghost function HoldersIn(ensemble: seq<NodeId>, nodes: Nodes, id: nat): set<NodeId> {
    set n <- ensemble | n in nodes && id in nodes[n].log
  }

  /** Index of the last fragment that starts at or before the entry, or the number of fragments. */
  method FindFragment(fs: seq<Fragment>, id: nat) returns (i: nat)
    ensures i <= |fs|
    ensures i < |fs| ==> fs[i].firstEntry <= id && (forall j :: i < j < |fs| ==> fs[j].firstEntry > id)
                         && Owner(fs, id) == Some(fs[i])
    ensures i == |fs| ==> Owner(fs, id) == None
  {
    i := |fs|;
    assert fs[..i] == fs;
    while i > 0
      invariant 0 <= i <= |fs|
      invariant forall j :: i <= j < |fs| ==> fs[j].firstEntry > id
      invariant Owner(fs, id) == Owner(fs[..i], id)
    {
      i := i - 1;
      assert fs[..i + 1][..i] == fs[..i];
      if fs[i].firstEntry <= id {
        return;
      }
    }
    i := |fs|;
  }

  predicate IsSpare(n: NodeId, failed: NodeId, ensemble: seq<NodeId>) {
    n != failed && n !in ensemble
  }

  /** The first listed node that is neither the failed one nor in the ensemble. */
  function FirstSpare(listed: seq<NodeId>, failed: NodeId, ensemble: seq<NodeId>): (t: Option<NodeId>)
    ensures t.Some? ==> t.value in listed && IsSpare(t.value, failed, ensemble)
    ensures t.None? ==> forall n <- listed :: !IsSpare(n, failed, ensemble)
  {
    if listed == [] then None
    else if IsSpare(listed[0], failed, ensemble) then Some(listed[0])
    else FirstSpare(listed[1..], failed, ensemble)
  }

  method FindTarget(listed: seq<NodeId>, failed: NodeId, ensemble: seq<NodeId>) returns (t: Option<NodeId>)
    ensures t == FirstSpare(listed, failed, ensemble)
    ensures t.Some? ==> exists i :: 0 <= i < |listed| && listed[i] == t.value
                                    && forall j :: 0 <= j < i ==> !IsSpare(listed[j], failed, ensemble)
  {
    for i := 0 to |listed|
      invariant forall j :: 0 <= j < i ==> !IsSpare(listed[j], failed, ensemble)
      invariant FirstSpare(listed, failed, ensemble) == FirstSpare(listed[i..], failed, ensemble)
    {
      if IsSpare(listed[i], failed, ensemble) {
        return Some(listed[i]);
      }
      assert listed[i..][1..] == listed[i + 1..];
    }
    t := None;
  }

  /** Where copying stops: the next later start, or the last-add-confirmed id of the ledger. */
  function CopyEnd(fs: seq<Fragment>, start: nat, lac: nat): nat {
    if fs == [] then lac
    else if fs[0].firstEntry > start then fs[0].firstEntry
    else CopyEnd(fs[1..], start, lac)
  }

  lemma {:induction false} CopyEndIsNextStart(fs: seq<Fragment>, i: nat, lac: nat)
    requires i < |fs| && StrictlyIncreasing(fs)
    ensures CopyEnd(fs, fs[i].firstEntry, lac) == if i + 1 < |fs| then fs[i + 1].firstEntry else lac
    decreases fs
  {
    if i > 0 {
      assert forall j :: 0 <= j < |fs[1..]| ==> fs[1..][j] == fs[j + 1];
      CopyEndIsNextStart(fs[1..], i - 1, lac);
    } else if |fs| > 1 {
      assert fs[1..][0] == fs[1];
    }
  }

  /** The source can be read for the whole range and the target takes it. */
  ghost predicate CanCopy(nodes: Nodes, source: NodeId, target: NodeId, from: nat, to: nat, reachable: set<NodeId>)
    requires source in nodes && target in nodes
  {
    from < to ==>
      && source in reachable && target in reachable && !nodes[target].fenced
      && forall id :: from <= id < to ==> id in nodes[source].log
  }

  /** Copying entry by entry: the target ends up with every entry of the range, the source's bytes
      where it had none, and nothing else changes. */
  method CopyRange(nodes: Nodes, source: NodeId, target: NodeId, from: nat, to: nat, reachable: set<NodeId>,
                   lacOf: nat -> nat)
    returns (after: Nodes, ok: bool)
    requires source in nodes && target in nodes && source != target
    ensures after.Keys == nodes.Keys && forall n <- nodes :: n != target ==> after[n] == nodes[n]
    ensures Grows(nodes, after)
    ensures forall id: nat :: id in after[target].log && id !in nodes[target].log ==>
              from <= id < to && id in nodes[source].log && after[target].log[id] == nodes[source].log[id]
    ensures ok ==> forall id :: from <= id < to ==> id in after[target].log
    ensures ok <==> CanCopy(nodes, source, target, from, to, reachable)
  {
    after := nodes;
    var id := from;
    while id < to
      invariant from <= id && (from <= to ==> id <= to)
      invariant after.Keys == nodes.Keys && forall n <- nodes :: n != target ==> after[n] == nodes[n]
      invariant Grows(nodes, after) && after[target].fenced == nodes[target].fenced
      invariant id > from ==> source in reachable && target in reachable && !nodes[target].fenced
      invariant forall j: nat :: j in after[target].log && j !in nodes[target].log ==>
                  from <= j < to && j in nodes[source].log && after[target].log[j] == nodes[source].log[j]
      invariant forall j :: from <= j < id ==> j in nodes[source].log && j in after[target].log
    {
      var read := NodeRead(after, reachable, source, id);
      if read.Err? || target !in reachable {
        return after, false;
      }
      var (b, reply) := AddEntry(after[target], Entry(id, lacOf(id), read.value));
      if reply.Fenced? {
        return after, false;
      }
      after := after[target := b];
      id := id + 1;
    }
    ok := true;
  }

  /** Index of the first fragment with the given start; the update goes there. */
  method FindStart(fs: seq<Fragment>, start: nat, at: nat) returns (j: nat)
    requires at < |fs| && fs[at].firstEntry == start
    ensures j <= at && fs[j].firstEntry == start && forall k :: 0 <= k < j ==> fs[k].firstEntry != start
  {
    j := 0;
    while fs[j].firstEntry != start
      invariant j <= at && forall k :: 0 <= k < j ==> fs[k].firstEntry != start
      decreases at - j
    {
      j := j + 1;
    }
  }

  /** When the call succeeds: a fragment owns the entry, it has a survivor, a spare node is listed, both are
      known, the range can be copied, and the record's version is current. */
  ghost predicate Restorable(ledgers: Ledgers, nodes: Nodes, meta: LedgerMeta, failed: NodeId, from: nat,
                             listed: seq<NodeId>, reachable: set<NodeId>)
  {
    var owner := Owner(meta.fragments, from);
    && owner.Some?
    && var survivors := Without(owner.value.ensemble, {failed});
    var target := FirstSpare(listed, failed, owner.value.ensemble);
    && survivors != [] && target.Some? && survivors[0] in nodes && target.value in nodes
    && CanCopy(nodes, survivors[0], target.value, from,
               CopyEnd(meta.fragments, owner.value.firstEntry, meta.lastAddConfirmed), reachable)
    && meta.id in ledgers && ledgers[meta.id].version == meta.version
  }

  /** `restore_replication`. Fragment `i` owns the entry; fragment `j` is the one whose ensemble is
      edited, the first with the same start. If they are the same, the ensemble keeps its size and stays
      free of duplicates, the failed node is gone, no entry of the copied range has fewer holders in it
      than before, and the entry at the range's end has fewer exactly if the failed node held it and the
      new one did not. If they differ, the owner keeps the failed node. */
  method RestoreReplication(ledgers: Ledgers, nodes: Nodes, meta: LedgerMeta, failed: NodeId, from: nat,
                            listed: seq<NodeId>, reachable: set<NodeId>, lacOf: nat -> nat, now: nat)
    returns (ledgers': Ledgers, nodes': Nodes, r: Result<LedgerMeta>, ghost i: nat, ghost j: nat)
    ensures Grows(nodes, nodes')
    ensures r.Ok? <==> Restorable(ledgers, nodes, meta, failed, from, listed, reachable)
    ensures r.Err? ==> ledgers' == ledgers
    ensures r.Ok? ==> i < |meta.fragments| && Owner(meta.fragments, from) == Some(meta.fragments[i])
    ensures r.Ok? ==> forall k :: i < k < |meta.fragments| ==> meta.fragments[k].firstEntry > from
    ensures r.Ok? ==> j <= i && (j == i <==> StartsFirst(meta.fragments, i))
    ensures r.Ok? ==> ledgers' == ledgers[meta.id := r.value]
    ensures r.Ok? ==> FirstSpare(listed, failed, meta.fragments[i].ensemble).Some?
    ensures r.Ok? ==> Edited(meta.fragments, r.value.fragments, j, failed,
                             FirstSpare(listed, failed, meta.fragments[i].ensemble).value)
    ensures r.Ok? && j == i && Distinct(meta.fragments[i].ensemble) ==>
              RedundancyKept(meta, r.value, i, failed, from, nodes, nodes')
    ensures r.Ok? && j == i && Distinct(meta.fragments[i].ensemble) ==>
              LosesAtEnd(meta, r.value, i, failed, FirstSpare(listed, failed, meta.fragments[i].ensemble).value, nodes,
                         nodes')
  {
    hide Without, Distinct, HoldersIn, CopyEnd, Owner, Grows, FirstSpare, RedundancyKept, LosesAtEnd;
    ledgers', nodes', i, j := ledgers, nodes, 0, 0;
    GrowsSelf(nodes);
    var at := FindFragment(meta.fragments, from);
    if at == |meta.fragments| {
      return ledgers', nodes', Err(InvalidFragment), i, j;
    }
    i := at;
    var fragment := meta.fragments[at];
    var survivors := Without(fragment.ensemble, {failed});
    WithoutIs(fragment.ensemble, {failed});
    if survivors == [] {
      return ledgers', nodes', Err(MetadataError), i, j;
    }
    var source := survivors[0];
    var target := FindTarget(listed, failed, fragment.ensemble);
    if target.None? || source !in nodes || target.value !in nodes {
      return ledgers', nodes', Err(MetadataError), i, j;
    }
    assert source in survivors;
    var to := CopyEnd(meta.fragments, fragment.firstEntry, meta.lastAddConfirmed);
    var ok;
    nodes', ok := CopyRange(nodes, source, target.value, from, to, reachable, lacOf);
    if !ok {
      return ledgers', nodes', Err(MetadataError), i, j;
    }
    var edit := FindStart(meta.fragments, fragment.firstEntry, at);
    j := edit;
    var old_ := meta.fragments[edit];
    var ensemble := Without(old_.ensemble, {failed}) + [target.value];
    var updated := meta.(fragments := meta.fragments[edit := old_.(ensemble := ensemble)]);
    assert failed !in ensemble by { WithoutIs(old_.ensemble, {failed}); }
    var (put, result) := Atomic(ledgers, Put(updated), now);
    ledgers', r := put, result;
    if r.Ok? && edit == at && Distinct(fragment.ensemble) {
      KeepsRedundancy(meta, r.value, at, failed, target.value, from, nodes, nodes');
    }
  }

  /** The new ensemble, and the holders of every entry of the copied range. */
  ghost predicate RedundancyKept(before: LedgerMeta, after: LedgerMeta, i: nat, failed: NodeId, from: nat, nodes: Nodes,
                                 nodes': Nodes)
    requires i < |before.fragments| == |after.fragments|
  {
    var old_, new_ := before.fragments[i].ensemble, after.fragments[i].ensemble;
    && Restored(old_, new_, failed)
    && forall id :: from <= id < CopyEnd(before.fragments, before.fragments[i].firstEntry, before.lastAddConfirmed) ==>
         |HoldersIn(new_, nodes', id)| >= |HoldersIn(old_, nodes, id)|
  }

  /** The entry at the end of the range is not copied. */
  ghost predicate LosesAtEnd(before: LedgerMeta, after: LedgerMeta, i: nat, failed: NodeId, target: NodeId,
                             nodes: Nodes, nodes': Nodes)
    requires i < |before.fragments| == |after.fragments|
  {
    var old_, new_ := before.fragments[i].ensemble, after.fragments[i].ensemble;
    var end := CopyEnd(before.fragments, before.fragments[i].firstEntry, before.lastAddConfirmed);
    var fewer := |HoldersIn(new_, nodes', end)| < |HoldersIn(old_, nodes, end)|;
    fewer <==> failed in HoldersIn(old_, nodes, end) && target !in HoldersIn([target], nodes, end)
  }

  lemma KeepsRedundancy(before: LedgerMeta, after: LedgerMeta, i: nat, failed: NodeId, target: NodeId, from: nat,
                        nodes: Nodes, nodes': Nodes)
    requires i < |before.fragments| == |after.fragments|
    requires var old_, new_ := before.fragments[i].ensemble, after.fragments[i].ensemble;
             && Distinct(old_) && IsSpare(target, failed, old_) && new_ == Without(old_, {failed}) + [target]
    requires var to := CopyEnd(before.fragments, before.fragments[i].firstEntry, before.lastAddConfirmed);
             && Grows(nodes, nodes') && target in nodes && SameHolders(nodes, nodes', to)
             && forall id :: from <= id < to ==> id in nodes'[target].log
    ensures RedundancyKept(before, after, i, failed, from, nodes, nodes')
    ensures LosesAtEnd(before, after, i, failed, target, nodes, nodes')
  {
    hide Distinct, CopyEnd, Grows, HoldersIn, Without, SameHolders;
    var old_, new_ := before.fragments[i].ensemble, after.fragments[i].ensemble;
    var to := CopyEnd(before.fragments, before.fragments[i].firstEntry, before.lastAddConfirmed);
    EnsembleRestored(old_, failed, target);
    assert target in nodes' by { GrowsKeys(nodes, nodes'); }
    forall id | from <= id < to ensures |HoldersIn(new_, nodes', id)| >= |HoldersIn(old_, nodes, id)| {
      HoldersKept(old_, failed, target, nodes, nodes', id);
    }
    LosesAHolderIff(old_, failed, target, nodes, nodes', to);
  }

  lemma GrowsKeys(a: Nodes, b: Nodes)
    requires Grows(a, b)
    ensures a.Keys == b.Keys
  {
  }

  lemma GrowsSelf(nodes: Nodes)
    ensures Grows(nodes, nodes)
  {
  }

  /** No earlier fragment starts where this one does. */
  ghost predicate StartsFirst(fs: seq<Fragment>, i: nat)
    requires i < |fs|
  {
    forall k :: 0 <= k < i ==> fs[k].firstEntry != fs[i].firstEntry
  }

  /** Only the ensemble of fragment `j` differs: the failed node is out and the target in. */
  ghost predicate Edited(before: seq<Fragment>, after: seq<Fragment>, j: nat, failed: NodeId, target: NodeId) {
    && j < |before| == |after|
    && after == before[j := before[j].(ensemble := Without(before[j].ensemble, {failed}) + [target])]
    && failed !in after[j].ensemble
  }

  ghost predicate Restored(before: seq<NodeId>, after: seq<NodeId>, failed: NodeId) {
    && Distinct(after) && failed !in after
    && (failed in before ==> |after| == |before|)
  }

  lemma {:induction false} WithoutOneSize(xs: seq<NodeId>, x: NodeId)
    requires Distinct(xs)
    ensures |Without(xs, {x})| == if x in xs then |xs| - 1 else |xs|
  {
    if xs != [] {
      var last := |xs| - 1;
      WithoutOneSize(xs[..last], x);
      assert xs == xs[..last] + [xs[last]];
    }
  }

  lemma EnsembleRestored(ensemble: seq<NodeId>, failed: NodeId, target: NodeId)
    requires Distinct(ensemble) && target !in ensemble && target != failed
    ensures Restored(ensemble, Without(ensemble, {failed}) + [target], failed)
  {
    hide Without;
    WithoutIs(ensemble, {failed});
    WithoutOneSize(ensemble, failed);
    var kept := Without(ensemble, {failed});
    forall i | 0 <= i < |kept| ensures kept[i] != target { assert kept[i] in ensemble; }
  }

  /** The target makes up for the failed node. */
  lemma HoldersKept(ensemble: seq<NodeId>, failed: NodeId, target: NodeId, nodes: Nodes, after: Nodes, id: nat)
    requires Distinct(ensemble) && target !in ensemble && target != failed && Grows(nodes, after)
    requires target in after && id in after[target].log
    ensures |HoldersIn(Without(ensemble, {failed}) + [target], after, id)| >= |HoldersIn(ensemble, nodes, id)|
  {
    hide Without;
    WithoutIs(ensemble, {failed});
    var before, now := HoldersIn(ensemble, nodes, id), HoldersIn(Without(ensemble, {failed}) + [target], after, id);
    assert (before - {failed}) + {target} <= now;
    SubsetSize((before - {failed}) + {target}, now);
  }

  /** No node gains or loses the entry. */
  ghost predicate SameHolders(a: Nodes, b: Nodes, id: nat) {
    a.Keys == b.Keys && forall n <- a :: id in b[n].log <==> id in a[n].log
  }

  /** An entry that is not copied has fewer holders in the new ensemble exactly if the failed node held it
      and the target did not. */
  lemma LosesAHolderIff(ensemble: seq<NodeId>, failed: NodeId, target: NodeId, nodes: Nodes, after: Nodes, id: nat)
    requires Distinct(ensemble) && IsSpare(target, failed, ensemble) && SameHolders(nodes, after, id)
    ensures |HoldersIn(Without(ensemble, {failed}) + [target], after, id)| < |HoldersIn(ensemble, nodes, id)|
            <==> failed in HoldersIn(ensemble, nodes, id) && target !in HoldersIn([target], nodes, id)
  {
    hide Without;
    WithoutIs(ensemble, {failed});
    var before, now := HoldersIn(ensemble, nodes, id), HoldersIn(Without(ensemble, {failed}) + [target], after, id);
    assert now == (before - {failed}) + HoldersIn([target], nodes, id);
    assert HoldersIn([target], nodes, id) <= {target};
    SwapSize(before, failed, target, HoldersIn([target], nodes, id));
  }

  lemma SwapSize<T>(before: set<T>, failed: T, target: T, added: set<T>)
    requires target !in before && added <= {target}
    ensures |(before - {failed}) + added| < |before| <==> failed in before && target !in added
  {
    var kept := before - {failed};
    if failed in before {
      assert before == kept + {failed};
    } else {
      assert kept == before;
    }
    if target in added {
      assert added == {target};
    } else {
      assert added == {};
      assert kept + added == kept;
    }
  }

  /** Two fragments with the same start, as a refused append leaves them: the fragment that owns the entry
      still names the failed node after the call, and the one before it was edited. */
  method EqualStartsKeepTheFailedNode(failed: NodeId, a: NodeId, b: NodeId, c: NodeId)
    returns (ledgers: Ledgers, r: Result<LedgerMeta>)
    requires failed != a && a != b && b != failed && c != failed && c != a && c != b
    ensures r.Ok? && |r.value.fragments| == 2
    ensures r.value.fragments[1].ensemble == [failed, a] && r.value.fragments[0].ensemble == [b, c]
  {
    var fs := [Fragment(0, [b], 1, 1), Fragment(0, [failed, a], 1, 1)];
    var meta := LedgerMeta(1, Open, fs, None, 0, 0, 1);
    var empty := Bookie(map[], 0, false);
    var nodes := map[failed := empty, a := empty, b := empty, c := empty];
    assert fs[..1] == [fs[0]] && Owner(fs, 0) == Some(fs[1]);
    assert CopyEnd(fs, 0, 0) == 0 by {
      assert fs[1..][0] == fs[1] && fs[1..][1..] == [];
      assert CopyEnd(fs[1..], 0, 0) == CopyEnd(fs[1..][1..], 0, 0) == 0;
    }
    WithoutTwo(failed, a);
    WithoutOther(b, failed);
    assert FirstSpare([c], failed, [failed, a]) == Some(c);
    var nodes';
    ghost var i, j;
    ledgers, nodes', r, i, j := RestoreReplication(map[1 := meta], nodes, meta, failed, 0, [c], {}, id => 0, 1);
    assert fs[0].firstEntry == fs[1].firstEntry;
  }

  function TwoHolders(failed: NodeId, a: NodeId, c: NodeId, x: Bytes, y: Bytes): Nodes {
    var full := Bookie(map[0 := x, 1 := y], 0, false);
    map[failed := full, a := full, c := Bookie(map[], 0, false)]
  }

  function TwoHolderMeta(failed: NodeId, a: NodeId): LedgerMeta {
    LedgerMeta(1, Open, [Fragment(0, [failed, a], 2, 1)], Some(1), 1, 0, 1)
  }

  lemma TwoHoldersRestorable(failed: NodeId, a: NodeId, c: NodeId, x: Bytes, y: Bytes)
    requires failed != a && c != failed && c != a
    ensures var nodes, meta := TwoHolders(failed, a, c, x, y), TwoHolderMeta(failed, a);
            && Restorable(map[1 := meta], nodes, meta, failed, 0, [c], {a, c})
            && CopyEnd(meta.fragments, 0, 1) == 1 && FirstSpare([c], failed, [failed, a]) == Some(c)
            && HoldersIn([failed, a], nodes, 0) == {failed, a} == HoldersIn([failed, a], nodes, 1)
            && c !in HoldersIn([c], nodes, 1) && Distinct([failed, a])
  {
    var fs := TwoHolderMeta(failed, a).fragments;
    assert fs[..0] == [] && Owner(fs, 0) == Some(fs[0]);
    assert fs[1..] == [];
    WithoutTwo(failed, a);
  }

  /** Two nodes hold entries 0 and 1, the LAC is 1, and one node fails: entry 0 is copied, entry 1 is left with
      one holder. */
  method LastEntryLosesAHolder(failed: NodeId, a: NodeId, c: NodeId, x: Bytes, y: Bytes)
    returns (nodes: Nodes, nodes': Nodes, r: Result<LedgerMeta>)
    requires failed != a && c != failed && c != a
    ensures HoldersIn([failed, a], nodes, 1) == {failed, a}
    ensures r.Ok? && |r.value.fragments| == 1 && r.value.fragments[0].ensemble == [a, c]
    ensures |HoldersIn([a, c], nodes', 0)| >= 2 && |HoldersIn([a, c], nodes', 1)| < 2
  {
    hide Restorable, HoldersIn, CopyEnd, FirstSpare, Distinct, TwoHolders, Without, Owner, Grows;
    TwoHoldersRestorable(failed, a, c, x, y);
    WithoutTwo(failed, a);
    nodes := TwoHolders(failed, a, c, x, y);
    var meta := TwoHolderMeta(failed, a);
    ghost var i, j;
    var ledgers;
    ledgers, nodes', r, i, j := RestoreReplication(map[1 := meta], nodes, meta, failed, 0, [c], {a, c}, id => 0, 1);
    assert i == 0 && StartsFirst(meta.fragments, 0);
  }

  lemma WithoutTwo(x: NodeId, y: NodeId)
    requires x != y
    ensures Without([x, y], {x}) == [y]
  {
    assert [x, y][..1] == [x];
    OneNode(x, {x});
  }

  lemma WithoutOther(x: NodeId, y: NodeId)
    requires x != y
    ensures Without([x], {y}) == [x]
  {
    OneNode(x, {y});
  }
}
