/** What fencing and a new metadata version do to a writer that still holds the older one
    (folio-ledger/src/ledger.rs, fragment.rs). */
module Fencing {
  import opened Words
  import opened Protocol
  import opened Ledger
  import opened QuorumLog

  lemma {:induction false} FencedNodesNeverAck(nodes: Nodes, ws: seq<NodeId>, ds: seq<Delivery>, e: Entry)
    requires |ds| == |ws|
    ensures var (after, replies) := SendAll(nodes, ws, ds, e);
            && after.Keys == nodes.Keys
            && (forall n <- nodes :: after[n].fenced == nodes[n].fenced)
            && forall i :: 0 <= i < |ws| && replies[i].Ack? ==> ws[i] in nodes && !nodes[ws[i]].fenced
    decreases ws
  {
    if ws != [] {
      var last := |ws| - 1;
      FencedNodesNeverAck(nodes, ws[..last], ds[..last], e);
    }
  }

  ghost function FencedIn(nodes: Nodes, ws: seq<NodeId>): set<NodeId> {
    set n <- ws | n in nodes && nodes[n].fenced
  }

  /** Too few nodes of the write set are left to form an ack quorum. */
  lemma AcksBounded(nodes: Nodes, ws: seq<NodeId>, ds: seq<Delivery>, e: Entry)
    requires |ds| == |ws| && Distinct(ws)
    ensures |Count(ws, SendAll(nodes, ws, ds, e).1).acks| + |FencedIn(nodes, ws)| <= |ws|
  {
    hide SendAll, Count;
    var replies := SendAll(nodes, ws, ds, e).1;
    FencedNodesNeverAck(nodes, ws, ds, e);
    AcksAreNodes(ws, replies);
    var acked := set i | 0 <= i < |ws| && replies[i].Ack? :: ws[i];
    var fenced := FencedIn(nodes, ws);
    assert acked !! fenced && acked + fenced <= AsSet(ws);
    SubsetSize(acked + fenced, AsSet(ws));
    SetOfSeq(ws);
  }

  lemma {:induction false} SetOfSeq(xs: seq<NodeId>)
    ensures |AsSet(xs)| <= |xs|
  {
    if xs != [] {
      var last := |xs| - 1;
      SetOfSeq(xs[..last]);
      assert AsSet(xs) == AsSet(xs[..last]) + {xs[last]} by { assert xs == xs[..last] + [xs[last]]; }
    }
  }

  /** Stale-writer lockout: once the metadata version has moved past the handle's and more than
      write-quorum minus ack-quorum nodes of its write set are fenced, the next append cannot return
      Ok, whichever answers are lost and whatever spare nodes are offered. */
  lemma StaleWriterLockedOut(h: Handle, store: Stored, nodes: Nodes, data: Bytes, env: AppendEnv)
    requires h.fragments != [] && FragmentOk(h.fragments[|h.fragments| - 1])
    requires h.version < store.version
    requires var f := h.fragments[|h.fragments| - 1];
             |FencedIn(nodes, WriteSet(f))| > f.writeQuorum - f.ackQuorum
    ensures Append(h, store, nodes, data, env).result.value.Err?
  {
    hide SendAll, Count, MaxOf, NextEnsemble, FencedIn;
    var f := h.fragments[|h.fragments| - 1];
    var ws := WriteSet(f);
    AcksBounded(nodes, ws, Deliveries(env.first, |ws|), Entry(h.next, h.lac, data));
  }

  /** The lockout after recovery: `fence_and_seal` has fenced the last fragment of the store's record,
      which is the handle's as well. */
  lemma SealedLedgerLocksOut(h: Handle, store: Stored, nodes: Nodes, data: Bytes, env: AppendEnv, sealed: LedgerMeta)
    requires h.fragments != [] && FragmentOk(h.fragments[|h.fragments| - 1])
    requires h.fragments == sealed.fragments && h.version < sealed.version <= store.version
    requires forall n <- sealed.fragments[|sealed.fragments| - 1].ensemble :: n in nodes && nodes[n].fenced
    ensures Append(h, store, nodes, data, env).result.value.Err?
  {
    hide Append;
    var f := h.fragments[|h.fragments| - 1];
    var ws := WriteSet(f);
    assert FencedIn(nodes, ws) == AsSet(ws) by {
      forall n | n in ws ensures n in nodes && nodes[n].fenced { assert n in f.ensemble; }
    }
    DistinctSet(ws);
    StaleWriterLockedOut(h, store, nodes, data, env);
  }

  lemma {:induction false} DistinctSet(xs: seq<NodeId>)
    requires Distinct(xs)
    ensures |AsSet(xs)| == |xs|
  {
    if xs != [] {
      var last := |xs| - 1;
      DistinctSet(xs[..last]);
      assert AsSet(xs) == AsSet(xs[..last]) + {xs[last]} by { assert xs == xs[..last] + [xs[last]]; }
      assert xs[last] !in AsSet(xs[..last]);
    }
  }

  // ── Exactly when the lockout holds ────────────────────────────────────────

  /** The environment that misses the fenced nodes and reaches the others. */
  ghost function SkipFenced(nodes: Nodes, ws: seq<NodeId>): (ds: seq<Delivery>)
    ensures |ds| == |ws|
  {
    seq(|ws|, i requires 0 <= i < |ws| => if ws[i] in nodes && nodes[ws[i]].fenced then Missed else Delivered)
  }

  /** In it a fenced node's reply is lost and every other node acknowledges. */
  ghost predicate Skipped(nodes: Nodes, ws: seq<NodeId>, replies: seq<Reply>) {
    && |replies| == |ws| && (forall n <- ws :: n in nodes)
    && forall i :: 0 <= i < |ws| ==> if nodes[ws[i]].fenced then replies[i] == Lost else replies[i].Ack?
  }

  lemma {:induction false} SkipFencedReplies(nodes: Nodes, ws: seq<NodeId>, ds: seq<Delivery>, e: Entry)
    requires ds == SkipFenced(nodes, ws) && forall n <- ws :: n in nodes
    ensures Skipped(nodes, ws, SendAll(nodes, ws, ds, e).1)
    decreases ws
  {
    if ws != [] {
      var last := |ws| - 1;
      assert ds[..last] == SkipFenced(nodes, ws[..last]);
      SkipFencedReplies(nodes, ws[..last], ds[..last], e);
      FencedNodesNeverAck(nodes, ws[..last], ds[..last], e);
    }
  }

  lemma {:induction false} CountSkipped(nodes: Nodes, ws: seq<NodeId>, replies: seq<Reply>)
    requires Distinct(ws) && Skipped(nodes, ws, replies)
    ensures var t := Count(ws, replies); !t.fenced && |t.acks| + |FencedIn(nodes, ws)| >= |ws|
    decreases ws
  {
    if ws != [] {
      var last := |ws| - 1;
      var init, n := ws[..last], ws[last];
      SkippedInit(nodes, ws, replies);
      assert ws == init + [n];
      hide Distinct, Skipped, FencedIn;
      CountSkipped(nodes, init, replies[..last]);
      FencedInMore(nodes, init, n);
    }
  }

  lemma SkippedInit(nodes: Nodes, ws: seq<NodeId>, replies: seq<Reply>)
    requires Distinct(ws) && Skipped(nodes, ws, replies) && ws != []
    ensures var last := |ws| - 1;
            && Distinct(ws[..last]) && Skipped(nodes, ws[..last], replies[..last])
            && ws[last] in nodes && ws[last] !in ws[..last]
            && if nodes[ws[last]].fenced then replies[last] == Lost else replies[last].Ack?
  {
  }

  lemma FencedInMore(nodes: Nodes, ws: seq<NodeId>, n: NodeId)
    requires n !in ws && n in nodes
    ensures |FencedIn(nodes, ws + [n])| == |FencedIn(nodes, ws)| + if nodes[n].fenced then 1 else 0
  {
    if nodes[n].fenced {
      assert FencedIn(nodes, ws + [n]) == FencedIn(nodes, ws) + {n};
    } else {
      assert FencedIn(nodes, ws + [n]) == FencedIn(nodes, ws);
    }
  }

  /** The handle is open, its version is behind the store's, and its write set is known. */
  ghost predicate Stale(h: Handle, store: Stored, nodes: Nodes) {
    && h.state == Open && h.fragments != [] && h.version < store.version
    && FragmentOk(h.fragments[|h.fragments| - 1])
    && forall n <- WriteSet(h.fragments[|h.fragments| - 1]) :: n in nodes
  }

  ghost predicate LockedOut(h: Handle, nodes: Nodes)
    requires h.fragments != []
  {
    var f := h.fragments[|h.fragments| - 1];
    |FencedIn(nodes, WriteSet(f))| > f.writeQuorum - f.ackQuorum
  }

  /** The lockout is exact: no environment lets a stale handle's next append succeed if and only if more
      than write-quorum minus ack-quorum nodes of the write set of its last fragment are fenced. */
  lemma LockedOutIff(h: Handle, store: Stored, nodes: Nodes, data: Bytes)
    requires Stale(h, store, nodes)
    ensures (forall env :: Append(h, store, nodes, data, env).result.value.Err?) <==> LockedOut(h, nodes)
  {
    hide Append, FencedIn;
    if LockedOut(h, nodes) {
      forall env ensures Append(h, store, nodes, data, env).result.value.Err? {
        StaleWriterLockedOut(h, store, nodes, data, env);
      }
    } else {
      var quiet := ChangeEnv(None, Missed);
      var ws := WriteSet(h.fragments[|h.fragments| - 1]);
      var env := AppendEnv(SkipFenced(nodes, ws), quiet, [], quiet);
      EscapesOnce(h, store, nodes, data, env);
    }
  }

  lemma EscapesOnce(h: Handle, store: Stored, nodes: Nodes, data: Bytes, env: AppendEnv)
    requires Stale(h, store, nodes) && !LockedOut(h, nodes)
    requires env.first == SkipFenced(nodes, WriteSet(h.fragments[|h.fragments| - 1]))
    ensures Append(h, store, nodes, data, env).result == Some(Ok(h.next))
  {
    hide SendAll, Count, MaxOf, NextEnsemble, FencedIn;
    var ws := WriteSet(h.fragments[|h.fragments| - 1]);
    assert Deliveries(env.first, |ws|) == env.first;
    var e := Entry(h.next, h.lac, data);
    SkipFencedReplies(nodes, ws, env.first, e);
    CountSkipped(nodes, ws, SendAll(nodes, ws, env.first, e).1);
  }

  /** What a refused append leaves of a stale handle: the store as it was, the fences as they were, and
      the handle as it was or with one more fragment, which only it knows. */
  lemma RefusedStaysStale(h: Handle, store: Stored, nodes: Nodes, data: Bytes, env: AppendEnv)
    requires h.state == Open && h.fragments != [] && h.version < store.version
    requires Append(h, store, nodes, data, env).result.value.Err?
    ensures var o := Append(h, store, nodes, data, env);
            && o.store == store && o.handle == h.(fragments := o.handle.fragments)
            && (o.handle.fragments == h.fragments || exists f :: o.handle.fragments == h.fragments + [f])
            && o.nodes.Keys == nodes.Keys && forall n <- nodes :: o.nodes[n].fenced == nodes[n].fenced
  {
    hide SendAll, Count, MaxOf, NextEnsemble;
    var ws := WriteSet(h.fragments[|h.fragments| - 1]);
    FencedNodesNeverAck(nodes, ws, Deliveries(env.first, |ws|), Entry(h.next, h.lac, data));
  }

  /** So the append after a refused one is decided by the fragment that is then the last: it cannot succeed
      if and only if enough of that fragment's write set is fenced, whoever fenced the one before it. */
  lemma SecondAppendIff(h: Handle, store: Stored, nodes: Nodes, data: Bytes, env: AppendEnv, again: Bytes)
    requires h.state == Open && h.fragments != [] && h.version < store.version
    requires var one := Append(h, store, nodes, data, env);
             && one.result.value.Err? && one.handle.fragments != []
             && FragmentOk(one.handle.fragments[|one.handle.fragments| - 1])
             && forall n <- WriteSet(one.handle.fragments[|one.handle.fragments| - 1]) :: n in nodes
    ensures var one := Append(h, store, nodes, data, env);
            (forall more :: Append(one.handle, one.store, one.nodes, again, more).result.value.Err?)
            <==> LockedOut(one.handle, nodes)
  {
    hide Append;
    RefusedStaysStale(h, store, nodes, data, env);
    var one := Append(h, store, nodes, data, env);
    LockedOutIff(one.handle, one.store, one.nodes, again);
    var ws := WriteSet(one.handle.fragments[|one.handle.fragments| - 1]);
    assert FencedIn(one.nodes, ws) == FencedIn(nodes, ws);
  }

  /** A fragment change whose put takes effect while the answer is lost leaves the handle behind the store: by
      its own write the writer has become a stale one. */
  lemma LostAnswerMakesStale(h: Handle, store: Stored, failed: seq<NodeId>, env: ChangeEnv)
    requires h.fragments != [] && failed != [] && env.put == Unanswered && h.version == store.version
    ensures var (h', store', ok) := ChangeFragment(h, store, failed, h.next, env);
            && !ok && h'.version == h.version
            && (h'.fragments != h.fragments ==> store'.fragments == h'.fragments && h'.version < store'.version)
  {
  }

  /** A fenced answer that gets through leaves the handle as it was, so the lockout stays in force. */
  lemma FencedAnswerKeepsHandle(h: Handle, store: Stored, nodes: Nodes, data: Bytes, env: AppendEnv)
    requires h.state == Open && h.fragments != []
    requires var ws := WriteSet(h.fragments[|h.fragments| - 1]);
             Fenced in SendAll(nodes, ws, Deliveries(env.first, |ws|), Entry(h.next, h.lac, data)).1
    ensures var o := Append(h, store, nodes, data, env);
            o.handle == h && o.store == store && o.result == Some(Err(LedgerFenced))
  {
    hide SendAll, MaxOf, NextEnsemble;
    var ws := WriteSet(h.fragments[|h.fragments| - 1]);
    FencedIsCounted(ws, SendAll(nodes, ws, Deliveries(env.first, |ws|), Entry(h.next, h.lac, data)).1);
  }

  lemma {:induction false} FencedIsCounted(ws: seq<NodeId>, replies: seq<Reply>)
    requires |ws| == |replies|
    ensures Count(ws, replies).fenced <==> Fenced in replies
    decreases ws
  {
    if ws != [] {
      var last := |ws| - 1;
      FencedIsCounted(ws[..last], replies[..last]);
      assert replies == replies[..last] + [replies[last]];
    }
  }

  /** The lockout covers the next append only. If no fenced answer gets through, the refused append
      leaves its new fragment in the handle, on spare nodes nobody fenced, and the append after it is
      acknowledged on the sealed ledger. */
  lemma SecondAppendEscapes(a: NodeId, b: NodeId, data: Bytes)
    requires a != b
    ensures var h := Handle(Open, [Fragment(0, [a], 1, 1)], 0, 0, None, 1);
            var store := Stored(h.fragments, 3);
            var nodes := map[a := Bookie(map[], 0, true), b := Bookie(map[], 0, false)];
            var env := AppendEnv([Missed], ChangeEnv(Some([b]), Delivered), [], ChangeEnv(None, Missed));
            var one := Append(h, store, nodes, data, env);
            var two := Append(one.handle, one.store, one.nodes, data, env.(first := [Delivered]));
            && one.result.value.Err? && one.store == store
            && two.result == Some(Ok(0))
  {
    hide Append, Without;
    var h := Handle(Open, [Fragment(0, [a], 1, 1)], 0, 0, None, 1);
    var store := Stored(h.fragments, 3);
    var nodes := map[a := Bookie(map[], 0, true), b := Bookie(map[], 0, false)];
    var env := AppendEnv([Missed], ChangeEnv(Some([b]), Delivered), [], ChangeEnv(None, Missed));
    AppendToOne(h, store, nodes, data, env, a, Missed);
    OneNode(a, {a});
    OneNode(b, {a});
    OneNode(b, {b});
    assert NextEnsemble(h.fragments[0], {a}, [b]) == [b];
    var one := Append(h, store, nodes, data, env);
    assert one.handle == h.(fragments := h.fragments + [Fragment(0, [b], 1, 1)]);
    AppendToOne(one.handle, one.store, one.nodes, data, env.(first := [Delivered]), b, Delivered);
  }
}
