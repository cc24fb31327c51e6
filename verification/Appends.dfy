/**
 * When an append succeeds, and what LAC a storage node records (folio-ledger/src/ledger.rs), stated through which
 * requests are delivered to which nodes.
 */
module Appends {
  import opened Words
  import opened Protocol
  import opened Ledger
  import opened QuorumLog

  // ── One request ───────────────────────────────────────────────────────────

  /** What one request does, on every input: a request that arrives at an unfenced node leaves the entry there
      and is answered with the LAC the node then has; a fenced node refuses and is left as it was. */
  lemma RequestIs(nodes: Nodes, n: NodeId, d: Delivery, e: Entry)
    ensures var (after, reply) := Deliver(nodes, n, d, e);
            && after.Keys == nodes.Keys && (forall m <- nodes :: m != n ==> after[m] == nodes[m])
            && (n !in nodes || d == Missed ==> after == nodes && reply == Lost)
            && (n in nodes && d != Missed ==>
                  && after[n].fenced == nodes[n].fenced
                  && (nodes[n].fenced ==> after[n] == nodes[n])
                  && (!nodes[n].fenced ==>
                        e.id in after[n].log && (e.id !in nodes[n].log ==> after[n].log[e.id] == e.data))
                  && (d == Unanswered ==> reply == Lost)
                  && (d == Delivered ==> reply == if nodes[n].fenced then Fenced else Ack(after[n].lac)))
  {
  }

  // ── All requests of an attempt ────────────────────────────────────────────

  /** The request to `n` is handled and its answer comes back. */
  predicate Answers(nodes: Nodes, n: NodeId, d: Delivery) {
    n in nodes && d == Delivered
  }

  /** The reply is lost, a refusal or an ack, as delivery and fence have it. */
  ghost predicate ReplyIs(nodes: Nodes, n: NodeId, d: Delivery, reply: Reply) {
    && (reply.Lost? <==> !Answers(nodes, n, d))
    && (reply.Fenced? <==> Answers(nodes, n, d) && nodes[n].fenced)
  }

  ghost predicate RepliesAre(nodes: Nodes, ws: seq<NodeId>, ds: seq<Delivery>, replies: seq<Reply>)
    requires |ds| == |ws| == |replies|
  {
    forall i :: 0 <= i < |ws| ==> ReplyIs(nodes, ws[i], ds[i], replies[i])
  }

  /** Nodes outside `ws` are as they were. */
  ghost predicate Untouched(a: Nodes, b: Nodes, ws: seq<NodeId>) {
    a.Keys == b.Keys && forall m <- a :: m !in ws ==> b[m] == a[m]
  }

  lemma OneReply(nodes: Nodes, init: seq<NodeId>, before: Nodes, n: NodeId, d: Delivery, e: Entry)
    requires Untouched(nodes, before, init) && n !in init
    ensures var (after, reply) := Deliver(before, n, d, e);
            ReplyIs(nodes, n, d, reply) && Untouched(nodes, after, init + [n])
  {
    hide Deliver;
    RequestIs(before, n, d, e);
  }

  lemma RepliesPush(nodes: Nodes, ws: seq<NodeId>, ds: seq<Delivery>, rs: seq<Reply>, n: NodeId, d: Delivery, r: Reply)
    requires |ds| == |ws| == |rs| && RepliesAre(nodes, ws, ds, rs) && ReplyIs(nodes, n, d, r)
    ensures RepliesAre(nodes, ws + [n], ds + [d], rs + [r])
  {
    hide ReplyIs;
  }

  lemma DistinctInit(ws: seq<NodeId>)
    requires Distinct(ws) && ws != []
    ensures Distinct(ws[..|ws| - 1]) && ws[|ws| - 1] !in ws[..|ws| - 1]
  {
  }

  /** Each node of a write set without repetitions answers for itself, and no other node is touched. */
  lemma {:induction false} SendAllReplies(nodes: Nodes, ws: seq<NodeId>, ds: seq<Delivery>, e: Entry)
    requires |ds| == |ws| && Distinct(ws)
    ensures var (after, replies) := SendAll(nodes, ws, ds, e);
            RepliesAre(nodes, ws, ds, replies) && Untouched(nodes, after, ws)
    decreases ws
  {
    hide Deliver, ReplyIs, Distinct;
    if ws == [] {
      assert SendAll(nodes, ws, ds, e) == (nodes, []);
    } else {
      hide Untouched, RepliesAre;
      var last := |ws| - 1;
      var init, dinit := ws[..last], ds[..last];
      DistinctInit(ws);
      SendAllReplies(nodes, init, dinit, e);
      var (before, rs) := SendAll(nodes, init, dinit, e);
      OneReply(nodes, init, before, ws[last], ds[last], e);
      RepliesPush(nodes, init, dinit, rs, ws[last], ds[last], Deliver(before, ws[last], ds[last], e).1);
      assert ws == init + [ws[last]] && ds == dinit + [ds[last]];
    }
  }

  ghost function Acking(ws: seq<NodeId>, replies: seq<Reply>): set<NodeId>
    requires |ws| == |replies|
  {
    set i | 0 <= i < |ws| && replies[i].Ack? :: ws[i]
  }

  ghost function Losing(ws: seq<NodeId>, replies: seq<Reply>): set<NodeId>
    requires |ws| == |replies|
  {
    set i | 0 <= i < |ws| && replies[i].Lost? :: ws[i]
  }

  ghost predicate SomeFenced(replies: seq<Reply>) {
    exists i :: 0 <= i < |replies| && replies[i].Fenced?
  }

  /** The count is fenced exactly if a reply is, and otherwise has every acknowledging node as one ack and every
      node without an answer among the failed. */
  lemma {:induction false} CountIs(ws: seq<NodeId>, replies: seq<Reply>)
    requires |ws| == |replies| && Distinct(ws)
    ensures var t := Count(ws, replies);
            && (t.fenced <==> SomeFenced(replies))
            && (!t.fenced ==> |t.acks| == |Acking(ws, replies)| && AsSet(t.failed) == Losing(ws, replies))
    decreases ws
  {
    if ws != [] {
      hide Acking, Losing, SomeFenced;
      var last := |ws| - 1;
      CountIs(ws[..last], replies[..last]);
      SplitReplies(ws, replies);
      SplitFenced(replies);
      var t := Count(ws[..last], replies[..last]);
      assert AsSet(t.failed + [ws[last]]) == AsSet(t.failed) + {ws[last]};
    }
  }

  lemma SplitFenced(replies: seq<Reply>)
    requires replies != []
    ensures SomeFenced(replies) <==> SomeFenced(replies[..|replies| - 1]) || replies[|replies| - 1].Fenced?
  {
    var init := replies[..|replies| - 1];
    if i :| 0 <= i < |init| && init[i].Fenced? {
      assert replies[i].Fenced?;
    }
    if i :| 0 <= i < |replies| && replies[i].Fenced? && i < |init| {
      assert init[i].Fenced?;
    }
  }

  lemma SplitReplies(ws: seq<NodeId>, replies: seq<Reply>)
    requires |ws| == |replies| && Distinct(ws) && ws != []
    ensures var last := |ws| - 1;
            var init, rinit := ws[..last], replies[..last];
            && ws[last] !in Acking(init, rinit)
            && Acking(ws, replies) == Acking(init, rinit) + (if replies[last].Ack? then {ws[last]} else {})
            && Losing(ws, replies) == Losing(init, rinit) + (if replies[last].Lost? then {ws[last]} else {})
  {
    var last := |ws| - 1;
    var init, rinit := ws[..last], replies[..last];
    forall n | n in Acking(ws, replies) && n != ws[last] ensures n in Acking(init, rinit) {
      var i :| 0 <= i < |ws| && replies[i].Ack? && ws[i] == n;
      assert rinit[i].Ack? && init[i] == n;
    }
    forall n | n in Losing(ws, replies) && n != ws[last] ensures n in Losing(init, rinit) {
      var i :| 0 <= i < |ws| && replies[i].Lost? && ws[i] == n;
      assert rinit[i].Lost? && init[i] == n;
    }
    forall n | n in Acking(init, rinit) ensures n in Acking(ws, replies) {
      var i :| 0 <= i < last && rinit[i].Ack? && init[i] == n;
      assert replies[i].Ack? && ws[i] == n;
    }
    forall n | n in Losing(init, rinit) ensures n in Losing(ws, replies) {
      var i :| 0 <= i < last && rinit[i].Lost? && init[i] == n;
      assert replies[i].Lost? && ws[i] == n;
    }
  }

  // ── When an attempt succeeds ──────────────────────────────────────────────

  /** The nodes among the first `n` of the ensemble whose answer comes back. */
  ghost function Answering(ensemble: seq<NodeId>, n: nat, nodes: Nodes, ds: seq<Delivery>): set<NodeId>
    requires n <= |ensemble|
  {
    set i | 0 <= i < n && i < |ds| && Answers(nodes, ensemble[i], ds[i]) :: ensemble[i]
  }

  /** What an attempt answers, on every environment. A fenced node among the write-quorum first of the ensemble
      that answers ends it; otherwise it succeeds if and only if at least ack-quorum of them answer, under
      the handle's next id. Only those nodes are written to. */
  lemma AttemptAnswers(h: Handle, store: Stored, nodes: Nodes, data: Bytes, ds: seq<Delivery>, env: ChangeEnv,
                       first: bool)
    requires h.fragments != [] && FragmentOk(h.fragments[|h.fragments| - 1])
    ensures var f := h.fragments[|h.fragments| - 1];
            var o := Attempt(h, store, nodes, data, ds, env, first);
            var answering := Answering(f.ensemble, f.writeQuorum, nodes, ds);
            && (o.result == Some(Err(LedgerFenced)) <==> exists n <- answering :: n in nodes && nodes[n].fenced)
            && (o.result.Some? && o.result.value.Ok? <==>
                  |answering| >= f.ackQuorum && forall n <- answering :: n in nodes && !nodes[n].fenced)
            && (o.result.Some? && o.result.value.Ok? ==> o.result.value.value == h.next)
            && (o.result.Some? && o.result.value.Err? ==>
                  o.result.value.error in {LedgerFenced, QuorumNotMet(f.ackQuorum, |answering|)})
            && (o.result.None? ==> first)
            && o.nodes.Keys == nodes.Keys
            && (forall m <- nodes :: m !in f.ensemble[..f.writeQuorum] ==> o.nodes[m] == nodes[m])
  {
    hide SendAll, Count, MaxOf, ChangeFragment, Distinct;
    var f := h.fragments[|h.fragments| - 1];
    var ws := WriteSet(f);
    assert ws == f.ensemble[..f.writeQuorum];
    assert Distinct(ws) by { PrefixDistinct(f.ensemble, f.writeQuorum); }
    var dds := Deliveries(ds, |ws|);
    var e := Entry(h.next, h.lac, data);
    var replies := SendAll(nodes, ws, dds, e).1;
    SendAllReplies(nodes, ws, dds, e);
    CountIs(ws, replies);
    AnsweringIs(f, nodes, ds, replies);
  }

  lemma PrefixDistinct(xs: seq<NodeId>, n: nat)
    requires n <= |xs| && Distinct(xs)
    ensures Distinct(xs[..n])
  {
  }

  /** The nodes of the write set whose answer does not come back. */
  ghost function Silent(f: Fragment, nodes: Nodes, ds: seq<Delivery>): set<NodeId>
    requires f.writeQuorum <= |f.ensemble|
  {
    set i | 0 <= i < f.writeQuorum && (i >= |ds| || !Answers(nodes, f.ensemble[i], ds[i])) :: f.ensemble[i]
  }

  ghost predicate RepliesOf(f: Fragment, nodes: Nodes, ds: seq<Delivery>, replies: seq<Reply>) {
    && f.writeQuorum <= |f.ensemble| && |replies| == f.writeQuorum
    && RepliesAre(nodes, f.ensemble[..f.writeQuorum], Deliveries(ds, f.writeQuorum), replies)
  }

  lemma ReplyAt(f: Fragment, nodes: Nodes, ds: seq<Delivery>, replies: seq<Reply>, i: nat)
    requires RepliesOf(f, nodes, ds, replies) && i < f.writeQuorum
    ensures replies[i].Lost? <==> i >= |ds| || !Answers(nodes, f.ensemble[i], ds[i])
    ensures replies[i].Fenced? <==> i < |ds| && Answers(nodes, f.ensemble[i], ds[i]) && nodes[f.ensemble[i]].fenced
  {
    assert ReplyIs(nodes, f.ensemble[..f.writeQuorum][i], Deliveries(ds, f.writeQuorum)[i], replies[i]);
  }

  lemma SilentIs(f: Fragment, nodes: Nodes, ds: seq<Delivery>, replies: seq<Reply>)
    requires RepliesOf(f, nodes, ds, replies)
    ensures Losing(f.ensemble[..f.writeQuorum], replies) == Silent(f, nodes, ds)
  {
    hide RepliesAre;
    forall i | 0 <= i < f.writeQuorum
      ensures replies[i].Lost? <==> i >= |ds| || !Answers(nodes, f.ensemble[i], ds[i])
    {
      ReplyAt(f, nodes, ds, replies, i);
    }
    var ws := f.ensemble[..f.writeQuorum];
    forall n | n in Losing(ws, replies) ensures n in Silent(f, nodes, ds) {
      var i :| 0 <= i < |ws| && replies[i].Lost? && ws[i] == n;
      assert f.ensemble[i] == n;
    }
    forall n | n in Silent(f, nodes, ds) ensures n in Losing(ws, replies) {
      var i :| 0 <= i < f.writeQuorum && (i >= |ds| || !Answers(nodes, f.ensemble[i], ds[i])) && f.ensemble[i] == n;
      assert ws[i] == n;
    }
  }

  lemma AnsweringIs(f: Fragment, nodes: Nodes, ds: seq<Delivery>, replies: seq<Reply>)
    requires RepliesOf(f, nodes, ds, replies)
    ensures var answering := Answering(f.ensemble, f.writeQuorum, nodes, ds);
            && answering <= nodes.Keys
            && ((exists n <- answering :: nodes[n].fenced) <==> SomeFenced(replies))
            && (!SomeFenced(replies) ==> answering == Acking(f.ensemble[..f.writeQuorum], replies))
  {
    hide RepliesAre;
    var ws, answering := f.ensemble[..f.writeQuorum], Answering(f.ensemble, f.writeQuorum, nodes, ds);
    if i :| 0 <= i < f.writeQuorum && replies[i].Fenced? {
      ReplyAt(f, nodes, ds, replies, i);
      assert f.ensemble[i] in answering;
    }
    forall n | n in answering ensures nodes[n].fenced ==> SomeFenced(replies)
      ensures !SomeFenced(replies) ==> n in Acking(ws, replies)
    {
      var i :| 0 <= i < f.writeQuorum && i < |ds| && Answers(nodes, f.ensemble[i], ds[i]) && f.ensemble[i] == n;
      ReplyAt(f, nodes, ds, replies, i);
      assert ws[i] == n;
    }
    forall n | n in Acking(ws, replies) ensures n in answering {
      var i :| 0 <= i < |ws| && replies[i].Ack? && ws[i] == n;
      ReplyAt(f, nodes, ds, replies, i);
    }
  }

  // ── The LAC a node records ────────────────────────────────────────────────

  /** A node that holds an entry has a LAC of at least the id before it. */
  ghost predicate LacFloor(b: Bookie) {
    forall id <- b.log :: id <= b.lac + 1
  }

  ghost predicate LacFloors(nodes: Nodes) {
    forall n <- nodes :: LacFloor(nodes[n])
  }

  ghost predicate FloorInv(s: Sys) {
    && LacFloors(s.nodes)
    && forall st <- s.strays :: st.entry.id <= st.entry.lac + 1
  }

  lemma DeliverFloor(nodes: Nodes, n: NodeId, d: Delivery, e: Entry)
    requires LacFloors(nodes) && e.id <= e.lac + 1
    ensures LacFloors(Deliver(nodes, n, d, e).0)
  {
  }

  lemma {:induction false} SendFloor(nodes: Nodes, ws: seq<NodeId>, ds: seq<Delivery>, e: Entry)
    requires |ds| == |ws| && LacFloors(nodes) && e.id <= e.lac + 1
    ensures LacFloors(SendAll(nodes, ws, ds, e).0)
    decreases ws
  {
    hide LacFloors, Deliver;
    if ws != [] {
      var last := |ws| - 1;
      SendFloor(nodes, ws[..last], ds[..last], e);
      DeliverFloor(SendAll(nodes, ws[..last], ds[..last], e).0, ws[last], ds[last], e);
    }
  }

  lemma AttemptFloor(h: Handle, store: Stored, nodes: Nodes, bytes: Bytes, ds: seq<Delivery>, env: ChangeEnv,
                     first: bool)
    requires h.fragments != [] && LacFloors(nodes) && h.next <= h.lac + 1
    ensures LacFloors(Attempt(h, store, nodes, bytes, ds, env, first).nodes)
  {
    hide LacFloors, SendAll, Count, MaxOf, WriteSet, ChangeFragment;
    var ws := WriteSet(h.fragments[|h.fragments| - 1]);
    SendFloor(nodes, ws, Deliveries(ds, |ws|), Entry(h.next, h.lac, bytes));
  }

  lemma FloorStep(s: Sys, step: Step, t: Sys)
    requires LacInv(s) && FloorInv(s) && Next(s, step, t)
    ensures FloorInv(t)
  {
    hide Attempt, LacFloors, Deliver;
    match step
    case First(bytes, ds, change) =>
      if s.handle.state == Open && s.handle.fragments != [] {
        AttemptFloor(s.handle, s.store, s.nodes, bytes, ds, change, true);
      }
    case Second(ds, change) => AttemptFloor(s.handle, s.store, s.nodes, s.pending.value, ds, change, false);
    case Arrive(st) => DeliverFloor(s.nodes, st.node, Delivered, st.entry);
  }

  lemma {:induction false} FloorRun(states: seq<Sys>, steps: seq<Step>, i: nat)
    requires IsRun(states, steps) && Created(states[0]) && i < |states|
    ensures FloorInv(states[i])
  {
    hide Next, LacInv;
    if i > 0 {
      FloorRun(states, steps, i - 1);
      LacSound(states, steps, i - 1);
      FloorStep(states[i - 1], steps[i - 1], states[i]);
    }
  }

  /** In every state of every run, late requests included, a node's LAC lies between the id before its highest
      entry and the last id acknowledged to the writer. */
  lemma NodeLacWindow(states: seq<Sys>, steps: seq<Step>, i: nat, n: NodeId, id: nat)
    requires IsRun(states, steps) && Created(states[0]) && i < |states|
    requires n in states[i].nodes && id in states[i].nodes[n].log
    ensures id <= states[i].nodes[n].lac + 1
    ensures states[i].nodes[n].lac <= if states[i].data == [] then 0 else |states[i].data| - 1
  {
    hide Next, IsRun;
    FloorRun(states, steps, i);
    LacSound(states, steps, i);
    assert LacFloor(states[i].nodes[n]);
  }

  // ── A handle opened anew ──────────────────────────────────────────────────

  /** A handle opened on a record that has the log's fragments, last entry and LAC goes on where the log ends. */
  lemma ReopenKeepsLog(s: Sys, m: LedgerMeta)
    requires LogInv(s) && LacInv(s) && m.fragments == s.handle.fragments
    requires m.lastEntry == (if s.data == [] then None else Some(|s.data| - 1))
    requires m.lastAddConfirmed == if s.data == [] then 0 else |s.data| - 1
    ensures var t := s.(handle := HandleOf(m));
            LogInv(t) && LacInv(t) && t.handle.next == |s.data| && t.handle.version == m.version
  {
    hide AllHeld, FragmentsOk, Agree, StraysAgree, LacsBelow;
  }
}
