/**
 * One writer on a fresh ledger, over every run: appends whose requests and answers may be lost or
 * arrive late, fragment changes that may fail half-way, and reads in between.
 */
module QuorumLog {
  import opened Words
  import opened Protocol
  import opened Ledger

  /** A request that was not handled when it was sent and may be handled at any later time. */
  datatype Stray = Stray(node: NodeId, entry: Entry)

  /** `data`: the bytes of each acknowledged entry, in id order. `pending`: the bytes last sent under the
      next id without success. `retrying`: the append is between its two attempts. */
  datatype Sys = Sys(nodes: Nodes, strays: set<Stray>, handle: Handle, store: Stored, data: seq<Bytes>,
                     pending: Option<Bytes>, retrying: bool)

  /** The two attempts of an append are separate steps: requests underway may arrive between them. */
  datatype Step =
    | First(bytes: Bytes, ds: seq<Delivery>, change: ChangeEnv)
    | Second(ds: seq<Delivery>, change: ChangeEnv)
    | Arrive(stray: Stray)

  /** The requests an append may leave underway: any of its entry, to any node. */
  ghost predicate MayStray(st: Stray, h: Handle, bytes: Bytes) {
    st.entry == Entry(h.next, h.lac, bytes)
  }

  ghost predicate Attempted(s: Sys, o: Outcome, bytes: Bytes, t: Sys) {
    var ok := o.result.Some? && o.result.value.Ok?;
    && t.nodes == o.nodes && t.handle == o.handle && t.store == o.store
    && t.data == (if ok then s.data + [bytes] else s.data)
    && t.pending == (if ok then None else Some(bytes))
    && t.retrying == o.result.None?
    && s.strays <= t.strays
    && forall st <- t.strays :: st in s.strays || MayStray(st, s.handle, bytes)
  }

  ghost predicate Next(s: Sys, step: Step, t: Sys) {
    match step
    case First(bytes, ds, change) =>
      && !s.retrying
      && if s.handle.state != Open || s.handle.fragments == [] then t == s
         else Attempted(s, Attempt(s.handle, s.store, s.nodes, bytes, ds, change, true), bytes, t)
    case Second(ds, change) =>
      && s.retrying && s.pending.Some? && s.handle.fragments != []
      && Attempted(s, Attempt(s.handle, s.store, s.nodes, s.pending.value, ds, change, false), s.pending.value, t)
    case Arrive(st) =>
      && st in s.strays
      && t == s.(nodes := Deliver(s.nodes, st.node, Delivered, st.entry).0, strays := s.strays - {st})
  }

  /** `do_append` is a first step, and a second one if that asks for it. */
  lemma AppendIsSteps(s: Sys, bytes: Bytes, env: AppendEnv) returns (mid: Sys, t: Sys)
    requires !s.retrying && s.handle.state == Open && s.handle.fragments != []
    ensures Next(s, First(bytes, env.first, env.change), mid)
    ensures if mid.retrying then Next(mid, Second(env.second, env.proactive), t) else t == mid
    ensures var o := Append(s.handle, s.store, s.nodes, bytes, env);
            && t.handle == o.handle && t.store == o.store && t.nodes == o.nodes
            && t.data == if o.result.value.Ok? then s.data + [bytes] else s.data
  {
    hide Attempt;
    var o := Attempt(s.handle, s.store, s.nodes, bytes, env.first, env.change, true);
    mid := After(s, o, bytes);
    t := mid;
    if mid.retrying {
      AttemptKeepsFragments(s.handle, s.store, s.nodes, bytes, env.first, env.change, true);
      t := After(mid, Attempt(mid.handle, mid.store, mid.nodes, bytes, env.second, env.proactive, false), bytes);
      NoThirdAttempt(mid.handle, mid.store, mid.nodes, bytes, env.second, env.proactive);
    }
  }

  ghost function After(s: Sys, o: Outcome, bytes: Bytes): (t: Sys)
    ensures Attempted(s, o, bytes, t)
  {
    var ok := o.result.Some? && o.result.value.Ok?;
    Sys(o.nodes, s.strays, o.handle, o.store, if ok then s.data + [bytes] else s.data,
        if ok then None else Some(bytes), o.result.None?)
  }

  lemma AttemptKeepsFragments(h: Handle, store: Stored, nodes: Nodes, bytes: Bytes, ds: seq<Delivery>, env: ChangeEnv,
                              first: bool)
    requires h.fragments != []
    ensures var o := Attempt(h, store, nodes, bytes, ds, env, first);
            o.handle.fragments != [] && o.handle.state == h.state
  {
    hide SendAll, Count, MaxOf, WriteSet, NextEnsemble;
  }

  lemma NoThirdAttempt(h: Handle, store: Stored, nodes: Nodes, bytes: Bytes, ds: seq<Delivery>, env: ChangeEnv)
    requires h.fragments != []
    ensures Attempt(h, store, nodes, bytes, ds, env, false).result.Some?
  {
    hide SendAll, Count, MaxOf, WriteSet, NextEnsemble;
  }

  // ── Invariants ────────────────────────────────────────────────────────────

  ghost predicate Distinct(xs: seq<NodeId>) {
    forall i, j :: 0 <= i < j < |xs| ==> xs[i] != xs[j]
  }

  ghost predicate FragmentOk(f: Fragment) {
    Distinct(f.ensemble) && 0 < f.ackQuorum <= f.writeQuorum <= |f.ensemble|
  }

  predicate SameQuorums(a: Fragment, b: Fragment) {
    a.writeQuorum == b.writeQuorum && a.ackQuorum == b.ackQuorum
  }

  /** Fragments are well formed and have the quorums of the first, which starts at 0; none starts past the
      next entry. */
  ghost predicate FragmentsOk(fs: seq<Fragment>, next: nat) {
    && fs != [] && fs[0].firstEntry == 0
    && (forall i :: 0 <= i < |fs| ==> FragmentOk(fs[i]) && fs[i].firstEntry <= next && SameQuorums(fs[i], fs[0]))
  }

  ghost predicate LogAgrees(log: map<nat, Bytes>, data: seq<Bytes>) {
    forall id <- log :: id < |data| && log[id] == data[id]
  }

  /** Whatever any node holds is the bytes of that id. */
  ghost predicate Agree(nodes: Nodes, data: seq<Bytes>) {
    forall n <- nodes :: LogAgrees(nodes[n].log, data)
  }

  ghost predicate StraysAgree(strays: set<Stray>, data: seq<Bytes>) {
    forall st <- strays :: st.entry.id < |data| && st.entry.data == data[st.entry.id]
  }

  ghost function Holders(f: Fragment, nodes: Nodes, id: nat, bytes: Bytes): set<NodeId> {
    set n <- WriteSet(f) | n in nodes && id in nodes[n].log && nodes[n].log[id] == bytes
  }

  /** At least ack-quorum distinct nodes of the fragment that owns the entry hold its bytes. */
  ghost predicate Held(fs: seq<Fragment>, nodes: Nodes, id: nat, bytes: Bytes) {
    Owner(fs, id).Some? && |Holders(Owner(fs, id).value, nodes, id, bytes)| >= Owner(fs, id).value.ackQuorum
  }

  ghost predicate AllHeld(fs: seq<Fragment>, nodes: Nodes, data: seq<Bytes>) {
    forall id :: 0 <= id < |data| ==> Held(fs, nodes, id, data[id])
  }

  /** What nodes may hold: the acknowledged entries, and the pending bytes under the next id. */
  ghost function Sent(s: Sys): seq<Bytes> {
    if s.pending.Some? then s.data + [s.pending.value] else s.data
  }

  ghost predicate LogInv(s: Sys) {
    && FragmentsOk(s.handle.fragments, s.handle.next)
    && s.handle.next == |s.data|
    && s.handle.last == (if s.data == [] then None else Some(|s.data| - 1))
    && Agree(s.nodes, Sent(s)) && StraysAgree(s.strays, Sent(s))
    && AllHeld(s.handle.fragments, s.nodes, s.data)
  }

  // ── Sending ───────────────────────────────────────────────────────────────

  /** Logs only grow: an entry a node holds is never replaced. */
  ghost predicate Grows(a: Nodes, b: Nodes) {
    && a.Keys == b.Keys
    && forall n <- a :: (forall id <- a[n].log :: id in b[n].log && b[n].log[id] == a[n].log[id])
  }

  /** New entries are the one being sent. */
  ghost predicate OnlyAdds(a: Nodes, b: Nodes, e: Entry) {
    && a.Keys == b.Keys
    && forall n <- b, id <- b[n].log :: id in a[n].log || (id == e.id && b[n].log[id] == e.data)
  }

  lemma DeliverIs(nodes: Nodes, n: NodeId, d: Delivery, e: Entry)
    ensures var (after, reply) := Deliver(nodes, n, d, e);
            && Grows(nodes, after) && OnlyAdds(nodes, after, e)
            && (reply.Ack? ==> n in after && e.id in after[n].log)
  {
  }

  lemma {:induction false} SendAllIs(nodes: Nodes, ws: seq<NodeId>, ds: seq<Delivery>, e: Entry)
    requires |ds| == |ws|
    ensures var (after, replies) := SendAll(nodes, ws, ds, e);
            && Grows(nodes, after) && OnlyAdds(nodes, after, e)
            && forall i :: 0 <= i < |ws| && replies[i].Ack? ==> ws[i] in after && e.id in after[ws[i]].log
    decreases ws
  {
    if ws != [] {
      var last := |ws| - 1;
      SendAllIs(nodes, ws[..last], ds[..last], e);
      DeliverIs(SendAll(nodes, ws[..last], ds[..last], e).0, ws[last], ds[last], e);
    }
  }

  /** With no fenced answer, the count of acks is the number of distinct nodes that acknowledged. */
  lemma {:induction false} AcksAreNodes(ws: seq<NodeId>, replies: seq<Reply>)
    requires |ws| == |replies| && Distinct(ws)
    ensures |set i | 0 <= i < |ws| && replies[i].Ack? :: ws[i]| >= |Count(ws, replies).acks|
    decreases ws
  {
    var acked := set i | 0 <= i < |ws| && replies[i].Ack? :: ws[i];
    if ws != [] {
      var last := |ws| - 1;
      var init, rs := ws[..last], replies[..last];
      AcksAreNodes(init, rs);
      var before := set i | 0 <= i < |init| && rs[i].Ack? :: init[i];
      assert forall n <- before :: n in acked && n != ws[last] by {
        forall n | n in before ensures n in acked && n != ws[last] {
          var i :| 0 <= i < |init| && rs[i].Ack? && init[i] == n;
          assert ws[i] == n && replies[i].Ack?;
        }
      }
      assert before <= acked;
      if replies[last].Ack? {
        assert before + {ws[last]} <= acked;
        SubsetSize(before + {ws[last]}, acked);
      } else {
        SubsetSize(before, acked);
      }
    }
  }

  lemma {:induction false} SubsetSize<T>(a: set<T>, b: set<T>)
    requires a <= b
    ensures |a| <= |b|
    decreases |a|
  {
    if a != {} {
      var x :| x in a;
      SubsetSize(a - {x}, b - {x});
    }
  }

  // ── Ownership ─────────────────────────────────────────────────────────────

  /** A pushed fragment owns exactly the entries from its start on; the others keep their owner. */
  lemma OwnerPush(fs: seq<Fragment>, f: Fragment, id: nat)
    ensures Owner(fs + [f], id) == if f.firstEntry <= id then Some(f) else Owner(fs, id)
  {
    assert (fs + [f])[..|fs|] == fs;
  }

  lemma HeldGrows(fs: seq<Fragment>, a: Nodes, b: Nodes, id: nat, bytes: Bytes)
    requires Held(fs, a, id, bytes) && Grows(a, b)
    ensures Held(fs, b, id, bytes)
  {
    hide Owner;
    var f := Owner(fs, id).value;
    SubsetSize(Holders(f, a, id, bytes), Holders(f, b, id, bytes));
  }

  lemma AllHeldGrows(fs: seq<Fragment>, a: Nodes, b: Nodes, data: seq<Bytes>)
    requires AllHeld(fs, a, data) && Grows(a, b)
    ensures AllHeld(fs, b, data)
  {
    hide Held, Grows;
    forall id | 0 <= id < |data| ensures Held(fs, b, id, data[id]) {
      HeldGrows(fs, a, b, id, data[id]);
    }
  }

  lemma AllHeldPush(fs: seq<Fragment>, f: Fragment, nodes: Nodes, data: seq<Bytes>)
    requires AllHeld(fs, nodes, data) && |data| <= f.firstEntry
    ensures AllHeld(fs + [f], nodes, data)
  {
    hide Owner;
    forall id | 0 <= id < |data| ensures Held(fs + [f], nodes, id, data[id]) {
      assert Held(fs, nodes, id, data[id]);
      OwnerPush(fs, f, id);
    }
  }

  // ── Fragment changes ──────────────────────────────────────────────────────

  ghost predicate EnvOk(env: ChangeEnv) {
    env.listed.Some? ==> Distinct(env.listed.value)
  }

  lemma {:induction false} WithoutIs(xs: seq<NodeId>, out: set<NodeId>)
    ensures Distinct(xs) ==> Distinct(Without(xs, out))
    ensures forall x :: x in Without(xs, out) <==> x in xs && x !in out
  {
    if xs != [] {
      var last := |xs| - 1;
      WithoutIs(xs[..last], out);
      assert xs == xs[..last] + [xs[last]];
    }
  }

  /** The next ensemble has no node twice and none of the failed ones. */
  lemma NextEnsembleIs(current: Fragment, failed: set<NodeId>, listed: seq<NodeId>)
    requires Distinct(current.ensemble) && Distinct(listed)
    ensures Distinct(NextEnsemble(current, failed, listed))
    ensures failed <= AsSet(current.ensemble) ==> forall n <- NextEnsemble(current, failed, listed) :: n !in failed
  {
    hide Without;
    WithoutIs(current.ensemble, failed);
    WithoutIs(listed, AsSet(current.ensemble));
    var a, b := Without(current.ensemble, failed), Take(Without(listed, AsSet(current.ensemble)), |failed|);
    forall i, j | 0 <= i < j < |a + b| ensures (a + b)[i] != (a + b)[j] {
      if i < |a| <= j {
        assert a[i] in current.ensemble;
        assert b[j - |a|] in Without(listed, AsSet(current.ensemble));
      }
    }
  }

  /** `f` is a well-formed fragment from entry `next` on, with the quorums of `before`. */
  ghost predicate Follows(f: Fragment, before: Fragment, next: nat) {
    FragmentOk(f) && f.firstEntry == next && SameQuorums(f, before)
  }

  /** A fragment change pushes at most one fragment, which starts at `next` and keeps the quorums. */
  lemma ChangeIs(h: Handle, store: Stored, failed: seq<NodeId>, next: nat, env: ChangeEnv)
    requires h.fragments != [] && failed != [] && EnvOk(env) && FragmentOk(h.fragments[|h.fragments| - 1])
    ensures var (h', _, ok) := ChangeFragment(h, store, failed, next, env);
            && h' == h.(fragments := h'.fragments, version := h'.version)
            && ((h'.fragments == h.fragments && !ok)
                || (exists f :: Follows(f, h.fragments[|h.fragments| - 1], next)
                                && h'.fragments == h.fragments + [f]))
  {
    hide NextEnsemble, Distinct;
    var current := h.fragments[|h.fragments| - 1];
    if env.listed.Some? {
      NextEnsembleIs(current, AsSet(failed), env.listed.value);
    }
  }

  lemma ChangeKeeps(h: Handle, store: Stored, failed: seq<NodeId>, env: ChangeEnv, nodes: Nodes, data: seq<Bytes>)
    requires FragmentsOk(h.fragments, h.next) && h.next == |data| && failed != [] && EnvOk(env)
    requires AllHeld(h.fragments, nodes, data)
    ensures var h' := ChangeFragment(h, store, failed, h.next, env).0;
            && h' == h.(fragments := h'.fragments, version := h'.version)
            && FragmentsOk(h'.fragments, h.next) && AllHeld(h'.fragments, nodes, data)
  {
    hide AllHeld, FragmentOk, ChangeFragment;
    ChangeIs(h, store, failed, h.next, env);
    var h' := ChangeFragment(h, store, failed, h.next, env).0;
    if h'.fragments != h.fragments {
      var f :| Follows(f, h.fragments[|h.fragments| - 1], h.next) && h'.fragments == h.fragments + [f];
      AllHeldPush(h.fragments, f, nodes, data);
    }
  }

  // ── Attempts ──────────────────────────────────────────────────────────────

  lemma AgreeAfterSend(nodes: Nodes, after: Nodes, e: Entry, data: seq<Bytes>)
    requires Agree(nodes, data) && Grows(nodes, after) && OnlyAdds(nodes, after, e)
    requires e.id < |data| && e.data == data[e.id]
    ensures Agree(after, data)
  {
    forall n | n in after ensures LogAgrees(after[n].log, data) {
      assert LogAgrees(nodes[n].log, data);
    }
  }

  /** An acknowledged entry is held by ack-quorum nodes of the last fragment, which owns it. */
  lemma QuorumHolds(fs: seq<Fragment>, nodes: Nodes, data: seq<Bytes>, ds: seq<Delivery>, e: Entry)
    requires FragmentsOk(fs, e.id) && e.id == |data| - 1 && e.data == data[e.id] && Agree(nodes, data)
    requires var ws := WriteSet(fs[|fs| - 1]);
             |ds| == |ws| && |Count(ws, SendAll(nodes, ws, ds, e).1).acks| >= fs[|fs| - 1].ackQuorum
    ensures Held(fs, SendAll(nodes, WriteSet(fs[|fs| - 1]), ds, e).0, e.id, e.data)
  {
    hide SendAll, Count;
    var f := fs[|fs| - 1];
    var ws := WriteSet(f);
    var (after, replies) := SendAll(nodes, ws, ds, e);
    SendAllIs(nodes, ws, ds, e);
    AgreeAfterSend(nodes, after, e, data);
    AcksAreNodes(ws, replies);
    var acked := set i | 0 <= i < |ws| && replies[i].Ack? :: ws[i];
    forall n | n in acked ensures n in Holders(f, after, e.id, e.data) {
      var i :| 0 <= i < |ws| && replies[i].Ack? && ws[i] == n;
      assert ws[i] in ws;
    }
    SubsetSize(acked, Holders(f, after, e.id, e.data));
  }

  /** What one attempt leaves, while nodes agree with `data` plus the entry being appended. */
  ghost predicate AttemptKept(h: Handle, o: Outcome, data: seq<Bytes>, bytes: Bytes) {
    && Agree(o.nodes, data + [bytes])
    && if o.result.Some? && o.result.value.Ok? then
         && o.result.value.value == |data| && o.handle.next == |data| + 1 && o.handle.last == Some(|data|)
         && FragmentsOk(o.handle.fragments, |data| + 1)
         && AllHeld(o.handle.fragments, o.nodes, data + [bytes])
       else
         && o.handle == h.(fragments := o.handle.fragments, version := o.handle.version)
         && FragmentsOk(o.handle.fragments, h.next) && AllHeld(o.handle.fragments, o.nodes, data)
  }

  lemma AttemptKeeps(h: Handle, store: Stored, nodes: Nodes, data: seq<Bytes>, bytes: Bytes, ds: seq<Delivery>,
                     env: ChangeEnv, first: bool)
    requires FragmentsOk(h.fragments, h.next) && h.next == |data| && EnvOk(env)
    requires Agree(nodes, data + [bytes]) && AllHeld(h.fragments, nodes, data)
    ensures AttemptKept(h, Attempt(h, store, nodes, bytes, ds, env, first), data, bytes)
  {
    hide AllHeld, Held, FragmentOk, ChangeFragment, SendAll, Count, MaxOf, Agree, WriteSet;
    var fs := h.fragments;
    var ws := WriteSet(fs[|fs| - 1]);
    var e := Entry(h.next, h.lac, bytes);
    var (after, replies) := SendAll(nodes, ws, Deliveries(ds, |ws|), e);
    var t := Count(ws, replies);
    SendAllIs(nodes, ws, Deliveries(ds, |ws|), e);
    AgreeAfterSend(nodes, after, e, data + [bytes]);
    AllHeldGrows(fs, nodes, after, data);
    if !t.fenced && |t.acks| >= fs[|fs| - 1].ackQuorum {
      QuorumHolds(fs, nodes, data + [bytes], Deliveries(ds, |ws|), e);
      AllHeldOneMore(fs, after, data, bytes);
      var done := h.(lac := Max(Max(h.lac, MaxOf(t.acks)), h.next), last := Some(h.next), next := h.next + 1);
      if t.failed != [] {
        ChangeKeeps(done, store, t.failed, env, after, data + [bytes]);
      }
    } else if !t.fenced && t.failed != [] && first {
      ChangeKeeps(h, store, t.failed, env, after, data);
    }
  }

  lemma AllHeldOneMore(fs: seq<Fragment>, nodes: Nodes, data: seq<Bytes>, bytes: Bytes)
    requires AllHeld(fs, nodes, data) && Held(fs, nodes, |data|, bytes)
    ensures AllHeld(fs, nodes, data + [bytes])
  {
    hide Held;
  }

  lemma AgreeMore(nodes: Nodes, data: seq<Bytes>, bytes: Bytes)
    requires Agree(nodes, data)
    ensures Agree(nodes, data + [bytes])
  {
    forall n | n in nodes ensures LogAgrees(nodes[n].log, data + [bytes]) {
      LogAgreesMore(nodes[n].log, data, bytes);
    }
  }

  lemma LogAgreesMore(log: map<nat, Bytes>, data: seq<Bytes>, bytes: Bytes)
    requires LogAgrees(log, data)
    ensures LogAgrees(log, data + [bytes])
  {
  }

  // ── Quorum log correctness ────────────────────────────────────────────────

  /** The client's side of the bargain: an id whose append failed is used again with the same bytes only.
      The store lists no node twice. */
  ghost predicate StepOk(s: Sys, step: Step) {
    match step
    case First(bytes, _, change) => EnvOk(change) && (s.pending.Some? ==> bytes == s.pending.value)
    case Second(_, change) => EnvOk(change)
    case Arrive(_) => true
  }

  /** While nodes agree with the bytes being sent, an attempt keeps the log invariant, whether it
      succeeds, fails or asks for another one. */
  lemma AttemptedKeeps(s: Sys, bytes: Bytes, ds: seq<Delivery>, change: ChangeEnv, first: bool, t: Sys)
    requires LogInv(s) && EnvOk(change) && s.handle.fragments != []
    requires s.pending.Some? ==> bytes == s.pending.value
    requires Attempted(s, Attempt(s.handle, s.store, s.nodes, bytes, ds, change, first), bytes, t)
    ensures LogInv(t)
  {
    hide Attempt, AllHeld, FragmentsOk, Agree;
    if s.pending.None? {
      AgreeMore(s.nodes, s.data, bytes);
    }
    AttemptKeeps(s.handle, s.store, s.nodes, s.data, bytes, ds, change, first);
    assert Sent(t) == s.data + [bytes];
  }

  /** Every step of a client that repeats a failed append with the same bytes keeps the log invariant. */
  lemma LogStep(s: Sys, step: Step, t: Sys)
    requires LogInv(s) && StepOk(s, step) && Next(s, step, t)
    ensures LogInv(t)
  {
    hide Attempt, AllHeld, FragmentsOk, Attempted, Deliver, Agree, LogInv;
    match step
    case First(bytes, ds, change) =>
      if s.handle.state == Open && s.handle.fragments != [] {
        AttemptedKeeps(s, bytes, ds, change, true, t);
      }
    case Second(ds, change) => AttemptedKeeps(s, s.pending.value, ds, change, false, t);
    case Arrive(st) => ArriveKeeps(s, st);
  }

  lemma ArriveKeeps(s: Sys, st: Stray)
    requires LogInv(s) && st in s.strays
    ensures LogInv(s.(nodes := Deliver(s.nodes, st.node, Delivered, st.entry).0, strays := s.strays - {st}))
  {
    hide AllHeld, FragmentsOk, Deliver, Agree;
    var after := Deliver(s.nodes, st.node, Delivered, st.entry).0;
    DeliverIs(s.nodes, st.node, Delivered, st.entry);
    AgreeAfterSend(s.nodes, after, st.entry, Sent(s));
    AllHeldGrows(s.handle.fragments, s.nodes, after, s.data);
  }

  // ── Last add confirmed ────────────────────────────────────────────────────

  ghost predicate LacsBelow(nodes: Nodes, lac: nat) {
    forall n <- nodes :: nodes[n].lac <= lac
  }

  /** No node, and no request underway, carries a LAC past the writer's, which is the last
      acknowledged id. */
  ghost predicate LacInv(s: Sys) {
    && s.handle.next == |s.data|
    && s.handle.lac == (if s.data == [] then 0 else |s.data| - 1)
    && LacsBelow(s.nodes, s.handle.lac)
    && forall st <- s.strays :: st.entry.lac <= s.handle.lac
  }

  lemma {:induction false} SendLacs(nodes: Nodes, ws: seq<NodeId>, ds: seq<Delivery>, e: Entry, lac: nat)
    requires |ds| == |ws| && LacsBelow(nodes, lac) && e.lac <= lac
    ensures var (after, replies) := SendAll(nodes, ws, ds, e);
            LacsBelow(after, lac) && forall i :: 0 <= i < |ws| && replies[i].Ack? ==> replies[i].lac <= lac
    decreases ws
  {
    if ws != [] {
      var last := |ws| - 1;
      SendLacs(nodes, ws[..last], ds[..last], e, lac);
    }
  }

  lemma MaxAppend(xs: seq<nat>, x: nat)
    ensures MaxOf(xs + [x]) == Max(MaxOf(xs), x)
  {
    assert (xs + [x])[..|xs|] == xs;
  }

  /** The last reply adds at most its own LAC to the acknowledgements. */
  lemma CountLast(ws: seq<NodeId>, replies: seq<Reply>)
    requires |ws| == |replies| && ws != []
    ensures var last := |ws| - 1;
            var before, acks := Count(ws[..last], replies[..last]).acks, Count(ws, replies).acks;
            acks == before || (replies[last].Ack? && acks == before + [replies[last].lac])
  {
  }

  lemma {:induction false} CountLacs(ws: seq<NodeId>, replies: seq<Reply>, lac: nat)
    requires |ws| == |replies| && forall i :: 0 <= i < |ws| && replies[i].Ack? ==> replies[i].lac <= lac
    ensures MaxOf(Count(ws, replies).acks) <= lac
    decreases ws
  {
    if ws == [] {
      assert Count(ws, replies).acks == [];
    } else {
      hide Count, MaxOf;
      var last := |ws| - 1;
      CountLacs(ws[..last], replies[..last], lac);
      CountLast(ws, replies);
      if replies[last].Ack? {
        MaxAppend(Count(ws[..last], replies[..last]).acks, replies[last].lac);
      }
    }
  }

  lemma AttemptLac(h: Handle, store: Stored, nodes: Nodes, bytes: Bytes, ds: seq<Delivery>, env: ChangeEnv, first: bool)
    requires h.fragments != [] && LacsBelow(nodes, h.lac) && h.lac <= h.next
    ensures var o := Attempt(h, store, nodes, bytes, ds, env, first);
            && LacsBelow(o.nodes, h.lac)
            && (if o.result.Some? && o.result.value.Ok? then o.handle.lac == h.next && o.handle.next == h.next + 1
                else o.handle.lac == h.lac && o.handle.next == h.next)
            && (o.result.None? ==> o.handle.fragments != [])
  {
    hide SendAll, Count, MaxOf, WriteSet, NextEnsemble;
    var ws := WriteSet(h.fragments[|h.fragments| - 1]);
    var e := Entry(h.next, h.lac, bytes);
    SendLacs(nodes, ws, Deliveries(ds, |ws|), e, h.lac);
    CountLacs(ws, SendAll(nodes, ws, Deliveries(ds, |ws|), e).1, h.lac);
  }

  /** LAC soundness, in every run, failed appends with whatever bytes included: although `advance` takes
      the maximum over what nodes report, after each successful append the LAC is the id just
      acknowledged. */
  lemma LacStep(s: Sys, step: Step, t: Sys)
    requires LacInv(s) && Next(s, step, t)
    ensures LacInv(t)
  {
    hide Attempt;
    match step
    case First(bytes, ds, change) =>
      if s.handle.state == Open && s.handle.fragments != [] {
        AttemptLac(s.handle, s.store, s.nodes, bytes, ds, change, true);
      }
    case Second(ds, change) =>
      AttemptLac(s.handle, s.store, s.nodes, s.pending.value, ds, change, false);
    case Arrive(st) =>
  }

  // ── Every run ─────────────────────────────────────────────────────────────

  /** A run visits `states` by `steps`. */
  ghost predicate IsRun(states: seq<Sys>, steps: seq<Step>) {
    |states| == |steps| + 1 && forall i :: 0 <= i < |steps| ==> Next(states[i], steps[i], states[i + 1])
  }

  /** A run of a client that repeats a failed append with the same bytes, or not at all. */
  ghost predicate IsSteadyRun(states: seq<Sys>, steps: seq<Step>) {
    IsRun(states, steps) && forall i :: 0 <= i < |steps| ==> StepOk(states[i], steps[i])
  }

  /** A ledger just created on an ensemble of distinct nodes. */
  ghost predicate Created(s: Sys) {
    && s.handle.fragments != [] && |s.handle.fragments| == 1
    && s.handle.fragments[0].firstEntry == 0 && FragmentOk(s.handle.fragments[0])
    && s.handle.next == 0 && s.handle.lac == 0 && s.handle.last == None
    && s.data == [] && s.strays == {} && s.pending == None && !s.retrying
    && forall n <- s.nodes :: s.nodes[n].log == map[] && s.nodes[n].lac == 0
  }

  /** LAC soundness over every run. */
  lemma {:induction false} LacSound(states: seq<Sys>, steps: seq<Step>, i: nat)
    requires IsRun(states, steps) && Created(states[0]) && i < |states|
    ensures LacInv(states[i])
  {
    hide Next;
    if i > 0 {
      LacSound(states, steps, i - 1);
      LacStep(states[i - 1], steps[i - 1], states[i]);
    }
  }

  lemma {:induction false} RunKeeps(states: seq<Sys>, steps: seq<Step>, i: nat)
    requires IsSteadyRun(states, steps) && Created(states[0]) && i < |states|
    ensures LacInv(states[i]) && LogInv(states[i])
  {
    hide Next, AllHeld, StepOk, LacInv;
    LacSound(states, steps, i);
    if i == 0 {
      assert AllHeld(states[0].handle.fragments, states[0].nodes, []) by { NothingHeld(states[0]); }
      assert Agree(states[0].nodes, []);
    } else {
      RunKeeps(states, steps, i - 1);
      LogStep(states[i - 1], steps[i - 1], states[i]);
    }
  }

  lemma NothingHeld(s: Sys)
    ensures AllHeld(s.handle.fragments, s.nodes, [])
  {
  }

  /** An attempt pushes fragments and takes none away. */
  lemma AttemptPushes(h: Handle, store: Stored, nodes: Nodes, bytes: Bytes, ds: seq<Delivery>, env: ChangeEnv,
                      first: bool)
    requires h.fragments != []
    ensures h.fragments <= Attempt(h, store, nodes, bytes, ds, env, first).handle.fragments
  {
    hide SendAll, Count, MaxOf, WriteSet, NextEnsemble;
  }

  lemma StepPushes(s: Sys, step: Step, t: Sys)
    requires Next(s, step, t)
    ensures s.handle.fragments <= t.handle.fragments
  {
    hide Attempt, Deliver;
    match step
    case First(bytes, ds, change) =>
      if s.handle.state == Open && s.handle.fragments != [] {
        AttemptPushes(s.handle, s.store, s.nodes, bytes, ds, change, true);
      }
    case Second(ds, change) => AttemptPushes(s.handle, s.store, s.nodes, s.pending.value, ds, change, false);
    case Arrive(_) =>
  }

  /** In every run, fragments once pushed stay as they are. */
  lemma {:induction false} FragmentsStay(states: seq<Sys>, steps: seq<Step>, i: nat, j: nat)
    requires IsRun(states, steps) && i <= j < |states|
    ensures states[i].handle.fragments <= states[j].handle.fragments
    decreases j
  {
    hide Next;
    if i < j {
      FragmentsStay(states, steps, i, j - 1);
      StepPushes(states[j - 1], steps[j - 1], states[j]);
    }
  }

  /** Quorum log correctness: in every state of every run of one writer that repeats failed appends with
      the same bytes, each acknowledged id is held with its bytes by at least as many distinct nodes as the
      ack quorum the ledger was created with, all in the write set of the fragment that the reverse search of
      `read` picks for it, which has the ledger's quorums whatever fragment changes there were. */
  lemma QuorumLogCorrect(states: seq<Sys>, steps: seq<Step>, i: nat, id: nat)
    requires IsSteadyRun(states, steps) && Created(states[0]) && i < |states|
    requires id < |states[i].data|
    ensures var s := states[i];
            var owner := Owner(s.handle.fragments, id);
            var created := states[0].handle.fragments[0];
            && owner.Some? && SameQuorums(owner.value, created)
            && |Holders(owner.value, s.nodes, id, s.data[id])| >= created.ackQuorum > 0
  {
    hide Next, Owner, Holders, StepOk;
    RunKeeps(states, steps, i);
    var s := states[i];
    assert Held(s.handle.fragments, s.nodes, id, s.data[id]);
    OwnerIsFragment(s.handle.fragments, id);
    FragmentsStay(states, steps, 0, i);
  }

  lemma {:induction false} OwnerIsFragment(fs: seq<Fragment>, id: nat)
    ensures Owner(fs, id).Some? ==> Owner(fs, id).value in fs && Owner(fs, id).value.firstEntry <= id
    decreases fs
  {
    if fs != [] && fs[|fs| - 1].firstEntry > id {
      OwnerIsFragment(fs[..|fs| - 1], id);
    }
  }

  /** Every read of such a run: ids not yet acknowledged are not found, an answer is the acknowledged
      bytes, and fewer unreachable write-set nodes than the ack quorum the ledger was created with cannot make
      a read fail. */
  lemma ReadsCorrect(states: seq<Sys>, steps: seq<Step>, i: nat, id: nat, reachable: set<NodeId>, r: Result<Bytes>)
    requires IsSteadyRun(states, steps) && Created(states[0]) && i < |states|
    requires ReadResult(states[i].handle, states[i].nodes, reachable, id, r)
    ensures id >= |states[i].data| ==> r == Err(EntryNotFound)
    ensures r.Ok? ==> id < |states[i].data| && r.value == states[i].data[id]
    ensures id < |states[i].data| ==>
              var owner := Owner(states[i].handle.fragments, id);
              && owner.Some?
              && (|AsSet(WriteSet(owner.value)) - reachable| < states[0].handle.fragments[0].ackQuorum ==> r.Ok?)
  {
    hide Next, Owner, StepOk, ReadResult, WriteSet;
    RunKeeps(states, steps, i);
    ReadCorrect(states[i], id, reachable, r);
    if id < |states[i].data| {
      QuorumLogCorrect(states, steps, i, id);
    }
  }

  lemma ReadCorrect(s: Sys, id: nat, reachable: set<NodeId>, r: Result<Bytes>)
    requires LogInv(s) && LacInv(s) && ReadResult(s.handle, s.nodes, reachable, id, r)
    ensures id >= |s.data| ==> r == Err(EntryNotFound)
    ensures r.Ok? ==> id < |s.data| && r.value == s.data[id]
    ensures id < |s.data| ==>
              var owner := Owner(s.handle.fragments, id);
              owner.Some? && (|AsSet(WriteSet(owner.value)) - reachable| < owner.value.ackQuorum ==> r.Ok?)
  {
    hide Owner, Resolved;
    if id < |s.data| {
      assert Held(s.handle.fragments, s.nodes, id, s.data[id]);
      var f := Owner(s.handle.fragments, id).value;
      var clients := Resolved(f.ensemble, s.nodes);
      if r.Ok? {
        var n :| n in clients && NodeRead(s.nodes, reachable, n, id) == r;
        assert LogAgrees(s.nodes[n].log, Sent(s));
      }
      if |AsSet(WriteSet(f)) - reachable| < f.ackQuorum {
        var n := ReachableHolder(f, s.nodes, reachable, id, s.data[id]);
        assert n in clients;
      }
    }
  }

  lemma ReachableHolder(f: Fragment, nodes: Nodes, reachable: set<NodeId>, id: nat, bytes: Bytes) returns (n: NodeId)
    requires |Holders(f, nodes, id, bytes)| >= f.ackQuorum > |AsSet(WriteSet(f)) - reachable|
    ensures n in f.ensemble && n in nodes && NodeRead(nodes, reachable, n, id).Ok?
  {
    var holders, lost := Holders(f, nodes, id, bytes), AsSet(WriteSet(f)) - reachable;
    if forall n <- holders :: n in lost {
      SubsetSize(holders, lost);
      assert false;
    }
    n :| n in holders && n !in lost;
  }

  // ── After a failed append ─────────────────────────────────────────────────

  /** Without the same bytes it fails. One node, write and ack quorum 1: the first append is stored but its
      answer is lost and it fails; the second, with other bytes, is acknowledged under the same id; the id
      reads back as the first. */
  lemma FailedAppendReusesItsId(n: NodeId, a: Bytes, b: Bytes)
    requires a != b
    ensures var h := Handle(Open, [Fragment(0, [n], 1, 1)], 0, 0, None, 1);
            var store, nodes := Stored(h.fragments, 1), map[n := Bookie(map[], 0, false)];
            var quiet := ChangeEnv(Some([n]), Delivered);
            var one := Append(h, store, nodes, a, AppendEnv([Unanswered], quiet, [], quiet));
            var two := Append(one.handle, one.store, one.nodes, b, AppendEnv([Delivered], quiet, [], quiet));
            && one.result == Some(Err(QuorumNotMet(1, 0)))
            && two.result == Some(Ok(0))
            && ReadResult(two.handle, two.nodes, {n}, 0, Ok(a))
  {
    hide Append, Without;
    var h := Handle(Open, [Fragment(0, [n], 1, 1)], 0, 0, None, 1);
    var store, nodes := Stored(h.fragments, 1), map[n := Bookie(map[], 0, false)];
    var quiet := ChangeEnv(Some([n]), Delivered);
    var env1, env2 := AppendEnv([Unanswered], quiet, [], quiet), AppendEnv([Delivered], quiet, [], quiet);
    AppendToOne(h, store, nodes, a, env1, n, Unanswered);
    OneNode(n, {n});
    var one := Append(h, store, nodes, a, env1);
    assert one.handle == h && one.nodes == map[n := Bookie(map[0 := a], 0, false)];
    AppendToOne(one.handle, one.store, one.nodes, b, env2, n, Delivered);
    var two := Append(one.handle, one.store, one.nodes, b, env2);
    assert NodeRead(two.nodes, {n}, n, 0) == Ok(a);
  }

  lemma OneNode(n: NodeId, out: set<NodeId>)
    ensures AsSet([n]) == {n}
    ensures Without([n], out) == if n in out then [] else [n]
  {
    assert [n][..0] == [];
    assert Without([n][..0], out) == [];
  }

  lemma SendOne(nodes: Nodes, n: NodeId, d: Delivery, e: Entry)
    ensures SendAll(nodes, [n], [d], e) == (Deliver(nodes, n, d, e).0, [Deliver(nodes, n, d, e).1])
  {
    assert [n][..0] == [] && [d][..0] == [];
    var reply := Deliver(nodes, n, d, e).1;
    assert [] + [reply] == [reply];
  }

  lemma CountOne(n: NodeId, r: Reply)
    ensures Count([n], [r]) == match r
              case Ack(lac) => Tally([lac], [], false)
              case Fenced => Tally([], [], true)
              case Lost => Tally([], [n], false)
  {
    assert [n][..0] == [] && [r][..0] == [];
    assert Count([n][..0], [r][..0]) == Tally([], [], false);
  }

  ghost predicate LastIsOnly(h: Handle, n: NodeId) {
    && h.fragments != []
    && h.fragments[|h.fragments| - 1] == Fragment(h.fragments[|h.fragments| - 1].firstEntry, [n], 1, 1)
  }

  /** An attempt on a fragment of a single node. */
  lemma AttemptOnOne(h: Handle, store: Stored, nodes: Nodes, data: Bytes, d: Delivery, env: ChangeEnv, first: bool,
                     n: NodeId)
    requires LastIsOnly(h, n)
    ensures var (after, reply) := Deliver(nodes, n, d, Entry(h.next, h.lac, data));
            var o := Attempt(h, store, nodes, data, [d], env, first);
            var refused := Some(Err(QuorumNotMet(1, 0)));
            match reply
            case Ack(lac) =>
              o == Outcome(h.(lac := Max(Max(h.lac, lac), h.next), last := Some(h.next), next := h.next + 1), store,
                           after, Some(Ok(h.next)))
            case Fenced => o == Outcome(h, store, after, Some(Err(LedgerFenced)))
            case Lost =>
              if !first then o == Outcome(h, store, after, refused)
              else
                var (h', store', ok) := ChangeFragment(h, store, [n], h.next, env);
                o == Outcome(h', store', after, if ok then None else refused)
  {
    hide SendAll, Count, ChangeFragment, Deliver;
    var e := Entry(h.next, h.lac, data);
    assert Deliveries([d], 1) == [d];
    SendOne(nodes, n, d, e);
    var reply := Deliver(nodes, n, d, e).1;
    CountOne(n, reply);
    if reply.Ack? {
      MaxAppend([], reply.lac);
      assert [] + [reply.lac] == [reply.lac];
    }
  }

  /** An append to a fragment of a single node. */
  lemma AppendToOne(h: Handle, store: Stored, nodes: Nodes, data: Bytes, env: AppendEnv, n: NodeId, d: Delivery)
    requires h.state == Open && LastIsOnly(h, n) && env.first == [d]
    ensures var (after, reply) := Deliver(nodes, n, d, Entry(h.next, h.lac, data));
            var o := Append(h, store, nodes, data, env);
            && (reply.Ack? ==>
                  && o.result == Some(Ok(h.next)) && o.nodes == after && o.store == store
                  && o.handle
                     == h.(lac := Max(Max(h.lac, reply.lac), h.next), last := Some(h.next), next := h.next + 1))
            && (reply.Lost? && !ChangeFragment(h, store, [n], h.next, env.change).2 ==>
                  var (h', store', _) := ChangeFragment(h, store, [n], h.next, env.change);
                  o == Outcome(h', store', after, Some(Err(QuorumNotMet(1, 0)))))
  {
    hide Attempt, ChangeFragment, Deliver;
    AttemptOnOne(h, store, nodes, data, d, env.change, true, n);
  }
}
