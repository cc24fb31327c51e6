/**
 * What a fragment change does to the ensemble, the handle and the store (folio-ledger/src/fragment.rs), stated
 * through which nodes survive and which are spare.
 */
module FragmentChanges {
  import opened Words
  import opened Protocol
  import opened Ledger
  import opened QuorumLog
  import opened Appends

  /** The members of the ensemble that did not fail. */
  function Survivors(f: Fragment, failed: set<NodeId>): set<NodeId> {
    AsSet(f.ensemble) - failed
  }

  /** The listed nodes outside the ensemble. */
  function Spares(f: Fragment, listed: seq<NodeId>): set<NodeId> {
    AsSet(listed) - AsSet(f.ensemble)
  }

  /** How many spare nodes are taken: one for each failed one, as far as they go. */
  function Taken(f: Fragment, failed: set<NodeId>, listed: seq<NodeId>): nat {
    if |failed| < |Spares(f, listed)| then |failed| else |Spares(f, listed)|
  }

  /** The members of `xs` come in the order they have in `ys`. */
  ghost predicate InOrder(xs: seq<NodeId>, ys: seq<NodeId>) {
    forall i, j, p, q ::
      0 <= i < j < |xs| && 0 <= p < |ys| && 0 <= q < |ys| && xs[i] == ys[p] && xs[j] == ys[q] ==> p < q
  }

  /** `xs` is the survivors in their old order, then `taken` spare nodes in the order listed. */
  ghost predicate Replaces(xs: seq<NodeId>, f: Fragment, failed: set<NodeId>, listed: seq<NodeId>) {
    var kept := |Survivors(f, failed)|;
    && Distinct(xs) && |xs| == kept + Taken(f, failed, listed)
    && AsSet(xs[..kept]) == Survivors(f, failed) && InOrder(xs[..kept], f.ensemble)
    && AsSet(xs[kept..]) <= Spares(f, listed) && InOrder(xs[kept..], listed)
  }

  lemma {:induction false} DistinctSize(xs: seq<NodeId>)
    requires Distinct(xs)
    ensures |AsSet(xs)| == |xs|
  {
    if xs != [] {
      var last := |xs| - 1;
      DistinctSize(xs[..last]);
      assert xs == xs[..last] + [xs[last]];
      assert AsSet(xs) == AsSet(xs[..last]) + {xs[last]};
    }
  }

  lemma InOrderPush(xs: seq<NodeId>, ys: seq<NodeId>, y: NodeId)
    requires InOrder(xs, ys) && Distinct(ys + [y]) && AsSet(xs) <= AsSet(ys)
    ensures InOrder(xs, ys + [y]) && InOrder(xs + [y], ys + [y])
  {
    var zs, ws := ys + [y], xs + [y];
    forall i | 0 <= i < |xs| ensures xs[i] != y {
      assert xs[i] in AsSet(xs);
      var p :| 0 <= p < |ys| && ys[p] == xs[i];
      assert zs[p] != zs[|ys|];
    }
    forall i, j, p, q | 0 <= i < j < |ws| && 0 <= p < |zs| && 0 <= q < |zs| && ws[i] == zs[p] && ws[j] == zs[q]
      ensures p < q
    {
      assert ws[i] == xs[i] && p < |ys|;
      if j < |xs| {
        assert q < |ys| && ys[p] == xs[i] && ys[q] == xs[j];
      } else {
        assert zs[q] == zs[|ys|];
        assert q == |ys|;
      }
    }
    forall i, j, p, q | 0 <= i < j < |xs| && 0 <= p < |zs| && 0 <= q < |zs| && xs[i] == zs[p] && xs[j] == zs[q]
      ensures p < q
    {
      assert p < |ys| && q < |ys|;
    }
  }

  lemma {:induction false} WithoutInOrder(xs: seq<NodeId>, out: set<NodeId>)
    requires Distinct(xs)
    ensures InOrder(Without(xs, out), xs)
  {
    if xs != [] {
      hide InOrder;
      var init, last := xs[..|xs| - 1], xs[|xs| - 1];
      assert xs == init + [last];
      WithoutInOrder(init, out);
      WithoutIs(init, out);
      InOrderPush(Without(init, out), init, last);
      assert Without(init, out) + [] == Without(init, out);
    }
  }

  /** Leaving members out keeps the others, in order. */
  lemma WithoutKeeps(xs: seq<NodeId>, out: set<NodeId>)
    requires Distinct(xs)
    ensures var r := Without(xs, out);
            Distinct(r) && AsSet(r) == AsSet(xs) - out && |r| == |AsSet(xs) - out| && InOrder(r, xs)
  {
    hide InOrder, Distinct, Without;
    WithoutIs(xs, out);
    WithoutInOrder(xs, out);
    DistinctSize(Without(xs, out));
    assert AsSet(Without(xs, out)) == AsSet(xs) - out;
  }

  lemma NextEnsembleReplaces(f: Fragment, failed: set<NodeId>, listed: seq<NodeId>)
    requires Distinct(f.ensemble) && Distinct(listed)
    ensures Replaces(NextEnsemble(f, failed, listed), f, failed, listed)
  {
    hide Without, InOrder, Distinct;
    WithoutKeeps(f.ensemble, failed);
    WithoutKeeps(listed, AsSet(f.ensemble));
    NextEnsembleIs(f, failed, listed);
    var kept, spare := Without(f.ensemble, failed), Without(listed, AsSet(f.ensemble));
    var xs := NextEnsemble(f, failed, listed);
    assert xs[..|kept|] == kept && xs[|kept|..] == Take(spare, |failed|);
    PrefixInOrder(spare, Taken(f, failed, listed), listed);
    assert Take(spare, |failed|) == spare[..Taken(f, failed, listed)];
  }

  lemma PrefixInOrder(xs: seq<NodeId>, n: nat, ys: seq<NodeId>)
    requires n <= |xs| && InOrder(xs, ys)
    ensures InOrder(xs[..n], ys) && AsSet(xs[..n]) <= AsSet(xs)
  {
  }

  /** The change goes ahead: the store lists nodes, and survivors and spare nodes make a write quorum. */
  predicate Pushes(f: Fragment, failed: set<NodeId>, env: ChangeEnv) {
    env.listed.Some? && |Survivors(f, failed)| + Taken(f, failed, env.listed.value) >= f.writeQuorum
  }

  /** `change_fragment` on every input. The pushed fragment starts at `next`, keeps both quorums, and replaces
      the failed members. It is pushed if and only if survivors and spare nodes make a write quorum; the
      change is reported done if and only if the put also arrived, was answered and found the handle's
      version. A put that arrived unanswered is in the store and not in the handle's version. */
  lemma ChangeFragmentIs(h: Handle, store: Stored, failed: seq<NodeId>, next: nat, env: ChangeEnv)
    requires h.fragments != [] && failed != [] && Distinct(h.fragments[|h.fragments| - 1].ensemble)
    requires env.listed.Some? ==> Distinct(env.listed.value)
    ensures var (h', store', ok) := ChangeFragment(h, store, failed, next, env);
            var n := |h.fragments|;
            var f := h.fragments[n - 1];
            && (if !Pushes(f, AsSet(failed), env) then h' == h && store' == store && !ok
                else
                  && |h'.fragments| == n + 1 && h'.fragments[..n] == h.fragments
                  && h'.fragments[n].firstEntry == next
                  && h'.fragments[n].writeQuorum == f.writeQuorum && h'.fragments[n].ackQuorum == f.ackQuorum
                  && Replaces(h'.fragments[n].ensemble, f, AsSet(failed), env.listed.value)
                  && (ok <==> env.put == Delivered && store.version == h.version)
                  && store' == (if env.put == Missed || store.version != h.version then store
                                else Stored(h'.fragments, h.version + 1)))
            && h'.version == h.version + (if ok then 1 else 0)
            && h'.state == h.state && h'.next == h.next && h'.lac == h.lac && h'.last == h.last
  {
    hide NextEnsemble, Distinct, InOrder;
    if env.listed.Some? {
      NextEnsembleReplaces(h.fragments[|h.fragments| - 1], AsSet(failed), env.listed.value);
    }
  }

  /** What a reader of the change relies on: every old member that did not fail stays, every new one is listed
      and was not a member, no failed member is back, and the ensemble does not grow. */
  lemma ReplacesMembers(xs: seq<NodeId>, f: Fragment, failed: set<NodeId>, listed: seq<NodeId>)
    requires Replaces(xs, f, failed, listed) && Distinct(f.ensemble) && failed <= AsSet(f.ensemble)
    ensures forall x :: x in f.ensemble && x !in failed ==> x in xs
    ensures forall x <- xs :: x in f.ensemble || x in listed
    ensures forall x <- xs :: x !in failed
    ensures |xs| <= |f.ensemble|
  {
    hide InOrder, Distinct;
    var kept := |Survivors(f, failed)|;
    assert xs == xs[..kept] + xs[kept..];
    forall x | x in f.ensemble && x !in failed ensures x in xs {
      assert x in AsSet(xs[..kept]);
    }
    forall x | x in xs ensures (x in f.ensemble || x in listed) && x !in failed {
      assert x in AsSet(xs[..kept]) || x in AsSet(xs[kept..]);
    }
    DistinctSize(f.ensemble);
    assert AsSet(f.ensemble) == Survivors(f, failed) + failed;
  }

  /** Whether a node of the write set that answers is fenced. */
  ghost predicate Refused(f: Fragment, nodes: Nodes, ds: seq<Delivery>)
    requires f.writeQuorum <= |f.ensemble|
  {
    exists n <- Answering(f.ensemble, f.writeQuorum, nodes, ds) :: n in nodes && nodes[n].fenced
  }

  /** Which nodes an attempt replaces: exactly those of the write set whose answer did not come back, after a
      success or on the first attempt, from the first entry not acknowledged on. It is tried again if and only
      if the change was done and too few had answered. After a fenced answer nothing changes. */
  lemma AttemptReplaces(h: Handle, store: Stored, nodes: Nodes, data: Bytes, ds: seq<Delivery>, env: ChangeEnv,
                        first: bool)
    requires h.fragments != [] && FragmentOk(h.fragments[|h.fragments| - 1]) && EnvOk(env)
    ensures var n := |h.fragments|;
            var f := h.fragments[n - 1];
            var o := Attempt(h, store, nodes, data, ds, env, first);
            var silent := Silent(f, nodes, ds);
            var enough := |Answering(f.ensemble, f.writeQuorum, nodes, ds)| >= f.ackQuorum;
            if Refused(f, nodes, ds) then o.handle == h && o.store == store
            else if silent == {} || !(enough || first) || !Pushes(f, silent, env) then
              o.handle.fragments == h.fragments && o.store == store && o.result.Some?
            else
              && |o.handle.fragments| == n + 1 && o.handle.fragments[..n] == h.fragments
              && o.handle.fragments[n].firstEntry == h.next + (if enough then 1 else 0)
              && SameQuorums(o.handle.fragments[n], f)
              && Replaces(o.handle.fragments[n].ensemble, f, silent, env.listed.value)
              && (o.result.None? <==> !enough && env.put == Delivered && store.version == h.version)
  {
    hide SendAll, Count, MaxOf, ChangeFragment, Distinct, Replaces, Pushes;
    var f := h.fragments[|h.fragments| - 1];
    var ws := WriteSet(f);
    assert ws == f.ensemble[..f.writeQuorum];
    assert Distinct(ws) by { PrefixDistinct(f.ensemble, f.writeQuorum); }
    var dds := Deliveries(ds, |ws|);
    var replies := SendAll(nodes, ws, dds, Entry(h.next, h.lac, data)).1;
    SendAllReplies(nodes, ws, dds, Entry(h.next, h.lac, data));
    var t := Count(ws, replies);
    CountIs(ws, replies);
    AnsweringIs(f, nodes, ds, replies);
    SilentIs(f, nodes, ds, replies);
    if !t.fenced && t.failed != [] {
      assert t.failed[0] in AsSet(t.failed);
      var done := h.(lac := Max(Max(h.lac, MaxOf(t.acks)), h.next), last := Some(h.next), next := h.next + 1);
      ChangeFragmentIs(done, store, t.failed, done.next, env);
      ChangeFragmentIs(h, store, t.failed, h.next, env);
    }
  }
}
