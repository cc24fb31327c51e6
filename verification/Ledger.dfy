/**
 * The client side of one ledger (folio-ledger/src/ledger.rs, fragment.rs, lac_tracker.rs,
 * speculative.rs): quorum appends with fragment changes, LAC tracking, and reads. Storage nodes are
 * reduced to what they keep for this ledger; whether a request reaches a node, and whether its answer
 * comes back, is up to the environment.
 */
module Ledger {
  import opened Words
  import opened Protocol

  // ── Storage nodes ─────────────────────────────────────────────────────────

  datatype Bookie = Bookie(log: map<nat, Bytes>, lac: nat, fenced: bool)

  type Nodes = map<NodeId, Bookie>

  datatype Entry = Entry(id: nat, lac: nat, data: Bytes)

  /** What became of one request: it never arrived, it was handled but its answer got lost, or it was
      handled and answered. */
  datatype Delivery = Missed | Unanswered | Delivered

  datatype Reply = Ack(lac: nat) | Fenced | Lost

  /** `add_entry` on a node: a fenced ledger refuses, a known id is acknowledged as it stands. */
  function AddEntry(b: Bookie, e: Entry): (r: (Bookie, Reply))
  {
    if b.fenced then (b, Fenced)
    else if e.id in b.log then (b, Ack(b.lac))
    else (Bookie(b.log[e.id := e.data], Max(b.lac, e.lac), false), Ack(Max(b.lac, e.lac)))
  }

  function Deliver(nodes: Nodes, n: NodeId, d: Delivery, e: Entry): (r: (Nodes, Reply)) {
    if n !in nodes || d == Missed then (nodes, Lost)
    else
      var (b, reply) := AddEntry(nodes[n], e);
      (nodes[n := b], if d == Delivered then reply else Lost)
  }

  /** The request to every node of the write set. */
  function SendAll(nodes: Nodes, ws: seq<NodeId>, ds: seq<Delivery>, e: Entry): (r: (Nodes, seq<Reply>))
    requires |ds| == |ws|
    ensures |r.1| == |ws|
    decreases ws
  {
    if ws == [] then (nodes, [])
    else
      var last := |ws| - 1;
      var (before, replies) := SendAll(nodes, ws[..last], ds[..last], e);
      var (after, reply) := Deliver(before, ws[last], ds[last], e);
      (after, replies + [reply])
  }

  // ── Outcomes ──────────────────────────────────────────────────────────────

  datatype Tally = Tally(acks: seq<nat>, failed: seq<NodeId>, fenced: bool)

  /** Acks and failures up to the first fenced answer, which ends the count. */
  function Count(ws: seq<NodeId>, replies: seq<Reply>): (t: Tally)
    requires |ws| == |replies|
    decreases ws
  {
    if ws == [] then Tally([], [], false)
    else
      var last := |ws| - 1;
      var t := Count(ws[..last], replies[..last]);
      if t.fenced then t
      else match replies[last]
        case Ack(lac) => t.(acks := t.acks + [lac])
        case Fenced => t.(fenced := true)
        case Lost => t.(failed := t.failed + [ws[last]])
  }

  function MaxOf(xs: seq<nat>): (m: nat) {
    if xs == [] then 0 else Max(MaxOf(xs[..|xs| - 1]), xs[|xs| - 1])
  }

  class LacTracker {
    var lac: nat

    constructor (initial: nat)
      ensures lac == initial
    {
      lac := initial;
    }

    method Advance(acks: seq<nat>, id: nat) returns (current: nat)
      modifies this
      ensures lac == current == Max(Max(old(lac), MaxOf(acks)), id)
      ensures old(lac) <= lac && id <= lac && forall i :: 0 <= i < |acks| ==> acks[i] <= lac
      ensures lac in {old(lac), id} || lac in acks
    {
      var reported := 0;
      for i := 0 to |acks|
        invariant reported == MaxOf(acks[..i]) && (reported == 0 || reported in acks)
        invariant forall j :: 0 <= j < i ==> acks[j] <= reported
      {
        assert acks[..i + 1][..i] == acks[..i];
        reported := Max(reported, acks[i]);
      }
      assert acks[..|acks|] == acks;
      lac := Max(Max(lac, reported), id);
      current := lac;
    }
  }

  // ── Fragment change ───────────────────────────────────────────────────────

  /** What the handle knows of its ledger. */
  datatype Handle =
    Handle(state: LedgerState, fragments: seq<Fragment>, next: nat, lac: nat, last: Option<nat>, version: int)

  /** A handle opened on a ledger's record. */
  function HandleOf(meta: LedgerMeta): Handle {
    Handle(meta.state, meta.fragments, if meta.lastEntry.Some? then meta.lastEntry.value + 1 else 0,
           meta.lastAddConfirmed, meta.lastEntry, meta.version)
  }

  /** What the metadata store holds of it. */
  datatype Stored = Stored(fragments: seq<Fragment>, version: int)

  /** The environment of a fragment change: the ReadWrite nodes the store lists, if it answers, and what
      becomes of the put. */
  datatype ChangeEnv = ChangeEnv(listed: Option<seq<NodeId>>, put: Delivery)

  function Without(xs: seq<NodeId>, out: set<NodeId>): (r: seq<NodeId>) {
    if xs == [] then []
    else
      var last := xs[|xs| - 1];
      Without(xs[..|xs| - 1], out) + if last in out then [] else [last]
  }

  function Take<T>(xs: seq<T>, n: nat): seq<T> {
    if n < |xs| then xs[..n] else xs
  }

  function AsSet(xs: seq<NodeId>): set<NodeId> {
    set x <- xs
  }

  /** The ensemble of the next fragment: the survivors, then as many spare nodes as failed. */
  function NextEnsemble(current: Fragment, failed: set<NodeId>, listed: seq<NodeId>): seq<NodeId> {
    Without(current.ensemble, failed) + Take(Without(listed, AsSet(current.ensemble)), |failed|)
  }

  /** The put of a changed record: it takes effect if it arrives and the version is current, and is known
      to have done so if it is answered. */
  function PutFragments(h: Handle, store: Stored, pushed: seq<Fragment>, put: Delivery): (r: (Stored, bool)) {
    if put != Missed && store.version == h.version then (Stored(pushed, h.version + 1), put == Delivered)
    else (store, false)
  }

  /** `change_fragment`. The new fragment is pushed locally before the put, so a put that fails, or whose
      answer is lost, leaves it in the handle without the new version. */
  function ChangeFragment(h: Handle, store: Stored, failed: seq<NodeId>, next: nat, env: ChangeEnv)
    : (r: (Handle, Stored, bool))
    requires h.fragments != [] && failed != []
  {
    var current := h.fragments[|h.fragments| - 1];
    if env.listed.None? then (h, store, false)
    else
      var ensemble := NextEnsemble(current, AsSet(failed), env.listed.value);
      if |ensemble| < current.writeQuorum then (h, store, false)
      else
        var pushed := h.fragments + [Fragment(next, ensemble, current.writeQuorum, current.ackQuorum)];
        var (store', ok) := PutFragments(h, store, pushed, env.put);
        (h.(fragments := pushed, version := if ok then h.version + 1 else h.version), store', ok)
  }

  // ── Append ────────────────────────────────────────────────────────────────

  function WriteSet(f: Fragment): seq<NodeId> {
    Take(f.ensemble, f.writeQuorum)
  }

  /** The environment of an append: deliveries of the first and second attempt, and the fragment change
      after each. */
  datatype AppendEnv = AppendEnv(first: seq<Delivery>, change: ChangeEnv, second: seq<Delivery>, proactive: ChangeEnv)

  /** Missing deliveries count as never arrived. */
  function Deliveries(ds: seq<Delivery>, n: nat): (r: seq<Delivery>)
    ensures |r| == n
  {
    seq(n, i => if 0 <= i < |ds| then ds[i] else Missed)
  }

  datatype Outcome = Outcome(handle: Handle, store: Stored, nodes: Nodes, result: Option<Result<nat>>)

  /** One turn of the attempt loop; no result means another attempt. */
  function Attempt(h: Handle, store: Stored, nodes: Nodes, data: Bytes, ds: seq<Delivery>, env: ChangeEnv, first: bool)
    : (o: Outcome)
    requires h.fragments != []
  {
    var fragment := h.fragments[|h.fragments| - 1];
    var ws := WriteSet(fragment);
    var (after, replies) := SendAll(nodes, ws, Deliveries(ds, |ws|), Entry(h.next, h.lac, data));
    var t := Count(ws, replies);
    if t.fenced then Outcome(h, store, after, Some(Err(LedgerFenced)))
    else if |t.acks| >= fragment.ackQuorum then
      var done := h.(lac := Max(Max(h.lac, MaxOf(t.acks)), h.next), last := Some(h.next), next := h.next + 1);
      if t.failed == [] then Outcome(done, store, after, Some(Ok(h.next)))
      else
        var (h', store', _) := ChangeFragment(done, store, t.failed, done.next, env);
        Outcome(h', store', after, Some(Ok(h.next)))
    else
      var refused := Some(Err(QuorumNotMet(fragment.ackQuorum, |t.acks|)));
      if t.failed == [] || !first then Outcome(h, store, after, refused)
      else
        var (h', store', ok) := ChangeFragment(h, store, t.failed, h.next, env);
        Outcome(h', store', after, if ok then None else refused)
  }

  /** `do_append`. */
  function Append(h: Handle, store: Stored, nodes: Nodes, data: Bytes, env: AppendEnv): (o: Outcome)
    ensures o.result.Some?
  {
    if h.state != Open then Outcome(h, store, nodes, Some(Err(StateConflict(Open, h.state))))
    else if h.fragments == [] then Outcome(h, store, nodes, Some(Err(InvalidFragment)))
    else
      var o := Attempt(h, store, nodes, data, env.first, env.change, true);
      if o.result.Some? then o
      else Attempt(o.handle, o.store, o.nodes, data, env.second, env.proactive, false)
  }

  // ── Read ──────────────────────────────────────────────────────────────────

  /** The reverse search of `read`: the last fragment that starts at or before the entry. */
  function Owner(fragments: seq<Fragment>, id: nat): (f: Option<Fragment>) {
    if fragments == [] then None
    else
      var last := fragments[|fragments| - 1];
      if last.firstEntry <= id then Some(last) else Owner(fragments[..|fragments| - 1], id)
  }

  /** What reading the entry from one node gives. */
  function NodeRead(nodes: Nodes, reachable: set<NodeId>, n: NodeId, id: nat): Result<Bytes> {
    if n !in nodes || n !in reachable then Err(NodeUnavailable)
    else if id in nodes[n].log then Ok(nodes[n].log[id])
    else Err(EntryNotFound)
  }

  /** The nodes of an ensemble that the resolver knows. */
  function Resolved(ensemble: seq<NodeId>, nodes: Nodes): (clients: seq<NodeId>)
    ensures forall n :: n in clients <==> n in ensemble && n in nodes
  {
    if ensemble == [] then []
    else
      var init, last := ensemble[..|ensemble| - 1], ensemble[|ensemble| - 1];
      assert ensemble == init + [last];
      Resolved(init, nodes) + if last in nodes then [last] else []
  }

  /** Both modes of `speculative_read`: an answer comes from some node of the list, and an error means
      that no node answered and is one of their errors. Hedged reads may return any of them. */
  ghost predicate SpeculativeResult(nodes: Nodes, reachable: set<NodeId>, clients: seq<NodeId>, id: nat,
                                    r: Result<Bytes>)
  {
    if clients == [] then r == Err(EntryNotFound)
    else
      && (exists n <- clients :: NodeRead(nodes, reachable, n, id) == r)
      && (r.Err? ==> forall n <- clients :: NodeRead(nodes, reachable, n, id).Err?)
  }

  /** The zero-delay mode: one node after another; the first success wins, and without one the last
      node's error is returned. */
  method SequentialRead(nodes: Nodes, reachable: set<NodeId>, clients: seq<NodeId>, id: nat) returns (r: Result<Bytes>)
    ensures SpeculativeResult(nodes, reachable, clients, id, r)
    ensures r.Ok? ==> exists i :: 0 <= i < |clients| && NodeRead(nodes, reachable, clients[i], id) == r
                                  && forall j :: 0 <= j < i ==> NodeRead(nodes, reachable, clients[j], id).Err?
    ensures r.Err? && clients != [] ==> r == NodeRead(nodes, reachable, clients[|clients| - 1], id)
  {
    r := Err(EntryNotFound);
    for i := 0 to |clients|
      invariant r == if i == 0 then Err(EntryNotFound) else NodeRead(nodes, reachable, clients[i - 1], id)
      invariant forall j :: 0 <= j < i ==> NodeRead(nodes, reachable, clients[j], id).Err?
    {
      r := NodeRead(nodes, reachable, clients[i], id);
      if r.Ok? {
        assert clients[i] in clients;
        return;
      }
    }
    if clients != [] {
      assert clients[|clients| - 1] in clients;
    }
  }

  // ── The handle ────────────────────────────────────────────────────────────

  method Send(nodes: Nodes, ws: seq<NodeId>, ds: seq<Delivery>, e: Entry) returns (after: Nodes, replies: seq<Reply>)
    requires |ds| == |ws|
    ensures (after, replies) == SendAll(nodes, ws, ds, e)
  {
    after, replies := nodes, [];
    for i := 0 to |ws|
      invariant (after, replies) == SendAll(nodes, ws[..i], ds[..i], e)
    {
      assert ws[..i + 1][..i] == ws[..i] && ds[..i + 1][..i] == ds[..i];
      var (sent, reply) := Deliver(after, ws[i], ds[i], e);
      after, replies := sent, replies + [reply];
    }
    assert ws[..|ws|] == ws && ds[..|ws|] == ds;
  }

  lemma {:induction false} FencedStays(ws: seq<NodeId>, replies: seq<Reply>, i: nat)
    requires |ws| == |replies| && i <= |ws| && Count(ws[..i], replies[..i]).fenced
    ensures Count(ws, replies) == Count(ws[..i], replies[..i])
    decreases ws
  {
    if i == |ws| {
      assert ws[..i] == ws && replies[..i] == replies;
    } else {
      var last := |ws| - 1;
      assert ws[..last][..i] == ws[..i] && replies[..last][..i] == replies[..i];
      FencedStays(ws[..last], replies[..last], i);
    }
  }

  method CountOutcomes(ws: seq<NodeId>, replies: seq<Reply>) returns (t: Tally)
    requires |ws| == |replies|
    ensures t == Count(ws, replies)
  {
    var acks, failed := [], [];
    for i := 0 to |ws|
      invariant Tally(acks, failed, false) == Count(ws[..i], replies[..i])
    {
      assert ws[..i + 1][..i] == ws[..i] && replies[..i + 1][..i] == replies[..i];
      match replies[i]
      case Ack(lac) => acks := acks + [lac];
      case Fenced =>
        FencedStays(ws, replies, i + 1);
        return Tally(acks, failed, true);
      case Lost => failed := failed + [ws[i]];
    }
    assert ws[..|ws|] == ws && replies[..|ws|] == replies;
    t := Tally(acks, failed, false);
  }

  /** The first attempt changed the fragment and asks for a second. */
  ghost predicate AfterFirst(o: Outcome, h: Handle, store: Stored, nodes: Nodes, data: Bytes, env: AppendEnv) {
    h.fragments != [] && o == Attempt(h, store, nodes, data, env.first, env.change, true)
  }

  class LedgerHandle {
    var state: LedgerState
    var fragments: seq<Fragment>
    var next: nat
    var lac: LacTracker
    var last: Option<nat>
    var version: int

    function Value(): Handle
      reads this, lac
    {
      Handle(state, fragments, next, lac.lac, last, version)
    }

    /** `LedgerHandle::new`. */
    constructor (meta: LedgerMeta)
      ensures Value() == HandleOf(meta) && fresh(lac)
    {
      state, fragments, last, version := meta.state, meta.fragments, meta.lastEntry, meta.version;
      next := if meta.lastEntry.Some? then meta.lastEntry.value + 1 else 0;
      lac := new LacTracker(meta.lastAddConfirmed);
    }

    /** `change_fragment` on this handle. */
    method Change(store: Stored, failed: seq<NodeId>, env: ChangeEnv) returns (after: Stored, ok: bool)
      requires fragments != [] && failed != []
      modifies this`fragments, this`version
      ensures (Value(), after, ok) == ChangeFragment(old(Value()), store, failed, next, env)
      ensures old(fragments) <= fragments && |fragments| <= |old(fragments)| + 1
      ensures |fragments| > |old(fragments)| ==>
                var was, now := old(fragments[|fragments| - 1]), fragments[|fragments| - 1];
                now == Fragment(next, now.ensemble, was.writeQuorum, was.ackQuorum)
                && |now.ensemble| >= was.writeQuorum
    {
      var current := fragments[|fragments| - 1];
      if env.listed.None? {
        return store, false;
      }
      var ensemble := NextEnsemble(current, AsSet(failed), env.listed.value);
      if |ensemble| < current.writeQuorum {
        return store, false;
      }
      fragments := fragments + [Fragment(next, ensemble, current.writeQuorum, current.ackQuorum)];
      after, ok := store, false;
      if env.put != Missed && store.version == version {
        after := Stored(fragments, version + 1);
        if env.put == Delivered {
          version, ok := version + 1, true;
        }
      }
    }

    /** `do_append`. */
    method DoAppend(nodes: Nodes, store: Stored, data: Bytes, env: AppendEnv)
      returns (nodes': Nodes, store': Stored, result: Result<nat>)
      modifies this, lac
      ensures lac == old(lac)
      ensures Outcome(Value(), store', nodes', Some(result)) == Append(old(Value()), store, nodes, data, env)
    {
      hide SendAll, Count, MaxOf, ChangeFragment, WriteSet;
      nodes', store' := nodes, store;
      if state != Open {
        return nodes', store', Err(StateConflict(Open, state));
      }
      if fragments == [] {
        return nodes', store', Err(InvalidFragment);
      }
      for attempt := 0 to 2
        invariant lac == old(lac) && fragments != [] && state == Open
        invariant attempt == 0 ==> Value() == old(Value()) && nodes' == nodes && store' == store
        invariant attempt == 1 ==>
                    AfterFirst(Outcome(Value(), store', nodes', None), old(Value()), store, nodes, data, env)
        invariant attempt < 2
      {
        var fragment := fragments[|fragments| - 1];
        var ws := WriteSet(fragment);
        var ds := Deliveries(if attempt == 0 then env.first else env.second, |ws|);
        var change := if attempt == 0 then env.change else env.proactive;
        var replies;
        nodes', replies := Send(nodes', ws, ds, Entry(next, lac.lac, data));
        var t := CountOutcomes(ws, replies);
        if t.fenced {
          return nodes', store', Err(LedgerFenced);
        }
        if |t.acks| >= fragment.ackQuorum {
          var id := next;
          var _ := lac.Advance(t.acks, id);
          last, next := Some(id), id + 1;
          if t.failed != [] {
            var changed;
            store', changed := Change(store', t.failed, change);
          }
          return nodes', store', Ok(id);
        }
        if t.failed != [] && attempt == 0 {
          var ok;
          store', ok := Change(store', t.failed, change);
          if ok {
            continue;
          }
        }
        return nodes', store', Err(QuorumNotMet(fragment.ackQuorum, |t.acks|));
      }
      assert false;
    }

    /** `read`, with sequential reads. */
    method Read(nodes: Nodes, reachable: set<NodeId>, id: nat) returns (r: Result<Bytes>)
      ensures ReadResult(Value(), nodes, reachable, id, r)
    {
      if last.None? || id > last.value || id > lac.lac {
        return Err(EntryNotFound);
      }
      var owner := Owner(fragments, id);
      if owner.None? {
        return Err(InvalidFragment);
      }
      r := SequentialRead(nodes, reachable, Resolved(owner.value.ensemble, nodes), id);
    }
  }

  /** The answers `read` may give. */
  ghost predicate ReadResult(h: Handle, nodes: Nodes, reachable: set<NodeId>, id: nat, r: Result<Bytes>) {
    if h.last.None? || id > h.last.value || id > h.lac then r == Err(EntryNotFound)
    else match Owner(h.fragments, id)
      case None => r == Err(InvalidFragment)
      case Some(f) => SpeculativeResult(nodes, reachable, Resolved(f.ensemble, nodes), id, r)
  }
}
