/**
 * What `fence_ledger` of a storage node answers (storage/node.rs): three lookups, one after the other, while
 * the flush loop goes on.
 */
module NodeFence {
  import opened Words
  import opened Records
  import opened BatchFiles
  import opened EntryCache
  import opened Recovery
  import opened NodeRun
  import opened NodeInvariant
  import opened Durability
  import opened CrashSafety
  import opened Keys
  import opened Restart

  function HiOf(n: Node, ledger: u64): nat {
    if ledger in n.hi then n.hi[ledger] else 0
  }

  function SaturatingPred(n: nat): nat {
    if n == 0 then 0 else n - 1
  }

  /** `fence_ledger`'s answer from its three lookups: `hi_entry`, then `entry_index`, then `wal_index`. */
  function FenceAnswer(hi: nat, nextEntry: nat, nextWal: nat): nat {
    Max(hi, Max(SaturatingPred(nextEntry), SaturatingPred(nextWal)))
  }

  // ── What an index keeps ───────────────────────────────────────────────────

  /** What an indexed key can do in one step: an EntrySegment location stays, and a WAL location is
      dropped only once the key has an EntrySegment location. */
  lemma IndexedStep(n: Node, s: Step, k: Key)
    requires Inv(n) && Enabled(n, s)
    ensures var n' := Next(n, s);
            && (k in n.entryIndex ==> k in n'.entryIndex)
            && (k in n.walIndex ==> k in n'.walIndex || k in n'.entryIndex)
            && n'.walIndex.Keys <= n.walIndex.Keys
            && (n.flush == Dead ==> n'.flush == Dead && n'.walIndex == n.walIndex)
  {
    hide Inv, Enabled, Next;
    DeadStays(n, s);
    if s.DropWal? {
      DropWalIndexed(n, k);
    } else {
      IndexFrame(n, s);
    }
  }

  lemma DropWalIndexed(n: Node, k: Key)
    requires Inv(n) && Enabled(n, DropWal)
    ensures var n' := Next(n, DropWal);
            && n'.entryIndex == n.entryIndex && n'.walIndex.Keys <= n.walIndex.Keys
            && (k in n.walIndex && k !in n'.walIndex ==> k in n.entryIndex)
  {
    hide IntentOk, SegsOk, IndexOk, AppendsOk, BoundedOk, ReadersOk, Cache.View, Cache.Agrees, Decode, Stable, Placed;
  }

  predicate IsFlush(s: Step) {
    || s.Drain? || s.FlushWrite? || s.FlushSync? || s.FlushDie? || s.IndexEntry? || s.DropWal? || s.FlushDone?
    || s.Evict?
  }

  /** Other steps leave the flush loop and the indexes alone, and take nothing out of the hot tier. */
  lemma FlushFrame(n: Node, s: Step)
    requires Enabled(n, s) && !IsFlush(s)
    ensures var n' := Next(n, s);
            && n'.flush == n.flush && n'.walIndex == n.walIndex && n'.entryIndex == n.entryIndex
            && n.cache.hot.Keys <= n'.cache.hot.Keys
  {
    hide ReadFrom, BatchOf, AppendBatch, FileBytes, Stable, RaiseHi, AllQueued, Writable, Cache.View, SetLast, Last;
    match s
    case Submit(_, _) =>
    case JournalWrite(_) =>
    case JournalFail(_, _) =>
    case CacheEntry(_) =>
    case Ack(_) =>
    case _ =>
  }

  lemma DeadStays(n: Node, s: Step)
    requires Enabled(n, s)
    ensures n.flush == Dead ==> !s.DropWal? && Next(n, s).flush == Dead
  {
    if IsFlush(s) {
      hide SetLast, Last;
    } else {
      hide Enabled, Next;
      FlushFrame(n, s);
    }
  }

  lemma IndexFrame(n: Node, s: Step)
    requires Enabled(n, s)
    ensures s.DropWal? || Next(n, s).walIndex == n.walIndex
    ensures n.entryIndex.Keys <= Next(n, s).entryIndex.Keys
  {
    if IsFlush(s) {
      FlushIndexes(n, s);
    } else {
      hide Enabled, Next;
      FlushFrame(n, s);
    }
  }

  lemma FlushIndexes(n: Node, s: Step)
    requires Enabled(n, s) && IsFlush(s)
    ensures s.DropWal? || Next(n, s).walIndex == n.walIndex
    ensures n.entryIndex.Keys <= Next(n, s).entryIndex.Keys
  {
    hide AppendBatch, Placed, Stable, BatchBytes, Lists, Cache.View, Cache.Drain, Cache.Evict, RecLen, SetLast, Last;
  }

  lemma {:induction false} IndexedStays(n: Node, steps: seq<Step>, k: Key)
    requires Inv(n) && Legal(n, steps)
    ensures var m := RunFrom(n, steps);
            && (k in n.entryIndex ==> k in m.entryIndex)
            && (k in n.walIndex ==> k in m.walIndex || k in m.entryIndex)
            && m.walIndex.Keys <= n.walIndex.Keys
            && (n.flush == Dead ==> m.walIndex == n.walIndex)
    decreases steps
  {
    hide Inv, Enabled, Next;
    if steps != [] {
      StepKeeps(n, steps[0]);
      IndexedStep(n, steps[0], k);
      IndexedStays(Next(n, steps[0]), steps[1..], k);
    }
  }

  // ── The bound ─────────────────────────────────────────────────────────────

  /** Everything acknowledged is held. */
  lemma AckedHeld(n: Node)
    requires Inv(n)
    ensures n.acked <= Readable(n)
  {
    hide IntentOk, SegsOk, IndexOk, FlushOk, AppendsOk, BoundedOk, ReadersOk, Cache.View, Cache.Agrees;
  }

  /** Fence bound: however other steps interleave with the three lookups, the answer is at least the id of an
      entry held before the call, acknowledged or not, unless the flush loop takes that entry's WAL
      location away between the second lookup and the third. */
  lemma FenceBound(a: Node, first: seq<Step>, second: seq<Step>, k: Key, nextEntry: nat, nextWal: nat)
    requires Inv(a) && k in Readable(a) && Legal(a, first) && Legal(RunFrom(a, first), second)
    requires IsNext(RunFrom(a, first).entryIndex, k.ledger, nextEntry)
    requires IsNext(RunFrom(RunFrom(a, first), second).walIndex, k.ledger, nextWal)
    requires k !in RunFrom(a, first).walIndex || k in RunFrom(RunFrom(a, first), second).walIndex
    ensures k.entry <= FenceAnswer(HiOf(a, k.ledger), nextEntry, nextWal)
  {
    hide Enabled, Next, Legal, RunFrom, IntentOk, SegsOk, IndexOk, FlushOk, AppendsOk, ReadersOk, Cache.View,
         Cache.Agrees;
    IndexedStays(a, first, k);
  }

  /** On a node that never restarted the WAL index is empty, and the bound holds under every schedule. */
  lemma FirstLifeFenceBound(before: seq<Step>, first: seq<Step>, second: seq<Step>, k: Key, nextEntry: nat,
                            nextWal: nat)
    requires Legal(FRESH, before)
    requires var a := RunFrom(FRESH, before);
             && (k in a.acked || k in Readable(a)) && Legal(a, first) && Legal(RunFrom(a, first), second)
             && IsNext(RunFrom(a, first).entryIndex, k.ledger, nextEntry)
             && IsNext(RunFrom(RunFrom(a, first), second).walIndex, k.ledger, nextWal)
    ensures k.entry <= FenceAnswer(HiOf(RunFrom(FRESH, before), k.ledger), nextEntry, nextWal)
  {
    hide Enabled, Next, Legal, RunFrom, Inv, Durable, Readable;
    FreshIsGood();
    RunKeeps(FRESH, before);
    RunDurable(FRESH, before);
    var a := RunFrom(FRESH, before);
    AckedHeld(a);
    NoWalIndex(a);
    IndexedStays(a, first, k);
    FenceBound(a, first, second, k, nextEntry, nextWal);
  }

  lemma NoWalIndex(n: Node)
    requires Durable(n)
    ensures n.walIndex == map[]
  {
  }

  // ── What the flush loop will still take out of the WAL index ──────────────

  /** The keys the flush underway has yet to take out of the WAL index. */
  ghost function Coming(flush: Flush): set<Key> {
    match flush
    case Drained(es) => KeysIn(es)
    case Written(es) => KeysIn(es)
    case Indexing(es, _, next, _) => if next <= |es| then KeysIn(es[next..]) else {}
    case _ => {}
  }

  /** Every key with a WAL location is hot or in the flush underway, while there is one. */
  ghost predicate WalComing(n: Node) {
    n.flush == Dead || n.walIndex.Keys <= n.cache.hot.Keys + Coming(n.flush)
  }

  lemma ComingStep(n: Node, s: Step)
    requires WalComing(n) && Enabled(n, s)
    ensures WalComing(Next(n, s))
  {
    if IsFlush(s) {
      ComingFlush(n, s);
    } else {
      hide Enabled, Next, Coming;
      FlushFrame(n, s);
    }
  }

  lemma ComingFlush(n: Node, s: Step)
    requires WalComing(n) && Enabled(n, s) && IsFlush(s)
    ensures WalComing(Next(n, s))
  {
    hide AppendBatch, Placed, Stable, BatchBytes, Lists, Cache.View, RecLen, SetLast, Last, KeysIn;
    NoKeys();
    match s
    case Drain(entries) => ListedKeys(entries, n.cache.hot);
    case FlushSync => assert n.flush.entries[0..] == n.flush.entries;
    case DropWal => FirstKey(n.flush.entries, n.flush.next);
    case FlushDone(_) => assert n.flush.entries[n.flush.next..] == [];
    case _ =>
  }

  lemma {:induction false} ComingStays(n: Node, steps: seq<Step>)
    requires WalComing(n) && Legal(n, steps)
    ensures WalComing(RunFrom(n, steps))
    decreases steps
  {
    hide Enabled, Next, WalComing;
    if steps != [] {
      ComingStep(n, steps[0]);
      ComingStays(Next(n, steps[0]), steps[1..]);
    }
  }

  lemma NoKeys()
    ensures KeysIn([]) == {}
  {
  }

  lemma FirstKey(es: seq<Rec>, i: nat)
    requires i < |es|
    ensures KeysIn(es[i..]) == {es[i].key} + KeysIn(es[i + 1..])
  {
    assert es[i..] == [es[i]] + es[i + 1..];
  }

  // ── A schedule that empties the WAL index ─────────────────────────────────

  /** A live flush loop can go on. */
  ghost predicate CanFlush(n: Node) {
    && n.wals != [] && n.ents != [] && n.flush != Dead
    && (n.flush.Indexing? ==>
          && n.flush.next <= |n.flush.entries|
          && (n.flush.inserted ==>
                n.flush.next < |n.flush.entries| && n.flush.entries[n.flush.next].key in n.entryIndex))
  }

  ghost function TurnsLeft(flush: Flush): nat {
    match flush
    case Drained(es) => 2 * |es| + 4
    case Written(es) => 2 * |es| + 3
    case Indexing(es, _, next, inserted) =>
      (if next <= |es| then 2 * (|es| - next) else 0) + if inserted then 1 else 2
    case Sealing => 1
    case _ => 0
  }

  /** The flush loop's next step, without sealing. */
  ghost function FlushTurn(flush: Flush): Step {
    match flush
    case Drained(_) => FlushWrite
    case Written(_) => FlushSync
    case Indexing(es, _, next, inserted) =>
      if inserted then DropWal else if next < |es| then IndexEntry else FlushDone(false)
    case _ => Evict
  }

  /** What a turn of the flush loop does to the indexes is what the flush had yet to do. */
  ghost predicate Turned(n: Node, n': Node) {
    && CanFlush(n') && TurnsLeft(n'.flush) < TurnsLeft(n.flush) && n'.cache.hot == n.cache.hot
    && n'.walIndex - Coming(n'.flush) == n.walIndex - Coming(n.flush)
    && n'.entryIndex.Keys + Coming(n'.flush) == n.entryIndex.Keys + Coming(n.flush)
  }

  lemma FlushTurns(n: Node)
    requires CanFlush(n) && n.flush != Idle
    ensures Enabled(n, FlushTurn(n.flush)) && Turned(n, Next(n, FlushTurn(n.flush)))
  {
    if n.flush.Indexing? {
      hide Enabled, Next, CanFlush, Turned, FlushTurn;
      IndexTurns(n);
    } else {
      hide BatchBytes, AppendBatch, Stable, KeysIn;
      if n.flush.Written? {
        assert n.flush.entries[0..] == n.flush.entries;
      }
    }
  }

  lemma IndexTurns(n: Node)
    requires CanFlush(n) && n.flush.Indexing?
    ensures Enabled(n, FlushTurn(n.flush)) && Turned(n, Next(n, FlushTurn(n.flush)))
  {
    hide Enabled, Next, Turned, Coming, KeysIn;
    if n.flush.inserted {
      DropTurn(n);
    } else if n.flush.next < |n.flush.entries| {
      InsertTurn(n);
    } else {
      DoneTurn(n);
    }
  }

  lemma InsertTurn(n: Node)
    requires CanFlush(n) && n.flush.Indexing? && !n.flush.inserted && n.flush.next < |n.flush.entries|
    ensures Enabled(n, IndexEntry) && Turned(n, Next(n, IndexEntry))
  {
    hide Placed, Stable, KeysIn;
    FirstKey(n.flush.entries, n.flush.next);
  }

  lemma DoneTurn(n: Node)
    requires CanFlush(n) && n.flush.Indexing? && !n.flush.inserted && n.flush.next == |n.flush.entries|
    ensures Enabled(n, FlushDone(false)) && Turned(n, Next(n, FlushDone(false)))
  {
    hide KeysIn;
    NoKeys();
    assert n.flush.entries[n.flush.next..] == [];
  }

  lemma DropTurn(n: Node)
    requires CanFlush(n) && n.flush.Indexing? && n.flush.inserted
    ensures Enabled(n, DropWal) && Turned(n, Next(n, DropWal))
  {
    hide KeysIn;
    FirstKey(n.flush.entries, n.flush.next);
  }

  lemma {:induction false} FinishFlush(n: Node) returns (steps: seq<Step>)
    requires CanFlush(n)
    ensures Legal(n, steps)
    ensures var m := RunFrom(n, steps);
            && CanFlush(m) && m.flush == Idle && m.cache.hot == n.cache.hot
            && m.walIndex == n.walIndex - Coming(n.flush)
            && m.entryIndex.Keys == n.entryIndex.Keys + Coming(n.flush)
    decreases TurnsLeft(n.flush)
  {
    hide Enabled, Next, KeysIn, CanFlush, TurnsLeft, FlushTurn;
    if n.flush == Idle {
      steps := [];
    } else {
      FlushTurns(n);
      var s := FlushTurn(n.flush);
      var rest := FinishFlush(Next(n, s));
      RunCons(n, s, rest);
      steps := [s] + rest;
    }
  }

  /** From an idle flush loop, one flush moves every hot key to `entry_index` and out of the WAL index. */
  lemma FlushHot(n: Node) returns (steps: seq<Step>)
    requires CanFlush(n) && n.flush == Idle
    ensures Legal(n, steps)
    ensures RunFrom(n, steps).walIndex == n.walIndex - n.cache.hot.Keys
    ensures RunFrom(n, steps).entryIndex.Keys == n.entryIndex.Keys + n.cache.hot.Keys
  {
    hide Lists, KeysIn, Legal, RunFrom;
    if n.cache.hot == map[] {
      steps := [];
      NoRun(n);
    } else {
      var entries := Listing(n.cache.hot);
      ListedKeys(entries, n.cache.hot);
      var rest := FinishFlush(Next(n, Drain(entries)));
      RunCons(n, Drain(entries), rest);
      steps := [Drain(entries)] + rest;
    }
  }

  /** From every state with a live flush loop, finishing the flush and one more flush empty the WAL index. */
  lemma EmptyWal(n: Node) returns (steps: seq<Step>)
    requires CanFlush(n) && WalComing(n)
    ensures Legal(n, steps) && RunFrom(n, steps).walIndex == map[]
  {
    hide Legal, RunFrom, CanFlush, Coming;
    assert n.flush != Dead by { Alive(n); }
    var finish := FinishFlush(n);
    var m := RunFrom(n, finish);
    var flush := FlushHot(m);
    RunTwice(n, finish, flush);
    steps := finish + flush;
  }

  lemma Alive(n: Node)
    requires CanFlush(n)
    ensures n.flush != Dead
  {
  }

  lemma ListedKeys(entries: seq<Rec>, m: map<Key, Bytes>)
    requires Lists(entries, m)
    ensures KeysIn(entries) == m.Keys
  {
    hide Lists;
    forall k | k in m ensures k in KeysIn(entries) {
      ListsIff(entries, m, Rec(k, m[k]));
    }
    forall r | r in entries ensures r.key in m {
      ListsIff(entries, m, r);
    }
  }

  lemma {:induction false} Listing(m: map<Key, Bytes>) returns (entries: seq<Rec>)
    ensures Lists(entries, m)
    decreases |m|
  {
    if m == map[] {
      entries := [];
    } else {
      var k :| k in m;
      var rest := m - {k};
      assert m.Keys == rest.Keys + {k};
      var es := Listing(rest);
      forall i | 0 <= i < |es| ensures es[i].key != k {
        ListsIff(es, rest, es[i]);
      }
      entries := es + [Rec(k, m[k])];
      AsMapAppend(es, Rec(k, m[k]));
      assert rest[k := m[k]] == m;
    }
  }

  // ── Exactly when the answer is safe ───────────────────────────────────────

  /** The answer bounds key `k` under every schedule up to the third lookup. */
  ghost predicate AlwaysBounded(s: Node, k: Key, hi: nat, nextEntry: nat) {
    forall steps, nextWal | Legal(s, steps) && IsNext(RunFrom(s, steps).walIndex, k.ledger, nextWal) ::
      k.entry <= FenceAnswer(hi, nextEntry, nextWal)
  }

  /** Exactly when the fence answer is safe, in every state of a node's first life and after a restart. `a` is
      the state at the first lookup and `b` the one at the second. A held or acknowledged id is bounded under
      every schedule of the third lookup if and only if the flush loop is dead, or the first two lookups
      bound it already. The WAL index, looked up last, cannot be relied on: a live flush loop may have
      moved the entry from it to the index looked up before. */
  lemma FenceSafeIff(a: Node, first: seq<Step>, k: Key, nextEntry: nat)
    requires Inv(a) && WalComing(a) && (k in a.acked || k in Readable(a)) && Legal(a, first)
    requires IsNext(RunFrom(a, first).entryIndex, k.ledger, nextEntry)
    ensures var b, hi := RunFrom(a, first), HiOf(a, k.ledger);
            AlwaysBounded(b, k, hi, nextEntry) <==> b.flush == Dead || k.entry <= FenceAnswer(hi, nextEntry, 0)
  {
    hide Inv, Legal, RunFrom, WalComing, CanFlush, Readable;
    AckedHeld(a);
    var b, hi := RunFrom(a, first), HiOf(a, k.ledger);
    RunKeeps(a, first);
    ComingStays(a, first);
    if b.flush == Dead {
      forall steps, nextWal | Legal(b, steps) && IsNext(RunFrom(b, steps).walIndex, k.ledger, nextWal)
        ensures k.entry <= FenceAnswer(hi, nextEntry, nextWal)
      {
        IndexedStays(b, steps, k);
        FenceBound(a, first, steps, k, nextEntry, nextWal);
      }
    } else if AlwaysBounded(b, k, hi, nextEntry) {
      assert CanFlush(b) by { InvCanFlush(b); }
      var steps := EmptyWal(b);
      assert IsNext(RunFrom(b, steps).walIndex, k.ledger, 0);
    }
  }

  lemma InvCanFlush(n: Node)
    requires Inv(n) && n.flush != Dead
    ensures CanFlush(n)
  {
    hide IntentOk, SegsOk, IndexOk, AppendsOk, BoundedOk, ReadersOk, Cache.View, Cache.Agrees, Decode, Stable, Placed;
  }

  /** Every state of a node meets the hypotheses of `FenceSafeIff`: in its first life, and after a crash, a
      restart and whatever follows. */
  lemma FenceHypotheses(before: seq<Step>, d: Store, at: nat, after: seq<Step>)
    requires Legal(FRESH, before) && CrashImage(RunFrom(FRESH, before), d)
    requires var n := RunFrom(FRESH, before); Legal(Restarted(Recover(d), at, n.intent, n.acked, n.fences), after)
    ensures var n := RunFrom(FRESH, before);
            var s := RunFrom(Restarted(Recover(d), at, n.intent, n.acked, n.fences), after);
            Inv(n) && WalComing(n) && Inv(s) && WalComing(s)
  {
    hide Enabled, Next, Legal, RunFrom, Inv, Durable, CrashImage, Recover;
    FreshIsGood();
    RunKeeps(FRESH, before);
    RunDurable(FRESH, before);
    ComingStays(FRESH, before);
    var n := RunFrom(FRESH, before);
    RestartKeeps(n, d, at);
    var s := Restarted(Recover(d), at, n.intent, n.acked, n.fences);
    RunKeeps(s, after);
    ComingStays(s, after);
  }
}
