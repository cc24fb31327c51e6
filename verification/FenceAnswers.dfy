/**
 * What the answer of `fence_ledger` says about the node's entries: it is the id of an entry the node holds, and
 * with nothing of the ledger in flight and no lost lookup it is exactly the highest one. And a fence is final.
 */
module FenceAnswers {
  import opened Words
  import opened Records
  import opened BatchFiles
  import opened EntryCache
  import opened Recovery
  import opened NodeRun
  import opened NodeInvariant
  import opened Durability
  import opened CrashSafety
  import opened Keys
  import opened Restart
  import opened NodeFence
  import Ledger
  import Sealing

  // ── Invariants ────────────────────────────────────────────────────────────

  /** The highest id noted for a ledger is one of an entry the node holds. */
  ghost predicate HiHeld(n: Node) {
    forall l <- n.hi :: Key(l, n.hi[l]) in Readable(n)
  }

  /** What the flush underway writes is still in the warm tier. */
  ghost predicate FlushWarm(flush: Flush, warm: set<Key>) {
    match flush
    case Drained(es) => KeysIn(es) <= warm
    case Written(es) => KeysIn(es) <= warm
    case Indexing(es, _, _, _) => KeysIn(es) <= warm
    case _ => true
  }

  ghost predicate FenceInv(n: Node) {
    Inv(n) && HiHeld(n) && FlushWarm(n.flush, n.cache.warm.Keys)
  }

  /** Only caching an entry makes a key readable, and nothing makes one unreadable. */
  ghost predicate Held(n: Node, s: Step, n': Node)
    requires Enabled(n, s)
  {
    && FlushWarm(n'.flush, n'.cache.warm.Keys)
    && Readable(n') == Readable(n) + if s.CacheEntry? then {n.appends[s.id].rec.key} else {}
  }

  lemma CacheFrame(n: Node, s: Step)
    requires Enabled(n, s) && !IsFlush(s) && !s.CacheEntry?
    ensures var n' := Next(n, s);
            n'.cache == n.cache && n'.entryIndex == n.entryIndex && n'.flush == n.flush && n'.hi == n.hi
  {
    hide ReadFrom, BatchOf, AppendBatch, FileBytes, Stable, AllQueued, Writable, Cache.View, SetLast, Last;
    match s
    case Submit(_, _) =>
    case JournalWrite(_) =>
    case JournalFail(_, _) =>
    case Ack(_) =>
    case _ =>
  }

  lemma CacheEntryHeld(n: Node, id: nat)
    requires Inv(n) && Enabled(n, CacheEntry(id)) && FlushWarm(n.flush, n.cache.warm.Keys)
    ensures Held(n, CacheEntry(id), Next(n, CacheEntry(id)))
  {
    hide IntentOk, SegsOk, IndexOk, FlushOk, BoundedOk, ReadersOk, Cache.View, Cache.Agrees, Cache.Insert, RaiseHi;
    var rec := n.appends[id].rec;
    n.cache.InsertIs(rec.key, rec.payload, n.intent);
  }

  lemma FlushHeld(n: Node, s: Step)
    requires Inv(n) && Enabled(n, s) && FlushWarm(n.flush, n.cache.warm.Keys)
    requires s.Drain? || s.FlushWrite? || s.FlushSync? || s.FlushDie?
    ensures Held(n, s, Next(n, s))
  {
    hide Inv, Lists, KeysIn, AppendBatch, BatchBytes, Stable, SetLast, Last;
    if s.Drain? {
      ListedKeys(s.entries, n.cache.hot);
    }
  }

  lemma IndexHeld(n: Node, s: Step)
    requires Inv(n) && Enabled(n, s) && FlushWarm(n.flush, n.cache.warm.Keys)
    requires s.IndexEntry? || s.DropWal? || s.FlushDone?
    ensures Held(n, s, Next(n, s))
  {
    hide Inv, Placed, Stable;
    if s.IndexEntry? {
      assert n.flush.entries[n.flush.next] in n.flush.entries;
    }
  }

  lemma EvictHeld(n: Node)
    requires Inv(n) && Enabled(n, Evict)
    ensures Held(n, Evict, Next(n, Evict))
  {
    hide IntentOk, SegsOk, IndexOk, AppendsOk, BoundedOk, ReadersOk, Cache.View, Cache.Agrees;
    EvictedView(n.cache, n.entryIndex.Keys, n.intent);
  }

  lemma StepHeld(n: Node, s: Step)
    requires Inv(n) && Enabled(n, s) && FlushWarm(n.flush, n.cache.warm.Keys)
    ensures Held(n, s, Next(n, s))
  {
    hide Inv, Enabled, Next, Held, FlushWarm;
    match s
    case CacheEntry(id) => CacheEntryHeld(n, id);
    case Drain(_) => FlushHeld(n, s);
    case FlushWrite => FlushHeld(n, s);
    case FlushSync => FlushHeld(n, s);
    case FlushDie(_) => FlushHeld(n, s);
    case IndexEntry => IndexHeld(n, s);
    case DropWal => IndexHeld(n, s);
    case FlushDone(_) => IndexHeld(n, s);
    case Evict => EvictHeld(n);
    case _ =>
      CacheFrame(n, s);
      SameHeld(n, s, Next(n, s));
  }

  lemma SameHeld(n: Node, s: Step, n': Node)
    requires Enabled(n, s) && !s.CacheEntry? && FlushWarm(n.flush, n.cache.warm.Keys)
    requires n'.cache == n.cache && n'.entryIndex == n.entryIndex && n'.flush == n.flush
    ensures Held(n, s, n')
  {
    hide Enabled, Cache.View;
  }

  lemma HiStep(n: Node, s: Step)
    requires Enabled(n, s) && HiHeld(n) && Held(n, s, Next(n, s))
    ensures HiHeld(Next(n, s))
  {
    hide Readable, FlushWarm;
    if s.CacheEntry? {
      hide Cache.Insert;
    } else if IsFlush(s) {
      hide AppendBatch, BatchBytes, Stable, Placed, Lists, SetLast, Last;
      assert Next(n, s).hi == n.hi;
    } else {
      hide Enabled, Next;
      CacheFrame(n, s);
    }
  }

  lemma FenceStep(n: Node, s: Step)
    requires FenceInv(n) && Enabled(n, s)
    ensures FenceInv(Next(n, s)) && Held(n, s, Next(n, s))
  {
    hide Inv, Enabled, Next, HiHeld, FlushWarm, Readable;
    StepKeeps(n, s);
    StepHeld(n, s);
    HiStep(n, s);
  }

  lemma {:induction false} FenceRun(n: Node, steps: seq<Step>)
    requires FenceInv(n) && Legal(n, steps)
    ensures FenceInv(RunFrom(n, steps)) && Readable(n) <= Readable(RunFrom(n, steps))
    decreases steps
  {
    hide Enabled, Next, FenceInv, Readable, FlushWarm;
    if steps != [] {
      FenceStep(n, steps[0]);
      FenceRun(Next(n, steps[0]), steps[1..]);
    }
  }

  // ── A fence is final ──────────────────────────────────────────────────────

  /** The ledger is fenced and none of its appends is in flight. */
  ghost predicate Settled(n: Node, ledger: u64) {
    ledger in n.fences && forall id <- n.appends :: n.appends[id].rec.key.ledger != ledger
  }

  lemma AppendFrame(n: Node, s: Step)
    requires Enabled(n, s) && !s.Submit? && !s.JournalWrite? && !s.JournalFail? && !s.CacheEntry? && !s.Ack?
    ensures Next(n, s).appends == n.appends && n.fences <= Next(n, s).fences
    ensures Next(n, s).acked == n.acked + if s.AckDuplicate? then {s.key} else {}
  {
    hide ReadFrom, BatchOf, AppendBatch, Placed, FileBytes, Stable, BatchBytes, RaiseHi, AllQueued, Lists, Writable,
         Cache.View, Cache.Insert, Cache.Drain, Cache.Evict, RecLen, SetLast, Last;
  }

  lemma SettledStep(n: Node, s: Step, ledger: u64)
    requires Settled(n, ledger) && Enabled(n, s)
    ensures Settled(Next(n, s), ledger)
    ensures s.CacheEntry? ==> n.appends[s.id].rec.key.ledger != ledger
    ensures forall k <- Next(n, s).acked :: k.ledger == ledger ==> k in n.acked
  {
    hide ReadFrom, BatchOf, AppendBatch, Placed, FileBytes, Stable, BatchBytes, RaiseHi, AllQueued, Lists, Writable,
         Cache.View, Cache.Insert, Cache.Drain, Cache.Evict, RecLen, SetLast, Last;
    match s
    case Submit(_, _) =>
    case JournalWrite(_) =>
    case JournalFail(_, _) =>
    case CacheEntry(_) =>
    case Ack(_) =>
    case _ =>
      hide Next;
      AppendFrame(n, s);
  }

  /** No entry of a settled ledger becomes readable or acknowledged, and none is lost, in any run. */
  lemma {:induction false} SettledRun(n: Node, steps: seq<Step>, ledger: u64)
    requires FenceInv(n) && Settled(n, ledger) && Legal(n, steps)
    ensures var m := RunFrom(n, steps);
            && FenceInv(m) && Settled(m, ledger)
            && (forall k: Key :: k.ledger == ledger ==> (k in Readable(m) <==> k in Readable(n)))
            && (forall k <- m.acked :: k.ledger == ledger ==> k in n.acked)
    decreases steps
  {
    hide Enabled, Next, FenceInv, Readable, Settled, FlushWarm;
    if steps != [] {
      FenceStep(n, steps[0]);
      SettledStep(n, steps[0], ledger);
      SettledRun(Next(n, steps[0]), steps[1..], ledger);
    }
  }

  lemma FenceSettles(n: Node, ledger: u64)
    requires Enabled(n, Fence(ledger)) && forall id <- n.appends :: n.appends[id].rec.key.ledger != ledger
    ensures Settled(Next(n, Fence(ledger)), ledger) && Next(n, Fence(ledger)).acked == n.acked
  {
  }

  /** Once `fence_ledger` has set the fence and the appends then in flight are done, the ledger's entries on the
      node are fixed. */
  lemma FenceIsFinal(n: Node, ledger: u64, steps: seq<Step>)
    requires FenceInv(n) && Enabled(n, Fence(ledger)) && Legal(Next(n, Fence(ledger)), steps)
    requires forall id <- n.appends :: n.appends[id].rec.key.ledger != ledger
    ensures var m := RunFrom(Next(n, Fence(ledger)), steps);
            && (forall k: Key :: k.ledger == ledger ==> (k in Readable(m) <==> k in Readable(n)))
            && (forall k <- m.acked :: k.ledger == ledger ==> k in n.acked)
  {
    hide Enabled, Next, Inv, Legal, RunFrom, Readable, FlushWarm, HiHeld, Settled;
    FenceStep(n, Fence(ledger));
    FenceSettles(n, ledger);
    SettledRun(Next(n, Fence(ledger)), steps, ledger);
  }

  /** And it stays so after a crash and a restart, whatever follows. */
  lemma FenceSurvivesRestart(before: seq<Step>, d: Store, at: nat, after: seq<Step>, ledger: u64)
    requires Legal(FRESH, before) && CrashImage(RunFrom(FRESH, before), d) && ledger in RunFrom(FRESH, before).fences
    requires var n := RunFrom(FRESH, before); Legal(Restarted(Recover(d), at, n.intent, n.acked, n.fences), after)
    ensures var n := RunFrom(FRESH, before);
            var s := Restarted(Recover(d), at, n.intent, n.acked, n.fences);
            var m := RunFrom(s, after);
            && ledger in m.fences && (forall k: Key :: k.ledger == ledger ==> (k in Readable(m) <==> k in Readable(s)))
            && (forall k <- m.acked :: k.ledger == ledger ==> k in n.acked)
  {
    hide Enabled, Next, Legal, RunFrom, Inv, Durable, CrashImage, Recover, Readable;
    FreshIsGood();
    RunKeeps(FRESH, before);
    RunDurable(FRESH, before);
    var n := RunFrom(FRESH, before);
    RestartKeeps(n, d, at);
    SettledRun(Restarted(Recover(d), at, n.intent, n.acked, n.fences), after, ledger);
  }

  // ── The answer from above, and exactly ────────────────────────────────────

  /** In every state, of a first life or after a restart, an answer above 0 is the id of an entry of that ledger
      that the node holds. */
  lemma FenceAnswerHeld(a: Node, first: seq<Step>, second: seq<Step>, ledger: u64, nextEntry: nat, nextWal: nat)
    requires FenceInv(a) && Legal(a, first) && Legal(RunFrom(a, first), second)
    requires IsNext(RunFrom(a, first).entryIndex, ledger, nextEntry)
    requires IsNext(RunFrom(RunFrom(a, first), second).walIndex, ledger, nextWal)
    ensures var answer := FenceAnswer(HiOf(a, ledger), nextEntry, nextWal);
            && answer <= U64_MAX
            && (answer > 0 ==> Key(ledger, answer) in Readable(RunFrom(RunFrom(a, first), second)))
  {
    hide Enabled, Next, Legal, RunFrom, Readable, FlushWarm, Inv;
    var b := RunFrom(a, first);
    FenceRun(a, first);
    FenceRun(b, second);
    IndexesHeld(b);
    IndexesHeld(RunFrom(b, second));
  }

  lemma IndexesHeld(n: Node)
    requires Inv(n)
    ensures n.entryIndex.Keys <= Readable(n) && n.walIndex.Keys <= Readable(n)
  {
    hide IntentOk, SegsOk, IndexOk, FlushOk, AppendsOk, BoundedOk, ReadersOk, Cache.View, Cache.Agrees;
  }

  ghost function LogOf(held: set<Key>, intent: map<Key, Bytes>, ledger: u64): map<nat, Bytes> {
    map e: nat | e <= U64_MAX && Key(ledger, e) in held && Key(ledger, e) in intent :: intent[Key(ledger, e)]
  }

  /** The entries of a ledger that the node holds, as the client protocol sees the node. */
  ghost function BookieOf(n: Node, ledger: u64): Ledger.Bookie {
    Ledger.Bookie(LogOf(Readable(n), n.intent, ledger), 0, ledger in n.fences)
  }

  lemma BoundedIsExact(a: Node, first: seq<Step>, second: seq<Step>, ledger: u64, nextEntry: nat, nextWal: nat)
    requires FenceInv(a) && Settled(a, ledger) && Legal(a, first) && Legal(RunFrom(a, first), second)
    requires IsNext(RunFrom(a, first).entryIndex, ledger, nextEntry)
    requires IsNext(RunFrom(RunFrom(a, first), second).walIndex, ledger, nextWal)
    requires forall k <- Readable(a) ::
      k.ledger == ledger ==> k.entry <= FenceAnswer(HiOf(a, ledger), nextEntry, nextWal)
    ensures Sealing.IsHighest(BookieOf(RunFrom(RunFrom(a, first), second), ledger),
                              FenceAnswer(HiOf(a, ledger), nextEntry, nextWal))
  {
    hide Enabled, Next, Legal, RunFrom, Readable, FlushWarm, Inv, HiHeld, FenceAnswer;
    var b := RunFrom(a, first);
    var c := RunFrom(b, second);
    SettledRun(a, first, ledger);
    SettledRun(b, second, ledger);
    FenceAnswerHeld(a, first, second, ledger, nextEntry, nextWal);
    ReadableIntended(c);
    var answer := FenceAnswer(HiOf(a, ledger), nextEntry, nextWal);
    if answer > 0 {
      assert Key(ledger, answer) in Readable(c);
    }
  }

  /** With the ledger settled, and none of its WAL locations taken away between the second lookup and the third,
      the answer is exactly the highest id the node holds. */
  lemma FenceExact(a: Node, first: seq<Step>, second: seq<Step>, ledger: u64, nextEntry: nat, nextWal: nat)
    requires FenceInv(a) && Settled(a, ledger) && Legal(a, first) && Legal(RunFrom(a, first), second)
    requires IsNext(RunFrom(a, first).entryIndex, ledger, nextEntry)
    requires IsNext(RunFrom(RunFrom(a, first), second).walIndex, ledger, nextWal)
    requires forall k <- RunFrom(a, first).walIndex ::
      k.ledger == ledger ==> k in RunFrom(RunFrom(a, first), second).walIndex
    ensures var c := RunFrom(RunFrom(a, first), second);
            && BookieOf(c, ledger).fenced
            && Sealing.IsHighest(BookieOf(c, ledger), FenceAnswer(HiOf(a, ledger), nextEntry, nextWal))
  {
    hide Enabled, Next, Legal, RunFrom, Readable, FlushWarm, Inv, HiHeld;
    SettledRun(a, first, ledger);
    SettledRun(RunFrom(a, first), second, ledger);
    forall k | k in Readable(a) && k.ledger == ledger
      ensures k.entry <= FenceAnswer(HiOf(a, ledger), nextEntry, nextWal)
    {
      FenceBound(a, first, second, k, nextEntry, nextWal);
    }
    BoundedIsExact(a, first, second, ledger, nextEntry, nextWal);
  }

  lemma ReadableIntended(n: Node)
    requires Inv(n)
    ensures forall k <- Readable(n) :: k in n.intent
  {
    hide IntentOk, SegsOk, FlushOk, AppendsOk, BoundedOk, ReadersOk, Decode, Stable;
    forall k | k in Readable(n) ensures k in n.intent {
      if k in n.entryIndex {
        assert LocOk(n.ents, n.entryIndex[k], k, n.intent);
      }
    }
  }

  /** So on a node that never restarted the answer for a settled ledger is always exact. */
  lemma FirstLifeFenceExact(before: seq<Step>, first: seq<Step>, second: seq<Step>, ledger: u64,
                            nextEntry: nat, nextWal: nat)
    requires Legal(FRESH, before)
    requires var a := RunFrom(FRESH, before);
             && Settled(a, ledger) && Legal(a, first) && Legal(RunFrom(a, first), second)
             && IsNext(RunFrom(a, first).entryIndex, ledger, nextEntry)
             && IsNext(RunFrom(RunFrom(a, first), second).walIndex, ledger, nextWal)
    ensures var a := RunFrom(FRESH, before);
            var c := RunFrom(RunFrom(a, first), second);
            Sealing.IsHighest(BookieOf(c, ledger), FenceAnswer(HiOf(a, ledger), nextEntry, nextWal))
  {
    hide Enabled, Next, Legal, RunFrom, Inv, Durable, Readable, FenceAnswer;
    FreshIsGood();
    FenceRun(FRESH, before);
    RunDurable(FRESH, before);
    var a := RunFrom(FRESH, before);
    NoWalIndex(a);
    assert a.walIndex == map[];
    forall k | k in RunFrom(a, first).walIndex ensures false {
      assert FenceInv(a);
      IndexedStays(a, first, k);
    }
    FenceExact(a, first, second, ledger, nextEntry, nextWal);
  }

  /** The answer is exact under every schedule up to the third lookup. */
  ghost predicate AlwaysExact(b: Node, ledger: u64, hi: nat, nextEntry: nat) {
    forall steps, nextWal | Legal(b, steps) && IsNext(RunFrom(b, steps).walIndex, ledger, nextWal) ::
      Sealing.IsHighest(BookieOf(RunFrom(b, steps), ledger), FenceAnswer(hi, nextEntry, nextWal))
  }

  /** The first two lookups bound everything held of the ledger. */
  ghost predicate TwoLookupsCover(held: set<Key>, ledger: u64, hi: nat, nextEntry: nat) {
    forall k <- held :: k.ledger == ledger ==> k.entry <= FenceAnswer(hi, nextEntry, 0)
  }

  /** In every state of a first life or after a restart: the answer for a settled ledger is exact under every
      schedule if and only if the flush loop is dead or the first two lookups bound everything held. */
  lemma FenceExactIff(a: Node, first: seq<Step>, ledger: u64, nextEntry: nat)
    requires FenceInv(a) && WalComing(a) && Settled(a, ledger) && Legal(a, first)
    requires IsNext(RunFrom(a, first).entryIndex, ledger, nextEntry)
    ensures var b, hi := RunFrom(a, first), HiOf(a, ledger);
            AlwaysExact(b, ledger, hi, nextEntry)
            <==> b.flush == Dead || TwoLookupsCover(Readable(a), ledger, hi, nextEntry)
  {
    hide Inv, Legal, RunFrom, WalComing, Readable, FlushWarm, HiHeld, FenceAnswer;
    var b, hi := RunFrom(a, first), HiOf(a, ledger);
    if b.flush == Dead || TwoLookupsCover(Readable(a), ledger, hi, nextEntry) {
      forall steps, nextWal | Legal(b, steps) && IsNext(RunFrom(b, steps).walIndex, ledger, nextWal)
        ensures Sealing.IsHighest(BookieOf(RunFrom(b, steps), ledger), FenceAnswer(hi, nextEntry, nextWal))
      {
        forall k | k in Readable(a) && k.ledger == ledger
          ensures k.entry <= FenceAnswer(hi, nextEntry, nextWal)
        {
          FenceSafeIff(a, first, k, nextEntry);
        }
        BoundedIsExact(a, first, steps, ledger, nextEntry, nextWal);
      }
    } else {
      var k :| k in Readable(a) && k.ledger == ledger && !(k.entry <= FenceAnswer(hi, nextEntry, 0));
      FenceSafeIff(a, first, k, nextEntry);
      var steps, nextWal :| Legal(b, steps) && IsNext(RunFrom(b, steps).walIndex, ledger, nextWal)
                            && !(k.entry <= FenceAnswer(hi, nextEntry, nextWal));
      SettledRun(a, first, ledger);
      SettledRun(b, steps, ledger);
      ReadableIntended(RunFrom(b, steps));
      assert k.entry in BookieOf(RunFrom(b, steps), ledger).log;
    }
  }

  /** What `FenceExactIff` asks of its state holds in every state of a first life and after a restart. */
  lemma FenceInvReached(before: seq<Step>, d: Store, at: nat, after: seq<Step>)
    requires Legal(FRESH, before) && CrashImage(RunFrom(FRESH, before), d)
    requires var n := RunFrom(FRESH, before); Legal(Restarted(Recover(d), at, n.intent, n.acked, n.fences), after)
    ensures var n := RunFrom(FRESH, before);
            var s := RunFrom(Restarted(Recover(d), at, n.intent, n.acked, n.fences), after);
            FenceInv(n) && WalComing(n) && FenceInv(s) && WalComing(s)
  {
    hide Enabled, Next, Legal, RunFrom, Inv, Durable, CrashImage, Recover, Readable, WalComing;
    FenceHypotheses(before, d, at, after);
    FreshIsGood();
    FenceRun(FRESH, before);
    RunDurable(FRESH, before);
    var n := RunFrom(FRESH, before);
    RestartKeeps(n, d, at);
    FenceRun(Restarted(Recover(d), at, n.intent, n.acked, n.fences), after);
  }
}
