/** Runs of a node, from an empty directory, that reach what it does not promise. */
module Failures {
  import opened Words
  import opened Records
  import opened Scanning
  import opened BatchFiles
  import opened EntryCache
  import opened Recovery
  import opened RecoveryLaws
  import opened Blocks
  import opened NodeRun
  import opened NodeInvariant
  import opened Durability
  import opened CrashSafety
  import opened Keys
  import opened Restart
  import opened NodeFence

  /** One more step of a run that has come to `at`. */
  lemma Then(n: Node, steps: seq<Step>, at: Node, s: Step) returns (more: seq<Step>, next: Node)
    requires Legal(n, steps) && RunFrom(n, steps) == at && Enabled(at, s)
    ensures Legal(n, more) && RunFrom(n, more) == next == Next(at, s)
  {
    hide Enabled, Next, Legal, RunFrom;
    NoRun(Next(at, s));
    RunCons(at, s, []);
    assert [s] + [] == [s];
    RunTwice(n, steps, [s]);
    more, next := steps + [s], Next(at, s);
  }

  // ── One acknowledged entry ────────────────────────────────────────────────

  /** The node after one entry was journaled, cached and acknowledged. */
  function Acked(r: Rec): Node {
    Node(map[r.key := r.payload], [Seg([], [[r]], [])], [EMPTY_SEG], map[], map[],
         Cache(map[r.key := r.payload], map[]), Idle, map[], map[], {r.key}, map[r.key.ledger := r.key.entry], {})
  }

  lemma JournalOne(r: Rec)
    requires Writable(r)
    ensures Enabled(FRESH, Submit(0, r))
    ensures var n1 := Next(FRESH, Submit(0, r));
            && Enabled(n1, JournalWrite([0]))
            && Next(n1, JournalWrite([0]))
               == n1.(wals := [Seg([], [[r]], [])], appends := map[0 := Append(r, Journaled)])
            && n1 == FRESH.(intent := map[r.key := r.payload], appends := map[0 := Append(r, Queued)])
  {
    var n1 := Next(FRESH, Submit(0, r));
    assert BatchOf(n1, [0]) == [r];
    assert AppendBatch(EMPTY_SEG, [r]) == Seg([], [[r]], []);
  }

  lemma AckOne(r: Rec) returns (steps: seq<Step>)
    requires Writable(r)
    ensures Legal(FRESH, steps) && RunFrom(FRESH, steps) == Acked(r)
  {
    hide Legal, RunFrom;
    JournalOne(r);
    var at;
    assert Legal(FRESH, []) && RunFrom(FRESH, []) == FRESH by { NoRun(FRESH); }
    steps, at := Then(FRESH, [], FRESH, Submit(0, r));
    steps, at := Then(FRESH, steps, at, JournalWrite([0]));
    hide BatchOf, AppendBatch, AllQueued;
    steps, at := Then(FRESH, steps, at, CacheEntry(0));
    steps, at := Then(FRESH, steps, at, Ack(0));
  }

  // ── The fence answer after a restart ──────────────────────────────────────

  /** The directory left by a crash right after the acknowledgement. */
  function Left(r: Rec): Store {
    Store([[]], [FileOf([[r]])], map[], map[], map[], Cache(map[], map[]))
  }

  lemma LeftIsImage(r: Rec)
    requires Writable(r)
    ensures CrashImage(Acked(r), Left(r))
  {
    hide ScanFrom, FileOf, Genuine, Holds, GapsOk;
    var data := FileOf([[r]]);
    assert Image(Acked(r).wals[0], data, Acked(r).intent) by { WholeImage([[r]], data, Acked(r).intent); }
    assert FileOf([]) == [] by { NoBatches(); }
    assert Image(EMPTY_SEG, [], Acked(r).intent) by { WholeImage([], [], Acked(r).intent); }
  }

  lemma NoBatches()
    ensures FileOf([]) == []
  {
  }

  lemma WholeImage(batches: seq<seq<Rec>>, data: Bytes, intent: map<Key, Bytes>)
    requires |batches| <= 1 && data == FileOf(batches)
    ensures Image(Seg([], batches, []), data, intent)
  {
    hide ScanFrom, EncodeAll, Padded;
    NothingLeft(data);
    if batches != [] {
      SplitFirst(data, 0, batches);
      assert batches[1..] == [] && FileOf(batches) == BatchBytes(batches[0]) + [];
      assert data[|data|..] == [];
      assert GapsOk(data, 0, batches);
    }
  }

  lemma NothingIndexed(r: Rec)
    ensures Recover(Left(r)).entryIndex == map[]
  {
    hide FileOf, WalStep;
    var d := Left(r);
    assert d.ents[0] == [];
    NothingLeft(d.ents[0]);
    assert EntsUpTo(d, 1) == EntStep(EntsUpTo(d, 0), 0);
    EntsFrame(d, 1);
    WalsFrame(EntsUpTo(d, 1), 1);
  }

  /** One acknowledged entry with an id above 0, a crash, a restart, and a flush between the two index
      lookups of `fence_ledger`: the answer is 0. */
  lemma FenceAnswerTooLow(r: Rec, at: nat) returns (before: seq<Step>, during: seq<Step>, restarted: Node)
    requires Writable(r) && r.key.entry > 0
    ensures Legal(FRESH, before) && CrashImage(RunFrom(FRESH, before), Left(r)) && r.key in RunFrom(FRESH, before).acked
    ensures restarted == Restarted(Recover(Left(r)), at, Acked(r).intent, Acked(r).acked, Acked(r).fences)
    ensures Legal(restarted, during)
    ensures IsNext(restarted.entryIndex, r.key.ledger, 0)
    ensures IsNext(RunFrom(restarted, during).walIndex, r.key.ledger, 0)
    ensures FenceAnswer(HiOf(restarted, r.key.ledger), 0, 0) < r.key.entry
  {
    hide Enabled, Next, Legal, RunFrom, CrashImage, Recover, Inv, Durable, Left;
    before := AckOne(r);
    LeftIsImage(r);
    var n := Acked(r);
    FreshIsGood();
    RunKeeps(FRESH, before);
    RunDurable(FRESH, before);
    RestartKeeps(n, Left(r), at);
    restarted := Restarted(Recover(Left(r)), at, n.intent, n.acked, n.fences);
    NothingIndexed(r);
    assert CanFlush(restarted) by { InvCanFlush(restarted); }
    during := FlushHot(restarted);
    assert RunFrom(restarted, during).walIndex == map[];
  }

  // ── An entry too long for two blocks ──────────────────────────────────────

  /** The entry is acknowledged and nobody reads. */
  ghost predicate Quiet(n: Node, r: Rec) {
    && n.wals != [] && n.ents != [] && n.readers == map[] && n.acked == {r.key}
    && r.key in n.intent && n.intent[r.key] == r.payload
  }

  lemma FlushOne(r: Rec)
    ensures var n := Acked(r);
            && Enabled(n, Drain([r])) && Enabled(Next(n, Drain([r])), FlushWrite)
            && Enabled(Next(Next(n, Drain([r])), FlushWrite), FlushSync)
            && var n3 := Next(Next(Next(n, Drain([r])), FlushWrite), FlushSync);
               && CanFlush(n3) && n3.flush.Indexing? && !n3.flush.inserted
               && n3.flush.entries == [r] && n3.flush.next == 0
               && n3.cache.hot == map[] && Quiet(n3, r)
  {
    hide BatchBytes, AppendBatch, Stable, FileOf, Lists;
    assert r.key in Acked(r).cache.hot && Lists([r], Acked(r).cache.hot) by { ListOne(r); }
  }

  lemma ListOne(r: Rec)
    ensures Lists([r], map[r.key := r.payload])
  {
    assert [r][..0] == [];
  }

  lemma IndexOne(n: Node, r: Rec)
    requires CanFlush(n) && n.flush.Indexing? && !n.flush.inserted && n.flush.entries == [r] && n.flush.next == 0
    requires n.cache.hot == map[] && Quiet(n, r)
    ensures Enabled(n, IndexEntry) && Enabled(Next(n, IndexEntry), DropWal)
    ensures var n2 := Next(Next(n, IndexEntry), DropWal);
            && n2.flush.Indexing? && n2.flush.next == |n2.flush.entries|
            && n2.cache.hot == map[] && r.key in n2.entryIndex && Quiet(n2, r)
  {
    hide Placed, Stable, BatchBytes;
  }

  lemma EvictOne(n: Node, r: Rec)
    requires n.flush.Indexing? && n.flush.next == |n.flush.entries| && n.cache.hot == map[] && r.key in n.entryIndex
    requires Quiet(n, r)
    ensures Enabled(n, FlushDone(true)) && Enabled(Next(n, FlushDone(true)), Evict)
    ensures var n2 := Next(Next(n, FlushDone(true)), Evict);
            n2.cache == Cache(map[], map[]) && r.key in n2.entryIndex && Quiet(n2, r)
  {
  }

  /** A read of the entry at some stage, with the entry indexed but not cached. */
  ghost predicate Reading(n: Node, r: Rec, stage: ReadStage) {
    && n.wals != [] && n.ents != [] && n.cache == Cache(map[], map[]) && r.key in n.entryIndex && n.acked == {r.key}
    && r.key in n.intent && n.intent[r.key] == r.payload
    && 0 in n.readers && n.readers[0] == Read(r.key, true, stage)
  }

  lemma ReadStarts(n: Node, r: Rec)
    requires n.cache == Cache(map[], map[]) && r.key in n.entryIndex && Quiet(n, r)
    ensures Enabled(n, StartRead(0, r.key)) && Reading(Next(n, StartRead(0, r.key)), r, AtCache)
  {
  }

  lemma ReadMisses(n: Node, r: Rec)
    requires Reading(n, r, AtCache)
    ensures Enabled(n, ReadCache(0)) && Reading(Next(n, ReadCache(0)), r, AtIndex)
  {
  }

  lemma ReadFinds(n: Node, r: Rec)
    requires Reading(n, r, AtIndex)
    ensures Enabled(n, ReadIndex(0)) && Reading(Next(n, ReadIndex(0)), r, AtEntry(n.entryIndex[r.key]))
    ensures r.key in n.entryIndex && Next(n, ReadIndex(0)).entryIndex == n.entryIndex
  {
  }

  lemma ReadMoves(n: Node, r: Rec, loc: Loc)
    requires Reading(n, r, AtEntry(loc)) && loc.segment < |n.ents|
    ensures Enabled(n, ReadEntry(0))
    ensures var n' := Next(n, ReadEntry(0)); 0 in n'.readers && Reading(n', r, n'.readers[0].stage)
  {
    hide ReadFrom, FileBytes;
  }

  lemma ReadEnds(n: Node, r: Rec)
    requires Inv(n) && r.key in n.entryIndex && RecLen(r) > 2 * BLOCK_SIZE
    requires Reading(n, r, AtEntry(n.entryIndex[r.key]))
    ensures Enabled(n, ReadEntry(0))
    ensures Reading(Next(n, ReadEntry(0)), r, Failed(n.entryIndex[r.key]))
  {
    hide Inv, Enabled, Next, FitsTwoBlocks;
    Located(n, r.key);
    ReadMoves(n, r, n.entryIndex[r.key]);
    ReadEntryAnswers(n, 0);
    FitsBySize(n.entryIndex[r.key]);
  }

  /** An entry longer than two blocks is acknowledged, flushed and evicted; the read that follows fails. */
  lemma LongEntryFails(r: Rec) returns (steps: seq<Step>)
    requires Writable(r) && RecLen(r) > 2 * BLOCK_SIZE
    ensures Legal(FRESH, steps)
    ensures var n := RunFrom(FRESH, steps);
            && r.key in n.acked && 0 in n.readers && n.readers[0].key == r.key
            && n.readers[0].expects && n.readers[0].stage.Failed?
  {
    hide Enabled, Next, Legal, RunFrom, Inv, Acked, Quiet;
    var at;
    steps := AckOne(r);
    FlushOne(r);
    steps, at := Then(FRESH, steps, Acked(r), Drain([r]));
    steps, at := Then(FRESH, steps, at, FlushWrite);
    steps, at := Then(FRESH, steps, at, FlushSync);
    IndexOne(at, r);
    steps, at := Then(FRESH, steps, at, IndexEntry);
    steps, at := Then(FRESH, steps, at, DropWal);
    EvictOne(at, r);
    steps, at := Then(FRESH, steps, at, FlushDone(true));
    steps, at := Then(FRESH, steps, at, Evict);
    steps := ReadFails(steps, at, r);
  }

  lemma ReadFails(before: seq<Step>, n: Node, r: Rec) returns (steps: seq<Step>)
    requires Legal(FRESH, before) && RunFrom(FRESH, before) == n && RecLen(r) > 2 * BLOCK_SIZE
    requires n.cache == Cache(map[], map[]) && r.key in n.entryIndex && Quiet(n, r)
    ensures Legal(FRESH, steps)
    ensures exists loc :: Reading(RunFrom(FRESH, steps), r, Failed(loc))
  {
    hide Enabled, Next, Legal, RunFrom, Inv, Quiet, Reading;
    var at;
    ReadStarts(n, r);
    steps, at := Then(FRESH, before, n, StartRead(0, r.key));
    ReadMisses(at, r);
    steps, at := Then(FRESH, steps, at, ReadCache(0));
    ReadFinds(at, r);
    steps, at := Then(FRESH, steps, at, ReadIndex(0));
    FreshIsGood();
    RunKeeps(FRESH, steps);
    ReadEnds(at, r);
    ghost var loc := at.entryIndex[r.key];
    steps, at := Then(FRESH, steps, at, ReadEntry(0));
    assert Reading(at, r, Failed(loc));
  }

  lemma Located(n: Node, k: Key)
    requires Inv(n) && k in n.entryIndex
    ensures n.wals != [] && n.ents != [] && n.entryIndex[k].segment < |n.ents|
  {
    hide IntentOk, SegsOk, FlushOk, AppendsOk, BoundedOk, ReadersOk, Cache.View, Cache.Agrees, Decode;
    assert LocOk(n.ents, n.entryIndex[k], k, n.intent);
  }
}
