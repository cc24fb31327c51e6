/**
 * What every step of a node started on an empty directory keeps on disk: each readable key has a
 * synced WAL record, and each index location is a record of a synced EntrySegment batch.
 */
module Durability {
  import opened Words
  import opened Records
  import opened Scanning
  import opened BatchFiles
  import opened EntryCache
  import opened Recovery
  import opened NodeRun
  import opened NodeInvariant

  ghost predicate InBatches(batches: seq<seq<Rec>>, k: Key) {
    exists j :: 0 <= j < |batches| && k in KeysIn(batches[j])
  }

  /** Key `k` has a record in a synced WAL batch. */
  ghost predicate InLog(wals: seq<Seg>, k: Key) {
    exists i :: 0 <= i < |wals| && InBatches(wals[i].batches, k)
  }

  ghost predicate AllLogged(wals: seq<Seg>, keys: set<Key>) {
    forall k <- keys :: InLog(wals, k)
  }

  ghost predicate AppendsLogged(wals: seq<Seg>, appends: map<nat, Append>) {
    forall id <- appends :: appends[id].stage != Queued ==> InLog(wals, appends[id].rec.key)
  }

  ghost predicate NoBase(segs: seq<Seg>) {
    forall i :: 0 <= i < |segs| ==> segs[i].base == []
  }

  ghost predicate Located(ents: seq<Seg>, loc: Loc, rec: Rec) {
    && loc.segment < |ents| && loc.length == RecLen(rec)
    && Found(loc.offset, rec) in PlacedFile(0, ents[loc.segment].batches)
  }

  ghost predicate IndexLocated(ents: seq<Seg>, index: Index, intent: map<Key, Bytes>) {
    forall k <- index :: k in intent && Located(ents, index[k], Rec(k, intent[k]))
  }

  ghost predicate FlushLogged(flush: Flush, wals: seq<Seg>, ents: seq<Seg>)
    requires ents != []
  {
    match flush
    case Drained(es) => AllLogged(wals, KeysIn(es))
    case Written(es) => AllLogged(wals, KeysIn(es))
    case Indexing(es, at, _, _) =>
      && AllLogged(wals, KeysIn(es))
      && forall i :: 0 <= i < |es| ==> Found(Placed(at, es)[i].pos, es[i]) in PlacedFile(0, Last(ents).batches)
    case _ => true
  }

  ghost predicate Durable(n: Node) {
    && n.ents != []
    && NoBase(n.wals) && NoBase(n.ents)
    && n.walIndex == map[]
    && AllLogged(n.wals, Readable(n))
    && AppendsLogged(n.wals, n.appends)
    && FlushLogged(n.flush, n.wals, n.ents)
    && IndexLocated(n.ents, n.entryIndex, n.intent)
  }

  // ── Growth ────────────────────────────────────────────────────────────────

  ghost predicate BatchesGrow(a: seq<Seg>, b: seq<Seg>) {
    |a| <= |b| && forall i :: 0 <= i < |a| ==> a[i].batches <= b[i].batches
  }

  lemma InLogGrows(a: seq<Seg>, b: seq<Seg>, k: Key)
    requires InLog(a, k) && BatchesGrow(a, b)
    ensures InLog(b, k)
  {
    hide KeysIn;
    var i :| 0 <= i < |a| && InBatches(a[i].batches, k);
    var j :| 0 <= j < |a[i].batches| && k in KeysIn(a[i].batches[j]);
    assert b[i].batches[j] == a[i].batches[j];
    assert InBatches(b[i].batches, k);
  }

  /** Everything that depends on the WAL only through what is logged. */
  lemma LogGrows(n: Node, wals: seq<Seg>)
    requires n.ents != [] && BatchesGrow(n.wals, wals)
    requires AllLogged(n.wals, Readable(n)) && AppendsLogged(n.wals, n.appends) && FlushLogged(n.flush, n.wals, n.ents)
    ensures AllLogged(wals, Readable(n)) && AppendsLogged(wals, n.appends) && FlushLogged(n.flush, wals, n.ents)
  {
    hide InLog, BatchesGrow, Readable, KeysIn, Placed, PlacedFile;
    forall k | InLog(n.wals, k) ensures InLog(wals, k) {
      InLogGrows(n.wals, wals, k);
    }
  }

  lemma {:induction false} PlacedFileAppend(pos: nat, batches: seq<seq<Rec>>, batch: seq<Rec>)
    ensures PlacedFile(pos, batches + [batch]) == PlacedFile(pos, batches) + Placed(pos + |FileOf(batches)|, batch)
    decreases batches
  {
    hide Placed, BatchBytes;
    var more := batches + [batch];
    if batches == [] {
      assert more[1..] == [];
      assert PlacedFile(pos, more) == Placed(pos, batch) + PlacedFile(pos + |BatchBytes(batch)|, []);
    } else {
      var first := |BatchBytes(batches[0])|;
      calc {
        PlacedFile(pos, more);
        { assert more[1..] == batches[1..] + [batch]; }
        Placed(pos, batches[0]) + PlacedFile(pos + first, batches[1..] + [batch]);
        { PlacedFileAppend(pos + first, batches[1..], batch); }
        Placed(pos, batches[0])
          + (PlacedFile(pos + first, batches[1..]) + Placed(pos + first + |FileOf(batches[1..])|, batch));
        PlacedFile(pos, batches) + Placed(pos + |FileOf(batches)|, batch);
      }
    }
  }

  /** Locations stay located when segments only gain batches at the end. */
  lemma LocatedGrows(a: seq<Seg>, b: seq<Seg>, index: Index, intent: map<Key, Bytes>)
    requires IndexLocated(a, index, intent) && |a| <= |b|
    requires forall i :: 0 <= i < |a| ==>
               b[i].batches == a[i].batches || exists batch :: b[i].batches == a[i].batches + [batch]
    ensures IndexLocated(b, index, intent)
  {
    hide PlacedFile;
    forall k | k in index ensures Located(b, index[k], Rec(k, intent[k])) {
      var i := index[k].segment;
      if b[i].batches != a[i].batches {
        var batch :| b[i].batches == a[i].batches + [batch];
        PlacedFileAppend(0, a[i].batches, batch);
      }
    }
  }

  // ── Steps that change what is on disk ─────────────────────────────────────

  lemma JournalWriteDurable(n: Node, ids: seq<nat>)
    requires Inv(n) && Durable(n) && Enabled(n, JournalWrite(ids))
    ensures Durable(Next(n, JournalWrite(ids)))
  {
    hide Inv, Cache.View, InLog, AllLogged, FlushLogged, IndexLocated, KeysIn;
    var n' := Next(n, JournalWrite(ids));
    LogGrows(n, n'.wals);
    forall id | id in n'.appends && n'.appends[id].stage != Queued ensures InLog(n'.wals, n'.appends[id].rec.key) {
      if id in ids {
        var i :| 0 <= i < |ids| && ids[i] == id;
        NewlyLogged(Last(n.wals), BatchOf(n, ids), i);
        assert Last(n'.wals) == n'.wals[|n.wals| - 1];
        InLogAt(n'.wals, |n.wals| - 1, n'.appends[id].rec.key);
      }
    }
  }

  lemma InLogAt(wals: seq<Seg>, i: nat, k: Key)
    requires i < |wals| && InBatches(wals[i].batches, k)
    ensures InLog(wals, k)
  {
  }

  lemma NewlyLogged(s: Seg, batch: seq<Rec>, i: nat)
    requires i < |batch|
    ensures InBatches(AppendBatch(s, batch).batches, batch[i].key)
  {
    var b := AppendBatch(s, batch).batches;
    assert b[|b| - 1] == batch;
    assert batch[i] in batch;
    assert batch[i].key in KeysIn(batch);
  }

  lemma FlushSyncDurable(n: Node)
    requires Inv(n) && Durable(n) && Enabled(n, FlushSync)
    ensures Durable(Next(n, FlushSync))
  {
    hide Inv, Cache.View, InLog, AllLogged, AppendsLogged, IndexLocated, KeysIn, PlacedFile, Placed, FileOf;
    var n' := Next(n, FlushSync);
    var es, s := n.flush.entries, Last(n.ents);
    LocatedGrows(n.ents, n'.ents, n.entryIndex, n.intent);
    PlacedFileAppend(0, s.batches, es);
    assert s.base == [] && Stable(s) == FileOf(s.batches);
    forall i | 0 <= i < |es|
      ensures Found(Placed(|Stable(s)|, es)[i].pos, es[i]) in PlacedFile(0, Last(n'.ents).batches)
    {
      PlacedRec(|Stable(s)|, es, i);
      assert Placed(|Stable(s)|, es)[i] in Placed(|Stable(s)|, es);
    }
  }

  lemma {:induction false} PlacedRec(pos: nat, rs: seq<Rec>, i: nat)
    requires i < |rs|
    ensures Placed(pos, rs)[i].rec == rs[i]
    decreases rs
  {
    if i > 0 {
      PlacedRec(pos + RecLen(rs[0]), rs[1..], i - 1);
    }
  }

  lemma IndexEntryDurable(n: Node)
    requires Inv(n) && Durable(n) && Enabled(n, IndexEntry)
    ensures Durable(Next(n, IndexEntry))
  {
    hide IntentOk, SegsOk, IndexOk, AppendsOk, BoundedOk, ReadersOk, Cache.View, Cache.Agrees, InLog, PlacedFile,
         Placed, Decode, Stable, BatchBytes;
    var n' := Next(n, IndexEntry);
    var rec := n.flush.entries[n.flush.next];
    assert rec.key in KeysIn(n.flush.entries);
    assert Readable(n') == Readable(n) + {rec.key};
    assert IsIntended(rec, n.intent);
    assert Located(n'.ents, n'.entryIndex[rec.key], rec);
  }

  lemma EvictDurable(n: Node)
    requires Inv(n) && Durable(n) && Enabled(n, Evict)
    ensures Durable(Next(n, Evict))
  {
    hide IntentOk, SegsOk, IndexOk, AppendsOk, BoundedOk, ReadersOk, InLog, PlacedFile, AppendsLogged, IndexLocated,
         Cache.View, Cache.Agrees;
    var n' := Next(n, Evict);
    EvictedView(n.cache, n.entryIndex.Keys, n.intent);
    LocatedGrows(n.ents, n'.ents, n.entryIndex, n.intent);
  }

  lemma CacheEntryDurable(n: Node, id: nat)
    requires Inv(n) && Durable(n) && Enabled(n, CacheEntry(id))
    ensures Durable(Next(n, CacheEntry(id)))
  {
    hide IntentOk, SegsOk, IndexOk, FlushOk, BoundedOk, ReadersOk, InLog, FlushLogged, IndexLocated, Cache.View,
         Cache.Agrees, Cache.Insert;
    var rec := n.appends[id].rec;
    n.cache.InsertIs(rec.key, rec.payload, n.intent);
  }

  lemma DrainDurable(n: Node, entries: seq<Rec>)
    requires Inv(n) && Durable(n) && Enabled(n, Drain(entries))
    ensures Durable(Next(n, Drain(entries)))
  {
    hide SegsOk, IndexOk, AppendsOk, BoundedOk, ReadersOk, InLog, IndexLocated, AppendsLogged, Lists, PlacedFile,
         Placed;
    var n' := Next(n, Drain(entries));
    DrainedOk(entries, n.ents, n.cache, n.entryIndex.Keys, n.intent);
    assert Readable(n') == Readable(n);
    forall k | k in KeysIn(entries) ensures k in Readable(n) {
      var r :| r in entries && r.key == k;
      ListsIff(entries, n.cache.hot, r);
    }
  }

  lemma TailDurable(n: Node, s: Step)
    requires Inv(n) && Durable(n) && Enabled(n, s)
    requires s.FlushWrite? || s.FlushDie? || s.JournalFail? || s.JournalSeal? || s.Ack?
    ensures Durable(Next(n, s))
  {
    hide Inv, Cache.View, InLog, AllLogged, IndexLocated, KeysIn, PlacedFile, Placed;
    var n' := Next(n, s);
    if s.JournalFail? || s.JournalSeal? {
      LogGrows(n, n'.wals);
    }
    LocatedGrows(n.ents, n'.ents, n.entryIndex, n.intent);
  }

  lemma MemoryDurable(n: Node, s: Step)
    requires Inv(n) && Durable(n) && Enabled(n, s)
    requires s.Submit? || s.AckDuplicate? || s.DropWal? || s.FlushDone? || s.Fence?
    ensures Durable(Next(n, s))
  {
    hide Inv, InLog, AllLogged, KeysIn, Located, PlacedFile, Placed, Decode, FileBytes, ReadFrom, Cache.View;
  }

  /** Reading changes readers only. */
  lemma ReadFrame(n: Node, s: Step)
    requires Enabled(n, s)
    requires s.StartRead? || s.ReadCache? || s.ReadIndex? || s.ReadEntry? || s.ReadWalIndex? || s.ReadWal?
    ensures Next(n, s) == n.(readers := Next(n, s).readers)
  {
    hide ReadFrom, FileBytes;
  }

  lemma ReadDurable(n: Node, s: Step)
    requires Durable(n) && Enabled(n, s)
    requires s.StartRead? || s.ReadCache? || s.ReadIndex? || s.ReadEntry? || s.ReadWalIndex? || s.ReadWal?
    ensures Durable(Next(n, s))
  {
    hide Enabled, Next, InLog, AllLogged, FlushLogged, IndexLocated, AppendsLogged, Cache.View;
    ReadFrame(n, s);
  }

  lemma StepDurable(n: Node, s: Step)
    requires Inv(n) && Durable(n) && Enabled(n, s)
    ensures Durable(Next(n, s))
  {
    hide Inv, Durable;
    match s
    case JournalWrite(ids) => JournalWriteDurable(n, ids);
    case CacheEntry(id) => CacheEntryDurable(n, id);
    case Drain(entries) => DrainDurable(n, entries);
    case FlushSync => FlushSyncDurable(n);
    case IndexEntry => IndexEntryDurable(n);
    case Evict => EvictDurable(n);
    case FlushWrite => TailDurable(n, s);
    case FlushDie(_) => TailDurable(n, s);
    case JournalFail(_, _) => TailDurable(n, s);
    case JournalSeal => TailDurable(n, s);
    case Ack(_) => TailDurable(n, s);
    case Submit(_, _) => MemoryDurable(n, s);
    case AckDuplicate(_) => MemoryDurable(n, s);
    case DropWal => MemoryDurable(n, s);
    case FlushDone(_) => MemoryDurable(n, s);
    case Fence(_) => MemoryDurable(n, s);
    case _ => ReadDurable(n, s);
  }

  lemma {:induction false} RunDurable(n: Node, steps: seq<Step>)
    requires Inv(n) && Durable(n) && Legal(n, steps)
    ensures Durable(RunFrom(n, steps))
    decreases steps
  {
    hide Inv, Durable, Enabled, Next;
    if steps != [] {
      StepKeeps(n, steps[0]);
      StepDurable(n, steps[0]);
      RunDurable(Next(n, steps[0]), steps[1..]);
    }
  }

  lemma FreshIsGood()
    ensures Inv(FRESH) && Durable(FRESH)
  {
  }
}
