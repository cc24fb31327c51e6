/** What every step of the node keeps, and what it means for readers. */
module NodeInvariant {
  import opened Words
  import opened Records
  import opened BatchFiles
  import opened EntryCache
  import opened Recovery
  import opened Blocks
  import opened NodeRun

  // ── The invariant ─────────────────────────────────────────────────────────

  ghost predicate IntentOk(intent: map<Key, Bytes>) {
    forall k <- intent :: Writable(Rec(k, intent[k]))
  }

  ghost predicate BatchOk(batch: seq<Rec>, intent: map<Key, Bytes>) {
    forall i :: 0 <= i < |batch| ==> Writable(batch[i]) && IsIntended(batch[i], intent)
  }

  ghost predicate SegOk(s: Seg, intent: map<Key, Bytes>) {
    forall i :: 0 <= i < |s.batches| ==> BatchOk(s.batches[i], intent)
  }

  ghost predicate SegsOk(segs: seq<Seg>, intent: map<Key, Bytes>) {
    forall i :: 0 <= i < |segs| ==> SegOk(segs[i], intent)
  }

  /** The synced bytes at the location hold the one record submitted for the key, of that length. */
  ghost predicate LocOk(segs: seq<Seg>, loc: Loc, k: Key, intent: map<Key, Bytes>) {
    && k in intent && loc.segment < |segs| && loc.length == RecLen(Rec(k, intent[k]))
    && Decode(Stable(segs[loc.segment]), loc.offset) == Whole(Rec(k, intent[k]))
  }

  ghost predicate IndexOk(segs: seq<Seg>, index: Index, intent: map<Key, Bytes>) {
    forall k <- index :: LocOk(segs, index[k], k, intent)
  }

  function KeysIn(rs: seq<Rec>): set<Key> {
    set r <- rs :: r.key
  }

  /** Warm entries are indexed already, or are on their way through the flush. */
  ghost predicate FlushOk(flush: Flush, ents: seq<Seg>, warm: set<Key>, indexed: set<Key>, intent: map<Key, Bytes>)
    requires ents != []
  {
    match flush
    case Idle => warm <= indexed
    case Sealing => warm <= indexed
    case Dead => true
    case Drained(es) => BatchOk(es, intent) && warm <= indexed + KeysIn(es)
    case Written(es) =>
      BatchOk(es, intent) && warm <= indexed + KeysIn(es) && Last(ents).tail == BatchBytes(es)
    case Indexing(es, at, next, inserted) =>
      && BatchOk(es, intent) && next <= |es|
      && warm <= indexed + KeysIn(es[next..])
      && (inserted ==> next < |es| && es[next].key in indexed)
      && forall i :: 0 <= i < |es| ==> Decode(Stable(Last(ents)), Placed(at, es)[i].pos) == Whole(es[i])
  }

  ghost predicate AppendsOk(appends: map<nat, Append>, intent: map<Key, Bytes>, readable: set<Key>) {
    forall id <- appends ::
      && IsIntended(appends[id].rec, intent)
      && (appends[id].stage == Cached ==> appends[id].rec.key in readable)
  }

  ghost function Readable(n: Node): set<Key> {
    n.cache.View().Keys + n.entryIndex.Keys
  }

  predicate HiCovers(hi: map<u64, u64>, k: Key) {
    k.ledger in hi && k.entry <= hi[k.ledger]
  }

  ghost predicate BoundedOk(cached: set<Key>, hi: map<u64, u64>, indexed: set<Key>) {
    forall k <- cached :: HiCovers(hi, k) || k in indexed
  }

  /** `inWal`: the keys of the WAL index, which only shrinks. A key in it is readable, so a read
      that has missed the cache and the entry index never finds anything there. */
  ghost predicate ReadOk(r: Read, readable: set<Key>, indexed: set<Key>, inWal: set<Key>, ents: seq<Seg>,
                         intent: map<Key, Bytes>)
  {
    match r.stage
    case AtCache => r.expects ==> r.key in readable
    case AtIndex => r.expects || r.key in inWal ==> r.key in indexed
    case AtEntry(loc) => LocOk(ents, loc, r.key, intent)
    case AtWalIndex => !r.expects && r.key !in inWal
    case AtWal(_) => false
    case Returned(payload) => IsIntended(Rec(r.key, payload), intent)
    case NotFound => !r.expects
    case Failed(loc) => LocOk(ents, loc, r.key, intent) && !FitsTwoBlocks(loc)
  }

  ghost predicate ReadersOk(readers: map<nat, Read>, readable: set<Key>, indexed: set<Key>, inWal: set<Key>,
                            ents: seq<Seg>, intent: map<Key, Bytes>)
  {
    forall r <- readers :: ReadOk(readers[r], readable, indexed, inWal, ents, intent)
  }

  ghost predicate Inv(n: Node) {
    && n.wals != [] && n.ents != []
    && IntentOk(n.intent)
    && SegsOk(n.wals, n.intent) && SegsOk(n.ents, n.intent)
    && IndexOk(n.ents, n.entryIndex, n.intent)
    && n.cache.Agrees(n.intent)
    && FlushOk(n.flush, n.ents, n.cache.warm.Keys, n.entryIndex.Keys, n.intent)
    && AppendsOk(n.appends, n.intent, Readable(n))
    && n.acked <= Readable(n) && n.walIndex.Keys <= Readable(n)
    && BoundedOk(n.cache.View().Keys, n.hi, n.entryIndex.Keys + n.walIndex.Keys)
    && ReadersOk(n.readers, Readable(n), n.entryIndex.Keys, n.walIndex.Keys, n.ents, n.intent)
  }

  // ── Growth ────────────────────────────────────────────────────────────────

  ghost predicate IntentGrows(a: map<Key, Bytes>, b: map<Key, Bytes>) {
    forall k <- a :: k in b && b[k] == a[k]
  }

  ghost predicate SegsGrow(a: seq<Seg>, b: seq<Seg>) {
    |a| <= |b| && forall i :: 0 <= i < |a| ==> Stable(a[i]) <= Stable(b[i])
  }

  lemma LocGrows(a: seq<Seg>, b: seq<Seg>, loc: Loc, k: Key, i: map<Key, Bytes>, j: map<Key, Bytes>)
    requires LocOk(a, loc, k, i) && SegsGrow(a, b) && IntentGrows(i, j)
    ensures LocOk(b, loc, k, j)
  {
    hide Decode, Stable;
    DecodeGrows(Stable(a[loc.segment]), Stable(b[loc.segment]), loc.offset);
  }

  lemma IndexGrows(a: seq<Seg>, b: seq<Seg>, index: Index, i: map<Key, Bytes>, j: map<Key, Bytes>)
    requires IndexOk(a, index, i) && SegsGrow(a, b) && IntentGrows(i, j)
    ensures IndexOk(b, index, j)
  {
    hide LocOk, SegsGrow, IntentGrows;
    forall k | k in index ensures LocOk(b, index[k], k, j) {
      LocGrows(a, b, index[k], k, i, j);
    }
  }

  lemma ReadersGrow(n: Node, n': Node)
    requires ReadersOk(n.readers, Readable(n), n.entryIndex.Keys, n.walIndex.Keys, n.ents, n.intent)
    requires n'.readers == n.readers && Readable(n) <= Readable(n') && n.entryIndex.Keys <= n'.entryIndex.Keys
    requires n'.walIndex.Keys <= n.walIndex.Keys && SegsGrow(n.ents, n'.ents) && IntentGrows(n.intent, n'.intent)
    ensures ReadersOk(n'.readers, Readable(n'), n'.entryIndex.Keys, n'.walIndex.Keys, n'.ents, n'.intent)
  {
    hide LocOk, SegsGrow, Readable;
    forall r | r in n.readers
      ensures ReadOk(n.readers[r], Readable(n'), n'.entryIndex.Keys, n'.walIndex.Keys, n'.ents, n'.intent)
    {
      var read := n.readers[r];
      assert ReadOk(read, Readable(n), n.entryIndex.Keys, n.walIndex.Keys, n.ents, n.intent);
      match read.stage
      case AtEntry(loc) => LocGrows(n.ents, n'.ents, loc, read.key, n.intent, n'.intent);
      case Failed(loc) => LocGrows(n.ents, n'.ents, loc, read.key, n.intent, n'.intent);
      case _ =>
    }
  }

  lemma SegsGrowSame(a: seq<Seg>)
    ensures SegsGrow(a, a)
  {
  }

  lemma SegsGrowTail(a: seq<Seg>, left: Bytes, intent: map<Key, Bytes>)
    requires a != [] && SegsOk(a, intent)
    ensures var b := SetLast(a, Last(a).(tail := left));
            SegsGrow(a, b) && SegsOk(b, intent) && Stable(Last(b)) == Stable(Last(a))
  {
  }

  lemma SegsGrowNew(a: seq<Seg>, intent: map<Key, Bytes>)
    requires SegsOk(a, intent)
    ensures SegsGrow(a, a + [EMPTY_SEG]) && SegsOk(a + [EMPTY_SEG], intent)
  {
  }

  lemma StableAppend(s: Seg, batch: seq<Rec>)
    ensures Stable(AppendBatch(s, batch)) == Stable(s) + BatchBytes(batch)
  {
    hide FileOf, BatchBytes;
    FileOfAppend(s.batches, batch);
    assert s.base + (FileOf(s.batches) + BatchBytes(batch)) == Stable(s) + BatchBytes(batch);
  }

  lemma SegsGrowBatch(a: seq<Seg>, batch: seq<Rec>, intent: map<Key, Bytes>)
    requires a != [] && SegsOk(a, intent) && BatchOk(batch, intent)
    ensures var b := SetLast(a, AppendBatch(Last(a), batch));
            SegsGrow(a, b) && SegsOk(b, intent)
  {
    hide Stable, BatchBytes, BatchOk;
    StableAppend(Last(a), batch);
    var b := SetLast(a, AppendBatch(Last(a), batch));
    assert SegOk(Last(b), intent) by {
      assert SegOk(Last(a), intent);
    }
  }

  // ── Each step ─────────────────────────────────────────────────────────────

  lemma FlushIntent(flush: Flush, ents: seq<Seg>, warm: set<Key>, indexed: set<Key>,
                    i: map<Key, Bytes>, j: map<Key, Bytes>)
    requires ents != [] && FlushOk(flush, ents, warm, indexed, i) && IntentGrows(i, j)
    ensures FlushOk(flush, ents, warm, indexed, j)
  {
    hide Decode, Stable, BatchBytes, Placed;
  }

  lemma SubmitKeeps(n: Node, id: nat, rec: Rec)
    requires Inv(n) && Enabled(n, Submit(id, rec))
    ensures Inv(Next(n, Submit(id, rec)))
  {
    hide SegsOk, IndexOk, FlushOk, BoundedOk, ReadersOk, SegsGrow, Cache.View, Stable;
    var n' := Next(n, Submit(id, rec));
    SegsGrowSame(n.ents);
    IndexGrows(n.ents, n.ents, n.entryIndex, n.intent, n'.intent);
    SegsIntent(n.wals, n.intent, n'.intent);
    SegsIntent(n.ents, n.intent, n'.intent);
    FlushIntent(n.flush, n.ents, n.cache.warm.Keys, n.entryIndex.Keys, n.intent, n'.intent);
    ReadersGrow(n, n');
  }

  lemma SegsIntent(segs: seq<Seg>, i: map<Key, Bytes>, j: map<Key, Bytes>)
    requires SegsOk(segs, i) && IntentGrows(i, j)
    ensures SegsOk(segs, j)
  {
    forall s, b | 0 <= s < |segs| && 0 <= b < |segs[s].batches| ensures BatchOk(segs[s].batches[b], j) {
      assert SegOk(segs[s], i) && BatchOk(segs[s].batches[b], i);
    }
  }

  lemma AckDuplicateKeeps(n: Node, k: Key)
    requires Inv(n) && Enabled(n, AckDuplicate(k))
    ensures Inv(Next(n, AckDuplicate(k)))
  {
    hide IntentOk, SegsOk, IndexOk, FlushOk, AppendsOk, BoundedOk, ReadersOk, Cache.View, Cache.Agrees;
  }

  lemma JournalWriteKeeps(n: Node, ids: seq<nat>)
    requires Inv(n) && Enabled(n, JournalWrite(ids))
    ensures Inv(Next(n, JournalWrite(ids)))
  {
    hide SegsOk, IndexOk, FlushOk, BoundedOk, ReadersOk, Cache.View, Cache.Agrees, SegsGrow, AppendBatch;
    var n' := Next(n, JournalWrite(ids));
    var batch := BatchOf(n, ids);
    forall i | 0 <= i < |batch| ensures Writable(batch[i]) && IsIntended(batch[i], n.intent) {
      assert ids[i] in n.appends;
    }
    SegsGrowBatch(n.wals, batch, n.intent);
    SegsGrowSame(n.ents);
    ReadersGrow(n, n');
  }

  lemma JournalFailKeeps(n: Node, ids: seq<nat>, left: Bytes)
    requires Inv(n) && Enabled(n, JournalFail(ids, left))
    ensures Inv(Next(n, JournalFail(ids, left)))
  {
    hide IntentOk, SegsOk, IndexOk, FlushOk, BoundedOk, ReadersOk, Cache.View, Cache.Agrees, SegsGrow, Stable;
    var n' := Next(n, JournalFail(ids, left));
    SegsGrowTail(n.wals, left, n.intent);
    SegsGrowSame(n.ents);
    ReadersGrow(n, n');
  }

  lemma JournalSealKeeps(n: Node)
    requires Inv(n) && Enabled(n, JournalSeal)
    ensures Inv(Next(n, JournalSeal))
  {
    hide IntentOk, SegsOk, IndexOk, FlushOk, AppendsOk, BoundedOk, ReadersOk, Cache.View, Cache.Agrees, SegsGrow,
         Stable;
    SegsGrowNew(n.wals, n.intent);
    SegsGrowSame(n.ents);
    ReadersGrow(n, Next(n, JournalSeal));
  }

  lemma AppendsGrow(appends: map<nat, Append>, intent: map<Key, Bytes>, a: set<Key>, b: set<Key>)
    requires AppendsOk(appends, intent, a) && a <= b
    ensures AppendsOk(appends, intent, b)
  {
  }

  lemma BoundedRaise(cached: set<Key>, hi: map<u64, u64>, indexed: set<Key>, k: Key)
    requires BoundedOk(cached, hi, indexed)
    ensures BoundedOk(cached + {k}, RaiseHi(hi, k), indexed)
  {
  }

  lemma CacheEntryKeeps(n: Node, id: nat)
    requires Inv(n) && Enabled(n, CacheEntry(id))
    ensures Inv(Next(n, CacheEntry(id)))
  {
    hide IntentOk, SegsOk, IndexOk, FlushOk, BoundedOk, ReadersOk, Cache.View, Cache.Agrees, Cache.Insert, RaiseHi,
         SegsGrow, Stable;
    var n' := Next(n, CacheEntry(id));
    var rec := n.appends[id].rec;
    n.cache.InsertIs(rec.key, rec.payload, n.intent);
    AppendsGrow(n.appends, n.intent, Readable(n), Readable(n'));
    BoundedRaise(n.cache.View().Keys, n.hi, n.entryIndex.Keys + n.walIndex.Keys, rec.key);
    SegsGrowSame(n.ents);
    ReadersGrow(n, n');
  }

  lemma AckKeeps(n: Node, id: nat)
    requires Inv(n) && Enabled(n, Ack(id))
    ensures Inv(Next(n, Ack(id)))
  {
    hide IntentOk, SegsOk, IndexOk, FlushOk, BoundedOk, ReadersOk, Cache.View, Cache.Agrees;
  }

  lemma DrainedOk(entries: seq<Rec>, ents: seq<Seg>, cache: Cache, indexed: set<Key>, intent: map<Key, Bytes>)
    requires ents != [] && FlushOk(Idle, ents, cache.warm.Keys, indexed, intent)
    requires Lists(entries, cache.hot) && IntentOk(intent) && cache.Agrees(intent)
    ensures FlushOk(Drained(entries), ents, cache.Drain().warm.Keys, indexed, intent)
    ensures cache.Drain().Agrees(intent) && cache.Drain().View() == cache.View()
  {
    hide Lists;
    forall i | 0 <= i < |entries| ensures Writable(entries[i]) && IsIntended(entries[i], intent) {
      ListsIff(entries, cache.hot, entries[i]);
    }
    forall k | k in cache.hot ensures k in KeysIn(entries) {
      ListsIff(entries, cache.hot, Rec(k, cache.hot[k]));
    }
  }

  lemma DrainKeeps(n: Node, entries: seq<Rec>)
    requires Inv(n) && Enabled(n, Drain(entries))
    ensures Inv(Next(n, Drain(entries)))
  {
    hide IntentOk, SegsOk, IndexOk, FlushOk, AppendsOk, BoundedOk, ReadersOk, Lists, Cache.View, Cache.Agrees,
         Cache.Drain;
    DrainedOk(entries, n.ents, n.cache, n.entryIndex.Keys, n.intent);
  }

  lemma FlushWriteKeeps(n: Node)
    requires Inv(n) && Enabled(n, FlushWrite)
    ensures Inv(Next(n, FlushWrite))
  {
    hide IntentOk, SegsOk, IndexOk, AppendsOk, BoundedOk, ReadersOk, Cache.View, Cache.Agrees, SegsGrow, Stable,
         BatchOk, BatchBytes;
    var n' := Next(n, FlushWrite);
    SegsGrowTail(n.ents, BatchBytes(n.flush.entries), n.intent);
    IndexGrows(n.ents, n'.ents, n.entryIndex, n.intent, n.intent);
    ReadersGrow(n, n');
  }

  lemma SyncedOk(entries: seq<Rec>, ents: seq<Seg>, warm: set<Key>, indexed: set<Key>, intent: map<Key, Bytes>)
    requires ents != [] && FlushOk(Written(entries), ents, warm, indexed, intent)
    ensures FlushOk(Indexing(entries, |Stable(Last(ents))|, 0, false),
                    SetLast(ents, AppendBatch(Last(ents), entries)), warm, indexed, intent)
  {
    hide Stable, AppendBatch, Placed, Decode, BatchBytes;
    SyncedBatchDecodes(Last(ents), entries);
    assert entries[0..] == entries;
  }

  lemma FlushSyncKeeps(n: Node)
    requires Inv(n) && Enabled(n, FlushSync)
    ensures Inv(Next(n, FlushSync))
  {
    hide IntentOk, SegsOk, IndexOk, FlushOk, AppendsOk, BoundedOk, ReadersOk, Cache.View, Cache.Agrees, SegsGrow,
         Stable, AppendBatch;
    var n' := Next(n, FlushSync);
    var es := n.flush.entries;
    assert BatchOk(es, n.intent) by { WrittenBatchOk(n); }
    SegsGrowBatch(n.ents, es, n.intent);
    IndexGrows(n.ents, n'.ents, n.entryIndex, n.intent, n.intent);
    SyncedOk(es, n.ents, n.cache.warm.Keys, n.entryIndex.Keys, n.intent);
    ReadersGrow(n, n');
  }

  lemma WrittenBatchOk(n: Node)
    requires n.ents != [] && n.flush.Written?
    requires FlushOk(n.flush, n.ents, n.cache.warm.Keys, n.entryIndex.Keys, n.intent)
    ensures BatchOk(n.flush.entries, n.intent)
  {
  }

  lemma SyncedBatchDecodes(s: Seg, es: seq<Rec>)
    requires BatchWritable(es)
    ensures forall i :: 0 <= i < |es| ==>
              Decode(Stable(AppendBatch(s, es)), Placed(|Stable(s)|, es)[i].pos) == Whole(es[i])
  {
    hide Stable, AppendBatch, Placed, Decode, EncodeAll, RoundUp;
    StableAppend(s, es);
    var data := Stable(AppendBatch(s, es));
    assert data[|Stable(s)|..|Stable(s)| + |EncodeAll(es)|] == EncodeAll(es);
    forall i | 0 <= i < |es| ensures Decode(data, Placed(|Stable(s)|, es)[i].pos) == Whole(es[i]) {
      PlacedDecode(data, |Stable(s)|, es, i);
    }
  }

  lemma FlushDieKeeps(n: Node, left: Bytes)
    requires Inv(n) && Enabled(n, FlushDie(left))
    ensures Inv(Next(n, FlushDie(left)))
  {
    hide IntentOk, SegsOk, IndexOk, AppendsOk, BoundedOk, ReadersOk, Cache.View, Cache.Agrees, SegsGrow, Stable;
    var n' := Next(n, FlushDie(left));
    SegsGrowTail(n.ents, left, n.intent);
    IndexGrows(n.ents, n'.ents, n.entryIndex, n.intent, n.intent);
    ReadersGrow(n, n');
  }

  lemma InsertedOk(flush: Flush, ents: seq<Seg>, warm: set<Key>, indexed: set<Key>, intent: map<Key, Bytes>)
    requires ents != [] && FlushOk(flush, ents, warm, indexed, intent)
    requires flush.Indexing? && flush.next < |flush.entries|
    ensures var rec := flush.entries[flush.next];
            var pos := Placed(flush.at, flush.entries)[flush.next].pos;
            && FlushOk(flush.(inserted := true), ents, warm, indexed + {rec.key}, intent)
            && LocOk(ents, Loc(|ents| - 1, pos, RecLen(rec)), rec.key, intent)
  {
    hide Stable, Placed, Decode;
  }

  lemma IndexInsert(segs: seq<Seg>, index: Index, intent: map<Key, Bytes>, k: Key, loc: Loc)
    requires IndexOk(segs, index, intent) && LocOk(segs, loc, k, intent)
    ensures IndexOk(segs, index[k := loc], intent)
  {
    hide LocOk;
  }

  lemma BoundedGrow(cached: set<Key>, hi: map<u64, u64>, a: set<Key>, b: set<Key>)
    requires BoundedOk(cached, hi, a) && a <= b
    ensures BoundedOk(cached, hi, b)
  {
  }

  lemma IndexEntryKeeps(n: Node)
    requires Inv(n) && Enabled(n, IndexEntry)
    ensures Inv(Next(n, IndexEntry))
  {
    hide IntentOk, SegsOk, IndexOk, FlushOk, AppendsOk, BoundedOk, ReadersOk, Cache.View, Cache.Agrees, SegsGrow,
         Placed, LocOk;
    var n' := Next(n, IndexEntry);
    var k := n.flush.entries[n.flush.next].key;
    InsertedOk(n.flush, n.ents, n.cache.warm.Keys, n.entryIndex.Keys, n.intent);
    IndexInsert(n.ents, n.entryIndex, n.intent, k, n'.entryIndex[k]);
    assert n'.entryIndex.Keys == n.entryIndex.Keys + {k};
    AppendsGrow(n.appends, n.intent, Readable(n), Readable(n'));
    BoundedGrow(n.cache.View().Keys, n.hi, n.entryIndex.Keys + n.walIndex.Keys, n'.entryIndex.Keys + n.walIndex.Keys);
    SegsGrowSame(n.ents);
    ReadersGrow(n, n');
  }

  lemma DroppedOk(flush: Flush, ents: seq<Seg>, warm: set<Key>, indexed: set<Key>, intent: map<Key, Bytes>)
    requires ents != [] && FlushOk(flush, ents, warm, indexed, intent)
    requires flush.Indexing? && flush.inserted && flush.next < |flush.entries|
    ensures FlushOk(flush.(next := flush.next + 1, inserted := false), ents, warm, indexed, intent)
    ensures flush.entries[flush.next].key in indexed
  {
    hide Stable, Placed, Decode;
    var es, i := flush.entries, flush.next;
    assert es[i..] == [es[i]] + es[i + 1..];
  }

  lemma DropWalKeeps(n: Node)
    requires Inv(n) && Enabled(n, DropWal)
    ensures Inv(Next(n, DropWal))
  {
    hide IntentOk, SegsOk, FlushOk, AppendsOk, BoundedOk, ReadersOk, Cache.View, Cache.Agrees, LocOk;
    var n' := Next(n, DropWal);
    DroppedOk(n.flush, n.ents, n.cache.warm.Keys, n.entryIndex.Keys, n.intent);
    BoundedGrow(n.cache.View().Keys, n.hi, n.entryIndex.Keys + n.walIndex.Keys, n.entryIndex.Keys + n'.walIndex.Keys);
    SegsGrowSame(n.ents);
    ReadersGrow(n, n');
  }

  lemma FlushDoneKeeps(n: Node, seal: bool)
    requires Inv(n) && Enabled(n, FlushDone(seal))
    ensures Inv(Next(n, FlushDone(seal)))
  {
    hide IntentOk, SegsOk, IndexOk, ReadersOk, AppendsOk, BoundedOk, Cache.View, Cache.Agrees;
  }

  /** Evicting an indexed warm tier takes nothing away from readers. */
  lemma EvictedView(cache: Cache, indexed: set<Key>, intent: map<Key, Bytes>)
    requires cache.warm.Keys <= indexed && cache.Agrees(intent)
    ensures cache.Evict().View().Keys + indexed == cache.View().Keys + indexed
    ensures cache.Evict().View().Keys <= cache.View().Keys
    ensures cache.Evict().Agrees(intent)
  {
  }

  lemma BoundedShrink(a: set<Key>, b: set<Key>, hi: map<u64, u64>, indexed: set<Key>)
    requires BoundedOk(a, hi, indexed) && b <= a
    ensures BoundedOk(b, hi, indexed)
  {
  }

  lemma EvictKeeps(n: Node)
    requires Inv(n) && Enabled(n, Evict)
    ensures Inv(Next(n, Evict))
  {
    hide IntentOk, SegsOk, IndexOk, AppendsOk, BoundedOk, ReadersOk, SegsGrow, Stable, Cache.View, Cache.Agrees;
    var n' := Next(n, Evict);
    EvictedView(n.cache, n.entryIndex.Keys, n.intent);
    BoundedShrink(n.cache.View().Keys, n'.cache.View().Keys, n.hi, n.entryIndex.Keys + n.walIndex.Keys);
    SegsGrowNew(n.ents, n.intent);
    IndexGrows(n.ents, n'.ents, n.entryIndex, n.intent, n.intent);
    ReadersGrow(n, n');
  }

  // ── Readers ───────────────────────────────────────────────────────────────

  lemma MoveReadKeeps(n: Node, r: nat, stage: ReadStage)
    requires Inv(n) && r in n.readers
    requires ReadOk(n.readers[r].(stage := stage), Readable(n), n.entryIndex.Keys, n.walIndex.Keys, n.ents, n.intent)
    ensures Inv(MoveRead(n, r, stage))
  {
    hide IntentOk, SegsOk, IndexOk, FlushOk, AppendsOk, BoundedOk, ReadOk, Cache.View, Cache.Agrees;
  }

  lemma StartReadKeeps(n: Node, r: nat, k: Key)
    requires Inv(n) && Enabled(n, StartRead(r, k))
    ensures Inv(Next(n, StartRead(r, k)))
  {
    hide IntentOk, SegsOk, IndexOk, FlushOk, AppendsOk, BoundedOk, Cache.View, Cache.Agrees, LocOk;
  }

  /** Reading the file at a good location gives the submitted payload exactly if the location fits two
      blocks, whatever lies behind the synced bytes; otherwise it fails. */
  lemma ReadFromIs(segs: seq<Seg>, loc: Loc, k: Key, intent: map<Key, Bytes>)
    requires LocOk(segs, loc, k, intent)
    ensures k in intent && loc.length == RecLen(Rec(k, intent[k]))
    ensures ReadFrom(FileBytes(segs[loc.segment]), loc)
         == if FitsTwoBlocks(loc) then Returned(intent[k]) else Failed(loc)
  {
    hide Decode, Stable, Assemble, FitsTwoBlocks;
    DecodeGrows(Stable(segs[loc.segment]), FileBytes(segs[loc.segment]), loc.offset);
    AssemblyRefinesDirectRead(FileBytes(segs[loc.segment]), loc, Rec(k, intent[k]));
  }

  lemma ReadCacheKeeps(n: Node, r: nat)
    requires Inv(n) && Enabled(n, ReadCache(r))
    ensures Inv(Next(n, ReadCache(r)))
  {
    hide IntentOk, SegsOk, IndexOk, FlushOk, AppendsOk, BoundedOk, LocOk;
    assert ReadOk(n.readers[r], Readable(n), n.entryIndex.Keys, n.walIndex.Keys, n.ents, n.intent);
    MoveReadKeeps(n, r, Next(n, ReadCache(r)).readers[r].stage);
  }

  lemma ReadIndexKeeps(n: Node, r: nat)
    requires Inv(n) && Enabled(n, ReadIndex(r))
    ensures Inv(Next(n, ReadIndex(r)))
  {
    hide IntentOk, SegsOk, FlushOk, AppendsOk, BoundedOk, LocOk, Cache.View, Cache.Agrees;
    assert ReadOk(n.readers[r], Readable(n), n.entryIndex.Keys, n.walIndex.Keys, n.ents, n.intent);
    MoveReadKeeps(n, r, Next(n, ReadIndex(r)).readers[r].stage);
  }

  lemma ReadWalIndexKeeps(n: Node, r: nat)
    requires Inv(n) && Enabled(n, ReadWalIndex(r))
    ensures Inv(Next(n, ReadWalIndex(r)))
  {
    hide IntentOk, SegsOk, IndexOk, FlushOk, AppendsOk, BoundedOk, LocOk, Cache.View, Cache.Agrees;
    assert ReadOk(n.readers[r], Readable(n), n.entryIndex.Keys, n.walIndex.Keys, n.ents, n.intent);
    MoveReadKeeps(n, r, NotFound);
  }

  lemma ReadEntryKeeps(n: Node, r: nat)
    requires Inv(n) && Enabled(n, ReadEntry(r))
    ensures Inv(Next(n, ReadEntry(r)))
  {
    hide IntentOk, SegsOk, IndexOk, FlushOk, AppendsOk, BoundedOk, Cache.View, Cache.Agrees, FileBytes, ReadFrom,
         Decode, Stable, FitsTwoBlocks;
    var k, loc := n.readers[r].key, n.readers[r].stage.loc;
    assert ReadOk(n.readers[r], Readable(n), n.entryIndex.Keys, n.walIndex.Keys, n.ents, n.intent);
    ReadFromIs(n.ents, loc, k, n.intent);
    MoveReadKeeps(n, r, if FitsTwoBlocks(loc) then Returned(n.intent[k]) else Failed(loc));
  }

  /** The WAL tier is never reached. */
  lemma NoReadAtWal(n: Node, r: nat)
    requires Inv(n) && r in n.readers
    ensures !n.readers[r].stage.AtWal?
  {
    hide IntentOk, SegsOk, IndexOk, FlushOk, AppendsOk, BoundedOk, Cache.View, Cache.Agrees, LocOk;
    assert ReadOk(n.readers[r], Readable(n), n.entryIndex.Keys, n.walIndex.Keys, n.ents, n.intent);
  }

  // ── Every run ─────────────────────────────────────────────────────────────

  lemma StepKeeps(n: Node, s: Step)
    requires Inv(n) && Enabled(n, s)
    ensures Inv(Next(n, s))
  {
    hide Inv;
    match s
    case Submit(id, rec) => SubmitKeeps(n, id, rec);
    case AckDuplicate(k) => AckDuplicateKeeps(n, k);
    case JournalWrite(ids) => JournalWriteKeeps(n, ids);
    case JournalFail(ids, left) => JournalFailKeeps(n, ids, left);
    case JournalSeal => JournalSealKeeps(n);
    case CacheEntry(id) => CacheEntryKeeps(n, id);
    case Ack(id) => AckKeeps(n, id);
    case Drain(entries) => DrainKeeps(n, entries);
    case FlushWrite => FlushWriteKeeps(n);
    case FlushSync => FlushSyncKeeps(n);
    case FlushDie(left) => FlushDieKeeps(n, left);
    case IndexEntry => IndexEntryKeeps(n);
    case DropWal => DropWalKeeps(n);
    case FlushDone(seal) => FlushDoneKeeps(n, seal);
    case Evict => EvictKeeps(n);
    case Fence(ledger) => FenceKeeps(n, ledger);
    case StartRead(r, k) => StartReadKeeps(n, r, k);
    case ReadCache(r) => ReadCacheKeeps(n, r);
    case ReadIndex(r) => ReadIndexKeeps(n, r);
    case ReadEntry(r) => ReadEntryKeeps(n, r);
    case ReadWalIndex(r) => ReadWalIndexKeeps(n, r);
    case ReadWal(r) => NoReadAtWal(n, r);
  }

  lemma FenceKeeps(n: Node, ledger: u64)
    requires Inv(n) && Enabled(n, Fence(ledger))
    ensures Inv(Next(n, Fence(ledger)))
  {
    hide IntentOk, SegsOk, IndexOk, FlushOk, AppendsOk, BoundedOk, ReadersOk, Cache.View, Cache.Agrees;
  }

  lemma {:induction false} RunKeeps(n: Node, steps: seq<Step>)
    requires Inv(n) && Legal(n, steps)
    ensures Inv(RunFrom(n, steps))
    decreases steps
  {
    hide Inv, Enabled, Next;
    if steps != [] {
      StepKeeps(n, steps[0]);
      RunKeeps(Next(n, steps[0]), steps[1..]);
    }
  }

  /** The answer of a read at a location: the submitted payload if the location fits two blocks, an error if
      not. */
  ghost predicate EntryAnswer(read: Read, after: ReadStage, intent: map<Key, Bytes>) {
    && read.stage.AtEntry? && read.key in intent
    && var loc := read.stage.loc;
    && loc.length == RecLen(Rec(read.key, intent[read.key]))
    && after == (if FitsTwoBlocks(loc) then Returned(intent[read.key]) else Failed(loc))
    && (loc.length <= BLOCK_SIZE + 1 ==> after.Returned?)
    && (loc.length > 2 * BLOCK_SIZE ==> after.Failed?)
  }

  /** What a read that has found an EntrySegment location answers: the submitted payload if the location
      fits two blocks, an error if not. */
  lemma ReadEntryAnswers(n: Node, r: nat)
    requires Inv(n) && Enabled(n, ReadEntry(r))
    ensures var after := Next(n, ReadEntry(r)).readers;
            r in n.readers && r in after && EntryAnswer(n.readers[r], after[r].stage, n.intent)
  {
    hide IntentOk, SegsOk, IndexOk, FlushOk, AppendsOk, BoundedOk, Cache.View, Cache.Agrees, FileBytes, ReadFrom,
         Decode, Stable, FitsTwoBlocks, Readable, LocOk;
    assert ReadOk(n.readers[r], Readable(n), n.entryIndex.Keys, n.walIndex.Keys, n.ents, n.intent);
    ReadFromIs(n.ents, n.readers[r].stage.loc, n.readers[r].key, n.intent);
    FitsBySize(n.readers[r].stage.loc);
  }

  /** What a finished read may have answered: EntryNotFound only for an entry that was not acknowledged
      when the read began, the submitted payload, or an error for a record that does not fit the two
      blocks at its location. */
  ghost predicate Answered(read: Read, intent: map<Key, Bytes>) {
    match read.stage
    case NotFound => !read.expects
    case Returned(payload) => IsIntended(Rec(read.key, payload), intent)
    case Failed(loc) =>
      && read.key in intent && loc.length == RecLen(Rec(read.key, intent[read.key]))
      && !FitsTwoBlocks(loc) && loc.length > BLOCK_SIZE + 1
    case _ => true
  }

  /** Reads linearise against the flush loop: however drain, write, index, seal and evict steps
      interleave with a read's lookups, a read of an entry acknowledged before it began never ends
      in EntryNotFound, every read that returns gives the submitted bytes, and only a record that does
      not fit two blocks ends in an error. */
  lemma ReadsLinearise(n: Node, steps: seq<Step>, r: nat)
    requires Inv(n) && Legal(n, steps) && r in RunFrom(n, steps).readers
    ensures Answered(RunFrom(n, steps).readers[r], RunFrom(n, steps).intent)
  {
    hide Enabled, Next, IntentOk, SegsOk, IndexOk, FlushOk, AppendsOk, BoundedOk, Cache.View, Cache.Agrees, Decode,
         Stable, FitsTwoBlocks;
    RunKeeps(n, steps);
    var n' := RunFrom(n, steps);
    assert ReadOk(n'.readers[r], Readable(n'), n'.entryIndex.Keys, n'.walIndex.Keys, n'.ents, n'.intent);
    if n'.readers[r].stage.Failed? {
      FitsBySize(n'.readers[r].stage.loc);
    }
  }
}
