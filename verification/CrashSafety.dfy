/**
 * Crash safety: a node started on an empty directory crashes at any step; what it finds on disk is
 * every synced batch followed by arbitrary bytes, and an `entry_index` that may have lost any of its
 * entries. After `recover`, every acknowledged entry is readable.
 */
module CrashSafety {
  import opened Words
  import opened Records
  import opened Scanning
  import opened BatchFiles
  import opened EntryCache
  import opened Recovery
  import opened RecoveryLaws
  import opened NodeRun
  import opened NodeInvariant
  import opened Durability

  /** What a crash may leave of a segment: its synced batches, then anything. The last two
      conditions are the side conditions of the scan: the padding is crossed, and a record that
      passes its checksum in the left-over bytes is one that was submitted. */
  ghost predicate Image(s: Seg, data: Bytes, intent: map<Key, Bytes>) {
    && Holds(data, 0, FileOf(s.batches))
    && GapsOk(data, 0, s.batches)
    && Genuine(ScanFrom(data, |FileOf(s.batches)|).found, intent)
  }

  ghost predicate CrashImage(n: Node, d: Store) {
    && |d.wals| == |n.wals| && |d.ents| == |n.ents|
    && (forall i :: 0 <= i < |n.wals| ==> Image(n.wals[i], d.wals[i], n.intent))
    && (forall i :: 0 <= i < |n.ents| ==> Image(n.ents[i], d.ents[i], n.intent))
    && (forall k <- d.entryIndex :: k in n.entryIndex && n.entryIndex[k] == d.entryIndex[k])
    && d.walIndex == map[] && d.checkpoints == map[] && d.cache == Cache(map[], map[])
  }

  // ── The scans of a crash image ────────────────────────────────────────────

  lemma {:induction false} PlacedFileGenuine(pos: nat, batches: seq<seq<Rec>>, intent: map<Key, Bytes>)
    requires forall i :: 0 <= i < |batches| ==> BatchOk(batches[i], intent)
    ensures Genuine(PlacedFile(pos, batches), intent)
    decreases batches
  {
    hide BatchBytes;
    if batches != [] {
      PlacedFileGenuine(pos + |BatchBytes(batches[0])|, batches[1..], intent);
      var head := Placed(pos, batches[0]);
      forall i | 0 <= i < |head| ensures IsIntended(head[i].rec, intent) {
        PlacedRec(pos, batches[0], i);
      }
    }
  }

  /** The scan of an image finds every synced record, and only submitted records. */
  lemma ImageScan(s: Seg, data: Bytes, intent: map<Key, Bytes>)
    requires SegOk(s, intent) && Image(s, data, intent)
    ensures PlacedFile(0, s.batches) <= ScanFrom(data, 0).found
    ensures Genuine(ScanFrom(data, 0).found, intent)
  {
    hide ScanFrom, PlacedFile, FileOf;
    assert AllWritable(s.batches) by {
      forall i | 0 <= i < |s.batches| ensures BatchWritable(s.batches[i]) {
        assert BatchOk(s.batches[i], intent);
      }
    }
    ScanFile(data, 0, s.batches);
    PlacedFileGenuine(0, s.batches, intent);
  }

  lemma {:induction false} LoggedIsPlaced(pos: nat, batches: seq<seq<Rec>>, j: nat, k: Key)
    requires j < |batches| && k in KeysIn(batches[j])
    ensures k in KeysOf(PlacedFile(pos, batches))
    decreases batches
  {
    hide BatchBytes, Placed;
    var here, next := Placed(pos, batches[0]), pos + |BatchBytes(batches[0])|;
    KeysOfConcat(here, PlacedFile(next, batches[1..]));
    if j == 0 {
      var r :| r in batches[0] && r.key == k;
      var i :| 0 <= i < |batches[0]| && batches[0][i] == r;
      PlacedRec(pos, batches[0], i);
      assert here[i] in here;
      assert k in KeysOf(here);
    } else {
      LoggedIsPlaced(next, batches[1..], j - 1, k);
    }
  }

  // ── Phase 1 on a crash image ──────────────────────────────────────────────

  /** A location of the recovered index is where the scan of its segment found the record. */
  ghost predicate FoundAt(d: Store, loc: Loc, rec: Rec) {
    loc.segment < |d.ents| && loc.length == RecLen(rec) && Found(loc.offset, rec) in EntScan(d, loc.segment).found
  }

  lemma PhaseOneLocates(n: Node, d: Store, k: Key)
    requires Inv(n) && Durable(n) && CrashImage(n, d)
    requires k in EntsUpTo(d, |d.ents|).entryIndex
    ensures k in n.intent && FoundAt(d, EntsUpTo(d, |d.ents|).entryIndex[k], Rec(k, n.intent[k]))
  {
    hide ScanFrom, EntsUpTo, PlacedFile, SegOk, Image, Indexed, FlushOk, AppendsOk, ReadersOk, BoundedOk, IndexOk,
         FlushLogged, AllLogged, AppendsLogged, Cache.View, Cache.Agrees;
    PhaseOneIndexes(d, |d.ents|, k);
    var loc := EntsUpTo(d, |d.ents|).entryIndex[k];
    if k in d.entryIndex && loc == d.entryIndex[k] {
      assert Located(n.ents, loc, Rec(k, n.intent[k]));
      ImageScan(n.ents[loc.segment], d.ents[loc.segment], n.intent);
      assert Found(loc.offset, Rec(k, n.intent[k])) in EntScan(d, loc.segment).found;
    } else {
      ImageScan(n.ents[loc.segment], d.ents[loc.segment], n.intent);
      var f :| f in EntScan(d, loc.segment).found && f.rec.key == k && loc == LocOf(loc.segment, f);
      assert IsIntended(f.rec, n.intent);
    }
  }

  /** So the recovered file decodes to the submitted record there. */
  lemma LocatedDecodes(d: Store, loc: Loc, rec: Rec)
    requires FoundAt(d, loc, rec)
    ensures Decode(EntsUpTo(d, |d.ents|).ents[loc.segment], loc.offset) == Whole(rec)
  {
    hide ScanFrom, EntsUpTo, Decode;
    EntsFrame(d, |d.ents|);
    SettledEnt(d, loc.segment);
    FoundAreRecords(CutEnt(d, loc.segment), 0);
  }

  // ── Phase 2 from empty checkpoints ────────────────────────────────────────

  ghost predicate WalFound(d: Store, m: nat, k: Key) {
    exists i :: 0 <= i < m && i < |d.wals| && k in KeysOf(WalScan(d, i).found)
  }

  ghost predicate WalPlaced(d: Store, loc: Loc, k: Key) {
    loc.segment < |d.wals| && PlacedAt(loc, loc.segment, WalScan(d, loc.segment).found, k)
  }

  /** What replay has done after `m` segments, starting from an empty WAL index and cache. */
  ghost predicate Replayed(d: Store, m: nat, r: Store, intent: map<Key, Bytes>) {
    && WalIndexIs(d, m, r.walIndex)
    && r.cache.View().Keys == r.walIndex.Keys
    && r.cache.warm == map[] && r.cache.Agrees(intent)
  }

  ghost predicate WalIndexIs(d: Store, m: nat, index: Index) {
    && (forall k :: k in index <==> WalFound(d, m, k) && k !in d.entryIndex)
    && (forall k <- index :: WalPlaced(d, index[k], k))
  }

  /** Replay of segment `m` adds its new keys, and a purge at the cut removes none of them. */
  lemma ReplayIndexes(d: Store, m: nat, before: Index)
    requires m < |d.wals| && WalIndexIs(d, m, before)
    ensures var index := IndexAbsent(before, d.entryIndex.Keys, m, WalScan(d, m).found);
            && WalIndexIs(d, m + 1, index)
            && Purge(index, m, WalCut(d, m)) == index
            && index.Keys == before.Keys + (KeysOf(WalScan(d, m).found) - d.entryIndex.Keys)
  {
    hide ScanFrom, WalCut, IndexAbsent, KeysOf;
    var found := WalScan(d, m).found;
    IndexAbsentIs(before, d.entryIndex.Keys, m, found);
    var index := IndexAbsent(before, d.entryIndex.Keys, m, found);
    forall k ensures WalFound(d, m + 1, k) <==> WalFound(d, m, k) || k in KeysOf(found) {
    }
    forall k | k in index
      ensures WalPlaced(d, index[k], k)
      ensures index[k].segment == m ==> index[k].offset < WalCut(d, m)
    {
      if k !in before {
        assert PlacedAt(index[k], m, found, k);
      }
      if index[k].segment == m {
        WalPlacedBelowCut(d, m, index[k], k);
      }
    }
  }

  lemma ReplayStep(d: Store, m: nat, r: Store, intent: map<Key, Bytes>)
    requires m < |d.wals| && |r.wals| == |d.wals| && Replayed(d, m, r, intent)
    requires WalScan(r, m) == WalScan(d, m) && WalCut(r, m) == WalCut(d, m) && r.entryIndex == d.entryIndex
    requires Genuine(WalScan(d, m).found, intent)
    ensures Replayed(d, m + 1, WalStep(r, m), intent)
  {
    hide ScanFrom, WalCut, IndexAbsent, ReplayCache, Cache.View, Cache.Agrees, KeysOf, WalIndexIs, Genuine, Purge;
    ReplayIndexes(d, m, r.walIndex);
    ReplayCacheIs(r.cache, d.entryIndex.Keys, WalScan(d, m).found, intent);
  }

  lemma WalPlacedBelowCut(d: Store, i: nat, loc: Loc, k: Key)
    requires i < |d.wals| && WalPlaced(d, loc, k) && loc.segment == i
    ensures loc.offset < WalCut(d, i)
  {
    hide ScanFrom;
    CutCovers(d.wals[i], Checkpoint(d, i));
  }

  lemma {:induction false} PhaseTwo(d: Store, m: nat, intent: map<Key, Bytes>)
    requires m <= |d.wals| && d.walIndex == map[] && d.cache == Cache(map[], map[])
    requires forall i :: 0 <= i < |d.wals| ==> Genuine(WalScan(d, i).found, intent)
    ensures Replayed(d, m, WalsUpTo(d, m), intent)
  {
    hide ScanFrom, WalStep, Replayed, Genuine;
    if m == 0 {
      assert Replayed(d, 0, d, intent) by { ReplayStart(d, intent); }
    } else {
      PhaseTwo(d, m - 1, intent);
      WalsFrame(d, m - 1);
      ReplayStep(d, m - 1, WalsUpTo(d, m - 1), intent);
    }
  }

  lemma ReplayStart(d: Store, intent: map<Key, Bytes>)
    requires d.walIndex == map[] && d.cache == Cache(map[], map[])
    ensures Replayed(d, 0, d, intent)
  {
  }

  // ── The recovered node ────────────────────────────────────────────────────

  /** `k` reads back as `payload` after recovery: from its EntrySegment, or from the cache, where
      the flush loop will pick it up. */
  ghost predicate Survives(r: Store, k: Key, payload: Bytes) {
    if k in r.entryIndex then
      r.entryIndex[k].segment < |r.ents|
      && Decode(r.ents[r.entryIndex[k].segment], r.entryIndex[k].offset) == Whole(Rec(k, payload))
    else
      k in r.cache.View() && r.cache.View()[k] == payload
  }

  lemma ImageScans(n: Node, d: Store)
    requires Inv(n) && CrashImage(n, d)
    ensures forall i :: 0 <= i < |d.wals| ==> Genuine(WalScan(d, i).found, n.intent)
    ensures forall k :: InLog(n.wals, k) ==> WalFound(d, |d.wals|, k)
  {
    hide ScanFrom, Image, PlacedFile, SegOk, FlushOk, AppendsOk, ReadersOk, BoundedOk, IndexOk, Cache.View,
         Cache.Agrees, KeysIn;
    forall i | 0 <= i < |d.wals|
      ensures Genuine(WalScan(d, i).found, n.intent) && PlacedFile(0, n.wals[i].batches) <= WalScan(d, i).found
    {
      assert SegOk(n.wals[i], n.intent);
      ImageScan(n.wals[i], d.wals[i], n.intent);
    }
    forall k | InLog(n.wals, k) ensures WalFound(d, |d.wals|, k) {
      var i :| 0 <= i < |n.wals| && InBatches(n.wals[i].batches, k);
      var j :| 0 <= j < |n.wals[i].batches| && k in KeysIn(n.wals[i].batches[j]);
      LoggedIsPlaced(0, n.wals[i].batches, j, k);
      PrefixKeys(PlacedFile(0, n.wals[i].batches), WalScan(d, i).found);
    }
  }

  lemma PrefixKeys(a: seq<Found>, b: seq<Found>)
    requires a <= b
    ensures KeysOf(a) <= KeysOf(b)
  {
    forall k | k in KeysOf(a) ensures k in KeysOf(b) {
      var f :| f in a && f.rec.key == k;
      assert f in b;
    }
  }

  /** Recovery of a crash image: every key that was readable survives with its submitted payload. */
  lemma RecoveryRestores(n: Node, d: Store)
    requires Inv(n) && Durable(n) && CrashImage(n, d)
    ensures var r := Recover(d);
            && (forall k <- Readable(n) :: k in n.intent && Survives(r, k, n.intent[k]))
            && r.cache.Agrees(n.intent) && r.cache.warm == map[]
            && r.cache.View().Keys == r.walIndex.Keys
  {
    hide Inv, ScanFrom, EntsUpTo, WalsUpTo, CrashImage, FlushLogged, AppendsLogged, IndexLocated, Decode, InLog,
         Genuine;
    var mid := EntsUpTo(d, |d.ents|);
    var r := Recover(d);
    EntsFrame(d, |d.ents|);
    assert CrashImage(n, d) ==> d.walIndex == map[] && d.cache == Cache(map[], map[]) && d.checkpoints == map[] by {
      ImageIsClean(n, d);
    }
    ImageScans(n, d);
    forall i | 0 <= i < |mid.wals| ensures WalScan(mid, i) == WalScan(d, i) {}
    PhaseTwo(mid, |mid.wals|, n.intent);
    WalsFrame(mid, |mid.wals|);
    forall k | k in Readable(n) ensures k in n.intent && Survives(r, k, n.intent[k]) {
      assert InLog(n.wals, k);
      assert WalFound(d, |d.wals|, k);
      assert WalFound(mid, |mid.wals|, k);
      if k in mid.entryIndex {
        PhaseOneLocates(n, d, k);
        LocatedDecodes(d, mid.entryIndex[k], Rec(k, n.intent[k]));
      } else {
        assert k in r.walIndex;
      }
    }
  }

  lemma ImageIsClean(n: Node, d: Store)
    requires CrashImage(n, d)
    ensures d.walIndex == map[] && d.cache == Cache(map[], map[]) && d.checkpoints == map[]
  {
  }

  /** Crash safety, over every run from an empty directory and every crash. It says what recovery leaves
      when it ends, which it does unless a scan meets zeros in a torn tail (`Terminates`). */
  lemma CrashSafety(steps: seq<Step>, d: Store)
    requires Legal(FRESH, steps) && CrashImage(RunFrom(FRESH, steps), d)
    ensures var n := RunFrom(FRESH, steps);
            forall k <- n.acked :: k in n.intent && Survives(Recover(d), k, n.intent[k])
  {
    hide Enabled, Next, ScanFrom, Survives, CrashImage, Durable, IntentOk, SegsOk, FlushOk, AppendsOk, ReadersOk,
         BoundedOk, IndexOk, Cache.Agrees;
    FreshIsGood();
    RunKeeps(FRESH, steps);
    RunDurable(FRESH, steps);
    RecoveryRestores(RunFrom(FRESH, steps), d);
  }
}
