/**
 * Two-phase crash recovery as functions over the files, the two indexes, the checkpoints and
 * the cache (recovery/crash_recovery.rs). Phase 1 indexes every EntrySegment; phase 2 replays
 * the WAL into the WAL index and the cache. Segment ids are positions in `ents` and `wals`.
 */
module Recovery {
  import opened Words
  import opened Records
  import opened Scanning
  import opened EntryCache

  datatype Loc = Loc(segment: nat, offset: nat, length: nat)

  type Index = map<Key, Loc>

  datatype Store = Store(
    ents: seq<Bytes>,
    wals: seq<Bytes>,
    entryIndex: Index,
    walIndex: Index,
    checkpoints: map<nat, nat>,
    cache: Cache)

  function KeysOf(found: seq<Found>): (ks: set<Key>) {
    set f <- found :: f.rec.key
  }

  function LocOf(segment: nat, f: Found): Loc {
    Loc(segment, f.pos, RecLen(f.rec))
  }

  /** Inserting each record that is neither in `skip` nor already indexed, in order. */
  function IndexAbsent(index: Index, skip: set<Key>, segment: nat, found: seq<Found>): (r: Index)
    decreases found
  {
    if found == [] then index
    else
      var last := |found| - 1;
      var r := IndexAbsent(index, skip, segment, found[..last]);
      var k := found[last].rec.key;
      if k in skip || k in r then r else r[k := LocOf(segment, found[last])]
  }

  /** `delete_locations_in_segment_tail`. */
  function Purge(index: Index, segment: nat, cut: nat): (r: Index) {
    map k | k in index && !(index[k].segment == segment && index[k].offset >= cut) :: index[k]
  }

  // ── Phase 1 ───────────────────────────────────────────────────────────────

  function EntScan(d: Store, i: nat): Scan
    requires i < |d.ents|
  {
    ScanFrom(d.ents[i], 0)
  }

  function EntCut(d: Store, i: nat): (cut: nat)
    requires i < |d.ents|
    ensures cut <= |d.ents[i]|
  {
    CutCovers(d.ents[i], 0);
    Cut(0, EntScan(d, i).found)
  }

  /** `recover_entry_segment`. */
  function EntStep(d: Store, i: nat): (r: Store)
    requires i < |d.ents|
    ensures |r.ents| == |d.ents|
  {
    var s := EntScan(d, i);
    var index := IndexAbsent(d.entryIndex, {}, i, s.found);
    if s.ending == TornTail then
      d.(ents := d.ents[i := d.ents[i][..EntCut(d, i)]], entryIndex := Purge(index, i, EntCut(d, i)))
    else
      d.(entryIndex := index)
  }

  function EntsUpTo(d: Store, n: nat): (r: Store)
    requires n <= |d.ents|
    ensures |r.ents| == |d.ents|
  {
    if n == 0 then d else EntStep(EntsUpTo(d, n - 1), n - 1)
  }

  // ── Phase 2 ───────────────────────────────────────────────────────────────

  function Checkpoint(d: Store, i: nat): nat {
    if i in d.checkpoints then d.checkpoints[i] else 0
  }

  function WalScan(d: Store, i: nat): Scan
    requires i < |d.wals|
  {
    ScanFrom(d.wals[i], Checkpoint(d, i))
  }

  function WalCut(d: Store, i: nat): (cut: nat)
    requires i < |d.wals|
    ensures WalScan(d, i).ending == TornTail ==> cut <= |d.wals[i]|
  {
    TornInside(d.wals[i], Checkpoint(d, i));
    CutCovers(d.wals[i], Checkpoint(d, i));
    Cut(Checkpoint(d, i), WalScan(d, i).found)
  }

  lemma TornInside(data: Bytes, pos: nat)
    ensures ScanFrom(data, pos).ending == TornTail ==> pos <= |data|
  {
    hide Decode, RoundUp;
  }

  function ReplayCache(cache: Cache, skip: set<Key>, found: seq<Found>): (r: Cache)
    decreases found
  {
    if found == [] then cache
    else
      var last := |found| - 1;
      var r := ReplayCache(cache, skip, found[..last]);
      var rec := found[last].rec;
      if rec.key in skip then r else r.Insert(rec.key, rec.payload)
  }

  /** `replay_wal_segment`. */
  function WalStep(d: Store, i: nat): (r: Store)
    requires i < |d.wals|
    ensures |r.wals| == |d.wals|
  {
    var s := WalScan(d, i);
    var index := IndexAbsent(d.walIndex, d.entryIndex.Keys, i, s.found);
    var after := d.(walIndex := index,
                    cache := ReplayCache(d.cache, d.entryIndex.Keys, s.found),
                    checkpoints := d.checkpoints[i := WalCut(d, i)]);
    if s.ending == TornTail then
      after.(wals := d.wals[i := d.wals[i][..WalCut(d, i)]], walIndex := Purge(index, i, WalCut(d, i)))
    else
      after
  }

  function WalsUpTo(d: Store, n: nat): (r: Store)
    requires n <= |d.wals|
    ensures |r.wals| == |d.wals|
  {
    if n == 0 then d else WalStep(WalsUpTo(d, n - 1), n - 1)
  }

  function Recover(d: Store): (r: Store) {
    var d1 := EntsUpTo(d, |d.ents|);
    WalsUpTo(d1, |d1.wals|)
  }

  /** No scan of the recovery hangs. */
  ghost predicate Terminates(d: Store) {
    && (forall i :: 0 <= i < |d.ents| ==> ScanFrom(d.ents[i], 0).ending != Hung)
    && (forall i :: 0 <= i < |d.wals| ==> ScanFrom(d.wals[i], Checkpoint(d, i)).ending != Hung)
  }

  // ── What the folds compute ────────────────────────────────────────────────

  ghost predicate PlacedAt(loc: Loc, segment: nat, found: seq<Found>, k: Key) {
    exists f <- found :: f.rec.key == k && loc == LocOf(segment, f)
  }

  lemma {:induction false} IndexAbsentIs(index: Index, skip: set<Key>, segment: nat, found: seq<Found>)
    ensures var r := IndexAbsent(index, skip, segment, found);
            && r.Keys == index.Keys + (KeysOf(found) - skip)
            && (forall k <- index :: r[k] == index[k])
            && (forall k <- r :: k !in index ==> PlacedAt(r[k], segment, found, k))
    decreases found
  {
    if found != [] {
      var last := |found| - 1;
      var init, f := found[..last], found[last];
      IndexAbsentIs(index, skip, segment, init);
      assert found == init + [f];
      assert KeysOf(found) == KeysOf(init) + {f.rec.key};
      var r := IndexAbsent(index, skip, segment, found);
      forall k | k in r && k !in index ensures PlacedAt(r[k], segment, found, k) {
        if r[k] == LocOf(segment, f) && k == f.rec.key {
          assert f in found;
        } else {
          assert PlacedAt(r[k], segment, init, k);
          var g :| g in init && g.rec.key == k && r[k] == LocOf(segment, g);
          assert g in found;
        }
      }
    }
  }

  /** Every record carries the one payload its key was submitted with. */
  ghost predicate Genuine(found: seq<Found>, intent: map<Key, Bytes>) {
    forall i :: 0 <= i < |found| ==> IsIntended(found[i].rec, intent)
  }

  predicate IsIntended(r: Rec, intent: map<Key, Bytes>) {
    r.key in intent && intent[r.key] == r.payload
  }

  /** Replay makes every scanned key outside `skip` readable from the cache. */
  lemma {:induction false} ReplayCacheIs(cache: Cache, skip: set<Key>, found: seq<Found>, intent: map<Key, Bytes>)
    requires Genuine(found, intent) && cache.Agrees(intent)
    ensures var r := ReplayCache(cache, skip, found);
            && r.warm == cache.warm
            && r.View().Keys == cache.View().Keys + (KeysOf(found) - skip)
            && r.Agrees(intent)
    decreases found
  {
    hide Cache.View, Cache.Insert, Cache.Agrees;
    if found != [] {
      var last := |found| - 1;
      var init, f := found[..last], found[last];
      ReplayCacheIs(cache, skip, init, intent);
      assert KeysOf(found) == KeysOf(init) + {f.rec.key} by { assert found == init + [f]; }
      ReplayCache(cache, skip, init).InsertIs(f.rec.key, f.rec.payload, intent);
    }
  }
}
