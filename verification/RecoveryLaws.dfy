/** Laws of crash recovery: tear repair, checkpoints, and running it twice. */
module RecoveryLaws {
  import opened Words
  import opened Records
  import opened Scanning
  import opened BatchFiles
  import opened EntryCache
  import opened Recovery

  // ── Tear repair ───────────────────────────────────────────────────────────

  lemma DecodeInPrefix(data: Bytes, pos: nat, cut: nat, r: Rec)
    requires cut <= |data| && pos + RecLen(r) <= cut
    ensures Decode(data[..cut], pos) == Whole(r) <==> Decode(data, pos) == Whole(r)
  {
    hide Decode, Encode;
    DecodeInvertsEncode(data, pos, r);
    DecodeInvertsEncode(data[..cut], pos, r);
    assert data[..cut][pos..pos + RecLen(r)] == data[pos..pos + RecLen(r)];
  }

  /** A location that the scan, or an earlier scan below `start`, saw as the start of a whole
      record of key `k`. */
  ghost predicate Boundary(data: Bytes, start: nat, loc: Loc, k: Key) {
    && Decode(data, loc.offset).Whole?
    && Decode(data, loc.offset).rec.key == k
    && (Found(loc.offset, Decode(data, loc.offset).rec) in ScanFrom(data, start).found
        || loc.offset + RecLen(Decode(data, loc.offset).rec) <= start)
  }

  /** A whole record of key `k` stands at the location, inside the file. */
  ghost predicate DecodesTo(data: Bytes, loc: Loc, k: Key) {
    Decode(data, loc.offset).Whole? && Decode(data, loc.offset).rec.key == k
  }

  /** A repaired tear: the kept prefix holds exactly the records before it, exactly the index
      locations of that segment at or past the cut are gone, and every surviving location that
      was a record boundary still decodes to a whole record with its key. */
  ghost predicate Repaired(data: Bytes, start: nat, segment: nat, index: Index, skip: set<Key>,
                           kept: Bytes, purged: Index)
  {
    var found := ScanFrom(data, start).found;
    var cut := Cut(start, found);
    && kept <= data && |kept| == cut
    && ScanFrom(kept, start) == Scan(found, Clean)
    && (forall k <- purged :: purged[k].segment == segment ==> purged[k].offset < cut)
    && (forall k <- index :: k !in purged <==> index[k].segment == segment && index[k].offset >= cut)
    && (forall f <- found :: f.rec.key in skip || f.rec.key in index || f.rec.key in purged)
    && (forall k <- purged ::
          (purged[k].segment == segment && (k in index ==> Boundary(data, start, index[k], k)))
          ==> DecodesTo(kept, purged[k], k))
  }

  lemma TearRepair(data: Bytes, start: nat, segment: nat, index: Index, skip: set<Key>)
    requires ScanFrom(data, start).ending == TornTail
    ensures var s := ScanFrom(data, start);
            var cut := Cut(start, s.found);
            && cut <= |data|
            && Repaired(data, start, segment, index, skip,
                        data[..cut], Purge(IndexAbsent(index, skip, segment, s.found), segment, cut))
  {
    hide Decode, ScanFrom, IndexAbsent, Encode;
    var s := ScanFrom(data, start);
    var cut := Cut(start, s.found);
    TornInside(data, start);
    CutCovers(data, start);
    FoundAreRecords(data, start);
    ScanOfCutFile(data, start);
    IndexAbsentIs(index, skip, segment, s.found);
    var indexed := IndexAbsent(index, skip, segment, s.found);
    var purged := Purge(indexed, segment, cut);
    forall f | f in s.found ensures f.rec.key in skip || f.rec.key in index || f.rec.key in purged {
      if f.rec.key !in skip && f.rec.key !in index {
        assert f.rec.key in KeysOf(s.found);
        assert PlacedAt(indexed[f.rec.key], segment, s.found, f.rec.key);
      }
    }
    forall k | k in purged && purged[k].segment == segment && (k in index ==> Boundary(data, start, index[k], k))
      ensures DecodesTo(data[..cut], purged[k], k)
    {
      if k !in index {
        assert PlacedAt(indexed[k], segment, s.found, k);
        var f :| f in s.found && f.rec.key == k && indexed[k] == LocOf(segment, f);
        DecodeInPrefix(data, f.pos, cut, f.rec);
      } else {
        var rec := Decode(data, index[k].offset).rec;
        if Found(index[k].offset, rec) in s.found {
          assert EndOf(Found(index[k].offset, rec)) <= cut;
        }
        DecodeInPrefix(data, index[k].offset, cut, rec);
      }
    }
  }

  lemma EntTearRepair(d: Store, i: nat)
    requires i < |d.ents| && EntScan(d, i).ending == TornTail
    ensures Repaired(d.ents[i], 0, i, d.entryIndex, {}, EntStep(d, i).ents[i], EntStep(d, i).entryIndex)
  {
    hide Repaired;
    TearRepair(d.ents[i], 0, i, d.entryIndex, {});
  }

  lemma WalTearRepair(d: Store, i: nat)
    requires i < |d.wals| && WalScan(d, i).ending == TornTail
    ensures Repaired(d.wals[i], Checkpoint(d, i), i, d.walIndex, d.entryIndex.Keys,
                     WalStep(d, i).wals[i], WalStep(d, i).walIndex)
  {
    hide Repaired;
    TearRepair(d.wals[i], Checkpoint(d, i), i, d.walIndex, d.entryIndex.Keys);
  }

  // ── Checkpoints ───────────────────────────────────────────────────────────

  /** The scan from 0 of any file with these first `checkpoint` bytes passes through `checkpoint`. */
  ghost predicate OnPath(data: Bytes, checkpoint: nat) {
    checkpoint <= |data| && Cut(0, ScanFrom(data[..checkpoint], 0).found) == checkpoint
  }

  /** A checkpoint stays on the path through every later state of the file that keeps its bytes:
      appended batches, failed writes past it, a cut at or past it. */
  lemma CheckpointSurvives(data: Bytes, later: Bytes, checkpoint: nat)
    requires OnPath(data, checkpoint) && checkpoint <= |later| && later[..checkpoint] == data[..checkpoint]
    ensures OnPath(later, checkpoint)
    ensures ScanFrom(later, 0)
         == Prepend(ScanFrom(data[..checkpoint], 0).found, ScanFrom(later, checkpoint))
  {
    hide ScanFrom, Prepend;
    assert later == data[..checkpoint] + later[checkpoint..];
    ScanOfGrownFile(data[..checkpoint], later[checkpoint..], 0);
  }

  /** The checkpoint a replay stores is on the path again, of the file as the replay leaves it. */
  lemma ReplayStoresOnPath(data: Bytes, checkpoint: nat)
    requires OnPath(data, checkpoint)
    ensures var cut := Cut(checkpoint, ScanFrom(data, checkpoint).found);
            OnPath(data, cut) && OnPath(data[..cut], cut)
  {
    hide ScanFrom;
    var done, rest := ScanFrom(data[..checkpoint], 0).found, ScanFrom(data, checkpoint);
    CheckpointSurvives(data, data, checkpoint);
    CutCovers(data, checkpoint);
    var cut := Cut(checkpoint, rest.found);
    assert Cut(0, done + rest.found) == cut;
    ScanOfCutFile(data, 0);
    assert data[..cut][..cut] == data[..cut];
  }

  lemma {:induction false} IndexAbsentConcat(index: Index, skip: set<Key>, segment: nat, a: seq<Found>, b: seq<Found>)
    ensures IndexAbsent(index, skip, segment, a + b)
         == IndexAbsent(IndexAbsent(index, skip, segment, a), skip, segment, b)
    decreases b
  {
    if b == [] {
      assert a + b == a;
    } else {
      var last := |b| - 1;
      IndexAbsentConcat(index, skip, segment, a, b[..last]);
      assert (a + b)[..|a| + last] == a + b[..last] && (a + b)[|a| + last] == b[last];
    }
  }

  lemma {:induction false} IndexAbsentKnown(index: Index, skip: set<Key>, segment: nat, found: seq<Found>)
    requires KeysOf(found) <= skip + index.Keys
    ensures IndexAbsent(index, skip, segment, found) == index
    decreases found
  {
    if found != [] {
      var last := |found| - 1;
      assert found == found[..last] + [found[last]];
      KeysOfConcat(found[..last], [found[last]]);
      assert found[last].rec.key in KeysOf([found[last]]);
      IndexAbsentKnown(index, skip, segment, found[..last]);
    }
  }

  /** Replay from a checkpoint on the path, with its tear, cut and purge, leaves the same files, indexes
      and checkpoints as replay from 0, once every record before the checkpoint is indexed. Only the
      cache differs: it gets the keys behind the checkpoint alone. */
  lemma CheckpointedReplayIsFullReplay(d: Store, i: nat)
    requires i < |d.wals| && OnPath(d.wals[i], Checkpoint(d, i))
    requires KeysOf(ScanFrom(d.wals[i][..Checkpoint(d, i)], 0).found) <= d.entryIndex.Keys + d.walIndex.Keys
    ensures var quick, full := WalStep(d, i), WalStep(d.(checkpoints := d.checkpoints - {i}), i);
            quick == full.(cache := quick.cache)
  {
    hide ScanFrom, IndexAbsent, ReplayCache, Purge, KeysOf;
    var data, at := d.wals[i], Checkpoint(d, i);
    var done, rest := ScanFrom(data[..at], 0).found, ScanFrom(data, at);
    CheckpointSurvives(data, data, at);
    assert Cut(0, done + rest.found) == Cut(at, rest.found);
    IndexAbsentConcat(d.walIndex, d.entryIndex.Keys, i, done, rest.found);
    IndexAbsentKnown(d.walIndex, d.entryIndex.Keys, i, done);
    var full := d.(checkpoints := d.checkpoints - {i});
    assert WalScan(full, i) == Prepend(done, rest) && WalScan(d, i) == rest;
    assert WalCut(full, i) == WalCut(d, i);
    assert full.checkpoints[i := WalCut(d, i)] == d.checkpoints[i := WalCut(d, i)];
  }

  lemma KeysOfConcat(a: seq<Found>, b: seq<Found>)
    ensures KeysOf(a + b) == KeysOf(a) + KeysOf(b)
  {
    forall k | k in KeysOf(a) + KeysOf(b) ensures k in KeysOf(a + b) {
      var f :| (f in a || f in b) && f.rec.key == k;
      assert f in a + b;
    }
  }

  // ── Phase 1 as a whole ────────────────────────────────────────────────────

  /** The file of segment `i` after its recovery. */
  function CutEnt(d: Store, i: nat): Bytes
    requires i < |d.ents|
  {
    if EntScan(d, i).ending == TornTail then d.ents[i][..EntCut(d, i)] else d.ents[i]
  }

  lemma {:induction false} EntsFrame(d: Store, n: nat)
    requires n <= |d.ents|
    ensures var r := EntsUpTo(d, n);
            && r == d.(ents := r.ents, entryIndex := r.entryIndex)
            && (forall i :: 0 <= i < n ==> r.ents[i] == CutEnt(d, i))
            && (forall i :: n <= i < |d.ents| ==> r.ents[i] == d.ents[i])
  {
    hide ScanFrom, IndexAbsent, Purge;
    if n > 0 {
      EntsFrame(d, n - 1);
    }
  }

  ghost predicate Scanned(d: Store, i: nat, k: Key) {
    i < |d.ents| && k in KeysOf(EntScan(d, i).found)
  }

  /** A location past the tear of its segment. */
  ghost predicate InTail(d: Store, loc: Loc) {
    && loc.segment < |d.ents|
    && EntScan(d, loc.segment).ending == TornTail
    && loc.offset >= EntCut(d, loc.segment)
  }

  ghost predicate Purged(d: Store, n: nat, k: Key) {
    k in d.entryIndex && InTail(d, d.entryIndex[k]) && d.entryIndex[k].segment < n
  }

  ghost predicate ScannedIn(d: Store, from: nat, to: nat, k: Key) {
    exists i :: from <= i < to && Scanned(d, i, k)
  }

  /** Whether phase 1 leaves `k` indexed after `n` segments. */
  ghost predicate Indexed(d: Store, n: nat, k: Key) {
    if Purged(d, n, k) then ScannedIn(d, d.entryIndex[k].segment + 1, n, k)
    else k in d.entryIndex || ScannedIn(d, 0, n, k)
  }

  ghost predicate FromScan(d: Store, n: nat, k: Key, loc: Loc) {
    loc.segment < n && loc.segment < |d.ents| && PlacedAt(loc, loc.segment, EntScan(d, loc.segment).found, k)
  }

  /** What is known of key `k` in the index after `n` segments. */
  ghost predicate IndexFacts(d: Store, n: nat, k: Key, index: Index) {
    && (k in index <==> Indexed(d, n, k))
    && (k in index ==> if k in d.entryIndex && !Purged(d, n, k) then index[k] == d.entryIndex[k]
                       else FromScan(d, n, k, index[k]))
  }

  lemma IndexStep(d: Store, j: nat, k: Key, before: Index)
    requires j < |d.ents| && IndexFacts(d, j, k, before)
    ensures var indexed := IndexAbsent(before, {}, j, EntScan(d, j).found);
            if EntScan(d, j).ending == TornTail then IndexFacts(d, j + 1, k, Purge(indexed, j, EntCut(d, j)))
            else IndexFacts(d, j + 1, k, indexed)
  {
    hide ScanFrom, IndexAbsent, EntCut;
    IndexAbsentIs(before, {}, j, EntScan(d, j).found);
    assert ScannedIn(d, 0, j + 1, k) <==> ScannedIn(d, 0, j, k) || Scanned(d, j, k);
    if Purged(d, j, k) {
      var from := d.entryIndex[k].segment + 1;
      assert ScannedIn(d, from, j + 1, k) <==> ScannedIn(d, from, j, k) || Scanned(d, j, k);
    }
    PlacedBelowCut(d, j, k);
  }

  /** Phase 1 key by key: purging drops exactly the locations past a tear, and a dropped key
      comes back only if a later segment holds it. */
  lemma {:induction false} PhaseOneIndexes(d: Store, n: nat, k: Key)
    requires n <= |d.ents|
    ensures IndexFacts(d, n, k, EntsUpTo(d, n).entryIndex)
  {
    hide ScanFrom, IndexAbsent, EntCut, IndexFacts, Purge;
    if n == 0 {
      assert IndexFacts(d, 0, k, d.entryIndex) by { NothingScanned(d, k); }
    } else {
      var j := n - 1;
      PhaseOneIndexes(d, j, k);
      EntsFrame(d, j);
      var before := EntsUpTo(d, j);
      EntCutIs(before, j);
      EntCutIs(d, j);
      IndexStep(d, j, k, before.entryIndex);
    }
  }

  lemma NothingScanned(d: Store, k: Key)
    ensures IndexFacts(d, 0, k, d.entryIndex)
  {
  }

  lemma EntCutIs(d: Store, i: nat)
    requires i < |d.ents|
    ensures EntCut(d, i) == Cut(0, EntScan(d, i).found)
  {
  }

  lemma PlacedBelowCut(d: Store, i: nat, k: Key)
    requires i < |d.ents|
    ensures forall loc: Loc :: PlacedAt(loc, i, EntScan(d, i).found, k) ==>
              loc.segment == i && loc.offset < EntCut(d, i)
  {
    hide ScanFrom;
    CutCovers(d.ents[i], 0);
  }

  // ── Running recovery twice ────────────────────────────────────────────────

  /** A key whose location was purged, that an earlier or the same segment holds and no later
      segment does: the next recovery indexes it again. */
  ghost predicate Reborn(d: Store, k: Key) {
    && Purged(d, |d.ents|, k)
    && ScannedIn(d, 0, d.entryIndex[k].segment + 1, k)
    && !ScannedIn(d, d.entryIndex[k].segment + 1, |d.ents|, k)
  }

  lemma SettledEnt(d: Store, i: nat)
    requires i < |d.ents|
    ensures ScanFrom(CutEnt(d, i), 0).found == EntScan(d, i).found
    ensures ScanFrom(CutEnt(d, i), 0).ending != TornTail
  {
    hide ScanFrom;
    EntCutIs(d, i);
    ScanOfCutFile(d.ents[i], 0);
  }

  /** Replaying a segment again from the checkpoint just stored finds nothing. */
  lemma SettledWal(d: Store, i: nat)
    requires i < |d.wals|
    ensures var s := WalScan(WalStep(d, i), i);
            && s.found == [] && s.ending != TornTail
            && Checkpoint(WalStep(d, i), i) == WalCut(d, i)
  {
    hide ScanFrom, IndexAbsent, ReplayCache, Purge;
    var data, start := d.wals[i], Checkpoint(d, i);
    var s, cut := ScanFrom(data, start), WalCut(d, i);
    if s.ending == TornTail {
      ScanPastEnd(data[..cut], cut);
    } else {
      ScanOfGrownFile(data, [], start);
      assert data + [] == data;
      assert s.found == s.found + ScanFrom(data, cut).found;
    }
  }

  lemma ScanPastEnd(data: Bytes, pos: nat)
    requires |data| <= pos
    ensures ScanFrom(data, pos) == Scan([], Clean)
  {
  }

  /** A WAL segment with nothing left to replay. */
  ghost predicate WalSettled(d: Store, i: nat) {
    i < |d.wals| && i in d.checkpoints && WalScan(d, i).found == [] && WalScan(d, i).ending != TornTail
  }

  lemma WalStepFrame(d: Store, i: nat)
    requires i < |d.wals|
    ensures var r := WalStep(d, i);
            && r.ents == d.ents && r.entryIndex == d.entryIndex
            && WalSettled(r, i)
            && forall j :: 0 <= j < |d.wals| && j != i ==>
                 r.wals[j] == d.wals[j] && (j in r.checkpoints <==> j in d.checkpoints)
                 && Checkpoint(r, j) == Checkpoint(d, j)
  {
    hide ScanFrom, IndexAbsent, ReplayCache, Purge;
    SettledWal(d, i);
  }

  lemma {:induction false} WalsFrame(d: Store, n: nat)
    requires n <= |d.wals|
    ensures var r := WalsUpTo(d, n);
            && r.ents == d.ents && r.entryIndex == d.entryIndex
            && (forall i :: n <= i < |d.wals| ==> r.wals[i] == d.wals[i] && Checkpoint(r, i) == Checkpoint(d, i))
            && (forall i :: 0 <= i < n ==> WalSettled(r, i))
  {
    hide ScanFrom, WalStep;
    if n > 0 {
      WalsFrame(d, n - 1);
      var before := WalsUpTo(d, n - 1);
      WalStepFrame(before, n - 1);
      forall i | 0 <= i < n - 1 ensures WalSettled(WalsUpTo(d, n), i) {
        assert WalSettled(before, i);
      }
    }
  }

  /** A replay of settled segments changes nothing. */
  lemma {:induction false} SettledReplay(d: Store, n: nat)
    requires n <= |d.wals|
    requires forall i :: 0 <= i < n ==> WalSettled(d, i)
    ensures WalsUpTo(d, n) == d
  {
    hide ScanFrom, Purge;
    if n > 0 {
      SettledReplay(d, n - 1);
      assert WalSettled(d, n - 1);
      assert d.checkpoints[n - 1 := WalCut(d, n - 1)] == d.checkpoints;
    }
  }

  /** Recovery is idempotent on both indexes, the files, the checkpoints and the cache, except
      that `entry_index` changes exactly when some key is reborn. */
  lemma RecoverTwice(d: Store)
    ensures var once := Recover(d);
            var twice := Recover(once);
            && twice == once.(entryIndex := twice.entryIndex)
            && (twice.entryIndex == once.entryIndex <==> forall k :: !Reborn(d, k))
  {
    hide ScanFrom, WalsUpTo, EntsUpTo, IndexFacts;
    var n := |d.ents|;
    var mid := EntsUpTo(d, n);
    var once := Recover(d);
    EntsFrame(d, n);
    WalsFrame(mid, |mid.wals|);
    SecondPhaseOne(d, once);
    var again := EntsUpTo(once, n);
    forall i | 0 <= i < |again.wals| ensures WalSettled(again, i) {
      assert WalSettled(once, i);
    }
    SettledReplay(again, |again.wals|);
  }

  /** The files a first phase 1 left, and the index it built. */
  ghost predicate PhaseOneDone(d: Store, once: Store) {
    && |once.ents| == |d.ents|
    && (forall i :: 0 <= i < |d.ents| ==> once.ents[i] == CutEnt(d, i))
    && once.entryIndex == EntsUpTo(d, |d.ents|).entryIndex
  }

  lemma SameScans(d: Store, once: Store)
    requires PhaseOneDone(d, once)
    ensures forall i :: 0 <= i < |d.ents| ==>
              EntScan(once, i).found == EntScan(d, i).found && EntScan(once, i).ending != TornTail
  {
    hide ScanFrom;
    forall i | 0 <= i < |d.ents|
      ensures EntScan(once, i).found == EntScan(d, i).found && EntScan(once, i).ending != TornTail
    {
      SettledEnt(d, i);
    }
  }

  lemma SecondPhaseOneKey(d: Store, once: Store, k: Key)
    requires PhaseOneDone(d, once)
    ensures var again := EntsUpTo(once, |d.ents|);
            && ((k in again.entryIndex && k !in once.entryIndex) <==> Reborn(d, k))
            && (k in once.entryIndex ==> k in again.entryIndex && again.entryIndex[k] == once.entryIndex[k])
  {
    hide ScanFrom, EntsUpTo, KeysOf;
    var n := |d.ents|;
    SameScans(d, once);
    PhaseOneIndexes(d, n, k);
    PhaseOneIndexes(once, n, k);
    assert !Purged(once, n, k);
    assert forall i :: 0 <= i < n ==> (Scanned(once, i, k) <==> Scanned(d, i, k));
    assert ScannedIn(once, 0, n, k) <==> ScannedIn(d, 0, n, k);
    if Purged(d, n, k) {
      var from := d.entryIndex[k].segment + 1;
      assert ScannedIn(d, 0, n, k) <==> ScannedIn(d, 0, from, k) || ScannedIn(d, from, n, k);
    }
  }

  lemma SecondPhaseOne(d: Store, once: Store)
    requires PhaseOneDone(d, once)
    ensures var again := EntsUpTo(once, |d.ents|);
            && again == once.(entryIndex := again.entryIndex)
            && (again.entryIndex == once.entryIndex <==> forall k :: !Reborn(d, k))
  {
    hide ScanFrom, EntsUpTo, Reborn;
    var again := EntsUpTo(once, |d.ents|);
    EntsFrame(once, |d.ents|);
    SameScans(d, once);
    assert again.ents == once.ents;
    forall k
      ensures (k in again.entryIndex && k !in once.entryIndex) <==> Reborn(d, k)
      ensures k in once.entryIndex ==> k in again.entryIndex && again.entryIndex[k] == once.entryIndex[k]
    {
      SecondPhaseOneKey(d, once, k);
    }
  }

  /** A store that two recoveries leave differently: the index points into a torn segment and an earlier
      segment holds the key. The first recovery drops the key, the second indexes it again. */
  lemma PurgedKeyComesBack(r: Rec)
    requires Writable(r)
    ensures var d := Store([Encode(r), [255, 255, 255, 255]], [], map[r.key := Loc(1, 0, RecLen(r))], map[], map[],
                           Cache(map[], map[]));
            && Reborn(d, r.key)
            && Recover(Recover(d)).entryIndex != Recover(d).entryIndex
  {
    hide Encode, Recover, ScanFrom;
    var d := Store([Encode(r), [255, 255, 255, 255]], [], map[r.key := Loc(1, 0, RecLen(r))], map[], map[],
                   Cache(map[], map[]));
    EmitAt(d.ents[0], 0, r);
    assert ScanFrom(d.ents[0], |d.ents[0]|) == Scan([], Clean) by { NothingLeft(d.ents[0]); }
    assert EntScan(d, 0).found == [Found(0, r)];
    TooLongIsTorn(d.ents[1], 0);
    assert Scanned(d, 0, r.key) && ScannedIn(d, 0, 2, r.key);
    RecoverTwice(d);
  }
}
