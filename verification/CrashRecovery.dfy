/** The recovery procedure itself: scan loops that update the files, indexes and cache in place. */
module CrashRecovery {
  import opened Words
  import opened Records
  import opened Scanning
  import opened EntryCache
  import opened Recovery
  import opened RecoveryLaws

  /** One more scanned record. */
  lemma EmitMore(data: Bytes, start: nat, done: seq<Found>, pos: nat)
    requires ScanFrom(data, start) == Prepend(done, ScanFrom(data, pos)) && TurnAt(data, pos).Emit?
    ensures var rec := TurnAt(data, pos).rec;
            && ScanFrom(data, start) == Prepend(done + [Found(pos, rec)], ScanFrom(data, pos + RecLen(rec)))
            && Cut(start, done + [Found(pos, rec)]) == pos + RecLen(rec)
            && (done + [Found(pos, rec)])[..|done|] == done
  {
    hide TurnAt, Prepend;
    var rec := TurnAt(data, pos).rec;
    PrependTwice(done, [Found(pos, rec)], ScanFrom(data, pos + RecLen(rec)));
  }

  predicate Stale(loc: Loc, segment: nat, minOffset: nat) {
    loc.segment == segment && loc.offset >= minOffset
  }

  method CollectStale(index: Index, segment: nat, minOffset: nat) returns (stale: seq<Key>)
    ensures forall k :: k in stale <==> k in index && Stale(index[k], segment, minOffset)
  {
    stale := [];
    var todo := index.Keys;
    while todo != {}
      invariant todo <= index.Keys
      invariant forall k :: k in stale <==> k in index.Keys - todo && Stale(index[k], segment, minOffset)
      decreases |todo|
    {
      var k :| k in todo;
      if Stale(index[k], segment, minOffset) {
        stale := stale + [k];
      }
      todo := todo - {k};
    }
  }

  /** `delete_locations_in_segment_tail`: collect the stale keys, then remove them. */
  method DeleteTail(index: Index, segment: nat, minOffset: nat) returns (r: Index, deleted: seq<Key>)
    ensures r == Purge(index, segment, minOffset)
    ensures forall k :: k in deleted <==> k in index && k !in r
  {
    deleted := CollectStale(index, segment, minOffset);
    r := index;
    for i := 0 to |deleted|
      invariant forall k :: k in r <==> k in index && k !in deleted[..i]
      invariant forall k <- r :: r[k] == index[k]
    {
      r := r - {deleted[i]};
    }
    assert deleted[..|deleted|] == deleted;
  }

  class CrashRecovery {
    var ents: seq<Bytes>
    var wals: seq<Bytes>
    var entryIndex: Index
    var walIndex: Index
    var checkpoints: map<nat, nat>
    var cache: Cache

    function Value(): Store
      reads this
    {
      Store(ents, wals, entryIndex, walIndex, checkpoints, cache)
    }

    constructor (d: Store)
      ensures Value() == d
    {
      ents, wals, entryIndex, walIndex, checkpoints, cache :=
        d.ents, d.wals, d.entryIndex, d.walIndex, d.checkpoints, d.cache;
    }

    /** Phase 1 on one EntrySegment. `stuck`: the loop stands still here and never ends; what it has done
        by then is as for a file that ends at this place. */
    method RecoverEntrySegment(segment: nat) returns (stuck: bool)
      requires segment < |ents|
      modifies this
      ensures stuck <==> EntScan(old(Value()), segment).ending == Hung
      ensures Value() == EntStep(old(Value()), segment)
    {
      hide Decode, Encode, ScanFrom, Prepend, RoundUp;
      var data := ents[segment];
      var pos, lastValid := 0, 0;
      ghost var done: seq<Found> := [];
      PrependNone(ScanFrom(data, 0));
      while pos + 4 <= |data|
        invariant ScanFrom(data, 0) == Prepend(done, ScanFrom(data, pos)) && lastValid == Cut(0, done)
        invariant Value() == old(Value()).(entryIndex := IndexAbsent(old(entryIndex), {}, segment, done))
        decreases |data| - pos
      {
        ScanStep(data, 0, done, pos);
        var len := FromLe(data[pos..pos + 4]);
        if len == 0 {
          if RoundUp(pos) == pos {
            return true;
          }
          pos := RoundUp(pos);
          continue;
        }
        match Decode(data, pos)
        case Whole(rec) =>
          EmitMore(data, 0, done, pos);
          done := done + [Found(pos, rec)];
          if rec.key !in entryIndex {
            entryIndex := entryIndex[rec.key := Loc(segment, pos, RecLen(rec))];
          }
          lastValid := pos + RecLen(rec);
          pos := lastValid;
        case Torn =>
          EntCutIs(old(Value()), segment);
          ents := ents[segment := data[..lastValid]];
          var purged, _ := DeleteTail(entryIndex, segment, lastValid);
          entryIndex := purged;
          return false;
      }
      ScanStep(data, 0, done, pos);
      stuck := false;
    }

    /** Phase 2 on one WAL segment. A loop that is `stuck` never comes to store its checkpoint. */
    method ReplayWalSegment(segment: nat) returns (stuck: bool)
      requires segment < |wals|
      modifies this
      ensures stuck <==> WalScan(old(Value()), segment).ending == Hung
      ensures var done := WalStep(old(Value()), segment);
              Value() == if stuck then done.(checkpoints := old(checkpoints)) else done
    {
      hide Decode, Encode, ScanFrom, Prepend, RoundUp;
      var data := wals[segment];
      var start := if segment in checkpoints then checkpoints[segment] else 0;
      var pos, lastValid := start, start;
      ghost var done: seq<Found> := [];
      ghost var skip := entryIndex.Keys;
      PrependNone(ScanFrom(data, start));
      while pos + 4 <= |data|
        invariant ScanFrom(data, start) == Prepend(done, ScanFrom(data, pos)) && lastValid == Cut(start, done)
        invariant Value() == old(Value()).(walIndex := IndexAbsent(old(walIndex), skip, segment, done),
                                           cache := ReplayCache(old(cache), skip, done))
        decreases |data| - pos
      {
        ScanStep(data, start, done, pos);
        var len := FromLe(data[pos..pos + 4]);
        if len == 0 {
          if RoundUp(pos) == pos {
            return true;
          }
          pos := RoundUp(pos);
          continue;
        }
        match Decode(data, pos)
        case Whole(rec) =>
          EmitMore(data, start, done, pos);
          done := done + [Found(pos, rec)];
          if rec.key !in entryIndex {
            if rec.key !in walIndex {
              walIndex := walIndex[rec.key := Loc(segment, pos, RecLen(rec))];
            }
            cache := cache.Insert(rec.key, rec.payload);
          }
          lastValid := pos + RecLen(rec);
          pos := lastValid;
        case Torn =>
          WalCutIs(old(Value()), segment);
          wals := wals[segment := data[..lastValid]];
          var purged, _ := DeleteTail(walIndex, segment, lastValid);
          walIndex := purged;
          checkpoints := checkpoints[segment := lastValid];
          return false;
      }
      ScanStep(data, start, done, pos);
      WalCutIs(old(Value()), segment);
      checkpoints := checkpoints[segment := lastValid];
      stuck := false;
    }

    /** Both phases, segments in id order. It ends exactly if no scan hangs, and then leaves the recovered
        store. */
    method Recover() returns (stuck: bool)
      modifies this
      ensures stuck <==> !Terminates(old(Value()))
      ensures !stuck ==> Value() == Recovery.Recover(old(Value()))
    {
      hide ScanFrom, EntStep, WalStep;
      ghost var d := Value();
      for i := 0 to |ents|
        invariant |ents| == |d.ents| && Value() == EntsUpTo(d, i)
        invariant forall j :: 0 <= j < i ==> ScanFrom(d.ents[j], 0).ending != Hung
      {
        EntsFrame(d, i);
        stuck := RecoverEntrySegment(i);
        if stuck {
          return;
        }
      }
      EntsFrame(d, |ents|);
      ghost var mid := Value();
      for i := 0 to |wals|
        invariant |wals| == |mid.wals| && Value() == WalsUpTo(mid, i)
        invariant forall j :: 0 <= j < i ==> ScanFrom(mid.wals[j], Checkpoint(mid, j)).ending != Hung
      {
        WalsFrame(mid, i);
        stuck := ReplayWalSegment(i);
        if stuck {
          return;
        }
      }
      stuck := false;
    }
  }

  lemma WalCutIs(d: Store, i: nat)
    requires i < |d.wals|
    ensures WalCut(d, i) == Cut(Checkpoint(d, i), WalScan(d, i).found)
  {
  }

  /** What one turn of the loop makes of the scan so far. */
  lemma ScanStep(data: Bytes, start: nat, done: seq<Found>, pos: nat)
    requires ScanFrom(data, start) == Prepend(done, ScanFrom(data, pos))
    ensures match TurnAt(data, pos)
            case Halt => ScanFrom(data, start) == Scan(done, Clean)
            case Tear => ScanFrom(data, start) == Scan(done, TornTail)
            case Skip(next) =>
              if next == pos then ScanFrom(data, start) == Scan(done, Hung)
              else ScanFrom(data, start) == Prepend(done, ScanFrom(data, next))
            case Emit(_) => true
  {
    hide TurnAt;
  }
}
