/** Writing EntrySegment files and choosing their ids (storage/entry_segment.rs, `max_id` of fjall.rs). */
module EntrySegments {
  import opened Words
  import opened Records
  import opened BatchFiles
  import opened Protocol
  import Journal

  /** What `write_at` reports. */
  datatype WriteResult = WriteFailed | Wrote(count: nat)

  /** Where a batch that starts at `pos` was written, as returned to the flush loop. */
  ghost predicate LocationsOf(pos: nat, entries: seq<Rec>, locations: seq<(nat, u32)>) {
    && |locations| == |entries|
    && forall i :: 0 <= i < |entries| ==>
         locations[i] == (Placed(pos, entries)[i].pos, RecLen(entries[i]) % 0x1_0000_0000)
  }

  lemma LocationsAppend(pos: nat, entries: seq<Rec>, locations: seq<(nat, u32)>, r: Rec)
    requires LocationsOf(pos, entries, locations)
    ensures LocationsOf(pos, entries + [r],
                        locations + [(pos + |EncodeAll(entries)|, RecLen(r) % 0x1_0000_0000)])
  {
    hide Placed, EncodeAll;
    Journal.PlacedAppend(pos, entries, r);
  }

  class EntrySegmentWriter {
    var file: Bytes
    var fileOffset: nat

    ghost predicate Valid()
      reads this
    {
      fileOffset % ALIGN == 0 && fileOffset <= |file|
    }

    constructor ()
      ensures Valid() && file == [] && fileOffset == 0
    {
      file, fileOffset := [], 0;
    }

    /** Appends one padded batch. `left` is what stands past the offset after a write that failed or was
        short; the offset then stays, so a later batch starts at the same place. */
    method WriteBatch(entries: seq<Rec>, io: WriteResult, left: Bytes) returns (r: Option<seq<(nat, u32)>>)
      requires Valid()
      modifies this
      ensures Valid()
      ensures r.Some? <==> entries == [] || (io.Wrote? && io.count >= |BatchBytes(entries)|)
      ensures r.None? ==> fileOffset == old(fileOffset) && file == old(file[..fileOffset]) + left
      ensures entries == [] ==> file == old(file) && fileOffset == old(fileOffset)
      ensures r.Some? ==> LocationsOf(old(fileOffset), entries, r.value)
      ensures r.Some? && entries != [] ==> file[..fileOffset] == old(file[..fileOffset]) + BatchBytes(entries)
      ensures r.Some? && BatchWritable(entries) ==>
                forall i :: 0 <= i < |entries| ==> Decode(file, r.value[i].0) == Whole(entries[i])
    {
      hide Decode, Encode, EncodeAll, RoundUp, Placed;
      if entries == [] {
        return Some([]);
      }
      var pos := fileOffset;
      var buf := new AlignedBuffer();
      var perEntry: seq<(nat, u32)> := [];
      EncodeNone();
      for i := 0 to |entries|
        invariant fresh(buf) && buf.inner == EncodeAll(entries[..i])
        invariant LocationsOf(pos, entries[..i], perEntry)
        invariant file == old(file) && fileOffset == old(fileOffset)
      {
        LocationsAppend(pos, entries[..i], perEntry, entries[i]);
        EncodeAllAppend(entries[..i], entries[i]);
        assert entries[..i + 1] == entries[..i] + [entries[i]];
        var off, len := buf.Push(entries[i].key.ledger, entries[i].key.entry, entries[i].payload);
        perEntry := perEntry + [(pos + off, len)];
      }
      assert entries[..|entries|] == entries;
      var padded := buf.PaddedAligned();
      if io.WriteFailed? || io.count < |padded| {
        file := file[..pos] + left;
        return None;
      }
      WriteAtPrefix(file, pos, padded);
      AlignedSum(pos, |padded|);
      file := WriteAt(file, pos, padded);
      fileOffset := pos + |padded|;
      if BatchWritable(entries) {
        assert file[pos..pos + |EncodeAll(entries)|] == EncodeAll(entries) by {
          WrittenRecords(file, old(file[..fileOffset]), entries);
        }
        forall i | 0 <= i < |entries| ensures Decode(file, perEntry[i].0) == Whole(entries[i]) {
          PlacedDecode(file, pos, entries, i);
        }
      }
      return Some(perEntry);
    }
  }

  lemma EncodeNone()
    ensures EncodeAll([]) == [] && LocationsOf(0, [], [])
  {
  }

  lemma WrittenRecords(file: Bytes, before: Bytes, entries: seq<Rec>)
    requires before + BatchBytes(entries) <= file
    ensures |before| + |EncodeAll(entries)| <= |file|
    ensures file[|before|..|before| + |EncodeAll(entries)|] == EncodeAll(entries)
  {
    hide EncodeAll, RoundUp;
  }

  /** `scan_next_entry_seg_id`: one past the highest id among the files. */
  method ScanNextId(files: seq<nat>) returns (max: nat)
    ensures forall i :: 0 <= i < |files| ==> files[i] < max
    ensures max == 0 || max - 1 in files
  {
    max := 0;
    for i := 0 to |files|
      invariant forall j :: 0 <= j < i ==> files[j] < max
      invariant max == 0 || max - 1 in files
    {
      if max < files[i] + 1 {
        max := files[i] + 1;
      }
    }
  }

  /** `max_id` of the registry. */
  method MaxId(keys: seq<nat>) returns (max: Option<nat>)
    ensures max.None? <==> keys == []
    ensures max.Some? ==> max.value in keys && forall i :: 0 <= i < |keys| ==> keys[i] <= max.value
  {
    max := None;
    for i := 0 to |keys|
      invariant max.None? <==> i == 0
      invariant max.Some? ==> max.value in keys && forall j :: 0 <= j < i ==> keys[j] <= max.value
    {
      if max.None? || max.value < keys[i] {
        max := Some(keys[i]);
      }
    }
  }

  /** `next_entry_seg_id`: the least id above every segment that has a file or was ever registered. */
  method NextId(files: seq<nat>, registered: seq<nat>) returns (next: nat)
    ensures forall id :: id in files || id in registered ==> id < next
    ensures next == 0 || next - 1 in files || next - 1 in registered
  {
    var disk := ScanNextId(files);
    var reg := MaxId(registered);
    next := if reg.Some? && disk < reg.value + 1 then reg.value + 1 else disk;
  }
}
