/**
 * Continuing the active WAL file after a crash. The journal thread takes its offset from the file's
 * length (`resume_offset` of storage/lsmc_journal.rs) when the node opens it, before recovery cuts a torn
 * file (bins/foliod/src/journal_server.rs), or after, if the thread is late.
 */
module Resume {
  import opened Words
  import opened Records
  import opened Scanning
  import opened BatchFiles

  /** `resume_offset`: the ALIGN boundary at or below the file's length. */
  function ResumeOffset(len: nat): (n: nat)
    ensures n <= len < n + ALIGN && n % ALIGN == 0
  {
    len / ALIGN * ALIGN
  }

  /** The offset was read from the torn file, or from the file as recovery cut it. */
  predicate IsResume(at: nat, torn: nat, cut: nat) {
    at == ResumeOffset(torn) || at == ResumeOffset(cut)
  }

  // ── What the next batch leaves of the file ────────────────────────────────

  ghost predicate PrefixKept(file: Bytes, end: nat, at: nat, batch: seq<Rec>)
    requires end <= |file|
  {
    var after := WriteAt(file, at, BatchBytes(batch));
    end <= |after| && after[..end] == file[..end]
  }

  /** The first `end` bytes survive every batch that may be written at `at` exactly if they end there. */
  lemma PrefixKeptIff(file: Bytes, end: nat, at: nat)
    requires end <= |file|
    ensures (forall batch :: BatchWritable(batch) ==> PrefixKept(file, end, at, batch)) <==> end <= at
  {
    hide BatchBytes;
    if end > at {
      var batch := Differing(file[at]);
      var after := WriteAt(file, at, BatchBytes(batch));
      assert after[at] == BatchBytes(batch)[0];
      assert file[..end][at] == file[at];
      assert !PrefixKept(file, end, at, batch);
    } else {
      forall batch ensures PrefixKept(file, end, at, batch) {
        assert WriteAt(file, at, BatchBytes(batch))[..end] == file[..end];
      }
    }
  }

  /** Some batch begins with another byte. */
  lemma Differing(b: byte) returns (batch: seq<Rec>)
    ensures BatchWritable(batch) && BatchBytes(batch) != [] && BatchBytes(batch)[0] != b
  {
    var payload: Bytes := if b == 1 then [0, 0] else [0];
    var r := Rec(Key(0, 0), payload);
    batch := [r];
    assert EncodeAll(batch) == Encode(r) + EncodeAll([]);
    assert Encode(r)[0] as nat == |payload|;
    assert BatchBytes(batch)[0] == Encode(r)[0];
  }

  /** Every record that recovery keeps in a file survives every next batch, exactly if the offset is not
      below the cut: an offset from the torn length must have an ALIGN boundary at or behind the last
      record, one from the cut length must be that boundary. */
  lemma RecordsKeptIff(data: Bytes, start: nat, at: nat)
    requires var cut := Cut(start, ScanFrom(data, start).found);
             cut <= |data| && IsResume(at, |data|, cut)
    ensures var found := ScanFrom(data, start).found;
            var cut := Cut(start, found);
            && (forall f <- found :: EndOf(f) <= cut)
            && ((forall f, batch :: f in found && BatchWritable(batch) ==> PrefixKept(data[..cut], EndOf(f), at, batch))
                <==> found == [] || cut <= at)
            && (cut <= at <==> cut % ALIGN == 0 || (at == ResumeOffset(|data|) && RoundUp(cut) <= |data|))
  {
    hide ScanFrom, PrefixKept;
    CutCovers(data, start);
    var found := ScanFrom(data, start).found;
    var cut := Cut(start, found);
    var kept := data[..cut];
    if found != [] {
      if cut <= at {
        forall f, batch | f in found && BatchWritable(batch) ensures PrefixKept(kept, EndOf(f), at, batch) {
          PrefixKeptIff(kept, EndOf(f), at);
        }
      } else {
        PrefixKeptIff(kept, cut, at);
        var batch :| BatchWritable(batch) && !PrefixKept(kept, cut, at, batch);
        assert found[|found| - 1] in found && EndOf(found[|found| - 1]) == cut;
      }
    }
  }

  // ── What the next scan finds ──────────────────────────────────────────────

  lemma SpillIsGapOk(file: Bytes, cut: nat, at: nat, batch: seq<Rec>)
    requires at == RoundUp(cut) && BatchWritable(batch) && batch != [] && Holds(file, at, BatchBytes(batch))
    ensures GapOkAt(file, cut) <==> SpillFits(at - cut, batch[0])
  {
    hide Encode, Padded, Le, Holds;
    var pad := at - cut;
    FileOfOne(batch);
    LengthPrefixAt(file, at, [batch]);
    if 1 <= pad <= 3 {
      assert file[at..][..4 - pad] == file[at..at + 4][..4 - pad];
      LowBytesZero(|batch[0].payload|, 4 - pad);
    }
  }

  lemma FileOfOne(batch: seq<Rec>)
    ensures FileOf([batch]) == BatchBytes(batch)
  {
    hide BatchBytes;
    assert [batch][1..] == [];
    assert FileOf([batch]) == BatchBytes(batch) + FileOf([]);
  }

  /** From the start of a file's last batch the scan finds the batch and ends. */
  lemma ScanLastBatch(file: Bytes, at: nat, batch: seq<Rec>)
    requires at % ALIGN == 0 && BatchWritable(batch) && Holds(file, at, BatchBytes(batch))
    requires at + |BatchBytes(batch)| == |file|
    ensures ScanFrom(file, at) == Scan(Placed(at, batch), Clean)
  {
    hide ScanFrom, Encode, EncodeAll, Padded, Holds, RoundUp, Placed;
    var one := [batch];
    FileOfOne(batch);
    assert one[1..] == [];
    assert PlacedFile(at, one) == Placed(at, batch) + PlacedFile(at + |BatchBytes(batch)|, []);
    SplitFirst(file, at, one);
    ScanInvertsWriteAt(file, at, one);
  }

  /** The file after recovery cut it and the next batch was written behind the cut. */
  lemma ScanBehindCut(data: Bytes, start: nat, at: nat, batch: seq<Rec>)
    requires var cut := Cut(start, ScanFrom(data, start).found); cut <= |data| && cut <= at
    ensures var found := ScanFrom(data, start).found;
            var cut := Cut(start, found);
            var file := WriteAt(data[..cut], at, BatchBytes(batch));
            && |file| == at + |BatchBytes(batch)| && AllZero(file[cut..at])
            && ScanFrom(file, start) == Prepend(found, ScanFrom(file, cut))
  {
    hide ScanFrom, BatchBytes;
    var found := ScanFrom(data, start).found;
    var cut := Cut(start, found);
    ScanOfCutFile(data, start);
    var hole := Zeros(at - cut);
    var file := WriteAt(data[..cut], at, BatchBytes(batch));
    assert file == data[..cut] + (hole + BatchBytes(batch));
    assert file[cut..at] == hole;
    ScanOfGrownFile(data[..cut], hole + BatchBytes(batch), start);
  }

  /** What the next recovery scan makes of it: it reads back what recovery kept and then the new batch,
      exactly if the batch starts at the first boundary behind the cut and the length read over the hole
      fits. If it starts at a later boundary the scan stands still in the hole for ever. */
  lemma NextScanIff(data: Bytes, start: nat, at: nat, batch: seq<Rec>)
    requires var cut := Cut(start, ScanFrom(data, start).found); cut <= |data| && cut <= at
    requires at % ALIGN == 0 && BatchWritable(batch) && batch != []
    ensures var found := ScanFrom(data, start).found;
            var cut := Cut(start, found);
            var file := WriteAt(data[..cut], at, BatchBytes(batch));
            && (ScanFrom(file, start) == Scan(found + Placed(at, batch), Clean)
                <==> at == RoundUp(cut) && SpillFits(at - cut, batch[0]))
            && (at > RoundUp(cut) ==> ScanFrom(file, start) == Scan(found, Hung))
  {
    hide ScanFrom, BatchBytes, Placed, SpillFits, RoundUp, WriteAt;
    var found := ScanFrom(data, start).found;
    var cut := Cut(start, found);
    var file := WriteAt(data[..cut], at, BatchBytes(batch));
    ScanBehindCut(data, start, at, batch);
    CrossHoleIff(file, cut, at, batch);
    var rest := ScanFrom(file, cut);
    SamePrefix(found, rest.found, Placed(at, batch));
    SamePrefix(found, rest.found, []);
  }

  lemma CrossHoleIff(file: Bytes, cut: nat, at: nat, batch: seq<Rec>)
    requires cut <= at && at % ALIGN == 0 && BatchWritable(batch) && batch != []
    requires |file| == at + |BatchBytes(batch)| && Holds(file, at, BatchBytes(batch)) && AllZero(file[cut..at])
    ensures ScanFrom(file, cut) == Scan(Placed(at, batch), Clean)
            <==> at == RoundUp(cut) && SpillFits(at - cut, batch[0])
    ensures at > RoundUp(cut) ==> ScanFrom(file, cut) == Scan([], Hung)
  {
    hide ScanFrom, BatchBytes, Placed, SpillFits, Holds;
    if at == RoundUp(cut) {
      SpillIsGapOk(file, cut, at, batch);
      ScanLastBatch(file, at, batch);
      hide RoundUp, GapOkAt;
      if GapOkAt(file, cut) {
        CrossGap(file, cut);
      } else {
        FailGap(file, cut);
        FirstPlaced(at, batch);
      }
    } else {
      HoleHangs(file, cut, at);
    }
  }

  lemma FirstPlaced(at: nat, batch: seq<Rec>)
    requires batch != []
    ensures Placed(at, batch) != [] && Placed(at, batch)[0].pos == at
  {
  }

  lemma HoleHangs(file: Bytes, cut: nat, at: nat)
    requires at % ALIGN == 0 && RoundUp(cut) < at <= |file| && AllZero(file[cut..at])
    ensures ScanFrom(file, cut) == Scan([], Hung)
  {
    hide ScanFrom;
    var edge := RoundUp(cut);
    assert edge + 4 <= at;
    forall i | cut <= i < at ensures file[i] == 0 { assert file[i] == file[cut..at][i - cut]; }
    assert AllZero(file[cut..edge]) && AllZero(file[edge..edge + 4]);
    assert GapOkAt(file, cut);
    CrossGap(file, cut);
    ZeroWordHangs(file, edge);
  }

  // ── A file for each failure ───────────────────────────────────────────────

  /** A first write that left one block with a length and nothing else: recovery cuts the file to
      nothing, the journal goes on behind the block, and the next recovery never ends. */
  lemma TornBlockHangsTheNextStart(batch: seq<Rec>)
    requires BatchWritable(batch) && batch != []
    ensures var data: Bytes := [255, 255, 255, 255] + Zeros(4092);
            && ScanFrom(data, 0) == Scan([], TornTail)
            && IsResume(4096, |data|, 0)
            && ScanFrom(WriteAt(data[..0], 4096, BatchBytes(batch)), 0) == Scan([], Hung)
  {
    hide BatchBytes;
    var data: Bytes := [255, 255, 255, 255] + Zeros(4092);
    TooLongIsTorn(data, 0);
    assert ResumeOffset(4096) == 4096 && RoundUp(0) == 0;
    NextScanIff(data, 0, 4096, batch);
  }

  /** A record and a torn length behind it, in one block: the journal goes on at the block's start, over
      the record that recovery kept. */
  lemma ShortTearLosesARecord(r: Rec)
    requires Writable(r) && RecLen(r) < 4092
    ensures var data := Encode(r) + [255, 255, 255, 255];
            && ScanFrom(data, 0) == Scan([Found(0, r)], TornTail)
            && IsResume(0, |data|, RecLen(r))
            && exists batch :: BatchWritable(batch) && !PrefixKept(data[..RecLen(r)], RecLen(r), 0, batch)
  {
    hide Encode, PrefixKept;
    var data: Bytes := Encode(r) + [255, 255, 255, 255];
    EmitAt(data, 0, r);
    TooLongIsTorn(data, RecLen(r));
    assert ResumeOffset(|data|) == 0;
    PrefixKeptIff(data[..RecLen(r)], RecLen(r), 0);
  }
}
