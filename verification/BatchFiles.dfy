/**
 * What the recovery scan reads back from a file that the journal or the flush task wrote:
 * a sequence of batches, each padded with zeros to an ALIGN boundary.
 */
module BatchFiles {
  import opened Words
  import opened Records
  import opened Scanning

  /** What the writers hand to `push`: a serialised entry is never empty, and the record
      length they keep is a u32. */
  predicate Writable(r: Rec) {
    0 < |r.payload| && RecLen(r) < 0x1_0000_0000
  }

  predicate BatchWritable(batch: seq<Rec>) {
    forall i :: 0 <= i < |batch| ==> Writable(batch[i])
  }

  predicate AllWritable(batches: seq<seq<Rec>>) {
    forall i :: 0 <= i < |batches| ==> BatchWritable(batches[i])
  }

  predicate NoneEmpty(batches: seq<seq<Rec>>) {
    forall i :: 0 <= i < |batches| ==> batches[i] != []
  }

  /** Where a batch starting at `pos` puts its records. */
  function Placed(pos: nat, rs: seq<Rec>): (fs: seq<Found>)
    ensures |fs| == |rs|
    decreases rs
  {
    if rs == [] then [] else [Found(pos, rs[0])] + Placed(pos + RecLen(rs[0]), rs[1..])
  }

  function PlacedFile(pos: nat, batches: seq<seq<Rec>>): (fs: seq<Found>)
    decreases batches
  {
    if batches == [] then []
    else Placed(pos, batches[0]) + PlacedFile(pos + |BatchBytes(batches[0])|, batches[1..])
  }

  /** Each record of a batch can be read back at the place given to it. */
  lemma {:induction false} PlacedDecode(data: Bytes, pos: nat, rs: seq<Rec>, i: nat)
    requires BatchWritable(rs) && Holds(data, pos, EncodeAll(rs)) && i < |rs|
    ensures Placed(pos, rs)[i].rec == rs[i] && pos <= Placed(pos, rs)[i].pos
    ensures Decode(data, Placed(pos, rs)[i].pos) == Whole(rs[i])
    decreases rs
  {
    hide Decode, Encode, Holds;
    HoldsConcat(data, pos, Encode(rs[0]), EncodeAll(rs[1..]));
    if i == 0 {
      DecodeInvertsEncode(data, pos, rs[0]);
    } else {
      PlacedDecode(data, pos + RecLen(rs[0]), rs[1..], i - 1);
    }
  }

  // ── Padding ───────────────────────────────────────────────────────────────

  /** The scan crosses `pad` padding bytes and lands on the boundary: with 1 to 3 bytes of
      padding its 4-byte length read takes in the first bytes after the boundary. */
  ghost predicate GapOk(pad: nat, next: Bytes) {
    pad == 0 || 4 <= pad || |next| < 4 - pad || AllZero(next[..4 - pad])
  }

  ghost predicate GapOkAt(data: Bytes, pos: nat)
    requires RoundUp(pos) <= |data|
  {
    GapOk(RoundUp(pos) - pos, data[RoundUp(pos)..])
  }

  lemma CrossGap(data: Bytes, pos: nat)
    requires RoundUp(pos) <= |data| && AllZero(data[pos..RoundUp(pos)])
    requires GapOkAt(data, pos)
    ensures ScanFrom(data, pos) == ScanFrom(data, RoundUp(pos))
  {
    hide Decode, FromLe;
    var edge := RoundUp(pos);
    if pos + 4 <= |data| && edge != pos {
      var word := data[pos..pos + 4];
      forall i | 0 <= i < 4 ensures word[i] == 0 {
        if pos + i < edge {
          assert word[i] == data[pos..edge][i];
        } else {
          assert word[i] == data[edge..][..4 - (edge - pos)][pos + i - edge];
        }
      }
      FromLeZero(word);
    }
  }

  lemma FailGap(data: Bytes, pos: nat)
    requires RoundUp(pos) <= |data|
    requires !GapOkAt(data, pos)
    ensures pos < RoundUp(pos)
    ensures var s := ScanFrom(data, pos);
            s == Scan([], TornTail) || (s.found != [] && s.found[0].pos == pos)
  {
    hide Decode, FromLe;
    var edge := RoundUp(pos);
    var over := data[edge..][..4 - (edge - pos)];
    assert over == data[edge..pos + 4];
    var i :| 0 <= i < |over| && over[i] != 0;
    assert data[pos..pos + 4][edge - pos + i] != 0;
    FromLeZero(data[pos..pos + 4]);
  }

  // ── Scanning batches ──────────────────────────────────────────────────────

  lemma EmitAt(data: Bytes, pos: nat, r: Rec)
    requires Writable(r) && Holds(data, pos, Encode(r))
    ensures ScanFrom(data, pos) == Prepend([Found(pos, r)], ScanFrom(data, pos + RecLen(r)))
  {
    hide Decode, Encode, FromLe;
    EncodedFields(data, pos, r);
    Pow256Values();
    FromLeOfLe(4, |r.payload|);
    DecodeInvertsEncode(data, pos, r);
  }

  lemma HoldsConcat(data: Bytes, pos: nat, a: Bytes, b: Bytes)
    requires Holds(data, pos, a + b)
    ensures Holds(data, pos, a) && Holds(data, pos + |a|, b)
  {
    SubHolds(data, pos, a + b, 0, |a|);
    SubHolds(data, pos, a + b, |a|, |a| + |b|);
  }

  lemma {:induction false} ScanBatch(data: Bytes, pos: nat, rs: seq<Rec>)
    requires BatchWritable(rs)
    requires Holds(data, pos, EncodeAll(rs))
    ensures ScanFrom(data, pos) == Prepend(Placed(pos, rs), ScanFrom(data, pos + |EncodeAll(rs)|))
    decreases rs
  {
    hide ScanFrom, Encode, Holds, Prepend;
    if rs == [] {
      PrependNone(ScanFrom(data, pos));
    } else {
      HoldsConcat(data, pos, Encode(rs[0]), EncodeAll(rs[1..]));
      EmitAt(data, pos, rs[0]);
      var next := pos + RecLen(rs[0]);
      ScanBatch(data, next, rs[1..]);
      PrependTwice([Found(pos, rs[0])], Placed(next, rs[1..]), ScanFrom(data, pos + |EncodeAll(rs)|));
    }
  }

  /** Every gap of a file of batches that stands at `pos` is crossed as intended. */
  ghost predicate GapsOk(data: Bytes, pos: nat, batches: seq<seq<Rec>>)
    requires pos % ALIGN == 0 && Holds(data, pos, FileOf(batches))
    decreases batches
  {
    batches == [] ||
    (SplitFirst(data, pos, batches);
     && GapOkAt(data, pos + |EncodeAll(batches[0])|)
     && GapsOk(data, pos + |BatchBytes(batches[0])|, batches[1..]))
  }

  /** The first batch of a file: its records, its padding, and the rest of the file. */
  lemma SplitFirst(data: Bytes, pos: nat, batches: seq<seq<Rec>>)
    requires pos % ALIGN == 0 && batches != [] && Holds(data, pos, FileOf(batches))
    ensures var enc, first := EncodeAll(batches[0]), BatchBytes(batches[0]);
            && Holds(data, pos, enc)
            && RoundUp(pos + |enc|) == pos + |first| <= |data|
            && Holds(data, pos + |first|, FileOf(batches[1..]))
            && AllZero(data[pos + |enc|..pos + |first|])
  {
    hide Encode, EncodeAll;
    var enc, first := EncodeAll(batches[0]), BatchBytes(batches[0]);
    HoldsConcat(data, pos, first, FileOf(batches[1..]));
    HoldsConcat(data, pos, enc, Zeros(RoundUp(|enc|) - |enc|));
    RoundUpAfterAligned(pos, |enc|);
  }

  /** The scan of a file of batches, whatever bytes follow it. */
  lemma {:induction false} ScanFile(data: Bytes, pos: nat, batches: seq<seq<Rec>>)
    requires pos % ALIGN == 0 && Holds(data, pos, FileOf(batches))
    requires AllWritable(batches) && GapsOk(data, pos, batches)
    ensures ScanFrom(data, pos) ==
            Prepend(PlacedFile(pos, batches), ScanFrom(data, pos + |FileOf(batches)|))
    decreases batches
  {
    hide Encode, EncodeAll, Padded, ScanFrom, Holds, GapOk, RoundUp, Prepend;
    if batches == [] {
      PrependNone(ScanFrom(data, pos));
    } else {
      SplitFirst(data, pos, batches);
      var enc, first := EncodeAll(batches[0]), BatchBytes(batches[0]);
      ScanBatch(data, pos, batches[0]);
      CrossGap(data, pos + |enc|);
      ScanFile(data, pos + |first|, batches[1..]);
      PrependTwice(Placed(pos, batches[0]), PlacedFile(pos + |first|, batches[1..]),
                   ScanFrom(data, pos + |FileOf(batches)|));
    }
  }

  lemma {:induction false} ScanInvertsWriteAt(data: Bytes, pos: nat, batches: seq<seq<Rec>>)
    requires pos % ALIGN == 0 && Holds(data, pos, FileOf(batches))
    requires pos + |FileOf(batches)| == |data|
    requires AllWritable(batches)
    ensures ScanFrom(data, pos) == Scan(PlacedFile(pos, batches), Clean) <==> GapsOk(data, pos, batches)
    decreases batches
  {
    hide Encode, EncodeAll, Padded, Holds, GapOk, ScanFrom, RoundUp, Placed;
    if batches == [] {
      NothingLeft(data);
    } else {
      SplitFirst(data, pos, batches);
      var enc, first := EncodeAll(batches[0]), BatchBytes(batches[0]);
      ScanBatch(data, pos, batches[0]);
      var here, later := Placed(pos, batches[0]), PlacedFile(pos + |first|, batches[1..]);
      if GapOkAt(data, pos + |enc|) {
        CrossGap(data, pos + |enc|);
        ScanInvertsWriteAt(data, pos + |first|, batches[1..]);
        SamePrefix(here, ScanFrom(data, pos + |first|).found, later);
      } else {
        FailGap(data, pos + |enc|);
        SamePrefix(here, ScanFrom(data, pos + |enc|).found, later);
        PlacedFrom(pos + |first|, batches[1..]);
      }
    }
  }

  lemma SamePrefix<T>(a: seq<T>, b: seq<T>, c: seq<T>)
    ensures a + b == a + c <==> b == c
  {
    if a + b == a + c {
      assert b == (a + b)[|a|..];
      assert c == (a + c)[|a|..];
    }
  }

  lemma {:induction false} PlacedFrom(pos: nat, batches: seq<seq<Rec>>)
    ensures PlacedFile(pos, batches) != [] ==> pos <= PlacedFile(pos, batches)[0].pos
    decreases batches
  {
    if batches != [] {
      PlacedFrom(pos + |BatchBytes(batches[0])|, batches[1..]);
    }
  }

  // ── The same condition, in terms of what was written ──────────────────────

  /** The scan's 4-byte length read over `pad` bytes of padding spills into zeros of the next record's
      length, or not at all. */
  predicate SpillFits(pad: nat, next: Rec) {
    pad == 0 || 4 <= pad || |next.payload| % Pow256(4 - pad) == 0
  }

  predicate PadFits(batch: seq<Rec>, next: Rec) {
    var n := |EncodeAll(batch)|;
    SpillFits(RoundUp(n) - n, next)
  }

  predicate PaddingFits(batches: seq<seq<Rec>>)
    requires NoneEmpty(batches)
  {
    |batches| < 2 || (PadFits(batches[0], batches[1][0]) && PaddingFits(batches[1..]))
  }

  lemma LowDigitsZero(x: u32)
    ensures x % 0x1_0000 == 0 <==> x % 256 == 0 && x / 256 % 256 == 0
    ensures x % 0x100_0000 == 0 <==> x % 256 == 0 && x / 256 % 256 == 0 && x / 256 / 256 % 256 == 0
  {
    assert x % 0x1_0000 == 256 * (x / 256 % 256) + x % 256;
    assert x % 0x100_0000 == 0x1_0000 * (x / 256 / 256 % 256) + x % 0x1_0000;
  }

  lemma LowBytesZero(x: u32, n: nat)
    requires 1 <= n <= 3
    ensures AllZero(Le(4, x)[..n]) <==> x % Pow256(n) == 0
  {
    var b := Le(4, x);
    assert b[0] == x % 256;
    assert b[1] == Le(3, x / 256)[0] == x / 256 % 256;
    assert b[2] == Le(3, x / 256)[1] == Le(2, x / 256 / 256)[0] == x / 256 / 256 % 256;
    assert Pow256(1) == 256;
    assert Pow256(2) == 0x1_0000;
    assert Pow256(3) == 0x100_0000;
    LowDigitsZero(x);
    assert AllZero(b[..n]) <==> b[0] == 0 && (n > 1 ==> b[1] == 0) && (n > 2 ==> b[2] == 0);
  }

  lemma LengthPrefixAt(data: Bytes, pos: nat, batches: seq<seq<Rec>>)
    requires batches != [] && batches[0] != [] && pos % ALIGN == 0 && Holds(data, pos, FileOf(batches))
    ensures pos + 4 <= |data| && data[pos..pos + 4] == Le(4, |batches[0][0].payload|)
  {
    hide Encode, Padded, Le;
    SplitFirst(data, pos, batches);
    var batch := batches[0];
    HoldsConcat(data, pos, Encode(batch[0]), EncodeAll(batch[1..]));
    EncodedFields(data, pos, batch[0]);
  }

  lemma {:induction false} PaddingFitsIsGapsOk(data: Bytes, pos: nat, batches: seq<seq<Rec>>)
    requires pos % ALIGN == 0 && Holds(data, pos, FileOf(batches))
    requires pos + |FileOf(batches)| == |data|
    requires AllWritable(batches) && NoneEmpty(batches)
    ensures GapsOk(data, pos, batches) <==> PaddingFits(batches)
    decreases batches
  {
    hide Encode, EncodeAll, Padded, Holds, RoundUp, Le;
    if batches != [] {
      SplitFirst(data, pos, batches);
      var n, first := |EncodeAll(batches[0])|, |BatchBytes(batches[0])|;
      PaddingFitsIsGapsOk(data, pos + first, batches[1..]);
      var pad := RoundUp(n) - n;
      RoundUpAfterAligned(pos, n);
      if |batches| >= 2 && 1 <= pad <= 3 {
        var next := batches[1][0];
        LengthPrefixAt(data, pos + first, batches[1..]);
        assert data[pos + first..][..4 - pad] == data[pos + first..pos + first + 4][..4 - pad];
        LowBytesZero(|next.payload|, 4 - pad);
      }
    }
  }

  /** Scan inverts write: the recovery scan of a file of non-empty batches yields exactly the
      pushed records at their offsets, and ends cleanly, if and only if every batch's padding
      fits the batch after it. */
  lemma ScanInvertsWrite(batches: seq<seq<Rec>>)
    requires AllWritable(batches) && NoneEmpty(batches)
    ensures ScanFrom(FileOf(batches), 0) == Scan(PlacedFile(0, batches), Clean) <==> PaddingFits(batches)
  {
    ScanInvertsWriteAt(FileOf(batches), 0, batches);
    PaddingFitsIsGapsOk(FileOf(batches), 0, batches);
  }

  /** With any bytes after it, an intact prefix of batches is still read back in full, and the
      scan goes on at the prefix's end. */
  lemma ScanKeepsIntactPrefix(batches: seq<seq<Rec>>, tail: Bytes)
    requires AllWritable(batches) && GapsOk(FileOf(batches) + tail, 0, batches)
    ensures var data := FileOf(batches) + tail;
            ScanFrom(data, 0) == Prepend(PlacedFile(0, batches), ScanFrom(data, |FileOf(batches)|))
  {
    ScanFile(FileOf(batches) + tail, 0, batches);
  }

  /** Behind intact batches the scan stops making progress exactly if four zero bytes follow. */
  lemma ZeroTailHangs(batches: seq<seq<Rec>>, tail: Bytes)
    requires AllWritable(batches) && GapsOk(FileOf(batches) + tail, 0, batches)
    ensures ScanFrom(FileOf(batches) + tail, 0) == Scan(PlacedFile(0, batches), Hung)
            <==> |tail| >= 4 && AllZero(tail[..4])
  {
    hide ScanFrom, FileOf, PlacedFile, GapsOk, AllWritable;
    var data, end := FileOf(batches) + tail, |FileOf(batches)|;
    ScanKeepsIntactPrefix(batches, tail);
    FileOfAligned(batches);
    var rest := ScanFrom(data, end);
    SamePrefix(PlacedFile(0, batches), rest.found, []);
    assert |tail| >= 4 ==> data[end..end + 4] == tail[..4];
    ZeroWordHangs(data, end);
  }

  lemma ZeroWordHangs(data: Bytes, pos: nat)
    requires pos % ALIGN == 0
    ensures ScanFrom(data, pos) == Scan([], Hung) <==> ZeroWord(data, pos)
  {
    hide Decode;
    SkipsZeroWord(data, pos);
    assert RoundUp(pos) == pos;
  }

  /** Two bytes of padding before a one-byte record: the second batch is not read back. */
  lemma TwoBytePaddingLosesABatch()
    ensures var batches := [[Rec(Key(1, 0), Zeros(4070))], [Rec(Key(1, 1), [7])]];
            && AllWritable(batches) && NoneEmpty(batches)
            && ScanFrom(FileOf(batches), 0) != Scan(PlacedFile(0, batches), Clean)
  {
    hide Encode, FileOf, ScanFrom, PlacedFile, RoundUp;
    var r0, r1 := Rec(Key(1, 0), Zeros(4070)), Rec(Key(1, 1), [7]);
    var batches := [[r0], [r1]];
    assert EncodeAll([r0]) == Encode(r0) + EncodeAll([]);
    assert |EncodeAll(batches[0])| == 4094;
    assert RoundUp(4094) == 4096;
    assert Pow256(2) == 0x1_0000;
    assert !PadFits(batches[0], batches[1][0]);
    ScanInvertsWrite(batches);
  }

  /** A length that no file has reads as a torn record. */
  lemma TooLongIsTorn(data: Bytes, pos: nat)
    requires pos + 4 <= |data| < 0xFFFF_FFFF && data[pos..pos + 4] == [255, 255, 255, 255]
    ensures ScanFrom(data, pos) == Scan([], TornTail)
  {
    var b: Bytes := [255, 255, 255, 255];
    assert FromLe(b) == 255 + 256 * FromLe(b[1..]) && FromLe(b[1..]) == 255 + 256 * FromLe(b[1..][1..]);
    assert b[1..][1..] == [255, 255] && FromLe([255, 255]) == 255 + 256 * FromLe([255, 255][1..]);
    assert [255, 255][1..] == [255] && FromLe([255]) == 255 + 256 * FromLe([255][1..]);
  }
}
