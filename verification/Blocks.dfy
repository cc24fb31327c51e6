/** Reading a record through 256 KB blocks (storage/tiered_reader.rs, block_cache.rs): one block when the
    record ends in it, else two. */
module Blocks {
  import opened Words
  import opened Records
  import opened Recovery

  const BLOCK_SIZE: nat := 256 * 1024

  function BlockStart(offset: nat): (start: nat)
    ensures start <= offset < start + BLOCK_SIZE
    ensures start % BLOCK_SIZE == 0
  {
    offset / BLOCK_SIZE * BLOCK_SIZE
  }

  /** The bytes of `[lo, hi)` that a file has. */
  function Window(file: Bytes, lo: nat, hi: nat): (w: Bytes)
    requires lo <= hi
    ensures |w| <= hi - lo
  {
    if |file| <= lo then [] else if |file| <= hi then file[lo..] else file[lo..hi]
  }

  /** `read_local_block`. */
  function Block(file: Bytes, start: nat): Bytes {
    Window(file, start, start + BLOCK_SIZE)
  }

  lemma SubWindow(file: Bytes, lo: nat, hi: nat, a: nat, b: nat)
    requires lo <= a <= b <= hi && b <= |file|
    ensures b - lo <= |Window(file, lo, hi)|
    ensures Window(file, lo, hi)[a - lo..b - lo] == file[a..b]
  {
    var x, y := Window(file, lo, hi)[a - lo..b - lo], file[a..b];
    forall i | 0 <= i < |x| ensures x[i] == y[i] {
    }
  }

  /** Two neighbouring blocks, put together, are the file's bytes over both. */
  lemma TwoBlocks(file: Bytes, start: nat)
    ensures Block(file, start) + Block(file, start + BLOCK_SIZE) == Window(file, start, start + 2 * BLOCK_SIZE)
  {
    var b1, b2 := Block(file, start), Block(file, start + BLOCK_SIZE);
    if |file| > start + BLOCK_SIZE {
      assert b1 == file[start..start + BLOCK_SIZE];
    }
  }

  /** Decoding in a window is decoding in the file, for a record that ends inside the window. */
  lemma DecodeInWindow(file: Bytes, lo: nat, hi: nat, pos: nat, r: Rec)
    requires lo <= pos && pos + RecLen(r) <= hi
    ensures Decode(Window(file, lo, hi), pos - lo) == Whole(r) <==> Decode(file, pos) == Whole(r)
  {
    hide Decode, Encode;
    var w, n := Window(file, lo, hi), RecLen(r);
    DecodeInvertsEncode(file, pos, r);
    DecodeInvertsEncode(w, pos - lo, r);
    if pos + n <= |file| {
      SubWindow(file, lo, hi, pos, pos + n);
    }
  }

  /** The assembly of `read_entry`: one block when the record ends in it, else two. */
  function Assemble(file: Bytes, loc: Loc): Bytes {
    var start := BlockStart(loc.offset);
    if loc.offset + loc.length <= start + BLOCK_SIZE then Block(file, start)
    else Block(file, start) + Block(file, start + BLOCK_SIZE)
  }

  predicate FitsTwoBlocks(loc: Loc) {
    loc.offset - BlockStart(loc.offset) + loc.length <= 2 * BLOCK_SIZE
  }

  /** Block assembly refines a direct read exactly for records that fit: a record at its indexed
      location is decoded from the blocks if and only if its in-block offset plus length is at most
      two blocks; a longer one is reported as a torn write. */
  lemma AssemblyRefinesDirectRead(file: Bytes, loc: Loc, r: Rec)
    requires Decode(file, loc.offset) == Whole(r) && loc.length == RecLen(r)
    ensures var d := Decode(Assemble(file, loc), loc.offset - BlockStart(loc.offset));
            if FitsTwoBlocks(loc) then d == Whole(r) else d == Torn
  {
    hide Decode, Encode, BlockStart;
    var start := BlockStart(loc.offset);
    var end := loc.offset + loc.length;
    TwoBlocks(file, start);
    if end <= start + BLOCK_SIZE {
      DecodeInWindow(file, start, start + BLOCK_SIZE, loc.offset, r);
    } else if FitsTwoBlocks(loc) {
      DecodeInWindow(file, start, start + 2 * BLOCK_SIZE, loc.offset, r);
    } else {
      ShortWindowTears(file, start, start + 2 * BLOCK_SIZE, loc.offset, r);
    }
  }

  /** A window that holds the record's length prefix but not its end reads as a torn write. */
  lemma ShortWindowTears(file: Bytes, lo: nat, hi: nat, pos: nat, r: Rec)
    requires lo <= pos <= hi < pos + RecLen(r) && Decode(file, pos) == Whole(r)
    ensures Decode(Window(file, lo, hi), pos - lo) == Torn
  {
    hide Encode, FromLe;
    if pos + 4 <= hi {
      SubWindow(file, lo, hi, pos, pos + 4);
    }
  }

  /** Sizes that settle it: up to one block and one byte a record fits wherever it lies, past two blocks
      nowhere, and in between it depends on the offset. */
  lemma FitsBySize(loc: Loc)
    ensures loc.length <= BLOCK_SIZE + 1 ==> FitsTwoBlocks(loc)
    ensures loc.length > 2 * BLOCK_SIZE ==> !FitsTwoBlocks(loc)
    ensures BLOCK_SIZE + 1 < loc.length <= 2 * BLOCK_SIZE ==>
              (FitsTwoBlocks(loc) <==> loc.offset % BLOCK_SIZE <= 2 * BLOCK_SIZE - loc.length)
  {
  }
}
