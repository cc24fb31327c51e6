/** The read path below the cache (storage/tiered_reader.rs, block_cache.rs): EntrySegments by registry
    status, with blocks cached for sealed segments only, then the WAL. */
module TieredReads {
  import opened Words
  import opened Records
  import opened Recovery
  import opened Blocks
  import opened Protocol

  // ── The reader ────────────────────────────────────────────────────────────

  datatype Status = Local | Offloading | S3 | Deleted | Active

  datatype Meta = Meta(status: Status, localPath: bool, s3Key: bool)

  datatype Outcome = Payload(bytes: Bytes) | NotFound | StorageError

  predicate HasFile(m: Meta) {
    m.localPath && (m.status == Active || m.status == Local || m.status == Offloading)
  }

  class TieredReader {
    /** Block cache, keyed by segment and block start. */
    var cache: map<(nat, nat), Bytes>
    var entryIndex: Index
    var entryRegistry: map<nat, Meta>
    var entryFiles: map<nat, Bytes>
    var objects: map<nat, Bytes>
    var walIndex: Index
    var walRegistry: map<nat, Meta>
    var walFiles: map<nat, Bytes>
    /** The final bytes of each sealed EntrySegment. */
    ghost var sealed: map<nat, Bytes>

    /** Every cached block is a block of a sealed segment; a sealed file never changes. */
    ghost predicate Valid()
      reads this
    {
      && (forall b <- cache :: b.0 in sealed && cache[b] == Block(sealed[b.0], b.1))
      && (forall s <- entryFiles :: s in sealed ==> entryFiles[s] == sealed[s])
      && (forall s <- objects :: s in sealed && objects[s] == sealed[s])
      && (forall s <- entryRegistry :: entryRegistry[s].status != Active ==> s in sealed)
    }

    constructor ()
      ensures Valid() && cache == map[] && entryRegistry == map[] && entryFiles == map[] && objects == map[]
      ensures sealed == map[] && entryIndex == map[]
    {
      cache, entryIndex, entryRegistry, entryFiles, objects := map[], map[], map[], map[], map[];
      walIndex, walRegistry, walFiles, sealed := map[], map[], map[], map[];
    }

    /** The active segment grows. */
    method AppendActive(segment: nat, bytes: Bytes)
      requires Valid() && segment in entryFiles && segment !in sealed
      modifies this`entryFiles
      ensures Valid() && entryFiles == old(entryFiles)[segment := old(entryFiles)[segment] + bytes]
    {
      entryFiles := entryFiles[segment := entryFiles[segment] + bytes];
    }

    /** A new active segment. */
    method OpenSegment(segment: nat)
      requires Valid() && segment !in entryRegistry && segment !in entryFiles && segment !in sealed
      modifies this`entryFiles, this`entryRegistry
      ensures Valid() && entryFiles == old(entryFiles)[segment := []]
      ensures entryRegistry == old(entryRegistry)[segment := Meta(Active, true, false)]
    {
      entryFiles := entryFiles[segment := []];
      entryRegistry := entryRegistry[segment := Meta(Active, true, false)];
    }

    /** The active segment is sealed; from now on its bytes are fixed and its blocks may be cached. */
    method Seal(segment: nat)
      requires Valid() && segment in entryRegistry && entryRegistry[segment].status == Active
      requires segment in entryFiles && segment !in sealed
      modifies this`entryRegistry, this`sealed
      ensures Valid() && sealed == old(sealed)[segment := entryFiles[segment]]
      ensures entryRegistry == old(entryRegistry)[segment := old(entryRegistry)[segment].(status := Local)]
    {
      sealed := sealed[segment := entryFiles[segment]];
      entryRegistry := entryRegistry[segment := entryRegistry[segment].(status := Local)];
    }

    /** An upload of a sealed segment's file. */
    method PutObject(segment: nat)
      requires Valid() && segment in entryFiles && segment in sealed
      modifies this`objects
      ensures Valid() && objects == old(objects)[segment := sealed[segment]]
    {
      objects := objects[segment := entryFiles[segment]];
    }

    /** The registry switch and the removal of the local file: the same bytes are read from S3. */
    method SwitchToS3(segment: nat)
      requires Valid() && segment in entryRegistry && segment in objects
      modifies this`entryRegistry, this`entryFiles
      ensures Valid() && entryFiles == old(entryFiles) - {segment}
      ensures entryRegistry == old(entryRegistry)[segment := Meta(S3, false, true)]
      ensures forall k <- entryIndex :: entryIndex[k].segment == segment ==> SameRead(old(entryFiles), k)
    {
      hide Block;
      assert forall k <- entryIndex :: entryIndex[k].segment == segment && segment in entryFiles ==>
               entryFiles[segment] == objects[segment];
      entryRegistry := entryRegistry[segment := Meta(S3, false, true)];
      entryFiles := entryFiles - {segment};
      forall k | k in entryIndex && entryIndex[k].segment == segment ensures SameRead(old(entryFiles), k) {
        if SameReadApplies(old(entryFiles), k) {
          var r := Decode(objects[segment], entryIndex[k].offset).rec;
          TieredReadIsDirectRead(entryIndex, entryRegistry, entryFiles, objects, walIndex, walRegistry, walFiles, k,
                                 objects[segment], r);
        }
      }
    }

    ghost predicate SameReadApplies(before: map<nat, Bytes>, k: Key)
      reads this
    {
      && k in entryIndex && entryIndex[k].segment in before
      && Decode(before[entryIndex[k].segment], entryIndex[k].offset).Whole?
      && entryIndex[k].length == RecLen(Decode(before[entryIndex[k].segment], entryIndex[k].offset).rec)
    }

    /** A record of the file as it was is what the reader gives now. */
    ghost predicate SameRead(before: map<nat, Bytes>, k: Key)
      reads this
    {
      SameReadApplies(before, k) ==>
        TieredRead(entryIndex, entryRegistry, entryFiles, objects, walIndex, walRegistry, walFiles, k)
        == Payload(Decode(before[entryIndex[k].segment], entryIndex[k].offset).rec.payload)
    }

    /** The cache drops blocks whenever it likes. */
    method DropBlocks(blocks: set<(nat, nat)>)
      requires Valid()
      modifies this`cache
      ensures Valid() && cache == old(cache) - blocks
    {
      cache := cache - blocks;
    }

    /** A new location in `entry_index`. */
    method IndexEntry(k: Key, loc: Loc)
      requires Valid()
      modifies this`entryIndex
      ensures Valid() && entryIndex == old(entryIndex)[k := loc]
    {
      entryIndex := entryIndex[k := loc];
    }

    /** The bytes of a segment: fixed once it is sealed, whether or not the file is still there. */
    ghost function Content(segment: nat): Bytes
      reads this
    {
      if segment in sealed then sealed[segment] else if segment in entryFiles then entryFiles[segment] else []
    }

    /** The block is cached or the file is there. */
    ghost predicate HasBlock(segment: nat, start: nat, cacheable: bool)
      reads this
    {
      (cacheable && (segment, start) in cache) || segment in entryFiles
    }

    /** `get_entry_block`: only blocks of sealed segments go through the cache, and a cached block is found
        without the file. */
    method GetEntryBlock(segment: nat, start: nat, cacheable: bool) returns (block: Option<Bytes>)
      requires Valid() && (cacheable ==> segment in sealed)
      modifies this`cache
      ensures Valid() && old(cache).Keys <= cache.Keys <= old(cache).Keys + {(segment, start)}
      ensures block == if old(HasBlock(segment, start, cacheable)) then Some(Block(Content(segment), start)) else None
    {
      if cacheable && (segment, start) in cache {
        return Some(cache[(segment, start)]);
      }
      if segment !in entryFiles {
        return None;
      }
      block := Some(Block(entryFiles[segment], start));
      if cacheable {
        cache := cache[(segment, start) := block.value];
      }
    }

    /** The first half of `read_entry`: indexes and registry. */
    method Lookup(k: Key) returns (route: Route)
      requires Valid()
      ensures route == RouteOf(entryIndex, entryRegistry, walIndex, k)
      ensures route.LocalFile? && route.cacheable ==> route.loc.segment in sealed
    {
      if k in entryIndex {
        var loc := entryIndex[k];
        if loc.segment !in entryRegistry {
          return Broken;
        }
        var meta := entryRegistry[loc.segment];
        match meta.status {
          case S3 => return if meta.s3Key then Remote(loc) else Broken;
          case Deleted => return Broken;
          case _ => return if meta.localPath then LocalFile(loc, meta.status != Active) else Broken;
        }
      }
      return if k in walIndex then WalFile(walIndex[k]) else Missing;
    }

    /** What the second half gives in the present state, for a route found earlier. */
    ghost function Fetched(route: Route): Outcome
      reads this
    {
      match route
      case Missing => NotFound
      case Broken => StorageError
      case LocalFile(loc, cacheable) =>
        if AllBlocks(loc, cacheable)
        then FromDecoded(Decode(Assemble(Content(loc.segment), loc), loc.offset - BlockStart(loc.offset)))
        else StorageError
      case Remote(loc) =>
        if loc.segment in objects && loc.length > 0
        then FromDecoded(Decode(Window(objects[loc.segment], loc.offset, loc.offset + loc.length), 0))
        else StorageError
      case WalFile(loc) =>
        if loc.segment in walRegistry && HasFile(walRegistry[loc.segment]) && loc.segment in walFiles
        then FromDecoded(Decode(Assemble(walFiles[loc.segment], loc), loc.offset - BlockStart(loc.offset)))
        else StorageError
    }

    ghost predicate AllBlocks(loc: Loc, cacheable: bool)
      reads this
    {
      var start := BlockStart(loc.offset);
      && HasBlock(loc.segment, start, cacheable)
      && (Spans(loc) ==> HasBlock(loc.segment, start + BLOCK_SIZE, cacheable))
    }

    /** The record at an EntrySegment location, assembled from blocks. */
    method ReadEntryBlocks(loc: Loc, cacheable: bool) returns (out: Outcome)
      requires Valid() && (cacheable ==> loc.segment in sealed)
      modifies this`cache
      ensures Valid() && out == old(Fetched(LocalFile(loc, cacheable)))
    {
      hide Decode, Block;
      var start := BlockStart(loc.offset);
      var first := GetEntryBlock(loc.segment, start, cacheable);
      if first.None? {
        return StorageError;
      }
      var data := first.value;
      if Spans(loc) {
        var second := GetEntryBlock(loc.segment, start + BLOCK_SIZE, cacheable);
        if second.None? {
          return StorageError;
        }
        data := data + second.value;
      }
      Assembled(Content(loc.segment), loc);
      out := FromDecoded(Decode(data, loc.offset - start));
    }

    /** The second half of `read_entry`, in whatever state the segment has come to since the lookup. */
    method Fetch(route: Route) returns (out: Outcome)
      requires Valid() && (route.LocalFile? && route.cacheable ==> route.loc.segment in sealed)
      modifies this`cache
      ensures Valid() && out == old(Fetched(route))
    {
      hide Decode, Valid, Assemble, AllBlocks, Content;
      match route
      case Missing => out := NotFound;
      case Broken => out := StorageError;
      case LocalFile(loc, cacheable) => out := ReadEntryBlocks(loc, cacheable);
      case Remote(loc) =>
        if loc.segment !in objects || loc.length == 0 {
          return StorageError;
        }
        out := FromDecoded(Decode(Window(objects[loc.segment], loc.offset, loc.offset + loc.length), 0));
      case WalFile(loc) =>
        if loc.segment !in walRegistry || !HasFile(walRegistry[loc.segment]) || loc.segment !in walFiles {
          return StorageError;
        }
        var file, start := walFiles[loc.segment], BlockStart(loc.offset);
        var data := Block(file, start);
        if Spans(loc) {
          data := data + Block(file, start + BLOCK_SIZE);
        }
        assert data == Assemble(file, loc) by { Assembled(file, loc); }
        out := FromDecoded(Decode(data, loc.offset - start));
    }

    /** No file that the registry names is missing. */
    ghost predicate FilePresent(k: Key)
      reads this
    {
      k in entryIndex && entryIndex[k].segment in entryRegistry && HasFile(entryRegistry[entryIndex[k].segment]) ==>
        entryIndex[k].segment in entryFiles
    }

    lemma FetchedIsTieredRead(k: Key)
      requires Valid() && FilePresent(k)
      ensures Fetched(RouteOf(entryIndex, entryRegistry, walIndex, k))
           == TieredRead(entryIndex, entryRegistry, entryFiles, objects, walIndex, walRegistry, walFiles, k)
    {
      hide Decode, Assemble, Block;
    }

    /** A key is reported as not found if and only if neither index has it; any other failure is an error. */
    lemma NotFoundIff(k: Key)
      ensures Fetched(RouteOf(entryIndex, entryRegistry, walIndex, k)) == NotFound
              <==> k !in entryIndex && k !in walIndex
    {
      hide Decode, Assemble, AllBlocks;
    }

    /** `TieredReader::read_entry` with nothing in between: the outcome is that of the cache-free read, if the
        local file is there. */
    method ReadEntry(k: Key) returns (out: Outcome)
      requires Valid()
      modifies this`cache
      ensures Valid() && out == old(Fetched(RouteOf(entryIndex, entryRegistry, walIndex, k)))
      ensures FilePresent(k) ==>
                out == TieredRead(entryIndex, entryRegistry, entryFiles, objects, walIndex, walRegistry, walFiles, k)
      ensures out == NotFound <==> k !in entryIndex && k !in walIndex
    {
      if FilePresent(k) {
        FetchedIsTieredRead(k);
      }
      NotFoundIff(k);
      hide Valid, TieredRead, Fetched, RouteOf;
      var route := Lookup(k);
      out := Fetch(route);
    }
  }

  /** Where the lookups send a read. */
  datatype Route = Missing | Broken | LocalFile(loc: Loc, cacheable: bool) | Remote(loc: Loc) | WalFile(loc: Loc)

  function RouteOf(entryIndex: Index, entryRegistry: map<nat, Meta>, walIndex: Index, k: Key): Route {
    if k in entryIndex then
      var loc := entryIndex[k];
      if loc.segment !in entryRegistry then Broken
      else
        var meta := entryRegistry[loc.segment];
        match meta.status
        case S3 => if meta.s3Key then Remote(loc) else Broken
        case Deleted => Broken
        case _ => if meta.localPath then LocalFile(loc, meta.status != Active) else Broken
    else if k in walIndex then WalFile(walIndex[k])
    else Missing
  }

  /** The record runs into a second block. */
  predicate Spans(loc: Loc) {
    loc.offset + loc.length > BlockStart(loc.offset) + BLOCK_SIZE
  }

  /** What a read makes of its blocks, each fetched or not, at its own time. */
  function Joined(loc: Loc, first: Option<Bytes>, second: Option<Bytes>): Outcome {
    if first.None? || (Spans(loc) && second.None?) then StorageError
    else
      var data := first.value + if Spans(loc) then second.value else [];
      FromDecoded(Decode(data, loc.offset - BlockStart(loc.offset)))
  }

  /** A read of a sealed segment in separate steps, with whatever happens to the segment between them: it
      gives the record's payload exactly if the record fits two blocks and each block it needs was cached
      or its file still there when it was fetched; otherwise it fails. */
  lemma SplitReadIff(sealed: Bytes, loc: Loc, r: Rec, first: Option<Bytes>, second: Option<Bytes>)
    requires Decode(sealed, loc.offset) == Whole(r) && loc.length == RecLen(r)
    requires first.Some? ==> first.value == Block(sealed, BlockStart(loc.offset))
    requires second.Some? ==> second.value == Block(sealed, BlockStart(loc.offset) + BLOCK_SIZE)
    ensures Joined(loc, first, second)
         == if FitsTwoBlocks(loc) && first.Some? && (Spans(loc) ==> second.Some?) then Payload(r.payload)
            else StorageError
  {
    hide Decode, Block, FitsTwoBlocks;
    AssemblyRefinesDirectRead(sealed, loc, r);
    Assembled(sealed, loc);
    if first.Some? && !Spans(loc) {
      assert first.value + [] == first.value;
    }
  }

  /** A reader with one sealed segment that holds one record. */
  method OneSealed(r: Rec) returns (t: TieredReader)
    ensures fresh(t) && t.Valid() && t.cache == map[] && t.entryIndex == map[r.key := Loc(0, 0, RecLen(r))]
    ensures t.entryRegistry == map[0 := Meta(Local, true, false)] && t.entryFiles == map[0 := Encode(r)]
    ensures t.sealed == map[0 := Encode(r)] && t.objects == map[]
  {
    hide Encode, Block, TieredReader.Valid;
    t := new TieredReader();
    t.OpenSegment(0);
    t.AppendActive(0, Encode(r));
    assert [] + Encode(r) == Encode(r);
    t.IndexEntry(r.key, Loc(0, 0, RecLen(r)));
    t.Seal(0);
  }

  /** The switch to S3 under a read: the read that looked the segment up before the switch and opens the file
      after it fails, though the entry is there and the next read gives it. */
  method SwitchUnderARead(r: Rec) returns (out: Outcome, again: Outcome)
    requires Storable(r) && RecLen(r) <= BLOCK_SIZE
    ensures out == StorageError && again == Payload(r.payload)
  {
    hide Decode, Encode, Block, TieredReader.Valid, TieredReader.Content, TieredRead, Assemble;
    var t := OneSealed(r);
    var route := t.Lookup(r.key);
    assert route == LocalFile(Loc(0, 0, RecLen(r)), true);
    t.PutObject(0);
    t.SwitchToS3(0);
    out := t.Fetch(route);
    assert Encode(r)[0..RecLen(r)] == Encode(r);
    DecodeInvertsEncode(Encode(r), 0, r);
    TieredReadIsDirectRead(t.entryIndex, t.entryRegistry, t.entryFiles, t.objects, t.walIndex, t.walRegistry,
                           t.walFiles, r.key, Encode(r), r);
    again := t.ReadEntry(r.key);
  }

  lemma Assembled(file: Bytes, loc: Loc)
    ensures var start := BlockStart(loc.offset);
            Assemble(file, loc)
            == if Spans(loc) then Block(file, start) + Block(file, start + BLOCK_SIZE) else Block(file, start)
  {
  }

  function FromDecoded(d: Decoded): Outcome {
    match d
    case Whole(r) => Payload(r.payload)
    case Torn => StorageError
  }

  /** Routing: `entry_index` first, by registry status; then `wal_index`. */
  function TieredRead(entryIndex: Index, entryRegistry: map<nat, Meta>, entryFiles: map<nat, Bytes>,
                      objects: map<nat, Bytes>, walIndex: Index, walRegistry: map<nat, Meta>,
                      walFiles: map<nat, Bytes>, k: Key): Outcome
  {
    if k in entryIndex then
      var loc := entryIndex[k];
      if loc.segment !in entryRegistry then StorageError
      else if entryRegistry[loc.segment].status == S3 then
        if entryRegistry[loc.segment].s3Key && loc.segment in objects && loc.length > 0
        then FromDecoded(Decode(Window(objects[loc.segment], loc.offset, loc.offset + loc.length), 0))
        else StorageError
      else if HasFile(entryRegistry[loc.segment]) && loc.segment in entryFiles
      then FromDecoded(Decode(Assemble(entryFiles[loc.segment], loc), loc.offset - BlockStart(loc.offset)))
      else StorageError
    else if k in walIndex then
      var loc := walIndex[k];
      if loc.segment in walRegistry && HasFile(walRegistry[loc.segment]) && loc.segment in walFiles
      then FromDecoded(Decode(Assemble(walFiles[loc.segment], loc), loc.offset - BlockStart(loc.offset)))
      else StorageError
    else NotFound
  }

  /** An entry whose segment is available, locally or in S3, is read back as its payload from
      whichever tier holds it, if it fits two blocks; the S3 tier reads it whatever its length. */
  lemma TieredReadIsDirectRead(entryIndex: Index, entryRegistry: map<nat, Meta>, entryFiles: map<nat, Bytes>,
                               objects: map<nat, Bytes>, walIndex: Index, walRegistry: map<nat, Meta>,
                               walFiles: map<nat, Bytes>, k: Key, bytes: Bytes, r: Rec)
    requires k in entryIndex && entryIndex[k].segment in entryRegistry
    requires Decode(bytes, entryIndex[k].offset) == Whole(r) && entryIndex[k].length == RecLen(r)
    requires var loc := entryIndex[k];
             var meta := entryRegistry[loc.segment];
             || (meta.status == S3 && meta.s3Key && loc.segment in objects && objects[loc.segment] == bytes)
             || (HasFile(meta) && loc.segment in entryFiles && entryFiles[loc.segment] == bytes)
    ensures TieredRead(entryIndex, entryRegistry, entryFiles, objects, walIndex, walRegistry, walFiles, k)
         == if entryRegistry[entryIndex[k].segment].status == S3 || FitsTwoBlocks(entryIndex[k])
            then Payload(r.payload) else StorageError
  {
    hide Decode, Assemble;
    var loc := entryIndex[k];
    AssemblyRefinesDirectRead(bytes, loc, r);
    DecodeInWindow(bytes, loc.offset, loc.offset + loc.length, loc.offset, r);
  }

  /** An entry that only the WAL index has is read back as its payload from the WAL segment's file, if it fits
      two blocks. Without the file the read is an error, not an absent entry. */
  lemma WalReadIsDirectRead(entryIndex: Index, entryRegistry: map<nat, Meta>, entryFiles: map<nat, Bytes>,
                            objects: map<nat, Bytes>, walIndex: Index, walRegistry: map<nat, Meta>,
                            walFiles: map<nat, Bytes>, k: Key, bytes: Bytes, r: Rec)
    requires k !in entryIndex && k in walIndex
    requires Decode(bytes, walIndex[k].offset) == Whole(r) && walIndex[k].length == RecLen(r)
    requires walIndex[k].segment in walFiles ==> walFiles[walIndex[k].segment] == bytes
    ensures TieredRead(entryIndex, entryRegistry, entryFiles, objects, walIndex, walRegistry, walFiles, k)
         == if walIndex[k].segment in walFiles && FitsTwoBlocks(walIndex[k])
               && walIndex[k].segment in walRegistry && HasFile(walRegistry[walIndex[k].segment])
            then Payload(r.payload) else StorageError
  {
    hide Decode, Assemble;
    AssemblyRefinesDirectRead(bytes, walIndex[k], r);
  }
}
