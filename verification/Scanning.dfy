/**
 * The segment scan of crash recovery (recovery/crash_recovery.rs): both phases walk a file
 * with the same loop, which either reaches the end, meets a torn record, or stops making
 * progress on a zero word at an aligned position.
 */
module Scanning {
  import opened Words
  import opened Records

  /** What one turn of the loop does at `pos`. */
  datatype Turn = Halt | Skip(next: nat) | Emit(rec: Rec) | Tear

  function TurnAt(data: Bytes, pos: nat): (t: Turn)
    ensures t.Halt? <==> pos + 4 > |data|
    ensures t.Emit? ==> Decode(data, pos) == Whole(t.rec) && pos + RecLen(t.rec) <= |data|
    ensures t.Skip? ==> t.next == RoundUp(pos)
  {
    if pos + 4 > |data| then Halt
    else if FromLe(data[pos..pos + 4]) == 0 then Skip(RoundUp(pos))
    else match Decode(data, pos)
         case Whole(r) => DecodeInvertsEncode(data, pos, r); Emit(r)
         case Torn => Tear
  }

  datatype Found = Found(pos: nat, rec: Rec)

  function EndOf(f: Found): nat {
    f.pos + RecLen(f.rec)
  }

  datatype Ending = Clean | TornTail | Hung

  datatype Scan = Scan(found: seq<Found>, ending: Ending)

  function Prepend(found: seq<Found>, s: Scan): Scan {
    Scan(found + s.found, s.ending)
  }

  lemma PrependNone(s: Scan)
    ensures Prepend([], s) == s
  {
  }

  lemma PrependFound(a: seq<Found>, s: Scan)
    ensures Prepend(a, s).found == a + s.found
  {
  }

  lemma PrependTwice(a: seq<Found>, b: seq<Found>, s: Scan)
    ensures Prepend(a, Prepend(b, s)) == Prepend(a + b, s)
  {
    assert a + (b + s.found) == (a + b) + s.found;
  }

  /** The whole loop from `pos`. `Hung` stands for a loop that never ends. */
  function ScanFrom(data: Bytes, pos: nat): (s: Scan)
    decreases |data| - pos
  {
    match TurnAt(data, pos)
    case Halt => Scan([], Clean)
    case Tear => Scan([], TornTail)
    case Skip(next) => if next == pos then Scan([], Hung) else ScanFrom(data, next)
    case Emit(rec) => Prepend([Found(pos, rec)], ScanFrom(data, pos + RecLen(rec)))
  }

  /** `last_valid_pos` after the loop: the end of the last record, or the start. */
  function Cut(start: nat, found: seq<Found>): nat {
    if found == [] then start else EndOf(found[|found| - 1])
  }

  // ── The loop hangs exactly on `Hung` ──────────────────────────────────────

  ghost predicate StillRunning(data: Bytes, pos: nat, turns: nat)
    decreases turns
  {
    turns == 0 ||
    match TurnAt(data, pos)
    case Skip(next) => StillRunning(data, next, turns - 1)
    case Emit(rec) => StillRunning(data, pos + RecLen(rec), turns - 1)
    case _ => false
  }

  lemma {:induction false} StuckForever(data: Bytes, pos: nat, turns: nat)
    requires TurnAt(data, pos) == Skip(pos)
    ensures StillRunning(data, pos, turns)
    decreases turns
  {
    if turns > 0 {
      StuckForever(data, pos, turns - 1);
    }
  }

  lemma {:induction false} HungKeepsRunning(data: Bytes, pos: nat, turns: nat)
    requires ScanFrom(data, pos).ending == Hung
    ensures StillRunning(data, pos, turns)
    decreases |data| - pos
  {
    hide TurnAt, Decode, RoundUp;
    if turns > 0 {
      match TurnAt(data, pos)
      case Skip(next) =>
        if next == pos {
          StuckForever(data, pos, turns);
        } else {
          HungKeepsRunning(data, next, turns - 1);
        }
      case Emit(rec) => HungKeepsRunning(data, pos + RecLen(rec), turns - 1);
    }
  }

  lemma {:induction false} OthersStop(data: Bytes, pos: nat) returns (turns: nat)
    requires ScanFrom(data, pos).ending != Hung
    ensures !StillRunning(data, pos, turns)
    decreases |data| - pos
  {
    hide TurnAt, Decode, RoundUp;
    match TurnAt(data, pos)
    case Halt => turns := 1;
    case Tear => turns := 1;
    case Skip(next) =>
      var t := OthersStop(data, next);
      turns := t + 1;
    case Emit(rec) =>
      var t := OthersStop(data, pos + RecLen(rec));
      turns := t + 1;
  }

  /** Four zero bytes stand at `pos`. */
  ghost predicate ZeroWord(data: Bytes, pos: nat) {
    pos + 4 <= |data| && AllZero(data[pos..pos + 4])
  }

  lemma SkipsZeroWord(data: Bytes, pos: nat)
    ensures TurnAt(data, pos).Skip? <==> ZeroWord(data, pos)
  {
    hide Decode, RoundUp;
    if pos + 4 <= |data| {
      FromLeZero(data[pos..pos + 4]);
    }
  }

  /** The scan hangs if and only if, behind the last record, it meets a zero word and then another at the
      boundary to which the first one sends it. */
  lemma {:induction false} HungIff(data: Bytes, pos: nat)
    ensures var cut := Cut(pos, ScanFrom(data, pos).found);
            ScanFrom(data, pos).ending == Hung <==> ZeroWord(data, cut) && ZeroWord(data, RoundUp(cut))
    decreases |data| - pos
  {
    hide TurnAt, Decode, ZeroWord;
    SkipsZeroWord(data, pos);
    match TurnAt(data, pos)
    case Halt =>
    case Tear =>
    case Skip(next) =>
      if next != pos {
        HungIff(data, next);
      }
    case Emit(rec) => HungIff(data, pos + RecLen(rec));
  }

  /** The recovery loop takes more than any number of turns exactly on those files. */
  lemma LoopDivergesIff(data: Bytes, pos: nat)
    ensures var cut := Cut(pos, ScanFrom(data, pos).found);
            (forall turns: nat :: StillRunning(data, pos, turns))
            <==> ZeroWord(data, cut) && ZeroWord(data, RoundUp(cut))
  {
    hide ScanFrom, ZeroWord, RoundUp;
    HungIff(data, pos);
    if ScanFrom(data, pos).ending == Hung {
      forall turns: nat ensures StillRunning(data, pos, turns) {
        HungKeepsRunning(data, pos, turns);
      }
    } else {
      var turns := OthersStop(data, pos);
    }
  }

  /** The smallest file on which the loop never ends. */
  lemma FourZerosHang()
    ensures forall turns: nat :: StillRunning([0, 0, 0, 0], 0, turns)
  {
    var data: Bytes := [0, 0, 0, 0];
    SkipsZeroWord(data, 0);
    LoopDivergesIff(data, 0);
  }

  // ── What the scan finds ───────────────────────────────────────────────────

  ghost predicate InOrder(start: nat, found: seq<Found>)
  {
    && (forall i :: 0 <= i < |found| ==> start <= found[i].pos)
    && (forall i, j :: 0 <= i < j < |found| ==> EndOf(found[i]) <= found[j].pos)
  }

  /** Found records are on the file, in order and without overlap. */
  lemma {:induction false} FoundAreRecords(data: Bytes, pos: nat)
    ensures var found := ScanFrom(data, pos).found;
            && InOrder(pos, found)
            && forall f <- found :: Decode(data, f.pos) == Whole(f.rec) && EndOf(f) <= |data|
    decreases |data| - pos
  {
    hide TurnAt, Decode, Encode, RoundUp;
    match TurnAt(data, pos)
    case Halt =>
    case Tear =>
    case Skip(next) => if next != pos { FoundAreRecords(data, next); }
    case Emit(rec) =>
      FoundAreRecords(data, pos + RecLen(rec));
      OneMoreFound(data, pos, rec);
  }

  lemma OneMoreFound(data: Bytes, pos: nat, rec: Rec)
    requires TurnAt(data, pos) == Emit(rec) && InOrder(pos + RecLen(rec), ScanFrom(data, pos + RecLen(rec)).found)
    ensures Decode(data, pos) == Whole(rec) && pos + RecLen(rec) <= |data|
    ensures ScanFrom(data, pos).found == [Found(pos, rec)] + ScanFrom(data, pos + RecLen(rec)).found
    ensures InOrder(pos, ScanFrom(data, pos).found)
  {
    hide Encode, RoundUp;
    var rest := ScanFrom(data, pos + RecLen(rec)).found;
    assert ScanFrom(data, pos).found == [Found(pos, rec)] + rest;
    hide ScanFrom, TurnAt, Decode;
    var found := [Found(pos, rec)] + rest;
    forall i, j | 0 <= i < j < |found| ensures EndOf(found[i]) <= found[j].pos {
      assert found[j] == rest[j - 1];
    }
  }

  lemma CutCovers(data: Bytes, pos: nat)
    ensures var found := ScanFrom(data, pos).found;
            && pos <= Cut(pos, found)
            && (found != [] ==> Cut(pos, found) <= |data|)
            && forall f <- found :: EndOf(f) <= Cut(pos, found)
  {
    FoundAreRecords(data, pos);
    hide ScanFrom, Decode;
    var found := ScanFrom(data, pos).found;
    forall f | f in found ensures EndOf(f) <= Cut(pos, found) {
      var i :| 0 <= i < |found| && found[i] == f;
      if i < |found| - 1 {
        assert EndOf(found[i]) <= found[|found| - 1].pos;
      }
    }
  }

  // ── Locality: appending to a file, and cutting it ─────────────────────────

  lemma SameTurn(data: Bytes, more: Bytes, pos: nat)
    requires TurnAt(data, pos).Emit? || TurnAt(data, pos).Skip?
    ensures TurnAt(data + more, pos) == TurnAt(data, pos)
  {
    var long := data + more;
    assert long[pos..pos + 4] == data[pos..pos + 4];
    if TurnAt(data, pos).Emit? {
      var r := TurnAt(data, pos).rec;
      DecodeInvertsEncode(data, pos, r);
      assert long[pos..pos + RecLen(r)] == data[pos..pos + RecLen(r)];
      DecodeInvertsEncode(long, pos, r);
    }
  }

  /** Scanning a grown file finds what was found before, then continues from `last_valid_pos`. */
  lemma {:induction false} ScanOfGrownFile(data: Bytes, more: Bytes, pos: nat)
    ensures var s := ScanFrom(data, pos);
            ScanFrom(data + more, pos) == Prepend(s.found, ScanFrom(data + more, Cut(pos, s.found)))
    decreases |data| - pos
  {
    hide TurnAt, Decode, Encode, RoundUp, Prepend;
    var s, long := ScanFrom(data, pos), data + more;
    if s.found == [] {
      PrependNone(ScanFrom(long, pos));
    } else {
      SameTurn(data, more, pos);
      match TurnAt(data, pos)
      case Skip(next) => ScanOfGrownFile(data, more, next);
      case Emit(rec) =>
        var next := pos + RecLen(rec);
        ScanOfGrownFile(data, more, next);
        var rest := ScanFrom(data, next);
        PrependFound([Found(pos, rec)], rest);
        PrependTwice([Found(pos, rec)], rest.found, ScanFrom(long, Cut(next, rest.found)));
    }
  }

  lemma SameTurnInPrefix(data: Bytes, pos: nat, cut: nat)
    requires pos + 4 <= cut <= |data|
    requires match TurnAt(data, pos)
             case Emit(rec) => pos + RecLen(rec) <= cut
             case Skip(_) => true
             case _ => false
    ensures TurnAt(data[..cut], pos) == TurnAt(data, pos)
  {
    hide Decode, Encode, RoundUp, FromLe;
    var kept := data[..cut];
    assert kept[pos..pos + 4] == data[pos..pos + 4];
    if TurnAt(data, pos).Emit? {
      var r := TurnAt(data, pos).rec;
      DecodeInvertsEncode(data, pos, r);
      assert kept[pos..pos + RecLen(r)] == data[pos..pos + RecLen(r)];
      DecodeInvertsEncode(kept, pos, r);
    }
  }

  /** One turn of the scan. */
  lemma ScanTurn(data: Bytes, pos: nat)
    ensures match TurnAt(data, pos)
            case Halt => ScanFrom(data, pos) == Scan([], Clean)
            case Tear => ScanFrom(data, pos) == Scan([], TornTail)
            case Skip(next) => ScanFrom(data, pos) == if next == pos then Scan([], Hung) else ScanFrom(data, next)
            case Emit(rec) => ScanFrom(data, pos) == Prepend([Found(pos, rec)], ScanFrom(data, pos + RecLen(rec)))
  {
    hide TurnAt;
  }

  lemma NothingLeft(data: Bytes)
    ensures ScanFrom(data, |data|) == Scan([], Clean)
  {
  }

  /** Cutting a file at `last_valid_pos` keeps every found record and leaves no tear. */
  lemma {:induction false} ScanOfCutFile(data: Bytes, pos: nat)
    requires Cut(pos, ScanFrom(data, pos).found) <= |data|
    ensures var s := ScanFrom(data, pos);
            ScanFrom(data[..Cut(pos, s.found)], pos) == Scan(s.found, Clean)
    decreases |data| - pos
  {
    hide TurnAt, Decode, Encode, RoundUp, ScanFrom;
    var s := ScanFrom(data, pos);
    var cut := Cut(pos, s.found);
    NothingLeft(data[..cut]);
    ScanTurn(data, pos);
    if s.found != [] {
      CutCovers(data, pos);
      assert s.found[0] in s.found;
      ScanTurn(data[..cut], pos);
      match TurnAt(data, pos)
      case Skip(next) =>
        FoundAreRecords(data, next);
        SameTurnInPrefix(data, pos, cut);
        ScanOfCutFile(data, next);
      case Emit(rec) =>
        var next := pos + RecLen(rec);
        assert EndOf(s.found[0]) == next;
        SameTurnInPrefix(data, pos, cut);
        ScanOfCutFile(data, next);
        assert Cut(next, ScanFrom(data, next).found) == cut;
    }
  }
}
