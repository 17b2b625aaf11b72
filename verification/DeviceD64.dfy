/** Reading a D64 image: files and the directory. */
module DeviceD64 {
  import opened Bytes
  import opened D64Disk

  class Disk {
    const d64: seq<Byte>

    constructor (image: seq<Byte>)
      ensures d64 == image
    {
      d64 := image;
    }

    /** block, counting down; a track beyond the table fails. */
    method Block(track: nat, sector: nat) returns (block: Option<nat>)
      ensures block == BlockOf(track, sector)
    {
      if track == 1 {
        return Some(sector);
      }
      var sum: nat := 0;
      var tr := track - 1;
      while tr >= 1
        invariant tr == track - 1 || 0 <= tr < track <= 41
        invariant track <= 41 ==> sum + FirstBlock(tr + 1) == FirstBlock(track)
      {
        if tr > 40 {
          return None;
        }
        sum := sum + SectorsOn(tr);
        tr := tr - 1;
      }
      return Some(sum + sector);
    }

    method ReadBlock(p: Place) returns (block: Option<seq<Byte>>)
      ensures block == BlockAt(d64, p)
    {
      var b := Block(p.track, p.sector);
      if b == None || b.value * BLKSIZE > |d64| {
        return None;
      }
      var from := b.value * BLKSIZE;
      var to := if from + BLKSIZE <= |d64| then from + BLKSIZE else |d64|;
      return Some(d64[from..to]);
    }

    /** read_data: where the links lead to an end, the payloads in order; where they lead to a place
        without a link, it fails. */
    method ReadData(startTrack: Byte, startSector: Byte, ghost path: seq<Place>) returns (data: Option<seq<Byte>>)
      requires IsPath(d64, Place(startTrack, startSector), path)
      ensures Ends(d64, path) ==> AllLinked(d64, path)
      ensures data == if Ends(d64, path) then Some(Contents(d64, path)) else None
    {
      ReadingStarts(d64, Place(startTrack, startSector), path);
      hide Reading, Ends, Contents, Payload, Held;
      var blk: seq<Byte> := [];
      var nextTrack, nextSector := startTrack, startSector;
      ghost var left := path;
      while true
        invariant left != [] && left[0] == Place(nextTrack, nextSector) && Reading(d64, path, left, blk)
        decreases |left|
      {
        ReadingOn(d64, path, left, blk);
        var tmp := ReadBlock(Place(nextTrack, nextSector));
        HeldIs(d64, left[0]);
        if tmp == None || |tmp.value| < 2 {
          return None;
        }
        nextTrack := tmp.value[0];
        nextSector := tmp.value[1];
        if nextTrack == 0 {
          return Some(blk + UpTo(tmp.value, nextSector));
        }
        blk := blk + tmp.value[2..];
        left := left[1..];
      }
    }

    /** collect_directory_entries: of all slots along the path, those of type PRG; it fails where a block
        is too short to hold the type of each slot. */
    method CollectDirectoryEntries(track: Byte, sector: Byte, ghost path: seq<Place>)
      returns (result: Option<seq<seq<Byte>>>)
      requires IsPath(d64, Place(track, sector), path)
      ensures result == if AllListed(d64, path) then Some(Prgs(Slots(d64, path, 0))) else None
    {
      hide Collecting, AllListed, Slots, Prgs, Held, Taken, IsPath;
      var blk := ReadBlock(Place(track, sector));
      HeldIs(d64, Place(track, sector));
      CollectingStarts(d64, Place(track, sector), path);
      if blk == None || |blk.value| < 2 {
        return None;
      }
      var entries: seq<seq<Byte>> := [];
      var nextTrack, nextSector := blk.value[0], blk.value[1];
      var offset := 0;
      ghost var k, left := 0, path;
      while true
        invariant left != [] && Linked(d64, left[0]) && blk == Some(Held(d64, left[0]))
        invariant Place(nextTrack, nextSector) == Next(d64, left[0])
        invariant 0 <= k < 8 && offset == 32 * k && Collecting(d64, path, left, k, entries)
        decreases |left|, 8 - k
      {
        CollectingOn(d64, path, left, k, entries);
        if offset + 2 >= |blk.value| {
          return None;
        }
        entries := Taken(entries, blk.value, offset);
        offset := offset + 32;
        k := k + 1;
        if offset >= BLKSIZE {
          offset := 0;
          k := 0;
          if nextTrack == 0 {
            return Some(entries);
          }
          blk := ReadBlock(Place(nextTrack, nextSector));
          HeldIs(d64, Place(nextTrack, nextSector));
          if blk == None || |blk.value| < 2 {
            return None;
          }
          nextTrack := blk.value[0];
          nextSector := blk.value[1];
          left := left[1..];
        }
      }
    }
  }

  lemma HeldIs(image: seq<Byte>, p: Place)
    ensures match BlockAt(image, p) case None => Held(image, p) == [] case Some(block) => Held(image, p) == block
    ensures Linked(image, p) <==> |Held(image, p)| >= 2
  {
  }

  // ---------------------------------------------------------------- reading

  /** A link to track 0 ends a path; another one leads to its next place. */
  lemma PathTurn(image: seq<Byte>, left: seq<Place>)
    requires left != [] && IsPath(image, left[0], left) && Linked(image, left[0])
    ensures Next(image, left[0]).track == 0 ==> |left| == 1
    ensures Next(image, left[0]).track != 0 ==>
              |left| > 1 && left[1] == Next(image, left[0]) && IsPath(image, left[1], left[1..])
  {
    hide Held;
    if Next(image, left[0]).track != 0 {
      assert left[1..][0] == left[1];
    }
  }

  /** `blk` and what is still to be read from `left` on make up the contents of `path`, if it has an end. */
  predicate Reading(image: seq<Byte>, path: seq<Place>, left: seq<Place>, blk: seq<Byte>) {
    && left != [] && path != [] && IsPath(image, left[0], left)
    && (Ends(image, left) <==> Ends(image, path))
    && (Ends(image, path) ==>
          && AllLinked(image, left) && AllLinked(image, path)
          && blk + Contents(image, left) == Contents(image, path))
  }

  lemma ReadingStarts(image: seq<Byte>, p: Place, path: seq<Place>)
    requires IsPath(image, p, path)
    ensures Reading(image, path, path, []) && path[0] == p
    ensures Ends(image, path) ==> AllLinked(image, path)
  {
    hide Contents;
    if Ends(image, path) {
      EndsLinked(image, p, path);
      assert [] + Contents(image, path) == Contents(image, path);
    }
  }

  lemma ReadingOn(image: seq<Byte>, path: seq<Place>, left: seq<Place>, blk: seq<Byte>)
    requires Reading(image, path, left, blk)
    ensures path != [] && left != []
    ensures !Linked(image, left[0]) ==> !Ends(image, path)
    ensures Linked(image, left[0]) && Next(image, left[0]).track == 0 ==>
              && Ends(image, path) && AllLinked(image, path)
              && Contents(image, path) == blk + UpTo(Held(image, left[0]), Next(image, left[0]).sector)
    ensures Linked(image, left[0]) && Next(image, left[0]).track != 0 ==>
              && |left| > 1 && left[1] == Next(image, left[0])
              && Reading(image, path, left[1..], blk + Held(image, left[0])[2..])
  {
    if Linked(image, left[0]) {
      if Next(image, left[0]).track == 0 {
        LastRead(image, path, left, blk);
      } else {
        MoreRead(image, path, left, blk);
      }
    }
  }

  lemma LastRead(image: seq<Byte>, path: seq<Place>, left: seq<Place>, blk: seq<Byte>)
    requires Reading(image, path, left, blk) && Linked(image, left[0]) && Next(image, left[0]).track == 0
    ensures Ends(image, path) && AllLinked(image, path)
    ensures Contents(image, path) == blk + UpTo(Held(image, left[0]), Next(image, left[0]).sector)
  {
    hide Held, IsPath;
    PathTurn(image, left);
    assert left[1..] == [];
    assert Contents(image, left) == Payload(image, left[0]) + [];
  }

  lemma MoreRead(image: seq<Byte>, path: seq<Place>, left: seq<Place>, blk: seq<Byte>)
    requires Reading(image, path, left, blk) && Linked(image, left[0]) && Next(image, left[0]).track != 0
    ensures |left| > 1 && left[1] == Next(image, left[0])
    ensures Reading(image, path, left[1..], blk + Held(image, left[0])[2..])
  {
    hide Held, IsPath;
    PathTurn(image, left);
    var rest := left[1..];
    assert rest[|rest| - 1] == left[|left| - 1];
    if Ends(image, path) {
      assert AllLinked(image, rest);
      assert blk + Contents(image, left) == (blk + Held(image, left[0])[2..]) + Contents(image, rest);
    }
  }

  // ---------------------------------------------------------------- collecting

  /** One slot looked at: the entries grow by it if it is a PRG. */
  function Taken(entries: seq<seq<Byte>>, blk: seq<Byte>, offset: nat): seq<seq<Byte>>
    requires offset + 2 < |blk|
  {
    if blk[offset + 2] % 16 == FILE_TYPE_PRG then entries + [SlotOf(blk, offset)] else entries
  }

  /** `entries` and what is to be found from slot `k` of the first sector left on are what the whole path
      holds; all sectors before it could be read. */
  predicate Collecting(image: seq<Byte>, path: seq<Place>, left: seq<Place>, k: nat, entries: seq<seq<Byte>>) {
    && left != [] && k < 8 && IsPath(image, left[0], left) && Linked(image, left[0])
    && (AllListed(image, left) <==> AllListed(image, path))
    && entries + Prgs(Slots(image, left, k)) == Prgs(Slots(image, path, 0))
  }

  lemma CollectingStarts(image: seq<Byte>, p: Place, path: seq<Place>)
    requires IsPath(image, p, path)
    ensures path != [] && path[0] == p
    ensures if Linked(image, p) then Collecting(image, path, path, 0, []) else !AllListed(image, path)
  {
    hide Slots, Prgs;
    assert [] + Prgs(Slots(image, path, 0)) == Prgs(Slots(image, path, 0));
  }

  lemma CollectingOn(image: seq<Byte>, path: seq<Place>, left: seq<Place>, k: nat, entries: seq<seq<Byte>>)
    requires Collecting(image, path, left, k, entries)
    ensures var block := Held(image, left[0]);
            if 32 * k + 2 >= |block| then !AllListed(image, path)
            else
              var more := Taken(entries, block, 32 * k);
              && (k < 7 ==> Collecting(image, path, left, k + 1, more))
              && (k == 7 && Next(image, left[0]).track == 0 ==>
                    AllListed(image, path) && more == Prgs(Slots(image, path, 0)))
              && (k == 7 && Next(image, left[0]).track != 0 ==>
                    && |left| > 1 && left[1] == Next(image, left[0])
                    && if Linked(image, left[1]) then Collecting(image, path, left[1..], 0, more)
                       else !AllListed(image, path))
  {
    hide Slots, Prgs, Taken, IsPath, Held, AllListed;
    var block := Held(image, left[0]);
    if 32 * k + 2 >= |block| {
      TooShort(image, left, k);
    } else {
      SlotNext(image, left, k, entries);
      if k == 7 {
        SectorEnds(image, left);
        NoSlots(image, left[1..], Taken(entries, block, 32 * k));
      }
    }
  }

  lemma TooShort(image: seq<Byte>, left: seq<Place>, k: nat)
    requires left != [] && k < 8 && 32 * k + 2 >= |Held(image, left[0])|
    ensures !AllListed(image, left)
  {
    hide Held;
  }

  lemma SectorEnds(image: seq<Byte>, left: seq<Place>)
    requires left != [] && IsPath(image, left[0], left) && |Held(image, left[0])| > 226
    ensures Linked(image, left[0])
    ensures Next(image, left[0]).track == 0 ==> left[1..] == [] && AllListed(image, left)
    ensures Next(image, left[0]).track != 0 ==>
              && |left| > 1 && left[1] == Next(image, left[0]) && IsPath(image, left[1], left[1..])
              && (AllListed(image, left[1..]) <==> AllListed(image, left))
              && (!Linked(image, left[1]) ==> !AllListed(image, left))
  {
    hide Held;
    PathTurn(image, left);
    if Next(image, left[0]).track != 0 {
      assert left[1..][0] == left[1];
    }
  }

  lemma NoSlots(image: seq<Byte>, path: seq<Place>, entries: seq<seq<Byte>>)
    ensures path == [] ==> entries + Prgs(Slots(image, path, 0)) == entries
  {
  }

  /** What one turn adds to the entries, and what is left: the sector's other slots, or the next sector. */
  lemma SlotNext(image: seq<Byte>, left: seq<Place>, k: nat, entries: seq<seq<Byte>>)
    requires left != [] && k < 8 && 32 * k + 2 < |Held(image, left[0])|
    ensures var rest := if k < 7 then Slots(image, left, k + 1) else Slots(image, left[1..], 0);
            entries + Prgs(Slots(image, left, k)) == Taken(entries, Held(image, left[0]), 32 * k) + Prgs(rest)
  {
    hide Slots, Slot, Prgs, IsPrg, Held, Taken;
    var slot := Slot(image, left[0], k);
    var rest := if k < 7 then Slots(image, left, k + 1) else Slots(image, left[1..], 0);
    SlotsFront(image, left, k);
    PrgsFront(slot, rest);
    var found := if IsPrg(slot) then [slot] else [];
    SlotTaken(image, left[0], k, entries);
    Regroup(entries, found, Prgs(rest));
  }

  lemma SlotTaken(image: seq<Byte>, p: Place, k: nat, entries: seq<seq<Byte>>)
    requires k < 8 && 32 * k + 2 < |Held(image, p)|
    ensures var slot := Slot(image, p, k);
            Taken(entries, Held(image, p), 32 * k) == entries + if IsPrg(slot) then [slot] else []
  {
    hide Held;
    assert Slot(image, p, k)[2] == Held(image, p)[32 * k + 2];
  }

  lemma SlotsFront(image: seq<Byte>, left: seq<Place>, k: nat)
    requires left != [] && k < 8
    ensures var rest := if k < 7 then Slots(image, left, k + 1) else Slots(image, left[1..], 0);
            Slots(image, left, k) == [Slot(image, left[0], k)] + rest
  {
    hide Slot;
    assert k == 7 ==> Slots(image, left, 8) == Slots(image, left[1..], 0);
  }

  lemma PrgsFront(slot: seq<Byte>, rest: seq<seq<Byte>>)
    ensures Prgs([slot] + rest) == (if IsPrg(slot) then [slot] else []) + Prgs(rest)
  {
    assert ([slot] + rest)[1..] == rest;
  }

  lemma Regroup(a: seq<seq<Byte>>, b: seq<seq<Byte>>, c: seq<seq<Byte>>)
    ensures a + (b + c) == (a + b) + c
  {
  }
}
