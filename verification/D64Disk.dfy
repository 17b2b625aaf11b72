/** The layout of a D64 disk image and files as chains of linked sectors. */
module D64Disk {
  import opened Bytes

  const BLKSIZE: nat := 256
  const TRACKS: nat := 35
  const BLOCKS: nat := 683
  const FILE_TYPE_PRG: nat := 2

  // ---------------------------------------------------------------- tracks and sectors

  /** SECTORS: 17 tracks of 21 sectors, 7 of 19, 6 of 18 and 10 of 17. */
  function SectorsOn(track: nat): nat
    requires 1 <= track <= 40
  {
    if track <= 17 then 21 else if track <= 24 then 19 else if track <= 30 then 18 else 17
  }

  /** How many blocks lie before `track`; track 0 counts like track 1. */
  function FirstBlock(track: nat): nat
    requires track <= 41
  {
    if track <= 1 then 0 else FirstBlock(track - 1) + SectorsOn(track - 1)
  }

  /** The block of a sector; beyond the table there is none. */
  function BlockOf(track: nat, sector: nat): Option<nat> {
    if track <= 41 then Some(FirstBlock(track) + sector) else None
  }

  predicate OnDisk(track: nat, sector: nat) {
    1 <= track <= TRACKS && sector < SectorsOn(track)
  }

  lemma {:induction false} FirstBlockIs(track: nat)
    requires 1 <= track <= 41
    ensures FirstBlock(track) ==
            if track <= 18 then 21 * (track - 1)
            else if track <= 25 then 357 + 19 * (track - 18)
            else if track <= 31 then 490 + 18 * (track - 25)
            else 598 + 17 * (track - 31)
  {
    if track > 1 {
      FirstBlockIs(track - 1);
    }
  }

  /** The track and sector of a block, searched from `track` on. */
  function Locate(block: nat, track: nat): (nat, nat)
    requires 1 <= track <= TRACKS && FirstBlock(track) <= block
    decreases TRACKS - track
  {
    if track == TRACKS || block < FirstBlock(track + 1) then (track, block - FirstBlock(track))
    else Locate(block, track + 1)
  }

  lemma NextTrack(track: nat)
    requires 1 <= track <= 40
    ensures FirstBlock(track + 1) == FirstBlock(track) + SectorsOn(track)
  {
  }

  lemma {:induction false} LocateIs(block: nat, track: nat)
    requires 1 <= track <= TRACKS && FirstBlock(track) <= block < BLOCKS
    ensures var (t, s) := Locate(block, track); OnDisk(t, s) && BlockOf(t, s) == Some(block)
    decreases TRACKS - track
  {
    hide FirstBlock;
    NextTrack(track);
    FirstBlockIs(TRACKS);
    if track < TRACKS && block >= FirstBlock(track + 1) {
      LocateIs(block, track + 1);
    }
  }

  lemma {:induction false} LocateBlock(t: nat, s: nat, track: nat)
    requires OnDisk(t, s) && 1 <= track <= t
    ensures FirstBlock(track) <= FirstBlock(t)
    ensures Locate(FirstBlock(t) + s, track) == (t, s)
    decreases t - track
  {
    hide FirstBlock;
    NextTrack(track);
    if track < t {
      LocateBlock(t, s, track + 1);
    }
  }

  /** Track and sector pairs of the disk and blocks 0 to 682 correspond one to one. */
  lemma BlockBijection()
    ensures forall t: nat, s: nat :: OnDisk(t, s) <==> 1 <= t <= 35 && s < SectorsOn(t)
    ensures forall t: nat, s: nat | OnDisk(t, s) :: FirstBlock(t) + s < 683 && Locate(FirstBlock(t) + s, 1) == (t, s)
    ensures forall n | 0 <= n < 683 ::
              var (t, s) := Locate(n, 1); OnDisk(t, s) && BlockOf(t, s) == Some(n)
  {
    forall t: nat, s: nat | OnDisk(t, s) ensures FirstBlock(t) + s < BLOCKS && Locate(FirstBlock(t) + s, 1) == (t, s) {
      FirstBlockIs(t);
      LocateBlock(t, s, 1);
    }
    forall n | 0 <= n < BLOCKS ensures var (t, s) := Locate(n, 1); OnDisk(t, s) && BlockOf(t, s) == Some(n) {
      LocateIs(n, 1);
    }
  }

  // ---------------------------------------------------------------- paths

  datatype Place = Place(track: Byte, sector: Byte)

  /** read_block: what the image holds there. Behind its end there is nothing, at its end an empty
      string, and a last block may be short. */
  function BlockAt(image: seq<Byte>, p: Place): (block: Option<seq<Byte>>)
    ensures block.Some? ==> |block.value| <= BLKSIZE
  {
    match BlockOf(p.track, p.sector)
    case None => None
    case Some(b) =>
      var from := b * BLKSIZE;
      if from > |image| then None
      else Some(image[from..if from + BLKSIZE <= |image| then from + BLKSIZE else |image|])
  }

  /** Its bytes, none where there is no block. */
  function Held(image: seq<Byte>, p: Place): (bytes: seq<Byte>)
    ensures |bytes| <= BLKSIZE
  {
    match BlockAt(image, p) case None => [] case Some(block) => block
  }

  predicate Whole(image: seq<Byte>, p: Place) {
    |Held(image, p)| == BLKSIZE
  }

  lemma WholeIs(image: seq<Byte>, p: Place)
    ensures Whole(image, p) <==> p.track <= 41 && (FirstBlock(p.track) + p.sector + 1) * BLKSIZE <= |image|
  {
  }

  /** Every sector of a standard image can be read, and no other place without running off its end. */
  lemma StandardImage(image: seq<Byte>, p: Place)
    requires |image| == 174848
    ensures 1 <= p.track <= 35 && p.sector < SectorsOn(p.track) ==> |Held(image, p)| == 256
    ensures |Held(image, p)| == 256 <==> p.track <= 41 && FirstBlock(p.track) + p.sector < 683
  {
    WholeIs(image, p);
    if 1 <= p.track <= 41 {
      FirstBlockIs(p.track);
    }
  }

  /** The bytes of a sector lie in the image behind those of all blocks before it, as far as it goes; the
      eight slots of a directory sector are its parts of 32 bytes. */
  lemma SectorLies(image: seq<Byte>, p: Place)
    ensures var from := 256 * (if p.track <= 41 then FirstBlock(p.track) + p.sector else |image|);
            && (from + 256 <= |image| <==> |Held(image, p)| == 256)
            && (|Held(image, p)| < 256 && Held(image, p) != [] ==> from + |Held(image, p)| == |image|)
            && (BlockAt(image, p) == None <==> p.track > 41 || from > |image|)
            && forall k :: 0 <= k < |Held(image, p)| ==> Held(image, p)[k] == image[from + k]
    ensures |Held(image, p)| == 256 ==>
              forall k | 0 <= k < 8 :: Slot(image, p, k) == Held(image, p)[32 * k..32 * k + 32]
  {
  }

  /** The link of a block can be read. */
  predicate Linked(image: seq<Byte>, p: Place) {
    |Held(image, p)| >= 2
  }

  function Next(image: seq<Byte>, p: Place): Place
    requires Linked(image, p)
  {
    Place(Held(image, p)[0], Held(image, p)[1])
  }

  /** `path` starts at `p` and follows the links, up to one that names track 0 or to a place that holds
      no link. */
  predicate IsPath(image: seq<Byte>, p: Place, path: seq<Place>)
    decreases |path|
  {
    && path != [] && path[0] == p
    && if |path| == 1 then Linked(image, p) ==> Next(image, p).track == 0
       else Linked(image, p) && Next(image, p).track != 0 && IsPath(image, Next(image, p), path[1..])
  }

  /** It is a link to track 0 that the path ends with. */
  predicate Ends(image: seq<Byte>, path: seq<Place>)
    requires path != []
  {
    Linked(image, path[|path| - 1])
  }

  predicate AllLinked(image: seq<Byte>, path: seq<Place>) {
    forall k :: 0 <= k < |path| ==> Linked(image, path[k])
  }

  function Block(image: seq<Byte>, p: Place): nat
    requires Linked(image, p)
  {
    FirstBlock(p.track) + p.sector
  }

  lemma SameBlock(image: seq<Byte>, p: Place, q: Place)
    requires Linked(image, p) && Linked(image, q) && Block(image, p) == Block(image, q)
    ensures Next(image, p) == Next(image, q)
  {
  }

  lemma {:induction false} PathUnique(image: seq<Byte>, p: Place, a: seq<Place>, b: seq<Place>)
    requires IsPath(image, p, a) && IsPath(image, p, b)
    ensures a == b
    decreases |a|
  {
    if |a| > 1 && |b| > 1 {
      PathUnique(image, Next(image, p), a[1..], b[1..]);
      assert a == [p] + a[1..] && b == [p] + b[1..];
    }
  }

  lemma {:induction false} PathHolds(image: seq<Byte>, p: Place, path: seq<Place>, k: nat)
    requires IsPath(image, p, path) && k < |path|
    ensures IsPath(image, path[k], path[k..])
    ensures k + 1 < |path| ==> Linked(image, path[k]) && Next(image, path[k]) == path[k + 1] && path[k + 1].track != 0
    decreases k
  {
    if k == 0 {
      assert path[0..] == path;
    } else {
      PathHolds(image, Next(image, p), path[1..], k - 1);
      assert path[1..][k - 1..] == path[k..];
    }
  }

  lemma EndsLinked(image: seq<Byte>, p: Place, path: seq<Place>)
    requires IsPath(image, p, path) && Ends(image, path)
    ensures AllLinked(image, path)
  {
    forall k | 0 <= k < |path| ensures Linked(image, path[k]) {
      PathHolds(image, p, path, k);
    }
  }

  /** A path never comes back to a block: it visits each of its sectors once. */
  lemma Acyclic(image: seq<Byte>, p: Place, path: seq<Place>, i: nat, j: nat)
    requires IsPath(image, p, path) && i < j < |path|
    ensures Linked(image, path[i])
    ensures Linked(image, path[j]) ==> Block(image, path[i]) != Block(image, path[j])
  {
    PathHolds(image, p, path, i);
    PathHolds(image, p, path, j);
    if Linked(image, path[j]) && Block(image, path[i]) == Block(image, path[j]) {
      SameBlock(image, path[i], path[j]);
      if j + 1 < |path| {
        PathHolds(image, p, path, i + 1);
        PathHolds(image, p, path, j + 1);
        PathUnique(image, path[i + 1], path[i + 1..], path[j + 1..]);
      }
    }
  }

  /** How many blocks of the image hold a link. */
  function Links(image: seq<Byte>): nat {
    (|image| + BLKSIZE - 2) / BLKSIZE
  }

  lemma LinkedIs(image: seq<Byte>, p: Place)
    requires Linked(image, p)
    ensures Block(image, p) < Links(image)
  {
  }

  /** So it has no more links than the image. */
  lemma PathFits(image: seq<Byte>, p: Place, path: seq<Place>)
    requires IsPath(image, p, path)
    ensures |path| <= Links(image) + if Ends(image, path) then 0 else 1
    ensures Links(image) == (|image| + 254) / 256
  {
    var n := if Ends(image, path) then |path| else |path| - 1;
    forall k | 0 <= k < n ensures Linked(image, path[k]) {
      PathHolds(image, p, path, k);
    }
    var blocks := seq(n, k requires 0 <= k < n => Block(image, path[k]));
    forall i, j | 0 <= i < j < |blocks| ensures blocks[i] != blocks[j] {
      Acyclic(image, p, path, i, j);
    }
    forall k | 0 <= k < |blocks| ensures blocks[k] < Links(image) {
      LinkedIs(image, path[k]);
    }
    Pigeons(blocks, Links(image));
  }

  lemma {:induction false} Pigeons(s: seq<nat>, n: nat)
    requires forall k :: 0 <= k < |s| ==> s[k] < n
    requires forall i, j :: 0 <= i < j < |s| ==> s[i] != s[j]
    ensures |s| <= n
    decreases n
  {
    if |s| > 0 {
      assert s[0] < n;
      // without the value n - 1, what is left fits below it
      if k :| 0 <= k < |s| && s[k] == n - 1 {
        Pigeons(s[..k] + s[k + 1..], n - 1);
      } else {
        Pigeons(s, n - 1);
      }
    }
  }

  /** Following links, at most `fuel` places. */
  function Follow(image: seq<Byte>, p: Place, fuel: nat): Option<seq<Place>>
    decreases fuel
  {
    if fuel == 0 then None
    else if !Linked(image, p) || Next(image, p).track == 0 then Some([p])
    else match Follow(image, Next(image, p), fuel - 1)
      case None => None
      case Some(rest) => Some([p] + rest)
  }

  lemma {:induction false} FollowFinds(image: seq<Byte>, p: Place, path: seq<Place>, fuel: nat)
    requires IsPath(image, p, path) && |path| <= fuel
    ensures Follow(image, p, fuel) == Some(path)
    decreases |path|
  {
    if |path| == 1 {
      assert path == [p];
    } else {
      FollowFinds(image, Next(image, p), path[1..], fuel - 1);
      assert path == [p] + path[1..];
    }
  }

  lemma {:induction false} FollowIsPath(image: seq<Byte>, p: Place, fuel: nat)
    requires Follow(image, p, fuel).Some?
    ensures IsPath(image, p, Follow(image, p, fuel).value)
    decreases fuel
  {
    if Linked(image, p) && Next(image, p).track != 0 {
      FollowIsPath(image, Next(image, p), fuel - 1);
      var rest := Follow(image, Next(image, p), fuel - 1).value;
      assert ([p] + rest)[1..] == rest;
    }
  }

  /** There is a path exactly when following as many links as the image has, and one more, finds it; and
      it is the only one. Otherwise the links go round in a circle. */
  lemma PathExists(image: seq<Byte>, p: Place)
    ensures var found := Follow(image, p, Links(image) + 1);
            && (found.Some? ==> IsPath(image, p, found.value))
            && (forall path | IsPath(image, p, path) :: found == Some(path))
  {
    var fuel := Links(image) + 1;
    if Follow(image, p, fuel).Some? {
      FollowIsPath(image, p, fuel);
    }
    forall path | IsPath(image, p, path) ensures Follow(image, p, fuel) == Some(path) {
      PathFits(image, p, path);
      FollowFinds(image, p, path, fuel);
    }
  }

  // ---------------------------------------------------------------- files

  /** `tmp[2..sector]` */
  function UpTo(block: seq<Byte>, sector: Byte): seq<Byte>
    requires |block| >= 2
  {
    if sector < 2 then [] else block[2..if sector as nat < |block| then sector as nat + 1 else |block|]
  }

  /** What follows the link of a sector, of the last one up to the index its link names. */
  function Payload(image: seq<Byte>, p: Place): seq<Byte>
    requires Linked(image, p)
  {
    var block, next := Held(image, p), Next(image, p);
    if next.track != 0 then block[2..] else UpTo(block, next.sector)
  }

  function Contents(image: seq<Byte>, path: seq<Place>): seq<Byte>
    requires AllLinked(image, path)
  {
    if path == [] then [] else Payload(image, path[0]) + Contents(image, path[1..])
  }

  /** A file laid out in sectors: 254 bytes and a link in each but the last; the last one's link holds
      track 0 and the index of its last byte. */
  predicate Stored(image: seq<Byte>, path: seq<Place>, file: seq<Byte>) {
    && path != [] && Whole(image, path[0])
    && var block := Held(image, path[0]);
       if |path| == 1 then
         |file| <= 254 && block[0] == 0 && block[1] == |file| + 1 && block[2..2 + |file|] == file
       else
         && |file| >= 254 && path[1].track != 0 && Place(block[0], block[1]) == path[1]
         && block[2..] == file[..254] && Stored(image, path[1..], file[254..])
  }

  /** A stored file is a path to its end, and reading the path gives the file back. */
  lemma {:induction false} StoredReads(image: seq<Byte>, path: seq<Place>, file: seq<Byte>)
    requires Stored(image, path, file)
    ensures IsPath(image, path[0], path) && Ends(image, path) && AllLinked(image, path)
    ensures Contents(image, path) == file
    decreases |path|
  {
    hide Held;
    if |path| == 1 {
      assert path[1..] == [];
      assert Payload(image, path[0]) == file;
    } else {
      StoredReads(image, path[1..], file[254..]);
      EndsLinked(image, path[0], path);
      assert file == file[..254] + file[254..];
    }
  }

  // ---------------------------------------------------------------- directories

  /** Slot `k` of a sector, cut short where the block is. */
  function Slot(image: seq<Byte>, p: Place, k: nat): seq<Byte> {
    SlotOf(Held(image, p), 32 * k)
  }

  function SlotOf(block: seq<Byte>, offset: nat): seq<Byte> {
    if offset > |block| then [] else block[offset..if offset + 32 <= |block| then offset + 32 else |block|]
  }

  /** The type of each of the eight slots can be read. */
  predicate Listed(image: seq<Byte>, p: Place) {
    |Held(image, p)| > 226
  }

  predicate AllListed(image: seq<Byte>, path: seq<Place>) {
    path == [] || (Listed(image, path[0]) && AllListed(image, path[1..]))
  }

  predicate IsPrg(slot: seq<Byte>) {
    |slot| > 2 && slot[2] % 16 == FILE_TYPE_PRG
  }

  /** The eight slots of each sector in turn, from slot `k` of the first on. */
  function Slots(image: seq<Byte>, path: seq<Place>, k: nat): seq<seq<Byte>>
    requires k <= 8
    decreases |path|, 8 - k
  {
    if path == [] then []
    else if k == 8 then Slots(image, path[1..], 0)
    else [Slot(image, path[0], k)] + Slots(image, path, k + 1)
  }

  function Prgs(slots: seq<seq<Byte>>): seq<seq<Byte>> {
    if slots == [] then [] else (if IsPrg(slots[0]) then [slots[0]] else []) + Prgs(slots[1..])
  }

  /** The slots of a sector are there in order, and a directory of n sectors has 8 n of them. */
  lemma {:induction false} SlotsInOrder(image: seq<Byte>, path: seq<Place>, k: nat, i: nat, j: nat)
    requires k <= 8 && i < |path| && j < 8 && 8 * i + j >= k
    ensures |Slots(image, path, k)| == 8 * |path| - k
    ensures Slots(image, path, k)[8 * i + j - k] == Slot(image, path[i], j)
    decreases |path|, 8 - k
  {
    hide Slot;
    SlotsCount(image, path, k);
    if k == 8 {
      SlotsInOrder(image, path[1..], 0, i - 1, j);
    } else {
      var rest := Slots(image, path, k + 1);
      assert Slots(image, path, k) == [Slot(image, path[0], k)] + rest;
      if 8 * i + j > k {
        SlotsInOrder(image, path, k + 1, i, j);
      }
    }
  }

  lemma {:induction false} SlotsCount(image: seq<Byte>, path: seq<Place>, k: nat)
    requires k <= 8
    ensures |Slots(image, path, k)| == if path == [] then 0 else 8 * |path| - k
    decreases |path|, 8 - k
  {
    hide Slot;
    if path == [] {
    } else if k == 8 {
      SlotsCount(image, path[1..], 0);
    } else {
      SlotsCount(image, path, k + 1);
    }
  }

  /** Every PRG slot is found, in its place among the others. */
  lemma {:induction false} PrgsAt(slots: seq<seq<Byte>>, i: nat)
    requires i < |slots| && |slots[i]| > 2 && slots[i][2] % 16 == 2
    ensures |Prgs(slots[..i])| < |Prgs(slots)| && Prgs(slots)[|Prgs(slots[..i])|] == slots[i]
  {
    if i > 0 {
      PrgsAt(slots[1..], i - 1);
      assert slots[..i][1..] == slots[1..][..i - 1];
    }
  }

  /** And nothing else is found. */
  lemma {:induction false} PrgsFrom(slots: seq<seq<Byte>>, j: nat) returns (i: nat)
    requires j < |Prgs(slots)|
    ensures i < |slots| && |slots[i]| > 2 && slots[i][2] % 16 == 2
    ensures |Prgs(slots[..i])| == j && Prgs(slots)[j] == slots[i]
  {
    if IsPrg(slots[0]) && j == 0 {
      i := 0;
    } else {
      i := PrgsFrom(slots[1..], if IsPrg(slots[0]) then j - 1 else j);
      i := i + 1;
      assert slots[..i][1..] == slots[1..][..i - 1];
    }
  }
}
