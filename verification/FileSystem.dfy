/** The file system as a whole (filesys/filesys.c, filesys/free-map.c, the opening and closing half of
    filesys/inode.c, filesys/file.c): which sectors are in use and by whom, over any run of create,
    open, reopen, remove and close. */
module FileSystem {
  import opened Options
  import opened Directory
  import Bitmap
  import Bytes
  import Lists
  import InodeIO
  import Machine

  const FREE_MAP_SECTOR := 0
  const ROOT_DIR_SECTOR := 1
  const ROOT_ENTRIES := 16

  type Inode = InodeIO.Inode

  /** The inode as it is kept on disk. */
  datatype DiskInode = DiskInode(start: nat, length: nat)

  /** Who uses a sector: the file whose inode is in sector `header`, or no file. */
  datatype Owner = Of(header: nat) | Nobody

  function Range(start: nat, cnt: nat): (r: set<nat>)
    ensures forall s :: s in r <==> start <= s < start + cnt
  {
    if cnt == 0 then {} else Range(start, cnt - 1) + {start + cnt - 1}
  }

  /** The sectors of a file: its inode's and its data's. */
  function Sectors(header: nat, d: DiskInode): (r: set<nat>)
    ensures forall s :: s in r <==> s == header || d.start <= s < d.start + InodeIO.BytesToSectors(d.length)
  {
    {header} + Range(d.start, InodeIO.BytesToSectors(d.length))
  }

  /** The data of the inode lies on a device of `size` sectors, outside the sector of the inode itself. */
  predicate Extent(h: nat, d: DiskInode, size: nat) {
    d.start + InodeIO.BytesToSectors(d.length) <= size && !(d.start <= h < d.start + InodeIO.BytesToSectors(d.length))
  }

  /** The bit map marks the owned sectors, and every live file owns exactly its sectors. */
  ghost predicate DiskOk(freeMap: seq<bool>, owner: map<nat, Owner>, headers: map<nat, DiskInode>, live: set<nat>) {
    && (forall s: nat :: s in owner <==> s < |freeMap| && freeMap[s])
    && (forall h | h in live :: h in headers && Extent(h, headers[h], |freeMap|))
    && (forall h, s | h in live && s in Sectors(h, headers[h]) :: s in owner && owner[s] == Of(h))
    && (forall s | s in owner && owner[s].Of? ::
         owner[s].header in live && s in Sectors(owner[s].header, headers[owner[s].header]))
  }

  function Orphans(owner: map<nat, Owner>): set<nat> {
    set s | s in owner && owner[s] == Nobody
  }

  predicate NamesSector(slots: seq<Entry>, k: int, h: nat) {
    0 <= k < |slots| && slots[k].inUse && slots[k].sector == h
  }

  ghost predicate HasName(slots: seq<Entry>, h: nat) { exists k :: NamesSector(slots, k, h) }

  predicate IsSystem(h: nat) { h == FREE_MAP_SECTOR || h == ROOT_DIR_SECTOR }

  /** Each file has one name, and the system files have none. */
  ghost predicate NamesOk(slots: seq<Entry>) {
    && UniqueNames(slots)
    && (forall k | 0 <= k < |slots| && slots[k].inUse :: !IsSystem(slots[k].sector))
    && (forall j, k, h | NamesSector(slots, j, h) && NamesSector(slots, k, h) :: j == k)
  }

  class File {
    const inode: Inode
    ghost const ref: nat
    var pos: nat
    var denyWrite: bool

    /** file_open. */
    constructor (inode: Inode, ghost ref: nat)
      ensures this.inode == inode && this.ref == ref && pos == 0 && !denyWrite
    {
      this.inode, this.ref := inode, ref;
      pos, denyWrite := 0, false;
    }

    /** file_read: the bytes from the current position on, which moves past them, so that the next read
        goes on where this one ended. */
    method Read(dev: InodeIO.BlockDevice, buffer: array<Bytes.Byte>, size: int) returns (bytesRead: nat)
      requires inode.FitsOn(dev) && size <= buffer.Length && Machine.IsInt32(inode.length) && Machine.IsInt32(pos)
      modifies buffer, this`pos
      ensures bytesRead == InodeIO.Transfer(size, old(pos), inode.length) && pos == old(pos) + bytesRead
      ensures buffer[..] == InodeIO.Splice(old(buffer[..]), 0, inode.Piece(dev, old(pos), bytesRead))
      ensures Machine.IsInt32(pos)
    {
      bytesRead := inode.ReadAt(dev, buffer, size, pos);
      pos := pos + bytesRead;
    }

    /** file_write. */
    method Write(dev: InodeIO.BlockDevice, buffer: array<Bytes.Byte>, size: int) returns (bytesWritten: nat)
      requires inode.FitsOn(dev) && size <= buffer.Length && Machine.IsInt32(inode.length) && Machine.IsInt32(pos)
      modifies dev, this`pos
      ensures bytesWritten == if inode.denyWriteCnt > 0 then 0 else InodeIO.Transfer(size, old(pos), inode.length)
      ensures pos == old(pos) + bytesWritten && Machine.IsInt32(pos) && |dev.sectors| == |old(dev.sectors)|
      ensures InodeIO.Flat(dev.sectors) ==
        inode.Patched(old(InodeIO.Flat(dev.sectors)), old(pos), buffer[..bytesWritten])
    {
      bytesWritten := inode.WriteAt(dev, buffer, size, pos);
      pos := pos + bytesWritten;
    }
  }

  // ---- sectors changing hands ----

  function Assign(owner: map<nat, Owner>, sectors: set<nat>, o: Owner): (r: map<nat, Owner>)
    ensures forall s :: s in r <==> s in owner || s in sectors
    ensures forall s | s in r :: r[s] == if s in sectors then o else owner[s]
  {
    owner + map s | s in sectors :: o
  }

  lemma AllocateKeepsDisk(freeMap: seq<bool>, owner: map<nat, Owner>, headers: map<nat, DiskInode>, live: set<nat>,
                          start: nat, cnt: nat)
    requires DiskOk(freeMap, owner, headers, live) && Bitmap.Fits(freeMap, start, cnt)
    ensures DiskOk(Bitmap.SetMultiple(freeMap, start, cnt, true), Assign(owner, Range(start, cnt), Nobody),
      headers, live)
  {
    hide InodeIO.BytesToSectors, Range, Sectors, Assign, Bitmap.SetMultiple;
  }

  lemma ReleaseKeepsDisk(freeMap: seq<bool>, owner: map<nat, Owner>, headers: map<nat, DiskInode>, live: set<nat>,
                         start: nat, cnt: nat)
    requires DiskOk(freeMap, owner, headers, live) && start + cnt <= |freeMap| && Range(start, cnt) <= Orphans(owner)
    ensures DiskOk(Bitmap.SetMultiple(freeMap, start, cnt, false), owner - Range(start, cnt), headers, live)
  {
    hide InodeIO.BytesToSectors, Range, Sectors, Assign, Bitmap.SetMultiple;
  }

  /** A file comes to life: the sectors allocated for it become its own. */
  lemma AdoptKeepsDisk(freeMap: seq<bool>, owner: map<nat, Owner>, headers: map<nat, DiskInode>, live: set<nat>, h: nat)
    requires DiskOk(freeMap, owner, headers, live) && h in headers
    requires Extent(h, headers[h], |freeMap|) && Sectors(h, headers[h]) <= Orphans(owner)
    ensures DiskOk(freeMap, Assign(owner, Sectors(h, headers[h]), Of(h)), headers, live + {h})
  {
    hide InodeIO.BytesToSectors, Range, Sectors, Assign, Bitmap.SetMultiple;
  }

  /** A file ceases to exist: its sectors are nobody's, until they are released. */
  lemma DisownKeepsDisk(freeMap: seq<bool>, owner: map<nat, Owner>, headers: map<nat, DiskInode>, live: set<nat>,
                        h: nat)
    requires DiskOk(freeMap, owner, headers, live) && h in live
    ensures DiskOk(freeMap, Assign(owner, Sectors(h, headers[h]), Nobody), headers, live - {h})
    ensures Sectors(h, headers[h]) <= Orphans(Assign(owner, Sectors(h, headers[h]), Nobody))
  {
    hide InodeIO.BytesToSectors, Range, Sectors, Assign, Bitmap.SetMultiple;
  }

  lemma NewHeaderKeepsDisk(freeMap: seq<bool>, owner: map<nat, Owner>, headers: map<nat, DiskInode>, live: set<nat>,
                           h: nat, d: DiskInode)
    requires DiskOk(freeMap, owner, headers, live) && h in Orphans(owner)
    ensures h !in live && DiskOk(freeMap, owner, headers[h := d], live)
  {
    hide InodeIO.BytesToSectors, Range, Sectors;
    LiveIsOwned(freeMap, owner, headers, live, h);
  }

  lemma LiveIsOwned(freeMap: seq<bool>, owner: map<nat, Owner>, headers: map<nat, DiskInode>, live: set<nat>, h: nat)
    requires DiskOk(freeMap, owner, headers, live)
    ensures h in live ==> h in owner && owner[h] == Of(h) && h in headers
    ensures h in live ==> h < |freeMap| && Extent(h, headers[h], |freeMap|)
  {
    if h in live {
      assert h in Sectors(h, headers[h]);
    }
  }

  /** Live files do not share sectors, and the sectors in use are those of the live files and those
      that no file owns. */
  lemma SectorsAreDisjoint(freeMap: seq<bool>, owner: map<nat, Owner>, headers: map<nat, DiskInode>, live: set<nat>)
    requires DiskOk(freeMap, owner, headers, live)
    ensures forall g, h | g in live && h in live && g != h :: Sectors(g, headers[g]) !! Sectors(h, headers[h])
    ensures forall s | 0 <= s < |freeMap| :: freeMap[s] <==>
      s in Orphans(owner) || exists h :: h in live && s in Sectors(h, headers[h])
    ensures forall h | h in live :: Sectors(h, headers[h]) !! Orphans(owner)
  {
    hide InodeIO.BytesToSectors, Range, Sectors;
    forall g, h | g in live && h in live && g != h
      ensures Sectors(g, headers[g]) !! Sectors(h, headers[h])
    {
      TwoFilesAreDisjoint(freeMap, owner, headers, live, g, h);
    }
    forall s | 0 <= s < |freeMap| && freeMap[s]
      ensures s in Orphans(owner) || exists h :: h in live && s in Sectors(h, headers[h])
    {
      if owner[s].Of? {
        assert owner[s].header in live && s in Sectors(owner[s].header, headers[owner[s].header]);
      }
    }
  }

  lemma TwoFilesAreDisjoint(freeMap: seq<bool>, owner: map<nat, Owner>, headers: map<nat, DiskInode>, live: set<nat>,
                            g: nat, h: nat)
    requires DiskOk(freeMap, owner, headers, live) && g in live && h in live && g != h
    ensures Sectors(g, headers[g]) !! Sectors(h, headers[h])
  {
    hide InodeIO.BytesToSectors, Range, Sectors;
    forall s | s in Sectors(g, headers[g])
      ensures s !in Sectors(h, headers[h])
    {
      assert owner[s] == Of(g);
    }
  }

  /** Giving a name to a sector that has none. */
  lemma NameKeepsNames(slots: seq<Entry>, k: nat, name: string, h: nat)
    requires NamesOk(slots) && k < |slots| && !slots[k].inUse && !HasName(slots, h) && !IsSystem(h)
    requires UniqueNames(slots[k := Entry(h, name, true)])
    ensures NamesOk(slots[k := Entry(h, name, true)])
    ensures forall x :: HasName(slots[k := Entry(h, name, true)], x) <==> HasName(slots, x) || x == h
  {
    var after := slots[k := Entry(h, name, true)];
    assert forall j, x | j != k :: NamesSector(after, j, x) <==> NamesSector(slots, j, x);
    assert NamesSector(after, k, h);
    forall x
      ensures HasName(after, x) <==> HasName(slots, x) || x == h
    {
      if HasName(slots, x) {
        var j :| NamesSector(slots, j, x);
        assert NamesSector(after, j, x);
      }
    }
  }

  /** Taking the name of a sector away. */
  lemma EraseKeepsNames(slots: seq<Entry>, k: nat)
    requires NamesOk(slots) && k < |slots| && slots[k].inUse && UniqueNames(slots[k := slots[k].(inUse := false)])
    ensures NamesOk(slots[k := slots[k].(inUse := false)])
    ensures forall x :: HasName(slots[k := slots[k].(inUse := false)], x) <==> HasName(slots, x) && x != slots[k].sector
  {
    var after := slots[k := slots[k].(inUse := false)];
    assert forall j, x | j != k :: NamesSector(after, j, x) <==> NamesSector(slots, j, x);
    assert NamesSector(slots, k, slots[k].sector);
    forall x
      ensures HasName(after, x) <==> HasName(slots, x) && x != slots[k].sector
    {
      if HasName(slots, x) && x != slots[k].sector {
        var j :| NamesSector(slots, j, x);
        assert NamesSector(after, j, x);
      }
    }
  }

  /** Taking a free sector and giving it back. */
  lemma TakenAndGiven(freeMap: seq<bool>, owner: map<nat, Owner>, headers: map<nat, DiskInode>, live: set<nat>, h: nat)
    requires DiskOk(freeMap, owner, headers, live) && Bitmap.Fits(freeMap, h, 1)
    ensures h < |freeMap| && h in Orphans(Assign(owner, Range(h, 1), Nobody))
    ensures Range(h, 1) <= Orphans(Assign(owner, Range(h, 1), Nobody))
    ensures Assign(owner, Range(h, 1), Nobody) - Range(h, 1) == owner
  {
    hide Range, Assign;
    assert !freeMap[h];
  }

  /** The two allocations of a new file: what they take was free, and nobody owns it yet. */
  lemma CreatedSectors(freeMap: seq<bool>, owner: map<nat, Owner>, headers: map<nat, DiskInode>, live: set<nat>,
                       h: nat, start: nat, size: nat)
    requires DiskOk(freeMap, owner, headers, live) && Bitmap.Fits(freeMap, h, 1)
    requires Bitmap.Fits(Bitmap.SetMultiple(freeMap, h, 1, true), start, InodeIO.BytesToSectors(size))
    ensures Extent(h, DiskInode(start, size), |freeMap|) && start + InodeIO.BytesToSectors(size) <= |freeMap|
    ensures h !in live && Sectors(h, DiskInode(start, size)) !! owner.Keys
    ensures var taken := Assign(owner, Range(h, 1), Nobody);
      var owner' := Assign(taken, Range(start, InodeIO.BytesToSectors(size)), Nobody);
      && owner' == Assign(owner, Sectors(h, DiskInode(start, size)), Nobody)
      && Sectors(h, DiskInode(start, size)) <= Orphans(owner') && Range(h, 1) <= Orphans(owner')
      && owner' - Range(h, 1) == Assign(owner, Range(start, InodeIO.BytesToSectors(size)), Nobody)
  {
    hide InodeIO.BytesToSectors, Range, Sectors, Assign, Bitmap.SetMultiple;
    assert !freeMap[h];
    LiveIsOwned(freeMap, owner, headers, live, h);
    assert forall k | start <= k < start + InodeIO.BytesToSectors(size) :: !Bitmap.SetMultiple(freeMap, h, 1, true)[k];
  }

  /** The state of the file system apart from what is open. */
  datatype Disk = Disk(
    freeMap: seq<bool>, slots: seq<Entry>, headers: map<nat, DiskInode>, owner: map<nat, Owner>, live: set<nat>,
    leaked: set<nat>)

  /** What filesys_create does.  It succeeds exactly if there is room and the directory takes the name;
      then the sectors of the new file, which were free, are its own.  It changes nothing but an
      unused sector if there is no room.  If only the directory refuses, the inode's sector is given
      back but the data's sectors stay marked, and no file owns them any more.  The inodes of the files
      that were there are never changed. */
  ghost predicate Created(d: Disk, d': Disk, name: string, size: nat, success: bool, header: nat, start: nat)
    requires UniqueNames(d.slots) && UniqueNames(d'.slots)
  {
    var cnt := InodeIO.BytesToSectors(size);
    var room := RoomFor(d.freeMap, cnt);
    && |d'.freeMap| == |d.freeMap| && SameHeaders(d, d')
    && (success <==> room && ValidName(name) && name !in Bindings(d.slots) && !Full(d.slots))
    && (if success then
          && AddsEntry(d.slots, d'.slots, name, header) && Bindings(d'.slots) == Bindings(d.slots)[name := header]
          && d'.live == d.live + {header} && d'.headers == d.headers[header := DiskInode(start, size)]
          && Sectors(header, DiskInode(start, size)) !! d.owner.Keys
          && d'.owner == Assign(d.owner, Sectors(header, DiskInode(start, size)), Of(header))
          && d'.leaked == d.leaked
        else if room then
          && d'.slots == d.slots && d'.live == d.live && Range(start, cnt) !! d.owner.Keys
          && d'.owner == Assign(d.owner, Range(start, cnt), Nobody) && d'.leaked == d.leaked + Range(start, cnt)
        else
          d'.slots == d.slots && d'.live == d.live && d'.owner == d.owner && d'.leaked == d.leaked)
  }

  ghost predicate SameHeaders(d: Disk, d': Disk) {
    forall h | h in d.live && h in d.headers :: h in d'.headers && d'.headers[h] == d.headers[h]
  }

  /** What filesys_remove does to a name that is bound: exactly that binding goes.  A file that is open
      keeps its sectors for now; otherwise they are released, and nothing else is. */
  ghost predicate Removed(d: Disk, d': Disk, name: string, wasOpen: bool)
    requires UniqueNames(d.slots) && UniqueNames(d'.slots) && name in Bindings(d.slots)
  {
    var h := Bindings(d.slots)[name];
    && ErasesEntry(d.slots, d'.slots, name) && Bindings(d'.slots) == Bindings(d.slots) - {name}
    && |d'.freeMap| == |d.freeMap| && d'.headers == d.headers && h in d.headers && d'.leaked == d.leaked
    && (if wasOpen then d'.freeMap == d.freeMap && d'.owner == d.owner && d'.live == d.live
        else d'.live == d.live - {h} && d'.owner == d.owner - Sectors(h, d.headers[h]))
  }

  /** No sector that is in use is without a file, but for those that refused creations left behind. */
  ghost predicate NoneLost(d: Disk) { Orphans(d.owner) == d.leaked }

  lemma CreatedLosesNone(d: Disk, d': Disk, name: string, size: nat, success: bool, header: nat, start: nat)
    requires UniqueNames(d.slots) && UniqueNames(d'.slots) && NoneLost(d)
    requires Created(d, d', name, size, success, header, start)
    ensures NoneLost(d')
  {
    hide Range, Sectors, Assign, InodeIO.BytesToSectors, RoomFor, UniqueNames, Directory.Bindings;
  }

  lemma RemovedLosesNone(d: Disk, d': Disk, name: string, wasOpen: bool)
    requires UniqueNames(d.slots) && UniqueNames(d'.slots) && name in Bindings(d.slots) && NoneLost(d)
    requires DiskOk(d.freeMap, d.owner, d.headers, d.live) && Bindings(d.slots)[name] in d.live
    requires Removed(d, d', name, wasOpen)
    ensures NoneLost(d')
  {
    SectorsAreDisjoint(d.freeMap, d.owner, d.headers, d.live);
    hide Sectors, UniqueNames, Directory.Bindings, DiskOk;
  }

  // ---- the running system ----

  /** A sector for an inode can be had and, after the lowest one is taken, so many for its data. */
  ghost predicate RoomFor(freeMap: seq<bool>, cnt: nat) {
    exists h: nat, s: nat ::
      && Bitmap.Fits(freeMap, h, 1) && (forall k: nat | k < h :: !Bitmap.Fits(freeMap, k, 1))
      && Bitmap.Fits(Bitmap.SetMultiple(freeMap, h, 1, true), s, cnt)
  }

  lemma NoRoom(freeMap: seq<bool>, cnt: nat)
    requires forall s: nat :: !Bitmap.Fits(freeMap, s, 1)
    ensures !RoomFor(freeMap, cnt)
  {}

  lemma RoomAfter(freeMap: seq<bool>, h: nat, cnt: nat)
    requires Bitmap.Fits(freeMap, h, 1) && forall k: nat | k < h :: !Bitmap.Fits(freeMap, k, 1)
    ensures RoomFor(freeMap, cnt) <==> exists s: nat :: Bitmap.Fits(Bitmap.SetMultiple(freeMap, h, 1, true), s, cnt)
  {
    hide Bitmap.SetMultiple, Bitmap.All;
    if RoomFor(freeMap, cnt) {
      var h': nat, s: nat :|
        && Bitmap.Fits(freeMap, h', 1) && (forall k: nat | k < h' :: !Bitmap.Fits(freeMap, k, 1))
        && Bitmap.Fits(Bitmap.SetMultiple(freeMap, h', 1, true), s, cnt);
      assert h' == h;
    }
  }

  /** bitmap_file_size: one 32-bit word for every 32 sectors or part of it. */
  function FreeMapBytes(size: nat): nat { 4 * ((size + 31) / 32) }

  lemma RootFitsInOneSector()
    ensures InodeIO.BytesToSectors(ROOT_ENTRIES * ENTRY_SIZE) == 1
  {}

  /** A map whose first `k` sectors are in use. */
  function UsedUpTo(size: nat, k: nat): (bits: seq<bool>)
    requires k <= size
    ensures |bits| == size && forall s | 0 <= s < size :: bits[s] <==> s < k
  {
    Bitmap.SetMultiple(seq(size, _ => false), 0, k, true)
  }

  /** The map of a formatted device: the sectors of the system files come first. */
  function FormattedMap(size: nat): (bits: seq<bool>)
    requires InodeIO.BytesToSectors(FreeMapBytes(size)) + 3 <= size
    ensures |bits| == size
  {
    UsedUpTo(size, InodeIO.BytesToSectors(FreeMapBytes(size)) + 3)
  }

  /** Behind used sectors the next allocation comes next. */
  lemma NextFree(size: nat, k: nat, n: nat)
    requires k + n <= size && n > 0
    ensures Bitmap.Fits(UsedUpTo(size, k), k, n)
    ensures forall s: nat | s < k :: !Bitmap.Fits(UsedUpTo(size, k), s, n)
    ensures Bitmap.SetMultiple(UsedUpTo(size, k), k, n, true) == UsedUpTo(size, k + n)
  {
    hide UsedUpTo, Bitmap.SetMultiple;
    forall s: nat | s < k
      ensures !Bitmap.Fits(UsedUpTo(size, k), s, n)
    {
      assert UsedUpTo(size, k)[s];
    }
  }

  /** Allocates sectors of a map that is used up to there. */
  method TakeNext(bits: seq<bool>, ghost own: map<nat, Owner>, ghost k: nat, n: nat)
    returns (start: nat, bits': seq<bool>, ghost own': map<nat, Owner>)
    requires n > 0 && k + n <= |bits| && bits == UsedUpTo(|bits|, k) && DiskOk(bits, own, map[], {})
    ensures start == k && bits' == UsedUpTo(|bits|, k + n) && DiskOk(bits', own', map[], {})
    ensures own'.Keys == own.Keys + Range(k, n)
  {
    NextFree(|bits|, k, n);
    hide UsedUpTo, DiskOk, Range, Assign, Bitmap.Fits, Bitmap.SetMultiple;
    var found := Bitmap.Scan(bits, n);
    AllocateKeepsDisk(bits, own, map[], {}, k, n);
    start, bits' := found.value, Bitmap.SetMultiple(bits, found.value, n, true);
    own' := Assign(own, Range(k, n), Nobody);
  }

  /** free_map_init and do_format, on a device that holds the two system files. */
  method Format(size: nat) returns (bits: seq<bool>, inodes: map<nat, DiskInode>, ghost own: map<nat, Owner>)
    requires InodeIO.BytesToSectors(FreeMapBytes(size)) + 3 <= size
    ensures bits == FormattedMap(size) && Orphans(own) == {}
    ensures ROOT_DIR_SECTOR in inodes && inodes[ROOT_DIR_SECTOR].length == ROOT_ENTRIES * ENTRY_SIZE
    ensures DiskOk(bits, own, inodes, {FREE_MAP_SECTOR, ROOT_DIR_SECTOR})
  {
    hide InodeIO.BytesToSectors, Range, Sectors, Bitmap.SetMultiple, FreeMapBytes, Assign, Extent, SystemInodes, DiskOk;
    hide UsedUpTo, Orphans;
    var bytes := FreeMapBytes(size);
    var n := InodeIO.BytesToSectors(bytes);
    MapIsNotEmpty(size);
    own := EmptyDisk(size);
    bits := UsedUpTo(size, 2);
    var start, rootStart;
    start, bits, own := TakeNext(bits, own, 2, n);
    rootStart, bits, own := TakeNext(bits, own, 2 + n, 1);
    inodes := SystemInodes(start, bytes, rootStart);
    SystemFilesAreApart(size, bytes, n);
    own := AdoptSystemFiles(bits, own, inodes);
  }

  lemma MapIsNotEmpty(size: nat)
    requires size > 0
    ensures FreeMapBytes(size) > 0 && InodeIO.BytesToSectors(FreeMapBytes(size)) > 0
  {}

  /** The sectors of the two system inodes are in use from the start. */
  lemma EmptyDisk(size: nat) returns (own: map<nat, Owner>)
    requires size >= 2
    ensures own.Keys == {FREE_MAP_SECTOR, ROOT_DIR_SECTOR} && DiskOk(UsedUpTo(size, 2), own, map[], {})
  {
    own := map[FREE_MAP_SECTOR := Nobody, ROOT_DIR_SECTOR := Nobody];
  }

  function SystemInodes(start: nat, bytes: nat, rootStart: nat): (r: map<nat, DiskInode>)
    ensures ROOT_DIR_SECTOR in r && r[ROOT_DIR_SECTOR].length == ROOT_ENTRIES * ENTRY_SIZE
  {
    map[FREE_MAP_SECTOR := DiskInode(start, bytes), ROOT_DIR_SECTOR := DiskInode(rootStart, ROOT_ENTRIES * ENTRY_SIZE)]
  }

  lemma SystemFilesAreApart(size: nat, bytes: nat, n: nat)
    requires n == InodeIO.BytesToSectors(bytes) && n + 3 <= size
    ensures var inodes := SystemInodes(2, bytes, 2 + n);
      && inodes.Keys == {FREE_MAP_SECTOR, ROOT_DIR_SECTOR}
      && (forall h | h in inodes :: Extent(h, inodes[h], size))
      && Sectors(FREE_MAP_SECTOR, inodes[FREE_MAP_SECTOR]) !! Sectors(ROOT_DIR_SECTOR, inodes[ROOT_DIR_SECTOR])
      && {FREE_MAP_SECTOR, ROOT_DIR_SECTOR} + Range(2, n) + Range(2 + n, 1) ==
         Sectors(FREE_MAP_SECTOR, inodes[FREE_MAP_SECTOR]) + Sectors(ROOT_DIR_SECTOR, inodes[ROOT_DIR_SECTOR])
  {
    RootFitsInOneSector();
    hide InodeIO.BytesToSectors, Range, Sectors;
  }

  lemma AdoptSystemFiles(bits: seq<bool>, own: map<nat, Owner>, inodes: map<nat, DiskInode>)
    returns (own': map<nat, Owner>)
    requires DiskOk(bits, own, map[], {}) && inodes.Keys == {FREE_MAP_SECTOR, ROOT_DIR_SECTOR}
    requires forall h | h in inodes :: Extent(h, inodes[h], |bits|)
    requires Sectors(FREE_MAP_SECTOR, inodes[FREE_MAP_SECTOR]) !! Sectors(ROOT_DIR_SECTOR, inodes[ROOT_DIR_SECTOR])
    requires own.Keys ==
      Sectors(FREE_MAP_SECTOR, inodes[FREE_MAP_SECTOR]) + Sectors(ROOT_DIR_SECTOR, inodes[ROOT_DIR_SECTOR])
    ensures DiskOk(bits, own', inodes, {FREE_MAP_SECTOR, ROOT_DIR_SECTOR}) && Orphans(own') == {}
  {
    hide InodeIO.BytesToSectors, Range, Sectors, Assign;
    assert DiskOk(bits, own, inodes, {});
    AdoptKeepsDisk(bits, own, inodes, {}, FREE_MAP_SECTOR);
    own' := Assign(own, Sectors(FREE_MAP_SECTOR, inodes[FREE_MAP_SECTOR]), Of(FREE_MAP_SECTOR));
    AdoptKeepsDisk(bits, own', inodes, {} + {FREE_MAP_SECTOR}, ROOT_DIR_SECTOR);
    own' := Assign(own', Sectors(ROOT_DIR_SECTOR, inodes[ROOT_DIR_SECTOR]), Of(ROOT_DIR_SECTOR));
    assert {} + {FREE_MAP_SECTOR} + {ROOT_DIR_SECTOR} == {FREE_MAP_SECTOR, ROOT_DIR_SECTOR};
  }

  /** The references to an inode among some. */
  ghost function RefsTo(holds: map<nat, Inode>, among: set<nat>, i: Inode): set<nat> {
    set r | r in among && r in holds && holds[r] == i
  }

  lemma HoldMore(holds: map<nat, Inode>, denying: set<nat>, ref: nat, j: Inode, i: Inode)
    requires ref !in holds && ref !in denying
    ensures RefsTo(holds[ref := j], denying, i) == RefsTo(holds, denying, i)
    ensures i != j ==> RefsTo(holds[ref := j], holds.Keys + {ref}, i) == RefsTo(holds, holds.Keys, i)
    ensures holds[ref := j].Keys == holds.Keys + {ref}
    ensures i == j ==> |RefsTo(holds[ref := j], holds.Keys + {ref}, i)| == |RefsTo(holds, holds.Keys, i)| + 1
  {
    if i == j {
      assert RefsTo(holds[ref := j], holds.Keys + {ref}, i) == RefsTo(holds, holds.Keys, i) + {ref};
    }
  }

  lemma HoldLess(holds: map<nat, Inode>, denying: set<nat>, ref: nat, i: Inode)
    requires ref in holds && ref !in denying
    ensures RefsTo(holds - {ref}, denying, i) == RefsTo(holds, denying, i)
    ensures i != holds[ref] ==> RefsTo(holds - {ref}, holds.Keys - {ref}, i) == RefsTo(holds, holds.Keys, i)
    ensures (holds - {ref}).Keys == holds.Keys - {ref}
    ensures i == holds[ref] ==> |RefsTo(holds - {ref}, holds.Keys - {ref}, i)| == |RefsTo(holds, holds.Keys, i)| - 1
  {
    if i == holds[ref] {
      assert RefsTo(holds - {ref}, holds.Keys - {ref}, i) == RefsTo(holds, holds.Keys, i) - {ref};
    }
  }

  lemma DenyMore(holds: map<nat, Inode>, denying: set<nat>, ref: nat, i: Inode)
    requires ref in holds && ref !in denying
    ensures i != holds[ref] ==> RefsTo(holds, denying + {ref}, i) == RefsTo(holds, denying, i)
    ensures i == holds[ref] ==> |RefsTo(holds, denying + {ref}, i)| == |RefsTo(holds, denying, i)| + 1
  {
    if i == holds[ref] {
      assert RefsTo(holds, denying + {ref}, i) == RefsTo(holds, denying, i) + {ref};
    }
  }

  lemma DenyLess(holds: map<nat, Inode>, denying: set<nat>, ref: nat, i: Inode)
    requires ref in holds && ref in denying
    ensures i != holds[ref] ==> RefsTo(holds, denying - {ref}, i) == RefsTo(holds, denying, i)
    ensures i == holds[ref] ==> |RefsTo(holds, denying - {ref}, i)| == |RefsTo(holds, denying, i)| - 1
  {
    if i == holds[ref] {
      assert RefsTo(holds, denying - {ref}, i) == RefsTo(holds, denying, i) - {ref};
    }
  }

  lemma FewerDeniers(holds: map<nat, Inode>, denying: set<nat>, i: Inode)
    ensures |RefsTo(holds, denying, i)| <= |RefsTo(holds, holds.Keys, i)|
  {
    SmallerSet(RefsTo(holds, denying, i), RefsTo(holds, holds.Keys, i));
  }

  lemma {:induction false} SmallerSet(a: set<nat>, b: set<nat>)
    requires a <= b
    ensures |a| <= |b|
  {
    if x :| x in a {
      SmallerSet(a - {x}, b - {x});
    }
  }

  lemma SoleRef(holds: map<nat, Inode>, ref: nat)
    requires ref in holds && |RefsTo(holds, holds.Keys, holds[ref])| == 1
    ensures forall r | r in holds && r != ref :: holds[r] != holds[ref]
  {
    var refs := RefsTo(holds, holds.Keys, holds[ref]);
    assert |refs - {ref}| == 0;
    forall r | r in holds && r != ref
      ensures holds[r] != holds[ref]
    {
      assert r !in refs - {ref};
    }
  }

  ghost predicate DistinctSectors(inodes: seq<Inode>) {
    forall j, k | 0 <= j < k < |inodes| :: inodes[j].sector != inodes[k].sector
  }

  ghost predicate SectorOpen(inodes: seq<Inode>, h: nat) { exists i :: i in inodes && i.sector == h }

  /** The files that exist: the system's, those with a name and those that are open. */
  ghost predicate LiveOk(live: set<nat>, slots: seq<Entry>, inodes: seq<Inode>) {
    forall h :: h in live <==> IsSystem(h) || HasName(slots, h) || SectorOpen(inodes, h)
  }

  lemma OpenIsLive(live: set<nat>, slots: seq<Entry>, inodes: seq<Inode>, i: Inode)
    requires LiveOk(live, slots, inodes) && i in inodes
    ensures i.sector in live
  {
    assert SectorOpen(inodes, i.sector);
  }

  lemma PushKeepsLive(live: set<nat>, slots: seq<Entry>, inodes: seq<Inode>, i: Inode)
    requires LiveOk(live, slots, inodes) && DistinctSectors(inodes) && i.sector in live && !SectorOpen(inodes, i.sector)
    ensures IsSystem(i.sector) || HasName(slots, i.sector)
    ensures LiveOk(live, slots, [i] + inodes) && DistinctSectors([i] + inodes) && i !in inodes
  {
    forall h
      ensures SectorOpen([i] + inodes, h) <==> SectorOpen(inodes, h) || h == i.sector
    {
      if SectorOpen(inodes, h) {
        var j :| j in inodes && j.sector == h;
        assert j in [i] + inodes;
      }
      assert i in [i] + inodes;
    }
    PrependDistinct(i, inodes);
  }

  lemma {:induction false} RemoveIsRest(inodes: seq<Inode>, i: Inode)
    requires DistinctSectors(inodes)
    ensures DistinctSectors(Lists.Remove(inodes, i))
    ensures forall j :: j in Lists.Remove(inodes, i) <==> j in inodes && j != i
  {
    if inodes != [] {
      var x, rest := inodes[0], inodes[1..];
      assert inodes == [x] + rest;
      assert forall j | j in rest :: j.sector != x.sector;
      assert DistinctSectors(rest);
      if x != i {
        RemoveIsRest(rest, i);
        PrependDistinct(x, Lists.Remove(rest, i));
      }
    }
  }

  lemma PrependDistinct(x: Inode, rest: seq<Inode>)
    requires DistinctSectors(rest) && forall j | j in rest :: j.sector != x.sector
    ensures DistinctSectors([x] + rest)
  {
    forall j, k | 0 <= j < k < |rest| + 1
      ensures ([x] + rest)[j].sector != ([x] + rest)[k].sector
    {
      assert ([x] + rest)[k] == rest[k - 1] && rest[k - 1] in rest;
    }
  }

  lemma AddKeepsLive(live: set<nat>, slots: seq<Entry>, slots': seq<Entry>, inodes: seq<Inode>, sector: nat)
    requires LiveOk(live, slots, inodes) && forall x :: HasName(slots', x) <==> HasName(slots, x) || x == sector
    ensures LiveOk(live + {sector}, slots', inodes)
  {}

  lemma MarkedIsNamed(slots: seq<Entry>, k: nat)
    requires NamesOk(slots) && k < |slots| && slots[k].inUse
    ensures HasName(slots, slots[k].sector) && !IsSystem(slots[k].sector)
  {
    assert NamesSector(slots, k, slots[k].sector);
  }

  lemma EraseKeepsLive(live: set<nat>, slots: seq<Entry>, slots': seq<Entry>, inodes: seq<Inode>, i: Inode)
    requires LiveOk(live, slots, inodes) && i in inodes
    requires forall x :: HasName(slots', x) <==> HasName(slots, x) && x != i.sector
    ensures LiveOk(live, slots', inodes)
  {
    assert SectorOpen(inodes, i.sector);
    hide SectorOpen, HasName, IsSystem;
  }

  lemma SameSectorSameInode(inodes: seq<Inode>, i: Inode, j: Inode)
    requires DistinctSectors(inodes) && i in inodes && j in inodes
    ensures i.sector == j.sector ==> i == j
  {}

  /** The last close of a file: a removed one no longer exists, any other still does. */
  lemma LeaveKeepsLive(live: set<nat>, slots: seq<Entry>, inodes: seq<Inode>, i: Inode)
    requires LiveOk(live, slots, inodes) && DistinctSectors(inodes) && i in inodes
    ensures i.sector in live && DistinctSectors(Lists.Remove(inodes, i))
    ensures forall j :: j in Lists.Remove(inodes, i) <==> j in inodes && j != i
    ensures LiveOk(
      if IsSystem(i.sector) || HasName(slots, i.sector) then live else live - {i.sector},
      slots, Lists.Remove(inodes, i))
  {
    RemoveIsRest(inodes, i);
    assert SectorOpen(inodes, i.sector);
    var rest := Lists.Remove(inodes, i);
    forall h
      ensures SectorOpen(rest, h) <==> SectorOpen(inodes, h) && h != i.sector
    {
      if j :| j in inodes && j.sector == h && h != i.sector {
        assert j in rest;
      }
    }
  }

  /** Without names and open files, only the system files are live. */
  lemma NothingNamed(slots: seq<Entry>)
    requires forall k | 0 <= k < |slots| :: !slots[k].inUse
    ensures NamesOk(slots) && LiveOk({FREE_MAP_SECTOR, ROOT_DIR_SECTOR}, slots, [])
  {}

  class FileSystem {
    var freeMap: seq<bool>
    var headers: map<nat, DiskInode>
    const root: DirectoryFile
    var openInodes: seq<Inode>
    // Who owns which sector, and the files that exist: the system's, those with a name, those that are open.
    ghost var owner: map<nat, Owner>
    ghost var live: set<nat>
    // The sectors that were allocated for the data of files that the directory then refused.
    ghost var leaked: set<nat>
    // The references handed out and not yet closed, the files among them, and those that deny writes.
    ghost var nextRef: nat
    ghost var holds: map<nat, Inode>
    ghost var files: map<nat, File>
    ghost var denying: set<nat>

    /** Mounts a freshly formatted device. */
    constructor (size: nat)
      requires InodeIO.BytesToSectors(FreeMapBytes(size)) + 3 <= size
      ensures Settled() && leaked == {} && UniqueNames(root.slots) && Bindings(root.slots) == map[]
      ensures freeMap == FormattedMap(size) && |root.slots| == ROOT_ENTRIES && !Full(root.slots)
      ensures openInodes == [] && live == {FREE_MAP_SECTOR, ROOT_DIR_SECTOR}
      ensures ROOT_DIR_SECTOR in headers && headers[ROOT_DIR_SECTOR].length == ROOT_ENTRIES * ENTRY_SIZE
      ensures forall k | 0 <= k < |root.slots| :: root.slots[k] == Entry(0, "", false)
      ensures fresh(root) && holds == map[] && files == map[]
    {
      hide DiskOk, Orphans, Directory.Bindings, UniqueNames, FreeMapBytes, InodeIO.BytesToSectors, NamesOk, LiveOk,
           OpenOk, HoldsOk;
      root := new DirectoryFile(ROOT_ENTRIES);
      openInodes, holds, files, denying, nextRef := [], map[], map[], {}, 0;
      live, leaked := {FREE_MAP_SECTOR, ROOT_DIR_SECTOR}, {};
      new;
      assert !root.slots[0].inUse;
      NothingNamed(root.slots);
      freeMap, headers, owner := Format(size);
      NothingOpen();
    }

    lemma NothingOpen()
      requires openInodes == [] && holds == map[] && files == map[] && denying == {}
      ensures OpenOk() && HoldsOk()
    {}

    /** The inodes in memory. */
    ghost function Opened(): set<Inode>
      reads this`openInodes
    {
      set i | i in openInodes
    }

    ghost function View(): Disk
      reads this`freeMap, this`headers, this`owner, this`live, this`leaked, root`slots
    {
      Disk(freeMap, root.slots, headers, owner, live, leaked)
    }

    ghost predicate IsOpen(h: nat)
      reads this`openInodes
    {
      SectorOpen(openInodes, h)
    }

    /** What is known of an open inode's file. */
    ghost predicate FileOk(i: Inode)
      reads this`headers, root`slots, i`removed
    {
      && i.sector in headers && headers[i.sector] == DiskInode(i.start, i.length)
      && (i.removed <==> !IsSystem(i.sector) && !HasName(root.slots, i.sector))
    }

    /** The counters of an open inode count its references, and those of them that deny writes. */
    ghost predicate CountsOk(i: Inode)
      reads this`holds, this`denying, i`openCnt, i`denyWriteCnt
    {
      && i.openCnt == |RefsTo(holds, holds.Keys, i)| > 0
      && i.denyWriteCnt == |RefsTo(holds, denying, i)|
      && (i.sector == ROOT_DIR_SECTOR ==> i.denyWriteCnt == 0)
    }

    ghost predicate OpenOk()
      reads this`headers, this`holds, this`denying, this`openInodes, root`slots, openInodes
    {
      DistinctSectors(openInodes) && forall i | i in openInodes :: FileOk(i) && CountsOk(i)
    }

    /** References lead to open inodes; those that deny writes belong to files that do. */
    ghost predicate HoldsOk()
      reads this`holds, this`denying, this`files, this`nextRef, this`openInodes, files.Values`denyWrite
    {
      && (forall r | r in holds :: r < nextRef && holds[r] in openInodes)
      && (forall r | r in files :: r in holds && files[r].ref == r && files[r].inode == holds[r])
      && (forall r :: r in denying <==> r in files && files[r].denyWrite)
    }

    /** What holds between any two of the methods below. */
    ghost predicate Valid()
      reads this, root`slots, openInodes, files.Values`denyWrite
    {
      && DiskOk(freeMap, owner, headers, live) && NamesOk(root.slots)
      && LiveOk(live, root.slots, openInodes) && OpenOk() && HoldsOk()
    }

    /** What holds between any two operations on files, so over every run. */
    ghost predicate Settled()
      reads this, root`slots, openInodes, files.Values`denyWrite
    {
      Valid() && NoneLost(View())
    }

    // ---- free-map.c ----

    /** free_map_allocate: takes the lowest run of free sectors, or nothing when there is none. */
    method FreeMapAllocate(cnt: nat) returns (start: Option<nat>)
      requires Valid()
      modifies this`freeMap, this`owner
      ensures Valid()
      ensures start.None? <==> forall s: nat :: !Bitmap.Fits(old(freeMap), s, cnt)
      ensures start.None? ==> freeMap == old(freeMap) && owner == old(owner)
      ensures start.Some? ==> Bitmap.Fits(old(freeMap), start.value, cnt)
      ensures start.Some? ==> forall s: nat | s < start.value :: !Bitmap.Fits(old(freeMap), s, cnt)
      ensures start.Some? ==> freeMap == Bitmap.SetMultiple(old(freeMap), start.value, cnt, true)
      ensures start.Some? ==> owner == Assign(old(owner), Range(start.value, cnt), Nobody)
    {
      hide DiskOk, NamesOk, LiveOk, OpenOk, HoldsOk, Assign, Range, Bitmap.Fits, Bitmap.SetMultiple;
      start := Bitmap.Scan(freeMap, cnt);
      if start.Some? {
        AllocateKeepsDisk(freeMap, owner, headers, live, start.value, cnt);
        freeMap := Bitmap.SetMultiple(freeMap, start.value, cnt, true);
        owner := Assign(owner, Range(start.value, cnt), Nobody);
      }
    }

    /** free_map_release of sectors that no file owns; its assertion that all of them are marked as
        used holds. */
    method FreeMapRelease(start: nat, cnt: nat)
      requires Valid() && start + cnt <= |freeMap| && Range(start, cnt) <= Orphans(owner)
      modifies this`freeMap, this`owner
      ensures Valid()
      ensures freeMap == Bitmap.SetMultiple(old(freeMap), start, cnt, false)
      ensures owner == old(owner) - Range(start, cnt)
    {
      hide NamesOk, LiveOk, OpenOk, HoldsOk, Range, Bitmap.SetMultiple;
      assert Bitmap.All(freeMap, start, cnt, true) by {
        forall k | start <= k < start + cnt
          ensures freeMap[k]
        {
          assert k in Range(start, cnt);
        }
      }
      hide DiskOk, Orphans;
      ReleaseKeepsDisk(freeMap, owner, headers, live, start, cnt);
      freeMap := Bitmap.SetMultiple(freeMap, start, cnt, false);
      owner := owner - Range(start, cnt);
    }

    // ---- inode.c ----

    /** inode_create: allocates the data and writes the inode to a sector allocated for it. */
    method InodeCreate(sector: nat, length: nat) returns (start: Option<nat>)
      requires Valid() && sector in Orphans(owner)
      modifies this`freeMap, this`owner, this`headers
      ensures Valid()
      ensures start.None? <==> forall s: nat :: !Bitmap.Fits(old(freeMap), s, InodeIO.BytesToSectors(length))
      ensures start.None? ==> freeMap == old(freeMap) && owner == old(owner) && headers == old(headers)
      ensures start.Some? ==> Bitmap.Fits(old(freeMap), start.value, InodeIO.BytesToSectors(length))
      ensures start.Some? ==> headers == old(headers)[sector := DiskInode(start.value, length)]
      ensures start.Some? ==> |freeMap| == |old(freeMap)|
      ensures start.Some? ==> owner == Assign(old(owner), Range(start.value, InodeIO.BytesToSectors(length)), Nobody)
    {
      hide NamesOk, LiveOk, HoldsOk, Range, Bitmap.Fits, Bitmap.SetMultiple, Assign;
      hide DiskOk, InodeIO.BytesToSectors, HasName;
      var sectors := InodeIO.BytesToSectors(length);
      start := FreeMapAllocate(sectors);
      if start.Some? {
        assert sector in Orphans(owner);
        NewHeaderKeepsDisk(freeMap, owner, headers, live, sector, DiskInode(start.value, length));
        forall i | i in openInodes ensures i.sector != sector { OpenIsLive(live, root.slots, openInodes, i); }
        headers := headers[sector := DiskInode(start.value, length)];
      }
    }

    /** inode_open: the one copy in memory of the inode in this sector, with one more reference. */
    method InodeOpen(sector: nat) returns (inode: Inode, ghost ref: nat)
      requires Valid() && sector in live
      modifies this`openInodes, this`holds, this`nextRef, Opened()`openCnt
      ensures Valid() && inode in openInodes && inode.sector == sector
      ensures ref == old(nextRef) && nextRef == ref + 1 && holds == old(holds)[ref := inode]
      ensures inode in old(Opened()) <==> old(IsOpen(sector))
      ensures Opened() == old(Opened()) + {inode}
      ensures inode !in old(Opened()) ==> fresh(inode) && inode.openCnt == 1
      ensures forall i | i in old(Opened()) :: i.openCnt == old(i.openCnt) + if i == inode then 1 else 0
    {
      hide DiskOk, NamesOk, LiveOk, OpenOk, HoldsOk;
      var k := 0;
      while k < |openInodes|
        invariant k <= |openInodes|
        invariant forall j | 0 <= j < k :: openInodes[j].sector != sector
      {
        if openInodes[k].sector == sector {
          inode := openInodes[k];
          assert IsOpen(sector);
          ref := InodeReopen(inode);
          return;
        }
        k := k + 1;
      }
      inode, ref := InodeLoad(sector);
    }

    /** The second half of inode_open, for an inode that is not in memory yet. */
    method InodeLoad(sector: nat) returns (inode: Inode, ghost ref: nat)
      requires Valid() && sector in live && !IsOpen(sector)
      modifies this`openInodes, this`holds, this`nextRef
      ensures Valid() && fresh(inode) && openInodes == [inode] + old(openInodes)
      ensures inode.sector == sector && inode.openCnt == 1
      ensures ref == old(nextRef) && nextRef == ref + 1 && holds == old(holds)[ref := inode]
    {
      LiveIsOwned(freeMap, owner, headers, live, sector);
      hide DiskOk, NamesOk, RefsTo, LiveOk, DistinctSectors, SectorOpen, FileOk, CountsOk, HoldsOk, OpenOk;
      inode := new InodeIO.Inode(sector, headers[sector].start, headers[sector].length);
      ref := nextRef;
      openInodes := [inode] + openInodes;
      holds := holds[ref := inode];
      nextRef := nextRef + 1;
      LoadKeepsValid(inode);
    }

    twostate lemma LoadKeepsValid(new i: Inode)
      requires old(Valid()) && i !in old(openInodes)
      requires i.sector in live && !SectorOpen(old(openInodes), i.sector)
      requires i.sector in headers && headers[i.sector] == DiskInode(i.start, i.length)
      requires i.openCnt == 1 && i.denyWriteCnt == 0 && !i.removed
      requires openInodes == [i] + old(openInodes) && holds == old(holds)[old(nextRef) := i] &&
        nextRef == old(nextRef) + 1
      requires unchanged(`freeMap, `owner, `headers, `live, `denying, `files)
      requires unchanged(root) && unchanged(old(openInodes)) && unchanged(files.Values)
      ensures Valid()
    {
      hide DiskOk, NamesOk, HasName, IsSystem, RefsTo, LiveOk, DistinctSectors, SectorOpen;
      PushKeepsLive(live, root.slots, old(openInodes), i);
      LiveIsOwned(freeMap, owner, headers, live, i.sector);
      FirstRef(i);
      forall j | j in openInodes
        ensures FileOk(j) && CountsOk(j)
      {
        HoldMore(old(holds), denying, old(nextRef), i, j);
        assert j == i || j in old(openInodes);
      }
      assert HoldsOk();
      hide FileOk, CountsOk, HoldsOk;
    }

    twostate lemma FirstRef(new i: Inode)
      requires old(HoldsOk()) && i !in old(openInodes)
      ensures RefsTo(old(holds), old(holds).Keys, i) == {} && RefsTo(old(holds), old(denying), i) == {}
      ensures old(nextRef) !in old(holds) && old(nextRef) !in old(denying)
    {}

    /** inode_reopen. */
    method InodeReopen(inode: Inode) returns (ghost ref: nat)
      requires Valid() && inode in openInodes
      modifies this`holds, this`nextRef, inode`openCnt
      ensures Valid()
      ensures ref == old(nextRef) && nextRef == ref + 1 && holds == old(holds)[ref := inode]
      ensures inode.openCnt == old(inode.openCnt) + 1
    {
      hide DiskOk, NamesOk, LiveOk, OpenOk, HoldsOk;
      ref := nextRef;
      inode.openCnt := inode.openCnt + 1;
      holds := holds[ref := inode];
      nextRef := nextRef + 1;
      ReopenKeepsValid(inode);
    }

    twostate lemma ReopenKeepsValid(i: Inode)
      requires old(Valid()) && i in openInodes
      requires holds == old(holds)[old(nextRef) := i] && nextRef == old(nextRef) + 1 && i.openCnt == old(i.openCnt) + 1
      requires unchanged(`freeMap, `owner, `headers, `live, `denying, `files, `openInodes)
      requires unchanged(root) && unchanged(files.Values)
      requires forall j | j in openInodes :: j.openCnt == old(j.openCnt) || j == i
      requires forall j | j in openInodes :: j.denyWriteCnt == old(j.denyWriteCnt) && j.removed == old(j.removed)
      ensures Valid()
    {
      hide DiskOk, NamesOk, HasName, IsSystem, RefsTo, LiveOk, DistinctSectors, SectorOpen;
      forall j | j in openInodes
        ensures FileOk(j) && CountsOk(j)
      {
        HoldMore(old(holds), denying, old(nextRef), i, j);
      }
      assert HoldsOk();
      hide FileOk, CountsOk, HoldsOk;
    }

    /** inode_close: gives one reference back.  With the last one the inode leaves memory, and if it
        was removed its sectors, which were in use until now, are released. */
    method InodeClose(inode: Inode, ghost ref: nat)
      requires Valid() && ref in holds && holds[ref] == inode && ref !in files
      modifies this`openInodes, this`holds, this`freeMap, this`owner, this`live, inode`openCnt
      ensures Valid() && |freeMap| == |old(freeMap)|
      ensures holds == old(holds) - {ref} && inode.openCnt == old(inode.openCnt) - 1
      ensures Opened() == if inode.openCnt > 0 then old(Opened()) else old(Opened()) - {inode}
      ensures old(inode.openCnt) > 1 || !inode.removed ==> unchanged(`freeMap, `owner, `live)
      ensures old(inode.openCnt) == 1 && inode.removed ==>
        inode.sector in old(live) && live == old(live) - {inode.sector}
      ensures old(inode.openCnt) == 1 && inode.removed ==>
        owner == old(owner) - Sectors(inode.sector, DiskInode(inode.start, inode.length))
    {
      hide DiskOk, NamesOk, LiveOk, OpenOk, HoldsOk, Lists.Remove, Assign, Range, Sectors, Extent,
           InodeIO.BytesToSectors;
      HeldIsOpen(ref);
      RemoveIsRest(openInodes, inode) by { OpenAreDistinct(); }
      DropReference(inode, ref);
      if inode.openCnt == 0 && inode.removed {
        ReleaseFile(inode.sector, DiskInode(inode.start, inode.length));
        assert owner == old(owner) - Sectors(inode.sector, DiskInode(inode.start, inode.length));
      }
    }

    lemma OpenAreDistinct()
      requires OpenOk()
      ensures DistinctSectors(openInodes)
    {}

    /** The first part of inode_close; the sectors of a file that ceases to exist become nobody's. */
    method DropReference(inode: Inode, ghost ref: nat)
      requires Valid() && ref in holds && holds[ref] == inode && ref !in files
      modifies this`openInodes, this`holds, this`owner, this`live, inode`openCnt
      ensures Valid()
      ensures holds == old(holds) - {ref} && inode.openCnt == old(inode.openCnt) - 1
      ensures openInodes == if inode.openCnt > 0 then old(openInodes) else Lists.Remove(old(openInodes), inode)
      ensures inode.openCnt > 0 || !inode.removed ==> unchanged(`owner, `live)
      ensures inode.openCnt == 0 && inode.removed ==> live == old(live) - {inode.sector}
      ensures inode.openCnt == 0 && inode.removed ==>
        owner == Assign(old(owner), Sectors(inode.sector, DiskInode(inode.start, inode.length)), Nobody)
    {
      hide DiskOk, NamesOk, LiveOk, OpenOk, HoldsOk, Lists.Remove, Assign, Range, Sectors, Extent,
           InodeIO.BytesToSectors;
      HeldIsOpen(ref);
      inode.openCnt := inode.openCnt - 1;
      holds := holds - {ref};
      if inode.openCnt == 0 {
        openInodes := Lists.Remove(openInodes, inode);
        if inode.removed {
          live := live - {inode.sector};
          owner := Assign(owner, Sectors(inode.sector, DiskInode(inode.start, inode.length)), Nobody);
        }
      }
      CloseKeepsValid(inode, ref);
    }

    /** The part of inode_close that deallocates: both times the released sectors are all in use. */
    method ReleaseFile(sector: nat, d: DiskInode)
      requires Valid() && Extent(sector, d, |freeMap|) && sector < |freeMap| && Sectors(sector, d) <= Orphans(owner)
      modifies this`freeMap, this`owner
      ensures Valid() && |freeMap| == |old(freeMap)|
      ensures owner == old(owner) - Sectors(sector, d)
    {
      hide DiskOk, NamesOk, LiveOk, OpenOk, HoldsOk, Assign, Range, Sectors;
      FreeMapRelease(sector, 1);
      forall s | s in Range(d.start, InodeIO.BytesToSectors(d.length))
        ensures s in Orphans(owner)
      {
        assert s in Sectors(sector, d);
      }
      FreeMapRelease(d.start, InodeIO.BytesToSectors(d.length));
      assert owner == old(owner) - Sectors(sector, d);
    }

    lemma HeldIsOpen(ref: nat)
      requires Valid() && ref in holds
      ensures holds[ref] in openInodes && holds[ref].openCnt > 0
      ensures var i := holds[ref];
        && i.sector in live && i.sector in headers && headers[i.sector] == DiskInode(i.start, i.length)
        && i.sector < |freeMap| && Extent(i.sector, headers[i.sector], |freeMap|)
    {
      OpenIsLive(live, root.slots, openInodes, holds[ref]);
      LiveIsOwned(freeMap, owner, headers, live, holds[ref].sector);
      hide DiskOk, NamesOk, LiveOk, Extent;
    }

    twostate lemma CloseKeepsValid(i: Inode, new ref: nat)
      requires old(Valid()) && ref in old(holds) && ref !in old(files) && i == old(holds)[ref]
      requires holds == old(holds) - {ref} && i.openCnt == old(i.openCnt) - 1
      requires openInodes == if old(i.openCnt) > 1 then old(openInodes) else Lists.Remove(old(openInodes), i)
      requires old(i.openCnt) > 1 || !i.removed ==> owner == old(owner) && live == old(live)
      requires old(i.openCnt) == 1 && i.removed ==> i.sector in old(live) && live == old(live) - {i.sector}
      requires old(i.openCnt) == 1 && i.removed ==>
        owner == Assign(old(owner), Sectors(i.sector, DiskInode(i.start, i.length)), Nobody)
      requires unchanged(`freeMap, `headers, `denying, `files, `nextRef) && unchanged(root) && unchanged(files.Values)
      requires forall j | j in old(openInodes) :: j.openCnt == old(j.openCnt) || j == i
      requires forall j | j in old(openInodes) :: j.denyWriteCnt == old(j.denyWriteCnt) && j.removed == old(j.removed)
      ensures Valid()
    {
      assert i in old(openInodes) && old(FileOk(i));
      if old(i.openCnt) == 1 {
        LeaveKeepsLive(old(live), root.slots, old(openInodes), i);
        if i.removed {
          DisownKeepsDisk(freeMap, old(owner), headers, old(live), i.sector);
        }
      }
      hide DiskOk, NamesOk, HasName, IsSystem, RefsTo, LiveOk, DistinctSectors, SectorOpen, Lists.Remove;
      forall j | j in openInodes
        ensures FileOk(j) && CountsOk(j)
      {
        assert j in old(openInodes);
        CloseKeepsCounts(j, ref);
      }
      CloseKeepsHolds(ref);
      hide FileOk, CountsOk, HoldsOk;
    }

    twostate lemma CloseKeepsHolds(new ref: nat)
      requires old(HoldsOk()) && ref in old(holds) && ref !in old(files)
      requires old(CountsOk(holds[ref])) && holds == old(holds) - {ref}
      requires unchanged(`denying, `files, `nextRef) && unchanged(files.Values)
      requires forall j :: j in openInodes <==>
        j in old(openInodes) && (old(holds)[ref].openCnt == 0 ==> j != old(holds)[ref])
      requires old(holds)[ref].openCnt == old(holds[ref].openCnt) - 1
      ensures HoldsOk()
    {
      hide RefsTo;
      if old(holds)[ref].openCnt == 0 {
        SoleRef(old(holds), ref);
      }
      hide CountsOk;
    }

    twostate lemma CloseKeepsCounts(j: Inode, new ref: nat)
      requires old(CountsOk(j)) && ref in old(holds) && ref !in old(denying) && denying == old(denying)
      requires holds == old(holds) - {ref} && j.denyWriteCnt == old(j.denyWriteCnt)
      requires j.openCnt == old(j.openCnt) - if j == old(holds)[ref] then 1 else 0
      ensures j.openCnt > 0 ==> CountsOk(j)
    {
      HoldLess(old(holds), denying, ref, j);
      hide RefsTo;
    }

    // ---- file.c ----

    /** file_open, which takes over a reference that no file has yet. */
    method FileOpen(inode: Inode, ghost ref: nat) returns (f: File)
      requires Valid() && ref in holds && holds[ref] == inode && ref !in files
      modifies this`files
      ensures Valid() && fresh(f) && f.inode == inode && f.ref == ref && f.pos == 0 && !f.denyWrite
      ensures files == old(files)[ref := f]
    {
      hide DiskOk, NamesOk, LiveOk, OpenOk;
      f := new File(inode, ref);
      files := files[ref := f];
    }

    /** file_reopen: a second file on the same inode. */
    method FileReopen(f: File) returns (g: File)
      requires Settled() && f.ref in files && files[f.ref] == f
      modifies this`files, this`holds, this`nextRef, f.inode`openCnt
      ensures Settled() && fresh(g) && g.inode == f.inode && g.ref !in old(holds) && g.pos == 0 && !g.denyWrite
      ensures files == old(files)[g.ref := g] && holds == old(holds)[g.ref := f.inode]
      ensures f.inode.openCnt == old(f.inode.openCnt) + 1
    {
      hide DiskOk, NamesOk, LiveOk, OpenOk;
      ghost var ref := InodeReopen(f.inode);
      g := FileOpen(f.inode, ref);
    }

    /** file_deny_write and, inside it, inode_deny_write with its assertion. */
    method FileDenyWrite(f: File)
      requires Settled() && f.ref in files && files[f.ref] == f && f.inode.sector != ROOT_DIR_SECTOR
      modifies this`denying, f`denyWrite, f.inode`denyWriteCnt
      ensures Settled() && f.denyWrite
      ensures f.inode.denyWriteCnt == old(f.inode.denyWriteCnt) + if old(f.denyWrite) then 0 else 1
    {
      hide DiskOk, NamesOk, LiveOk, OpenOk;
      if !f.denyWrite {
        f.denyWrite := true;
        f.inode.denyWriteCnt := f.inode.denyWriteCnt + 1;
        denying := denying + {f.ref};
        DenyKeepsValid(f);
        DeniersAreOpeners(f.inode);
        hide HoldsOk;
        assert f.inode.denyWriteCnt <= f.inode.openCnt;
      }
    }

    twostate lemma DenyKeepsValid(f: File)
      requires old(Valid()) && f.ref in files && files[f.ref] == f && f.inode.sector != ROOT_DIR_SECTOR
      requires !old(f.denyWrite) && f.denyWrite && f.inode.denyWriteCnt == old(f.inode.denyWriteCnt) + 1
      requires denying == old(denying) + {f.ref}
      requires unchanged(`freeMap, `owner, `headers, `live, `holds, `files, `openInodes, `nextRef) && unchanged(root)
      requires forall g | g in files.Values && g != f :: g.denyWrite == old(g.denyWrite)
      requires forall j | j in openInodes && j != f.inode :: j.denyWriteCnt == old(j.denyWriteCnt)
      requires forall j | j in openInodes :: j.openCnt == old(j.openCnt) && j.removed == old(j.removed)
      ensures Valid()
    {
      hide DiskOk, NamesOk, HasName, IsSystem, RefsTo, LiveOk, DistinctSectors, SectorOpen;
      forall j | j in openInodes
        ensures FileOk(j) && CountsOk(j)
      {
        DenyMore(holds, old(denying), f.ref, j);
      }
      hide FileOk, CountsOk;
    }

    /** file_allow_write and, inside it, inode_allow_write with its assertions. */
    method FileAllowWrite(f: File)
      requires Settled() && f.ref in files && files[f.ref] == f
      modifies this`denying, f`denyWrite, f.inode`denyWriteCnt
      ensures Settled() && !f.denyWrite
      ensures f.inode.denyWriteCnt == old(f.inode.denyWriteCnt) - if old(f.denyWrite) then 1 else 0
    {
      hide DiskOk, NamesOk, LiveOk, OpenOk;
      if f.denyWrite {
        FileDenies(f);
        assert f.inode.denyWriteCnt > 0 && f.inode.denyWriteCnt <= f.inode.openCnt;
        f.denyWrite := false;
        f.inode.denyWriteCnt := f.inode.denyWriteCnt - 1;
        denying := denying - {f.ref};
        AllowKeepsValid(f);
      }
    }

    lemma FileDenies(f: File)
      requires Valid() && f.ref in files && files[f.ref] == f && f.denyWrite
      ensures 0 < f.inode.denyWriteCnt <= f.inode.openCnt
    {
      DeniersAreOpeners(f.inode);
      assert f.ref in RefsTo(holds, denying, f.inode);
    }

    twostate lemma AllowKeepsValid(f: File)
      requires old(Valid()) && f.ref in files && files[f.ref] == f
      requires old(f.denyWrite) && !f.denyWrite && f.inode.denyWriteCnt == old(f.inode.denyWriteCnt) - 1
      requires denying == old(denying) - {f.ref}
      requires unchanged(`freeMap, `owner, `headers, `live, `holds, `files, `openInodes, `nextRef) && unchanged(root)
      requires forall g | g in files.Values && g != f :: g.denyWrite == old(g.denyWrite)
      requires forall j | j in openInodes && j != f.inode :: j.denyWriteCnt == old(j.denyWriteCnt)
      requires forall j | j in openInodes :: j.openCnt == old(j.openCnt) && j.removed == old(j.removed)
      ensures Valid()
    {
      hide DiskOk, NamesOk, HasName, IsSystem, RefsTo, LiveOk, DistinctSectors, SectorOpen;
      forall j | j in openInodes
        ensures FileOk(j) && CountsOk(j)
      {
        DenyLess(holds, old(denying), f.ref, j);
      }
      hide FileOk, CountsOk;
    }

    /** Each opener denies writes at most once. */
    lemma DeniersAreOpeners(i: Inode)
      requires Valid() && i in openInodes
      ensures i.openCnt == |RefsTo(holds, holds.Keys, i)| && i.denyWriteCnt == |RefsTo(holds, denying, i)|
      ensures i.denyWriteCnt <= i.openCnt
    {
      FewerDeniers(holds, denying, i);
    }

    /** The file is freed; its reference is still to be given back. */
    ghost method ForgetFile(f: File)
      requires Valid() && f.ref in files && files[f.ref] == f && !f.denyWrite
      modifies this`files
      ensures Valid() && files == old(files) - {f.ref}
    {
      hide DiskOk, NamesOk, LiveOk, OpenOk;
      files := files - {f.ref};
    }

    /** file_close. */
    method FileClose(f: File)
      requires Settled() && f.ref in files && files[f.ref] == f
      modifies this`openInodes, this`holds, this`freeMap, this`owner, this`live, this`files, this`denying
      modifies f`denyWrite, f.inode`openCnt, f.inode`denyWriteCnt
      ensures Settled() && |freeMap| == |old(freeMap)|
      ensures files == old(files) - {f.ref} && holds == old(holds) - {f.ref}
      ensures f.inode.openCnt == old(f.inode.openCnt) - 1
      ensures old(f.inode.openCnt) > 1 || !f.inode.removed ==> unchanged(`freeMap, `owner, `live)
      ensures old(f.inode.openCnt) == 1 && f.inode.removed ==> live == old(live) - {f.inode.sector}
      ensures old(f.inode.openCnt) == 1 && f.inode.removed ==>
        owner == old(owner) - Sectors(f.inode.sector, DiskInode(f.inode.start, f.inode.length))
    {
      hide DiskOk, NamesOk, LiveOk, OpenOk, Sectors, Extent;
      HeldIsOpen(f.ref);
      SectorsAreDisjoint(freeMap, owner, headers, live);
      FileAllowWrite(f);
      ForgetFile(f);
      InodeClose(f.inode, f.ref);
    }

    // ---- filesys.c ----

    /** dir_open_root. */
    method DirOpenRoot() returns (dir: Inode, ghost ref: nat)
      requires Valid()
      modifies this`openInodes, this`holds, this`nextRef, Opened()`openCnt
      ensures Valid() && dir.sector == ROOT_DIR_SECTOR
      ensures ref == old(nextRef) && ref !in old(holds) && nextRef == ref + 1 && holds == old(holds)[ref := dir]
      ensures dir in old(Opened()) || fresh(dir)
      ensures forall i | i in Opened() :: i in old(Opened()) || fresh(i)
      ensures forall h | h != ROOT_DIR_SECTOR :: IsOpen(h) == old(IsOpen(h))
    {
      hide DiskOk, NamesOk, LiveOk, OpenOk, HoldsOk;
      SystemIsLive(ROOT_DIR_SECTOR);
      RefsAreOld();
      dir, ref := InodeOpen(ROOT_DIR_SECTOR);
      OneMoreOpen(dir);
    }

    twostate lemma OneMoreOpen(new i: Inode)
      requires Opened() == old(Opened()) + {i}
      ensures forall h | h != i.sector :: IsOpen(h) == old(IsOpen(h))
    {
      forall h | h != i.sector
        ensures IsOpen(h) == old(IsOpen(h))
      {
        if old(IsOpen(h)) {
          var j :| j in old(openInodes) && j.sector == h;
          assert j in Opened();
        }
        if IsOpen(h) {
          var j :| j in openInodes && j.sector == h;
          assert j in Opened();
        }
      }
    }

    lemma SystemIsLive(sector: nat)
      requires Valid() && IsSystem(sector)
      ensures sector in live
      ensures forall i | i in openInodes && i.sector == sector :: !i.removed
    {}

    lemma RootIsWritable()
      requires Valid()
      ensures forall i | i in openInodes && i.sector == ROOT_DIR_SECTOR :: i.denyWriteCnt == 0
    {}

    lemma NamedIsLive(k: nat)
      requires Valid() && k < |root.slots| && root.slots[k].inUse
      ensures root.slots[k].sector in live && UniqueNames(root.slots) && !IsSystem(root.slots[k].sector)
    {
      assert NamesSector(root.slots, k, root.slots[k].sector);
    }

    /** dir_close of the root directory, which nobody removes. */
    method DirClose(dir: Inode, ghost ref: nat)
      requires Valid() && dir.sector == ROOT_DIR_SECTOR && ref in holds && holds[ref] == dir && ref !in files
      modifies this`openInodes, this`holds, this`freeMap, this`owner, this`live, dir`openCnt
      ensures Valid() && unchanged(`freeMap, `owner, `live)
      ensures holds == old(holds) - {ref} && dir.openCnt == old(dir.openCnt) - 1
    {
      hide DiskOk, NamesOk, LiveOk, OpenOk, HoldsOk;
      HeldIsOpen(ref);
      SystemIsLive(ROOT_DIR_SECTOR);
      InodeClose(dir, ref);
    }

    /** dir_lookup: the open inode of a name. */
    method DirLookup(name: string) returns (inode: Option<Inode>, ghost ref: nat)
      requires Valid()
      modifies this`openInodes, this`holds, this`nextRef, Opened()`openCnt
      ensures Valid() && UniqueNames(root.slots)
      ensures inode.None? <==> name !in Bindings(root.slots)
      ensures inode.None? ==> holds == old(holds)
      ensures inode.Some? ==> inode.value.sector == Bindings(root.slots)[name]
      ensures inode.Some? ==> ref == old(nextRef) && holds == old(holds)[ref := inode.value]
    {
      hide DiskOk, LiveOk, OpenOk;
      assert UniqueNames(root.slots);
      hide NamesOk, UniqueNames, Directory.Bindings;
      var slot := root.Lookup(name);
      if slot.None? {
        return None, 0;
      }
      NamedIsLive(slot.value);
      var found, r := InodeOpen(root.slots[slot.value].sector);
      return Some(found), r;
    }

    lemma RefsAreOld()
      requires HoldsOk()
      ensures forall r | r in holds :: r < nextRef
      ensures forall r | r in files :: r in holds
    {}

    /** filesys_open: a file on the inode that the name is bound to, or none for a name that is not
        bound.  The root directory is opened for the lookup and closed again. */
    method Open(name: string) returns (f: Option<File>)
      requires Settled()
      modifies this`openInodes, this`holds, this`nextRef, this`freeMap, this`owner, this`live, this`files,
               Opened()`openCnt
      ensures Settled() && unchanged(`freeMap, `owner, `live)
      ensures UniqueNames(root.slots) && (f.None? <==> name !in Bindings(root.slots))
      ensures f.None? ==> holds == old(holds) && files == old(files)
      ensures f.Some? ==> fresh(f.value) && f.value.inode.sector == Bindings(root.slots)[name]
      ensures f.Some? ==> f.value.pos == 0 && !f.value.denyWrite
      ensures f.Some? ==> f.value.ref !in old(holds) && holds == old(holds)[f.value.ref := f.value.inode]
      ensures f.Some? ==> files == old(files)[f.value.ref := f.value]
    {
      hide DiskOk, NamesOk, LiveOk, OpenOk, HoldsOk, UniqueNames, Directory.Bindings, NoneLost, Extent, Sectors;
      RefsAreOld();
      var dir, dirRef := DirOpenRoot();
      var inode, ref := DirLookup(name);
      DirClose(dir, dirRef);
      if inode.None? {
        assert holds == old(holds);
        return None;
      }
      assert holds == old(holds)[ref := inode.value];
      var file := FileOpen(inode.value, ref);
      return Some(file);
    }

    /** dir_add on the root directory, for a new file whose sectors are allocated: the file gets the name
        and comes to life, or nothing changes. */
    method DirAdd(name: string, sector: nat) returns (success: bool)
      requires Valid() && UniqueNames(root.slots)
      requires sector in headers && Extent(sector, headers[sector], |freeMap|)
      requires Sectors(sector, headers[sector]) <= Orphans(owner)
      modifies root`slots, this`owner, this`live
      ensures Valid() && UniqueNames(root.slots)
      ensures success <==> ValidName(name) && name !in old(Bindings(root.slots)) && !Full(old(root.slots))
      ensures !success ==> root.slots == old(root.slots) && owner == old(owner) && live == old(live)
      ensures success ==> Bindings(root.slots) == old(Bindings(root.slots))[name := sector]
      ensures success ==> AddsEntry(old(root.slots), root.slots, name, sector)
      ensures success ==>
        live == old(live) + {sector} && owner == Assign(old(owner), Sectors(sector, headers[sector]), Of(sector))
    {
      hide DiskOk, NamesOk, LiveOk, OpenOk, HoldsOk, UniqueNames, Directory.Bindings, Full, Sectors, Assign, Extent,
           HasName;
      OrphanIsNotLive(sector);
      success := root.Add(name, sector);
      if success {
        owner := Assign(owner, Sectors(sector, headers[sector]), Of(sector));
        live := live + {sector};
        AdoptKeepsDisk(freeMap, old(owner), headers, old(live), sector);
        AddKeepsValid(name, sector);
      }
    }

    lemma OrphanIsNotLive(sector: nat)
      requires Valid() && sector in headers && Sectors(sector, headers[sector]) <= Orphans(owner)
      ensures sector !in live && !IsSystem(sector) && !HasName(root.slots, sector)
    {
      hide NamesOk, OpenOk, HoldsOk, HasName, SectorOpen;
      assert sector in Sectors(sector, headers[sector]);
      LiveIsOwned(freeMap, owner, headers, live, sector);
    }

    twostate lemma AddKeepsValid(name: string, new sector: nat)
      requires old(Valid()) && sector !in old(live) && !IsSystem(sector) && !HasName(old(root.slots), sector)
      requires AddsEntry(old(root.slots), root.slots, name, sector)
      requires UniqueNames(root.slots) && live == old(live) + {sector}
      requires DiskOk(freeMap, owner, headers, live)
      requires unchanged(`freeMap, `headers, `holds, `denying, `files, `openInodes, `nextRef)
      requires unchanged(openInodes) && unchanged(files.Values)
      ensures Valid()
    {
      hide DiskOk, IsSystem, CountsOk, DistinctSectors, UniqueNames, HoldsOk, LiveOk;
      var k :| FirstFree(old(root.slots), k) && root.slots == old(root.slots)[k := Entry(sector, name, true)];
      NameKeepsNames(old(root.slots), k, name, sector);
      hide HasName, NamesOk;
      AddKeepsLive(old(live), old(root.slots), root.slots, openInodes, sector);
      forall i | i in openInodes
        ensures FileOk(i) && CountsOk(i)
      {
        OpenIsLive(old(live), old(root.slots), openInodes, i);
      }
    }

    lemma SystemSectorInUse()
      requires Valid()
      ensures !Bitmap.Fits(freeMap, FREE_MAP_SECTOR, 1)
    {
      hide NamesOk, OpenOk, HoldsOk, HasName, SectorOpen;
      LiveIsOwned(freeMap, owner, headers, live, FREE_MAP_SECTOR);
      assert freeMap[FREE_MAP_SECTOR];
    }

    /** The two allocations of filesys_create: a sector for the inode, which is 0 if there is none, and the
        data. */
    method AllocateFile(size: nat) returns (sector: nat, start: Option<nat>)
      requires Valid()
      modifies this`freeMap, this`owner, this`headers
      ensures Valid() && |freeMap| == |old(freeMap)|
      ensures start.Some? <==> old(RoomFor(freeMap, InodeIO.BytesToSectors(size)))
      ensures sector == 0 ==> start.None? && owner == old(owner)
      ensures sector != 0 ==> sector < |freeMap| && Range(sector, 1) <= Orphans(owner)
      ensures start.None? ==> headers == old(headers) && (sector != 0 ==> owner - Range(sector, 1) == old(owner))
      ensures start.Some? ==> sector !in old(live) && headers == old(headers)[sector := DiskInode(start.value, size)]
      ensures start.Some? ==> start.value + InodeIO.BytesToSectors(size) <= |freeMap|
      ensures start.Some? ==> Extent(sector, headers[sector], |freeMap|)
      ensures start.Some? ==> Sectors(sector, headers[sector]) !! old(owner).Keys
      ensures start.Some? ==> Sectors(sector, headers[sector]) <= Orphans(owner)
      ensures start.Some? ==> owner == Assign(old(owner), Sectors(sector, headers[sector]), Nobody)
      ensures start.Some? ==>
        owner - Range(sector, 1) == Assign(old(owner), Range(start.value, InodeIO.BytesToSectors(size)), Nobody)
    {
      hide DiskOk, NamesOk, LiveOk, OpenOk, HoldsOk, RoomFor;
      hide Sectors, Assign, Range, Extent, Bitmap.Fits, Bitmap.SetMultiple, InodeIO.BytesToSectors, Orphans;
      SystemSectorInUse();
      var taken := FreeMapAllocate(1);
      if taken.None? {
        NoRoom(old(freeMap), InodeIO.BytesToSectors(size));
        return 0, None;
      }
      sector := taken.value;
      TakenAndGiven(old(freeMap), old(owner), old(headers), old(live), sector);
      RoomAfter(old(freeMap), sector, InodeIO.BytesToSectors(size));
      start := InodeCreate(sector, size);
      if start.Some? {
        CreatedSectors(old(freeMap), old(owner), old(headers), old(live), sector, start.value, size);
      }
    }

    /** The steps of filesys_create between opening and closing the root directory. */
    method CreateIn(name: string, initialSize: nat) returns (success: bool, header: nat, start: nat)
      requires Valid() && UniqueNames(root.slots)
      modifies root`slots, this`freeMap, this`owner, this`headers, this`live, this`leaked
      ensures Valid() && UniqueNames(root.slots)
      ensures Created(old(View()), View(), name, initialSize, success, header, start)
      ensures header != 0 <==> old(RoomFor(freeMap, InodeIO.BytesToSectors(initialSize)))
      ensures header != 0 ==> start + InodeIO.BytesToSectors(initialSize) <= |freeMap|
    {
      hide DiskOk, NamesOk, LiveOk, OpenOk, HoldsOk, UniqueNames, Directory.Bindings, Full, HasName, RoomFor, AddsEntry;
      hide Sectors, Assign, Range, Extent, Bitmap.SetMultiple, InodeIO.BytesToSectors, Orphans;
      success, header, start := false, 0, 0;
      var inodeSector, data := AllocateFile(initialSize);
      if data.Some? {
        header, start := inodeSector, data.value;
        success := DirAdd(name, inodeSector);
      }
      if !success && inodeSector != 0 {
        FreeMapRelease(inodeSector, 1);
        if data.Some? {
          leaked := leaked + Range(start, InodeIO.BytesToSectors(initialSize));
        }
      }
    }

    /** filesys_create. */
    method Create(name: string, initialSize: nat) returns (success: bool, header: nat, start: nat)
      requires Settled() && UniqueNames(root.slots)
      modifies root`slots, this`freeMap, this`owner, this`headers, this`live, this`leaked
      modifies this`openInodes, this`holds, this`nextRef, Opened()`openCnt
      ensures Settled() && UniqueNames(root.slots) && holds == old(holds)
      ensures Created(old(View()), View(), name, initialSize, success, header, start)
    {
      hide DiskOk, NamesOk, LiveOk, OpenOk, HoldsOk, UniqueNames, Directory.Bindings, Created;
      RefsAreOld();
      var dir, dirRef := DirOpenRoot();
      success, header, start := CreateIn(name, initialSize);
      CreatedLosesNone(old(View()), View(), name, initialSize, success, header, start);
      DirClose(dir, dirRef);
      assert holds == old(holds);
    }

    /** The middle of dir_remove: the entry is erased and the inode marked, to be released by its last
        close. */
    method EraseAndMark(slot: nat, inode: Inode)
      requires Valid() && slot < |root.slots| && root.slots[slot].inUse && UniqueNames(root.slots)
      requires inode in openInodes && inode.sector == root.slots[slot].sector
      modifies root`slots, inode`removed
      ensures Valid() && inode.removed && UniqueNames(root.slots)
      ensures Bindings(root.slots) == old(Bindings(root.slots)) - {old(root.slots)[slot].name}
      ensures ErasesEntry(old(root.slots), root.slots, old(root.slots)[slot].name)
    {
      hide DiskOk, NamesOk, LiveOk, OpenOk, HoldsOk, UniqueNames, Directory.Bindings;
      assert Named(root.slots, slot, root.slots[slot].name);
      root.Erase(slot);
      inode.removed := true;
      EraseKeepsValid(slot, inode);
    }

    twostate lemma EraseKeepsValid(new slot: nat, i: Inode)
      requires old(Valid()) && slot < |old(root.slots)| && old(root.slots)[slot].inUse
      requires i in openInodes && i.sector == old(root.slots)[slot].sector && i.removed && UniqueNames(root.slots)
      requires root.slots == old(root.slots)[slot := old(root.slots)[slot].(inUse := false)]
      requires unchanged(`freeMap, `owner, `live, `headers, `holds, `denying, `files, `openInodes, `nextRef)
      requires unchanged(files.Values)
      requires forall j | j in openInodes :: j.openCnt == old(j.openCnt) && j.denyWriteCnt == old(j.denyWriteCnt)
      requires forall j | j in openInodes && j != i :: j.removed == old(j.removed)
      ensures Valid()
    {
      hide DiskOk, IsSystem, DistinctSectors, UniqueNames, HoldsOk, LiveOk, HasName, RefsTo, SectorOpen;
      EraseKeepsNames(old(root.slots), slot);
      MarkedIsNamed(old(root.slots), slot);
      EraseKeepsLive(live, old(root.slots), root.slots, openInodes, i);
      hide NamesOk;
      forall j | j in openInodes
        ensures FileOk(j) && CountsOk(j)
      {
        SameSectorSameInode(openInodes, i, j);
      }
    }

    lemma OpenAreCounted()
      requires OpenOk()
      ensures forall i | i in Opened() :: i.openCnt > 0
    {}

    /** dir_remove on the root directory. */
    method DirRemove(name: string) returns (success: bool)
      requires Valid() && UniqueNames(root.slots)
      modifies root`slots, this`freeMap, this`owner, this`live
      modifies this`openInodes, this`holds, this`nextRef, Opened()`openCnt, Opened()`removed
      ensures Valid() && UniqueNames(root.slots) && holds == old(holds) && nextRef >= old(nextRef)
      ensures success <==> name in old(Bindings(root.slots))
      ensures !success ==> View() == old(View())
      ensures success ==> Removed(old(View()), View(), name, old(IsOpen(Bindings(root.slots)[name])))
    {
      hide DiskOk, NamesOk, LiveOk, OpenOk, HoldsOk, UniqueNames, Directory.Bindings, Sectors, SectorOpen;
      RefsAreOld();
      OpenAreCounted();
      var slot := root.Lookup(name);
      if slot.None? {
        return false;
      }
      NamedIsLive(slot.value);
      var inode, ref := InodeOpen(root.slots[slot.value].sector);
      HeldIsOpen(ref);
      EraseAndMark(slot.value, inode);
      InodeClose(inode, ref);
      assert holds == old(holds);
      return true;
    }

    lemma BoundIsNotSystem(name: string)
      requires Valid() && UniqueNames(root.slots) && name in Bindings(root.slots)
      ensures !IsSystem(Bindings(root.slots)[name]) && Bindings(root.slots)[name] in live
      ensures DiskOk(freeMap, owner, headers, live)
    {
      var k := BoundSomewhere(root.slots, name);
      NamedIsLive(k);
      hide NamesOk, LiveOk, OpenOk, HoldsOk, DiskOk, UniqueNames;
    }

    /** filesys_remove. */
    method Remove(name: string) returns (success: bool)
      requires Settled() && UniqueNames(root.slots)
      modifies root`slots, this`freeMap, this`owner, this`live
      modifies this`openInodes, this`holds, this`nextRef, Opened()`openCnt, Opened()`removed
      ensures Settled() && UniqueNames(root.slots) && holds == old(holds)
      ensures success <==> name in old(Bindings(root.slots))
      ensures !success ==> View() == old(View())
      ensures success ==> Removed(old(View()), View(), name, old(IsOpen(Bindings(root.slots)[name])))
    {
      hide DiskOk, NamesOk, LiveOk, OpenOk, HoldsOk, UniqueNames, Directory.Bindings, Sectors, SectorOpen, Removed;
      RefsAreOld();
      if name in Bindings(root.slots) {
        BoundIsNotSystem(name);
      }
      var dir, dirRef := DirOpenRoot();
      success := DirRemove(name);
      if success {
        RemovedLosesNone(old(View()), View(), name, old(IsOpen(Bindings(root.slots)[name])));
      }
      DirClose(dir, dirRef);
      assert holds == old(holds);
    }

    /** The ownership of sectors in every state of every run.  Whatever has a name or is open is live; live
        files do not share sectors; and the sectors in use are exactly theirs and those that refused
        creations left behind. */
    lemma EverySectorHasOneOwner()
      requires Settled()
      ensures forall h | h in live :: h in headers && Extent(h, headers[h], |freeMap|)
      ensures forall k | 0 <= k < |root.slots| && root.slots[k].inUse :: root.slots[k].sector in live
      ensures forall i | i in openInodes :: i.sector in live && DiskInode(i.start, i.length) == headers[i.sector]
      ensures forall g, h | g in live && h in live && g != h ::
        Sectors(g, headers[g]) !! Sectors(h, headers[h])
      ensures forall s | 0 <= s < |freeMap| :: freeMap[s] <==>
        s in leaked || exists h :: h in live && s in Sectors(h, headers[h])
    {
      hide NamesOk, LiveOk, HasName, SectorOpen, UniqueNames, HoldsOk, CountsOk;
      SectorsAreDisjoint(freeMap, owner, headers, live);
      forall k | 0 <= k < |root.slots| && root.slots[k].inUse
        ensures root.slots[k].sector in live
      {
        NamedIsLive(k);
      }
      forall i | i in openInodes
        ensures i.sector in live && DiskInode(i.start, i.length) == headers[i.sector]
      {
        OpenIsLive(live, root.slots, openInodes, i);
        LiveIsOwned(freeMap, owner, headers, live, i.sector);
      }
    }
  }

  // ---- a refused creation ----

  /** A creation under a name in use, when there is room for it, makes more sectors useless: none of those that were
      in use before. */
  method RefusedCreation(fs: FileSystem, name: string, size: nat) returns (ghost start: nat)
    requires fs.Settled() && UniqueNames(fs.root.slots) && name in Bindings(fs.root.slots)
    requires size > 0 && RoomFor(fs.freeMap, InodeIO.BytesToSectors(size))
    modifies fs.root`slots, fs`freeMap, fs`owner, fs`headers, fs`live, fs`leaked
    modifies fs`openInodes, fs`holds, fs`nextRef, fs.Opened()`openCnt
    ensures fs.Settled() && fs.root.slots == old(fs.root.slots) && fs.live == old(fs.live)
    ensures fs.leaked == old(fs.leaked) + Range(start, InodeIO.BytesToSectors(size))
    ensures old(fs.leaked) < fs.leaked
  {
    ghost var before, was := fs.owner.Keys, fs.leaked;
    hide RoomFor, UniqueNames, Directory.Bindings, NamesOk, LiveOk;
    var success, header;
    success, header, start := fs.Create(name, size);
    assert start in Range(start, InodeIO.BytesToSectors(size)) && start !in before;
    assert was <= before;
  }

  /** Two free sectors are room for a file of one sector. */
  lemma RoomForOne(freeMap: seq<bool>, a: nat, b: nat)
    requires a < b < |freeMap| && !freeMap[a] && !freeMap[b]
    ensures RoomFor(freeMap, 0) && RoomFor(freeMap, 1)
  {
    var h := LowestFree(freeMap, a);
    var s := if h == a then b else a;
    assert Bitmap.Fits(Bitmap.SetMultiple(freeMap, h, 1, true), s, 1);
    assert Bitmap.Fits(Bitmap.SetMultiple(freeMap, h, 1, true), 0, 0);
  }

  lemma {:induction false} LowestFree(freeMap: seq<bool>, a: nat) returns (h: nat)
    requires a < |freeMap| && !freeMap[a]
    ensures h <= a && Bitmap.Fits(freeMap, h, 1) && forall k: nat | k < h :: !Bitmap.Fits(freeMap, k, 1)
  {
    if k: nat :| k < a && !freeMap[k] {
      h := LowestFree(freeMap, k);
    } else {
      h := a;
      forall k: nat | k < h
        ensures !Bitmap.Fits(freeMap, k, 1)
      {
        assert freeMap[k];
      }
    }
  }

  /** A creation of an empty file takes one sector. */
  lemma StillFree(d: Disk, d': Disk, name: string, header: nat, start: nat, k: nat)
    requires UniqueNames(d.slots) && UniqueNames(d'.slots) && Created(d, d', name, 0, true, header, start)
    requires DiskOk(d.freeMap, d.owner, d.headers, d.live) && DiskOk(d'.freeMap, d'.owner, d'.headers, d'.live)
    requires k < |d.freeMap| && !d.freeMap[k] && k != header
    ensures k < |d'.freeMap| && !d'.freeMap[k]
  {
    hide UniqueNames, Directory.Bindings, RoomFor;
    assert InodeIO.BytesToSectors(0) == 0;
    assert k !in d.owner && k !in d'.owner;
  }

  /** The first creation of an empty file, on a device of 16 sectors. */
  lemma FirstFile(d: Disk, d': Disk, name: string, success: bool, header: nat, start: nat)
    requires UniqueNames(d.slots) && UniqueNames(d'.slots) && Created(d, d', name, 0, success, header, start)
    requires DiskOk(d.freeMap, d.owner, d.headers, d.live) && DiskOk(d'.freeMap, d'.owner, d'.headers, d'.live)
    requires d.freeMap == UsedUpTo(16, 4) && Bindings(d.slots) == map[] && !Full(d.slots) && ValidName(name)
    ensures success && Bindings(d'.slots).Keys == {name} && d'.leaked == d.leaked && RoomFor(d'.freeMap, 1)
  {
    assert InodeIO.BytesToSectors(0) == 0;
    hide UniqueNames, Directory.Bindings, DiskOk, RoomFor, UsedUpTo, InodeIO.BytesToSectors, Sectors, Assign;
    RoomForOne(d.freeMap, 4, 5);
    var a, b := if header == 4 then 5 else 4, if header == 4 || header == 5 then 6 else 5;
    StillFree(d, d', name, header, start, a);
    StillFree(d, d', name, header, start, b);
    RoomForOne(d'.freeMap, a, b);
  }

  lemma MapOf16()
    ensures InodeIO.BytesToSectors(FreeMapBytes(16)) == 1 && FormattedMap(16) == UsedUpTo(16, 4)
  {}

  /** A device of 16 sectors with one empty file on it. */
  method OneFile(name: string) returns (fs: FileSystem)
    requires ValidName(name)
    ensures fresh(fs) && fresh(fs.root) && fs.Settled() && fs.leaked == {} && RoomFor(fs.freeMap, 1)
    ensures forall i | i in fs.openInodes :: fresh(i)
    ensures UniqueNames(fs.root.slots) && Bindings(fs.root.slots).Keys == {name}
  {
    hide UniqueNames, Directory.Bindings, NamesOk, LiveOk, RoomFor, FreeMapBytes, InodeIO.BytesToSectors, DiskOk;
    hide Created, FormattedMap, UsedUpTo, Full, NoneLost, ValidName;
    MapOf16();
    fs := new FileSystem(16);
    ghost var d := fs.View();
    var success, header, start := fs.Create(name, 0);
    FirstFile(d, fs.View(), name, success, header, start);
  }

  /** A second creation under the same name is refused and loses a sector. */
  method LeakExample(name: string) returns (fs: FileSystem)
    requires ValidName(name)
    ensures fresh(fs) && fs.Settled() && |fs.leaked| == 1
    ensures UniqueNames(fs.root.slots) && Bindings(fs.root.slots).Keys == {name}
  {
    assert InodeIO.BytesToSectors(1) == 1;
    hide UniqueNames, Directory.Bindings, NamesOk, LiveOk, RoomFor, InodeIO.BytesToSectors, DiskOk;
    fs := OneFile(name);
    var lost := RefusedCreation(fs, name, 1);
    assert {} + Range(lost, 1) == {lost};
  }
}
