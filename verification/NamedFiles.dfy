/** The file system as a user sees it: names, and the bytes of the files that they stand for, all read from the
    device (filesys/filesys.c, filesys/directory.c, filesys/inode.c).  Only the inodes are records. */
module NamedFiles {
  import opened Bytes
  import opened Directory
  import opened DirectoryBytes
  import opened FileContents
  import opened InodeIO
  import opened Machine
  import opened Options
  import FS = FileSystem

  const ROOT := FS.ROOT_DIR_SECTOR

  predicate FitsIn(d: FS.DiskInode, size: nat) { d.start + BytesToSectors(d.length) <= size }

  /** The entries in the bytes of the root directory. */
  ghost function Entries(sectors: seq<Sector>, headers: map<nat, FS.DiskInode>): seq<Entry>
    requires ROOT in headers && FitsIn(headers[ROOT], |sectors|)
  {
    Slots(Content(sectors, headers[ROOT]))
  }

  /** The root directory can be read, and every file that it names. */
  ghost predicate Readable(sectors: seq<Sector>, headers: map<nat, FS.DiskInode>) {
    && ROOT in headers && FitsIn(headers[ROOT], |sectors|) && UniqueNames(Entries(sectors, headers))
    && var files := Bindings(Entries(sectors, headers));
      forall n | n in files :: files[n] in headers && FitsIn(headers[files[n]], |sectors|)
  }

  /** The bytes of every file, by its name. */
  ghost function NamedContents(sectors: seq<Sector>, headers: map<nat, FS.DiskInode>): map<string, seq<Byte>>
    requires Readable(sectors, headers)
  {
    var files := Bindings(Entries(sectors, headers));
    map n | n in files :: Content(sectors, headers[files[n]])
  }

  /** The entries of the root directory in memory are those in its bytes on the device. */
  ghost predicate InStep(fs: FS.FileSystem, dev: BlockDevice)
    reads fs`freeMap, fs`headers, fs.root`slots, dev
  {
    && |dev.sectors| == |fs.freeMap| <= B32 && Readable(dev.sectors, fs.headers)
    && IsInt32(fs.headers[ROOT].length) && fs.root.slots == Entries(dev.sectors, fs.headers)
  }

  // ---- what a change of some sectors leaves alone ----

  lemma RangesApart(start: nat, cnt: nat, start': nat, cnt': nat)
    requires FS.Range(start, cnt) !! FS.Range(start', cnt')
    ensures cnt == 0 || cnt' == 0 || start + cnt <= start' || start' + cnt' <= start
  {
    hide FS.Range;
    var s := if start < start' then start' else start;
    assert s in FS.Range(start, cnt) || s >= start + cnt;
    assert s in FS.Range(start', cnt') || s >= start' + cnt';
  }

  /** A file that owns none of the sectors that have changed is as it was. */
  lemma SparesFile(before: seq<Sector>, after: seq<Sector>, start: nat, cnt: nat, d: FS.DiskInode)
    requires SameOutside(before, after, start, cnt) && FitsIn(d, |before|)
    requires FS.Range(start, cnt) !! FS.Range(d.start, BytesToSectors(d.length))
    ensures Content(after, d) == Content(before, d)
  {
    RangesApart(start, cnt, d.start, BytesToSectors(d.length));
    hide BytesToSectors, SameOutside, Data, FS.Range;
    SameData(before, after, start, cnt, d.start, d.length);
  }

  // ---- what is known of a running file system ----

  /** The sectors of the data of a file. */
  function Blocks(d: FS.DiskInode): set<nat> { FS.Range(d.start, BytesToSectors(d.length)) }

  /** Live files have sectors of their own, and names lead to live files other than the root directory. */
  ghost predicate Sound(d: FS.Disk) {
    && ROOT in d.live && UniqueNames(d.slots)
    && (forall h | h in d.live :: h < |d.freeMap| && h in d.headers && FitsIn(d.headers[h], |d.freeMap|))
    && (forall h | h in d.live :: Blocks(d.headers[h]) <= d.owner.Keys)
    && (forall g, h | g in d.live && h in d.live && g != h :: Blocks(d.headers[g]) !! Blocks(d.headers[h]))
    && (forall n | n in Bindings(d.slots) :: Bindings(d.slots)[n] in d.live && Bindings(d.slots)[n] != ROOT)
  }

  lemma SettledIsSound(fs: FS.FileSystem)
    requires fs.Settled()
    ensures Sound(fs.View())
  {
    fs.EverySectorHasOneOwner();
    fs.SystemIsLive(ROOT);
    assert UniqueNames(fs.root.slots);
    hide FS.NamesOk, FS.LiveOk, UniqueNames, Bindings, FS.Sectors, BytesToSectors, FS.Range, Blocks;
    forall n | n in Bindings(fs.root.slots)
      ensures Bindings(fs.root.slots)[n] in fs.live && Bindings(fs.root.slots)[n] != ROOT
    {
      fs.BoundIsNotSystem(n);
    }
    forall h | h in fs.live
      ensures h < |fs.freeMap| && h in fs.headers && Blocks(fs.headers[h]) <= fs.owner.Keys
    {
      BlocksAreOwned(fs.freeMap, fs.owner, fs.headers, fs.live, h);
    }
    hide FS.DiskOk;
    forall g, h | g in fs.live && h in fs.live && g != h
      ensures Blocks(fs.headers[g]) !! Blocks(fs.headers[h])
    {
      BlocksAreApart(g, fs.headers[g], h, fs.headers[h]);
    }
  }

  lemma BlocksAreOwned(freeMap: seq<bool>, owner: map<nat, FS.Owner>, headers: map<nat, FS.DiskInode>,
                       live: set<nat>, h: nat)
    requires FS.DiskOk(freeMap, owner, headers, live) && h in live
    ensures h < |freeMap| && Blocks(headers[h]) <= owner.Keys
  {
    FS.LiveIsOwned(freeMap, owner, headers, live, h);
    hide FS.Range, FS.Sectors, BytesToSectors;
    assert forall s | s in FS.Sectors(h, headers[h]) :: s in owner;
  }

  lemma BlocksAreApart(g: nat, d: FS.DiskInode, h: nat, e: FS.DiskInode)
    requires FS.Sectors(g, d) !! FS.Sectors(h, e)
    ensures Blocks(d) !! Blocks(e)
  {}

  /** A named file outlasts a change of free sectors and of the root directory. */
  lemma NamedIsSpared(d: FS.Disk, n: string, before: seq<Sector>, cleared: seq<Sector>, after: seq<Sector>,
                      start: nat, cnt: nat)
    requires Sound(d) && n in Bindings(d.slots) && |before| == |d.freeMap|
    requires FS.Range(start, cnt) !! d.owner.Keys && SameOutside(before, cleared, start, cnt)
    requires SameOutside(cleared, after, d.headers[ROOT].start, BytesToSectors(d.headers[ROOT].length))
    ensures var h := Bindings(d.slots)[n];
      && h in d.live && h in d.headers && FitsIn(d.headers[h], |before|) && |after| == |before|
      && Content(after, d.headers[h]) == Content(before, d.headers[h])
  {
    hide UniqueNames, Bindings, FS.Range, BytesToSectors;
    var e := d.headers[Bindings(d.slots)[n]];
    assert Blocks(d.headers[ROOT]) !! Blocks(e) && Blocks(e) <= d.owner.Keys;
    SparesFile(before, cleared, start, cnt, e);
    SparesFile(cleared, after, d.headers[ROOT].start, BytesToSectors(d.headers[ROOT].length), e);
  }

  lemma SoundIsReadable(d: FS.Disk, sectors: seq<Sector>)
    requires Sound(d) && |sectors| == |d.freeMap|
    ensures ROOT in d.headers && FitsIn(d.headers[ROOT], |sectors|)
    ensures d.slots == Entries(sectors, d.headers) ==> Readable(sectors, d.headers)
  {
    hide UniqueNames, Bindings, FitsIn, Blocks, Entries;
  }

  /** The effect of a creation on the named contents. */
  lemma CreatedContents(d: FS.Disk, d': FS.Disk, name: string, size: nat, header: nat, start: nat,
                        before: seq<Sector>, cleared: seq<Sector>, after: seq<Sector>, cnt: nat)
    requires Sound(d) && Sound(d') && FS.SameHeaders(d, d') && Bindings(d'.slots) == Bindings(d.slots)[name := header]
    requires header in d'.headers && d'.headers[header] == FS.DiskInode(start, size)
    requires Readable(before, d.headers) && |before| == |d.freeMap| && d.slots == Entries(before, d.headers)
    requires Readable(after, d'.headers) && |after| == |before| && d'.slots == Entries(after, d'.headers)
    requires FS.Range(start, cnt) !! d.owner.Keys && SameOutside(before, cleared, start, cnt)
    requires SameOutside(cleared, after, d.headers[ROOT].start, BytesToSectors(d.headers[ROOT].length))
    requires FitsIn(FS.DiskInode(start, size), |after|) && Content(after, FS.DiskInode(start, size)) == Zeros(size)
    ensures NamedContents(after, d'.headers) == NamedContents(before, d.headers)[name := Zeros(size)]
  {
    hide UniqueNames, Bindings, FS.Range, BytesToSectors, Entries, SameOutside, Blocks, Content;
    forall n | n in Bindings(d.slots)
      ensures var h := Bindings(d.slots)[n];
        && h in d'.headers && d'.headers[h] == d.headers[h]
        && Content(after, d.headers[h]) == Content(before, d.headers[h])
    {
      NamedIsSpared(d, n, before, cleared, after, start, cnt);
    }
    hide Sound, FS.SameHeaders;
  }

  /** The effect of everything that only takes names away. */
  lemma RemainingContents(d: FS.Disk, d': FS.Disk, gone: set<string>, before: seq<Sector>, cleared: seq<Sector>,
                          after: seq<Sector>, start: nat, cnt: nat)
    requires Sound(d) && Sound(d') && FS.SameHeaders(d, d') && Bindings(d'.slots) == Bindings(d.slots) - gone
    requires Readable(before, d.headers) && |before| == |d.freeMap| && d.slots == Entries(before, d.headers)
    requires Readable(after, d'.headers) && |after| == |before| && d'.slots == Entries(after, d'.headers)
    requires FS.Range(start, cnt) !! d.owner.Keys && SameOutside(before, cleared, start, cnt)
    requires SameOutside(cleared, after, d.headers[ROOT].start, BytesToSectors(d.headers[ROOT].length))
    ensures NamedContents(after, d'.headers) == NamedContents(before, d.headers) - gone
  {
    hide UniqueNames, Bindings, FS.Range, BytesToSectors, Entries, SameOutside, Blocks, Content;
    forall n | n in Bindings(d'.slots)
      ensures var h := Bindings(d.slots)[n];
        && h in d'.headers && d'.headers[h] == d.headers[h]
        && Content(after, d.headers[h]) == Content(before, d.headers[h])
    {
      NamedIsSpared(d, n, before, cleared, after, start, cnt);
    }
    hide Sound, FS.SameHeaders;
  }

  // ---- the operations, in memory and on the device ----

  /** What filesys_create writes: inode_create clears the data, and dir_add writes the entry. */
  method WriteCreated(dir: Inode, dev: BlockDevice, name: string, header: nat, start: nat, size: nat, named: bool)
    returns (ghost cleared: seq<Sector>)
    requires dir.FitsOn(dev) && IsInt32(dir.length) && dir.denyWriteCnt == 0 && UniqueNames(Slots(dir.Contents(dev)))
    requires start + BytesToSectors(size) <= |dev.sectors|
    requires FS.Range(start, BytesToSectors(size)) !! FS.Range(dir.start, BytesToSectors(dir.length))
    requires IsText(name) && (named ==> header < B32)
    requires var slots := Slots(dir.Contents(dev));
      named ==> ValidName(name) && name !in Bindings(slots) && !Full(slots)
    modifies dev
    ensures dir.FitsOn(dev)
    ensures var before, after := old(Slots(dir.Contents(dev))), Slots(dir.Contents(dev));
      if named then AddsEntry(before, after, name, header) else after == before
    ensures SameOutside(old(dev.sectors), cleared, start, BytesToSectors(size))
    ensures SameOutside(cleared, dev.sectors, dir.start, BytesToSectors(dir.length))
    ensures Data(dev.sectors, start, size) == Zeros(size)
  {
    hide Slots, Bindings, UniqueNames, FS.Range, BytesToSectors, AddsEntry, Data;
    ghost var before := dev.sectors;
    ClearSectors(dev, start, BytesToSectors(size));
    cleared := dev.sectors;
    NewFileIsZero(before, start, size, start, size);
    assert Data(cleared, start, size) == Zeros(size);
    SparesFile(before, cleared, start, BytesToSectors(size), FS.DiskInode(dir.start, dir.length));
    if named {
      var added := AddEntry(dir, dev, name, header);
      SparesFile(cleared, dev.sectors, dir.start, BytesToSectors(dir.length), FS.DiskInode(start, size));
    }
  }

  /** What dir_add relies on, and what the cleared sectors are not. */
  lemma CreatedIsFree(d: FS.Disk, d': FS.Disk, name: string, size: nat, success: bool, header: nat, start: nat)
    requires Sound(d) && Sound(d') && FS.Created(d, d', name, size, success, header, start)
    requires header != 0 <==> FS.RoomFor(d.freeMap, BytesToSectors(size))
    ensures ROOT in d.headers && ROOT in d'.headers && d'.headers[ROOT] == d.headers[ROOT]
    ensures |d'.freeMap| == |d.freeMap|
    ensures success ==> header != 0 && header < |d.freeMap| && header in d'.headers
    ensures success ==> d'.headers[header] == FS.DiskInode(start, size) && FitsIn(d'.headers[header], |d.freeMap|)
    ensures success ==> ValidName(name) && name !in Bindings(d.slots) && !Full(d.slots)
    ensures success ==> AddsEntry(d.slots, d'.slots, name, header)
    ensures success ==> Bindings(d'.slots) == Bindings(d.slots)[name := header]
    ensures !success ==> d'.slots == d.slots
    ensures header != 0 ==> FS.Range(start, BytesToSectors(size)) !! d.owner.Keys
    ensures header != 0 ==> FS.Range(start, BytesToSectors(size)) !! Blocks(d.headers[ROOT])
  {
    hide UniqueNames, Bindings, FS.Range, BytesToSectors, FS.RoomFor, Full, AddsEntry, FS.Assign, ValidName;
  }

  /** The steps of filesys_create between opening and closing the root directory, in memory and on the device. */
  method CreateIn(fs: FS.FileSystem, dir: Inode, dev: BlockDevice, name: string, size: nat)
    returns (success: bool, header: nat, start: nat, ghost cleared: seq<Sector>)
    requires fs.Settled() && InStep(fs, dev) && IsText(name)
    requires dir.sector == ROOT && dir.denyWriteCnt == 0 && fs.headers[ROOT] == FS.DiskInode(dir.start, dir.length)
    modifies dev, fs.root`slots, fs`freeMap, fs`owner, fs`headers, fs`live, fs`leaked
    ensures fs.Settled() && FS.Created(old(fs.View()), fs.View(), name, size, success, header, start)
    ensures header != 0 <==> old(FS.RoomFor(fs.freeMap, BytesToSectors(size)))
    ensures |dev.sectors| == |fs.freeMap| <= B32 && fs.root.slots == Slots(dir.Contents(dev))
    ensures SameOutside(old(dev.sectors), cleared, start, if header != 0 then BytesToSectors(size) else 0)
    ensures SameOutside(cleared, dev.sectors, dir.start, BytesToSectors(dir.length))
    ensures success ==> FitsIn(FS.DiskInode(start, size), |dev.sectors|)
    ensures success ==> Data(dev.sectors, start, size) == Zeros(size)
  {
    hide FS.DiskOk, FS.NamesOk, FS.LiveOk, UniqueNames, Bindings, FS.Range, FS.RoomFor, BytesToSectors, Slots, Data,
         Full, FS.Created, AddsEntry, Sound, FS.NoneLost, ValidName;
    ghost var d := fs.View();
    cleared := dev.sectors;
    SettledIsSound(fs);
    success, header, start := fs.CreateIn(name, size);
    FS.CreatedLosesNone(d, fs.View(), name, size, success, header, start);
    SettledIsSound(fs);
    CreatedIsFree(d, fs.View(), name, size, success, header, start);
    if header != 0 {
      cleared := WriteCreated(dir, dev, name, header, start, size, success);
      if success {
        AddsOnce(d.slots, fs.root.slots, Slots(dir.Contents(dev)), name, header);
      }
    }
  }

  lemma AfterCreation(d: FS.Disk, d': FS.Disk, name: string, size: nat, success: bool, header: nat, start: nat,
                      before: seq<Sector>, cleared: seq<Sector>, after: seq<Sector>)
    requires Sound(d) && Sound(d') && FS.Created(d, d', name, size, success, header, start)
    requires header != 0 <==> FS.RoomFor(d.freeMap, BytesToSectors(size))
    requires |before| == |d.freeMap| && Readable(before, d.headers) && d.slots == Entries(before, d.headers)
    requires |after| == |before| && ROOT in d'.headers && FitsIn(d'.headers[ROOT], |after|)
    requires d'.slots == Entries(after, d'.headers)
    requires SameOutside(before, cleared, start, if header != 0 then BytesToSectors(size) else 0)
    requires SameOutside(cleared, after, d.headers[ROOT].start, BytesToSectors(d.headers[ROOT].length))
    requires success ==> start + BytesToSectors(size) <= |after| && Data(after, start, size) == Zeros(size)
    ensures Readable(after, d'.headers) && IsInt32(d'.headers[ROOT].length) == IsInt32(d.headers[ROOT].length)
    ensures var files, files' := NamedContents(before, d.headers), NamedContents(after, d'.headers);
      && files' == (if success then files[name := Zeros(size)] else files)
      && (success <==>
           FS.RoomFor(d.freeMap, BytesToSectors(size)) && !Full(d.slots) && ValidName(name) && name !in files)
  {
    hide UniqueNames, Bindings, FS.Range, FS.RoomFor, BytesToSectors, Data, Full, AddsEntry, Sound, ValidName,
         SameOutside, FS.Assign, FS.Sectors, Entries;
    CreatedIsFree(d, d', name, size, success, header, start);
    SoundIsReadable(d', after);
    if success {
      CreatedContents(d, d', name, size, header, start, before, cleared, after, BytesToSectors(size));
    } else {
      RemainingContents(d, d', {}, before, cleared, after, start, if header != 0 then BytesToSectors(size) else 0);
    }
  }

  /** filesys_create, in memory and on the device: a new file of zeros gets the name, or no file changes. */
  method Create(fs: FS.FileSystem, dev: BlockDevice, name: string, size: nat) returns (success: bool)
    requires fs.Settled() && InStep(fs, dev) && IsText(name)
    modifies dev, fs.root`slots, fs`freeMap, fs`owner, fs`headers, fs`live, fs`leaked
    modifies fs`openInodes, fs`holds, fs`nextRef, fs.Opened()`openCnt
    ensures fs.Settled() && InStep(fs, dev) && fs.holds == old(fs.holds)
    ensures success <==>
      && old(FS.RoomFor(fs.freeMap, BytesToSectors(size))) && !Full(old(fs.root.slots))
      && ValidName(name) && name !in old(NamedContents(dev.sectors, fs.headers))
    ensures var files := old(NamedContents(dev.sectors, fs.headers));
      NamedContents(dev.sectors, fs.headers) == if success then files[name := Zeros(size)] else files
  {
    hide FS.DiskOk, FS.NamesOk, FS.LiveOk, FS.FileSystem.OpenOk, FS.FileSystem.HoldsOk, UniqueNames, Bindings, FS.Range,
         FS.RoomFor, BytesToSectors, Slots, Data, Full, FS.Created, AddsEntry, Sound, FS.NoneLost, ValidName,
         SameOutside, Readable, NamedContents;
    ghost var d, before, cleared := fs.View(), dev.sectors, dev.sectors;
    SettledIsSound(fs);
    fs.RefsAreOld();
    var dir, dirRef := fs.DirOpenRoot();
    fs.HeldIsOpen(dirRef);
    fs.RootIsWritable();
    var header, start;
    success, header, start, cleared := CreateIn(fs, dir, dev, name, size);
    fs.DirClose(dir, dirRef);
    SettledIsSound(fs);
    CreatedIsFree(d, fs.View(), name, size, success, header, start);
    SoundIsReadable(fs.View(), dev.sectors);
    AfterCreation(d, fs.View(), name, size, success, header, start, before, cleared, dev.sectors);
  }

  lemma RemovedIsErased(d: FS.Disk, d': FS.Disk, name: string, wasOpen: bool)
    requires Sound(d) && Sound(d') && name in Bindings(d.slots) && FS.Removed(d, d', name, wasOpen)
    ensures ErasesEntry(d.slots, d'.slots, name) && Bindings(d'.slots) == Bindings(d.slots) - {name}
    ensures |d'.freeMap| == |d.freeMap| && d'.headers == d.headers
  {
    hide UniqueNames, Bindings, ErasesEntry, Sound, FS.Sectors;
  }

  /** The steps of filesys_remove between opening and closing the root directory, in memory and on the device. */
  method RemoveIn(fs: FS.FileSystem, dir: Inode, dev: BlockDevice, name: string) returns (success: bool)
    requires fs.Settled() && InStep(fs, dev)
    requires dir.sector == ROOT && dir.denyWriteCnt == 0 && fs.headers[ROOT] == FS.DiskInode(dir.start, dir.length)
    modifies dev, fs.root`slots, fs`freeMap, fs`owner, fs`live
    modifies fs`openInodes, fs`holds, fs`nextRef, fs.Opened()`openCnt, fs.Opened()`removed
    ensures fs.Settled() && fs.holds == old(fs.holds) && fs.nextRef >= old(fs.nextRef)
    ensures UniqueNames(fs.root.slots) && success == (name in old(Bindings(fs.root.slots)))
    ensures Bindings(fs.root.slots) == old(Bindings(fs.root.slots)) - {name}
    ensures |dev.sectors| == |fs.freeMap| <= B32 && fs.root.slots == Slots(dir.Contents(dev))
    ensures SameOutside(old(dev.sectors), dev.sectors, dir.start, BytesToSectors(dir.length))
  {
    hide FS.DiskOk, FS.NamesOk, FS.LiveOk, FS.FileSystem.OpenOk, FS.FileSystem.HoldsOk, UniqueNames, Bindings, Slots,
         BytesToSectors, FS.Removed, Sound, FS.NoneLost, ErasesEntry;
    ghost var d := fs.View();
    SettledIsSound(fs);
    if name in Bindings(fs.root.slots) {
      fs.BoundIsNotSystem(name);
    }
    success := fs.DirRemove(name);
    if success {
      FS.RemovedLosesNone(d, fs.View(), name, old(fs.IsOpen(Bindings(fs.root.slots)[name])));
      SettledIsSound(fs);
      RemovedIsErased(d, fs.View(), name, old(fs.IsOpen(Bindings(fs.root.slots)[name])));
    }
    var erased := EraseEntry(dir, dev, name);
    if success {
      ErasesOnce(d.slots, fs.root.slots, Slots(dir.Contents(dev)), name);
    }
  }

  /** filesys_remove, in memory and on the device: exactly this name goes. */
  method Remove(fs: FS.FileSystem, dev: BlockDevice, name: string) returns (success: bool)
    requires fs.Settled() && InStep(fs, dev)
    modifies dev, fs.root`slots, fs`freeMap, fs`owner, fs`live
    modifies fs`openInodes, fs`holds, fs`nextRef, fs.Opened()`openCnt, fs.Opened()`removed
    ensures fs.Settled() && InStep(fs, dev) && fs.holds == old(fs.holds)
    ensures success <==> name in old(NamedContents(dev.sectors, fs.headers))
    ensures NamedContents(dev.sectors, fs.headers) == old(NamedContents(dev.sectors, fs.headers)) - {name}
  {
    hide FS.DiskOk, FS.NamesOk, FS.LiveOk, FS.FileSystem.OpenOk, FS.FileSystem.HoldsOk, UniqueNames, Bindings, Slots,
         BytesToSectors, Sound, FS.NoneLost, Readable, NamedContents;
    ghost var d, before := fs.View(), dev.sectors;
    SettledIsSound(fs);
    fs.RefsAreOld();
    var dir, dirRef := fs.DirOpenRoot();
    fs.HeldIsOpen(dirRef);
    fs.RootIsWritable();
    success := RemoveIn(fs, dir, dev, name);
    fs.DirClose(dir, dirRef);
    SettledIsSound(fs);
    SoundIsReadable(fs.View(), dev.sectors);
    RemainingContents(d, fs.View(), {name}, before, before, dev.sectors, 0, 0);
    NamesOfContents(before, fs.headers);
  }

  lemma NamesOfContents(sectors: seq<Sector>, headers: map<nat, FS.DiskInode>)
    requires Readable(sectors, headers)
    ensures NamedContents(sectors, headers).Keys == Bindings(Entries(sectors, headers)).Keys
  {}

  /** A file has one name at most. */
  lemma OneName(slots: seq<Entry>, m: string, n: string)
    requires FS.NamesOk(slots) && m in Bindings(slots) && n in Bindings(slots)
    requires Bindings(slots)[m] == Bindings(slots)[n]
    ensures m == n
  {
    var j := BoundSomewhere(slots, m);
    var k := BoundSomewhere(slots, n);
    assert FS.NamesSector(slots, j, Bindings(slots)[m]) && FS.NamesSector(slots, k, Bindings(slots)[m]);
  }

  /** The contents of an open file are those of its name, as long as it has one. */
  lemma OpenedByName(fs: FS.FileSystem, f: FS.File, dev: BlockDevice, name: string)
    requires fs.Settled() && InStep(fs, dev) && f.ref in fs.files && fs.files[f.ref] == f
    requires name in Bindings(fs.root.slots) && f.inode.sector == Bindings(fs.root.slots)[name]
    ensures f.inode.sector in fs.headers && f.inode.FitsOn(dev) && name in NamedContents(dev.sectors, fs.headers)
    ensures fs.headers[f.inode.sector] == FS.DiskInode(f.inode.start, f.inode.length)
    ensures f.inode.Contents(dev) == NamedContents(dev.sectors, fs.headers)[name]
  {
    hide FS.DiskOk, FS.NamesOk, FS.LiveOk, FS.FileSystem.OpenOk, UniqueNames, Bindings, Slots, BytesToSectors, Data;
    fs.HeldIsOpen(f.ref);
  }

  /** filesys_open, for the file behind a name: there is one exactly if the name is there, and it starts at the
      beginning.  Nothing on the device changes. */
  method OpenNamed(fs: FS.FileSystem, dev: BlockDevice, name: string) returns (f: Option<FS.File>)
    requires fs.Settled() && InStep(fs, dev)
    modifies fs`openInodes, fs`holds, fs`nextRef, fs`freeMap, fs`owner, fs`live, fs`files, fs.Opened()`openCnt
    ensures fs.Settled() && InStep(fs, dev) && fs.freeMap == old(fs.freeMap)
    ensures f.Some? <==> name in NamedContents(dev.sectors, fs.headers)
    ensures f.Some? ==> fresh(f.value) && f.value.ref in fs.files && fs.files[f.value.ref] == f.value
    ensures f.Some? ==> f.value.pos == 0 && IsNamed(fs, f.value, name)
    ensures f.Some? ==> f.value.ref !in old(fs.holds) && fs.holds == old(fs.holds)[f.value.ref := f.value.inode]
    ensures f.None? ==> fs.holds == old(fs.holds)
  {
    hide FS.DiskOk, FS.NamesOk, FS.LiveOk, FS.FileSystem.OpenOk, FS.FileSystem.HoldsOk, UniqueNames, Bindings, Slots,
         BytesToSectors, FS.NoneLost, Readable, NamedContents;
    NamesOfContents(dev.sectors, fs.headers);
    f := fs.Open(name);
  }

  /** The name is bound to the inode of this file. */
  ghost predicate IsNamed(fs: FS.FileSystem, f: FS.File, name: string)
    reads fs.root`slots
  {
    UniqueNames(fs.root.slots) && name in Bindings(fs.root.slots) && f.inode.sector == Bindings(fs.root.slots)[name]
  }

  /** Some bytes of a file, wherever they would start when there are none. */
  function Part(data: seq<Byte>, from: nat, n: nat): seq<Byte>
    requires n == 0 || from + n <= |data|
  {
    if n == 0 then [] else data[from..from + n]
  }

  /** n bytes of a file from `from` on are in front of the buffer, as many as asked for or as there are. */
  predicate IsRead(files: map<string, seq<Byte>>, name: string, from: nat, size: int, before: seq<Byte>,
                   after: seq<Byte>, n: nat)
  {
    && name in files && n == Transfer(size, from, |files[name]|) && n <= |after| == |before|
    && after[..n] == Part(files[name], from, n) && after[n..] == before[n..]
  }

  /** file_read of a file with a name: the bytes that the name stands for, from the position on, as many as asked
      for or as there are. */
  method ReadNamed(fs: FS.FileSystem, f: FS.File, dev: BlockDevice, name: string, buffer: array<Byte>, size: int)
    returns (n: nat)
    requires InStep(fs, dev) && IsNamed(fs, f, name) && f.ref in fs.files && fs.files[f.ref] == f && fs.Settled()
    requires size <= buffer.Length && IsInt32(f.inode.length) && IsInt32(f.pos)
    modifies buffer, f`pos
    ensures IsRead(NamedContents(dev.sectors, fs.headers), name, old(f.pos), size, old(buffer[..]), buffer[..], n)
    ensures f.pos == old(f.pos) + n && IsInt32(f.pos) && fs.Settled()
  {
    hide FS.DiskOk, FS.NamesOk, FS.LiveOk, FS.FileSystem.OpenOk, FS.FileSystem.HoldsOk, UniqueNames, Bindings, Slots,
         BytesToSectors, FS.NoneLost, Readable, NamedContents, Data;
    OpenedByName(fs, f, dev, name);
    n := f.Read(dev, buffer, size);
  }

  /** The first buffer has the first bytes of a file, as many as fit or there are, and the other one those behind. */
  predicate ReadInTurn(files: map<string, seq<Byte>>, name: string, one: seq<Byte>, other: seq<Byte>, m: nat, n: nat) {
    && name in files && m == Min(|one|, |files[name]|) && n == Min(|other|, |files[name]| - m)
    && one[..m] + other[..n] == files[name][..m + n]
  }

  /** Two reads of a file that was just opened. */
  method ReadTwice(fs: FS.FileSystem, f: FS.File, dev: BlockDevice, name: string, one: array<Byte>, other: array<Byte>)
    returns (m: nat, n: nat)
    requires InStep(fs, dev) && IsNamed(fs, f, name) && f.ref in fs.files && fs.files[f.ref] == f && fs.Settled()
    requires one != other && IsInt32(f.inode.length) && f.pos == 0
    modifies one, other, f`pos
    ensures ReadInTurn(NamedContents(dev.sectors, fs.headers), name, one[..], other[..], m, n)
    ensures fs.Settled()
  {
    hide FS.DiskOk, FS.NamesOk, FS.LiveOk, FS.FileSystem.OpenOk, FS.FileSystem.HoldsOk, UniqueNames, Bindings, Slots,
         BytesToSectors, FS.NoneLost, Readable, NamedContents, Data;
    m := ReadNamed(fs, f, dev, name, one, one.Length);
    ghost var front := one[..m];
    n := ReadNamed(fs, f, dev, name, other, other.Length);
    assert one[..][..m] == one[..m] == front && other[..][..n] == other[..n];
  }

  /** file_reopen: the second file starts at the beginning too, wherever the first one is. */
  method ReopenNamed(fs: FS.FileSystem, f: FS.File, dev: BlockDevice, name: string) returns (g: FS.File)
    requires InStep(fs, dev) && IsNamed(fs, f, name) && f.ref in fs.files && fs.files[f.ref] == f && fs.Settled()
    modifies fs`files, fs`holds, fs`nextRef, f.inode`openCnt
    ensures fs.Settled() && InStep(fs, dev) && g != f && g.ref in fs.files && fs.files[g.ref] == g
    ensures IsNamed(fs, g, name) && g.pos == 0 && f.pos == old(f.pos)
    ensures g.ref !in old(fs.holds) && fs.holds == old(fs.holds)[g.ref := f.inode]
  {
    hide FS.DiskOk, FS.NamesOk, FS.LiveOk, FS.FileSystem.OpenOk, FS.FileSystem.HoldsOk, UniqueNames, Bindings, Slots,
         BytesToSectors, FS.NoneLost, Readable;
    g := fs.FileReopen(f);
  }

  /** The effect of a change of one named file: `data` is its contents afterwards. */
  lemma WrittenContents(d: FS.Disk, before: seq<Sector>, after: seq<Sector>, name: string, data: seq<Byte>)
    requires Sound(d) && FS.NamesOk(d.slots) && name in Bindings(d.slots)
    requires Readable(before, d.headers) && d.slots == Entries(before, d.headers)
    requires |after| == |before| == |d.freeMap|
    requires Content(after, d.headers[Bindings(d.slots)[name]]) == data
    requires forall h | h in d.live && h != Bindings(d.slots)[name] ::
      Content(after, d.headers[h]) == Content(before, d.headers[h])
    ensures Entries(after, d.headers) == d.slots && Readable(after, d.headers)
    ensures NamedContents(after, d.headers) == NamedContents(before, d.headers)[name := data]
  {
    hide UniqueNames, Bindings, FS.NamesOk, Slots, Blocks, BytesToSectors, Data;
    assert Entries(after, d.headers) == d.slots;
    forall m | m in Bindings(d.slots) && m != name
      ensures Bindings(d.slots)[m] != Bindings(d.slots)[name]
    {
      if Bindings(d.slots)[m] == Bindings(d.slots)[name] {
        OneName(d.slots, m, name);
      }
    }
  }

  /** These bytes are in the file of this name from `at` on, and no other byte of any file has changed. */
  predicate IsWritten(files: map<string, seq<Byte>>, files': map<string, seq<Byte>>, name: string, at: nat,
                      bytes: seq<Byte>)
  {
    && name in files && (bytes != [] ==> at + |bytes| <= |files[name]|)
    && files' == if bytes == [] then files else files[name := Splice(files[name], at, bytes)]
  }

  /** file_write to a file with a name: its contents under this name change, and those of no other name. */
  method WriteNamed(fs: FS.FileSystem, f: FS.File, dev: BlockDevice, name: string, buffer: array<Byte>, size: int)
    returns (n: nat)
    requires InStep(fs, dev) && name in Bindings(fs.root.slots) && f.inode.sector == Bindings(fs.root.slots)[name]
    requires size <= buffer.Length && IsInt32(f.inode.length) && IsInt32(f.pos)
    requires f.ref in fs.files && fs.files[f.ref] == f && fs.Settled()
    modifies dev, f`pos
    ensures InStep(fs, dev) && f.pos == old(f.pos) + n
    ensures n == if f.inode.denyWriteCnt > 0 then 0 else Transfer(size, old(f.pos), f.inode.length)
    ensures n <= buffer.Length && IsWritten(old(NamedContents(dev.sectors, fs.headers)),
      NamedContents(dev.sectors, fs.headers), name, old(f.pos), buffer[..n])
    ensures fs.Settled()
  {
    hide FS.DiskOk, FS.NamesOk, FS.LiveOk, FS.FileSystem.OpenOk, FS.FileSystem.HoldsOk, UniqueNames, Bindings, Slots,
         BytesToSectors, FS.NoneLost, Data, Splice, Sound, NamedContents;
    SettledIsSound(fs);
    OpenedByName(fs, f, dev, name);
    ghost var before := dev.sectors;
    n := WriteFile(fs, f, dev, buffer, size);
    WrittenContents(fs.View(), before, dev.sectors, name,
      Content(dev.sectors, fs.headers[Bindings(fs.root.slots)[name]]));
  }

  /** The device is formatted: the root directory is a cleared file, and nothing has a name. */
  method Format(dev: BlockDevice) returns (fs: FS.FileSystem)
    requires BytesToSectors(FS.FreeMapBytes(|dev.sectors|)) + 3 <= |dev.sectors| <= B32
    modifies dev
    ensures fresh(fs) && fresh(fs.root) && fs.Settled() && InStep(fs, dev)
    ensures NamedContents(dev.sectors, fs.headers) == map[]
  {
    hide FS.DiskOk, FS.NamesOk, FS.LiveOk, FS.FileSystem.OpenOk, FS.FileSystem.HoldsOk, UniqueNames, Bindings, Slots,
         BytesToSectors, FS.NoneLost, Data;
    fs := new FS.FileSystem(|dev.sectors|);
    SettledIsSound(fs);
    SoundIsReadable(fs.View(), dev.sectors);
    var root := fs.headers[ROOT];
    ghost var before := dev.sectors;
    ClearSectors(dev, root.start, BytesToSectors(root.length));
    NewFileIsZero(before, root.start, root.length, root.start, root.length);
    ClearedIsEmpty(Content(dev.sectors, root));
    assert fs.root.slots == Entries(dev.sectors, fs.headers);
    SoundIsReadable(fs.View(), dev.sectors);
    NamesOfContents(dev.sectors, fs.headers);
  }
}
