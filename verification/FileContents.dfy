/** The two halves of the file system together: reading and writing the bytes of files (filesys/inode.c) under
    the ownership of sectors (filesys/free-map.c). */
module FileContents {
  import opened Bytes
  import opened InodeIO
  import opened Machine
  import FS = FileSystem

  /** The bytes of a file. */
  function Content(sectors: seq<Sector>, d: FS.DiskInode): (c: seq<Byte>)
    requires d.start + BytesToSectors(d.length) <= |sectors|
    ensures |c| == d.length
  {
    Data(sectors, d.start, d.length)
  }

  ghost predicate OnDevice(headers: map<nat, FS.DiskInode>, live: set<nat>, size: nat) {
    forall h | h in live :: h in headers && headers[h].start + BytesToSectors(headers[h].length) <= size
  }

  /** Two files that share no sector lie one behind the other, unless one is empty. */
  lemma DisjointFiles(g: nat, h: nat, d: FS.DiskInode, e: FS.DiskInode)
    requires FS.Sectors(g, d) !! FS.Sectors(h, e) && d.length > 0 && e.length > 0
    ensures d.start + BytesToSectors(d.length) <= e.start || e.start + BytesToSectors(e.length) <= d.start
  {
    var s := if d.start < e.start then e.start else d.start;
    assert BytesToSectors(d.length) > 0 && BytesToSectors(e.length) > 0;
    hide BytesToSectors;
    assert s in FS.Sectors(g, d) || s >= d.start + BytesToSectors(d.length);
    assert s in FS.Sectors(h, e) || s >= e.start + BytesToSectors(e.length);
  }

  /** A write to one file does nothing to another one. */
  lemma WriteSparesOthers(before: seq<Sector>, after: seq<Sector>, i: Inode, offset: nat, b: seq<Byte>,
                          h: nat, d: FS.DiskInode)
    requires |after| == |before| && i.start + BytesToSectors(i.length) <= |before|
    requires d.start + BytesToSectors(d.length) <= |before|
    requires FS.Sectors(i.sector, FS.DiskInode(i.start, i.length)) !! FS.Sectors(h, d)
    requires b != [] ==> offset + |b| <= i.length && SECTOR_SIZE * i.start + offset + |b| <= SECTOR_SIZE * |before|
    requires Flat(after) == i.Patched(Flat(before), offset, b)
    ensures Content(after, d) == Content(before, d)
  {
    if b != [] && d.length > 0 {
      DisjointFiles(i.sector, h, FS.DiskInode(i.start, i.length), d);
      hide BytesToSectors, FS.Sectors, Flat;
      WriteIsLocal(before, after, i.start, i.length, offset, b, d.start, d.length);
    }
  }

  /** file_write in a running file system: the bytes are in this file from its position on, and every other file
      is as it was. */
  method WriteFile(fs: FS.FileSystem, f: FS.File, dev: BlockDevice, buffer: array<Byte>, size: int) returns (n: nat)
    requires fs.Settled() && f.ref in fs.files && fs.files[f.ref] == f && |dev.sectors| == |fs.freeMap|
    requires size <= buffer.Length && IsInt32(f.inode.length) && IsInt32(f.pos)
    modifies dev, f`pos
    ensures fs.Settled() && |dev.sectors| == |fs.freeMap| && f.pos == old(f.pos) + n
    ensures n == if f.inode.denyWriteCnt > 0 then 0 else Transfer(size, old(f.pos), f.inode.length)
    ensures OnDevice(fs.headers, fs.live, |dev.sectors|) && f.inode.sector in fs.live
    ensures var d := fs.headers[f.inode.sector];
      if n == 0 then Content(dev.sectors, d) == old(Content(dev.sectors, d))
      else Content(dev.sectors, d) == Splice(old(Content(dev.sectors, d)), old(f.pos), buffer[..n])
    ensures forall h | h in fs.live && h != f.inode.sector ::
      Content(dev.sectors, fs.headers[h]) == old(Content(dev.sectors, fs.headers[h]))
  {
    hide BytesToSectors, FS.Sectors, Flat, Splice, FS.DiskOk, FS.NamesOk, FS.LiveOk, FS.NoneLost, FS.Orphans;
    fs.HeldIsOpen(f.ref);
    fs.EverySectorHasOneOwner();
    ghost var i, before := f.inode, dev.sectors;
    n := f.Write(dev, buffer, size);
    forall h | h in fs.live && h != i.sector
      ensures Content(dev.sectors, fs.headers[h]) == Content(before, fs.headers[h])
    {
      WriteSparesOthers(before, dev.sectors, i, old(f.pos), buffer[..n], h, fs.headers[h]);
    }
    if n > 0 {
      WriteIsLocal(before, dev.sectors, i.start, i.length, old(f.pos), buffer[..n], i.start, i.length);
    }
  }
}
