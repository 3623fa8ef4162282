/** Reading and writing the data of an inode (filesys/inode.c): the chunked transfers through whole
    sectors and a bounce buffer against one flat array of bytes. */
module InodeIO {
  import opened Bytes
  import opened Machine

  const SECTOR_SIZE := 512

  type Sector = s: seq<Byte> | |s| == SECTOR_SIZE witness seq(SECTOR_SIZE, _ => 0)

  // ---- the disk as one array of bytes ----

  /** All the bytes of a device, in order. */
  function Flat(sectors: seq<Sector>): (f: seq<Byte>)
    ensures |f| == SECTOR_SIZE * |sectors|
  {
    seq(SECTOR_SIZE * |sectors|, i requires 0 <= i < SECTOR_SIZE * |sectors| =>
      sectors[i / SECTOR_SIZE][i % SECTOR_SIZE])
  }

  lemma SliceOfSlice(a: seq<Byte>, lo: nat, hi: nat, i: nat, j: nat)
    requires lo <= hi <= |a| && i <= j <= hi - lo
    ensures a[lo..hi][i..j] == a[lo + i..lo + j]
  {
    forall k | 0 <= k < j - i
      ensures a[lo..hi][i..j][k] == a[lo + i..lo + j][k]
    {
      assert a[lo..hi][i + k] == a[lo + i + k];
    }
  }

  /** `a` with the bytes from `at` on replaced by `b`. */
  function Splice(a: seq<Byte>, at: nat, b: seq<Byte>): (r: seq<Byte>)
    requires at + |b| <= |a|
    ensures |r| == |a|
  {
    a[..at] + b + a[at + |b|..]
  }

  lemma SpliceAt(a: seq<Byte>, at: nat, b: seq<Byte>, i: nat)
    requires at + |b| <= |a| && i < |a|
    ensures Splice(a, at, b)[i] == if at <= i < at + |b| then b[i - at] else a[i]
  {}

  lemma SpliceEnds(a: seq<Byte>, at: nat, b: seq<Byte>)
    requires at + |b| <= |a|
    ensures b == [] ==> Splice(a, at, b) == a
    ensures |b| == |a| ==> Splice(a, at, b) == b
  {}

  /** Two neighbouring splices are one. */
  lemma SpliceJoins(a: seq<Byte>, at: nat, b: seq<Byte>, c: seq<Byte>)
    requires at + |b| + |c| <= |a|
    ensures Splice(Splice(a, at, b), at + |b|, c) == Splice(a, at, b + c)
  {}

  /** The piece of a splice that was spliced in, and pieces outside of it. */
  lemma SliceOfSplice(a: seq<Byte>, at: nat, b: seq<Byte>, lo: nat, hi: nat)
    requires at + |b| <= |a| && lo <= hi <= |a|
    ensures lo == at && hi == at + |b| ==> Splice(a, at, b)[lo..hi] == b
    ensures hi <= at || at + |b| <= lo ==> Splice(a, at, b)[lo..hi] == a[lo..hi]
  {
    var r := Splice(a, at, b);
    forall i | lo <= i < hi
      ensures r[lo..hi][i - lo] == if at <= i < at + |b| then b[i - at] else a[i]
    {
      SpliceAt(a, at, b, i);
    }
  }

  /** A slice around what was spliced in. */
  lemma SpliceOfSlice(a: seq<Byte>, at: nat, b: seq<Byte>, lo: nat, hi: nat)
    requires lo <= at && at + |b| <= hi <= |a|
    ensures Splice(a, at, b)[lo..hi] == Splice(a[lo..hi], at - lo, b)
  {
    hide Splice;
    forall i | 0 <= i < hi - lo
      ensures Splice(a, at, b)[lo..hi][i] == Splice(a[lo..hi], at - lo, b)[i]
    {
      SpliceAt(a, at, b, lo + i);
      SpliceAt(a[lo..hi], at - lo, b, i);
    }
  }

  lemma SectorOfFlat(sectors: seq<Sector>, k: nat)
    requires k < |sectors|
    ensures Flat(sectors)[SECTOR_SIZE * k..SECTOR_SIZE * k + SECTOR_SIZE] == sectors[k]
  {
    var f := Flat(sectors);
    forall j | 0 <= j < SECTOR_SIZE
      ensures f[SECTOR_SIZE * k + j] == sectors[k][j]
    {
      assert (SECTOR_SIZE * k + j) / SECTOR_SIZE == k && (SECTOR_SIZE * k + j) % SECTOR_SIZE == j;
    }
  }

  /** Replacing one sector replaces its bytes and no others. */
  lemma FlatOfUpdate(sectors: seq<Sector>, k: nat, x: Sector)
    requires k < |sectors|
    ensures Flat(sectors[k := x]) == Splice(Flat(sectors), SECTOR_SIZE * k, x)
  {
    var f := Flat(sectors[k := x]);
    var g := Splice(Flat(sectors), SECTOR_SIZE * k, x);
    forall i | 0 <= i < |f|
      ensures f[i] == g[i]
    {
      var q, r := i / SECTOR_SIZE, i % SECTOR_SIZE;
      assert i == SECTOR_SIZE * q + r;
      SpliceAt(Flat(sectors), SECTOR_SIZE * k, x, i);
    }
  }

  /** Reading a sector into a bounce buffer and copying a piece of it out is a slice of the disk. */
  lemma PieceOfSector(sectors: seq<Sector>, k: nat, ofs: nat, n: nat)
    requires k < |sectors| && ofs + n <= SECTOR_SIZE
    ensures sectors[k][ofs..ofs + n] == Flat(sectors)[SECTOR_SIZE * k + ofs..SECTOR_SIZE * k + ofs + n]
  {
    SectorOfFlat(sectors, k);
    SliceOfSlice(Flat(sectors), SECTOR_SIZE * k, SECTOR_SIZE * k + SECTOR_SIZE, ofs, ofs + n);
  }

  /** Reading a sector, overwriting a piece of it and writing it back overwrites that piece of the
      disk. */
  lemma FlatOfPatch(sectors: seq<Sector>, k: nat, ofs: nat, b: seq<Byte>)
    requires k < |sectors| && ofs + |b| <= SECTOR_SIZE
    ensures Flat(sectors[k := Splice(sectors[k], ofs, b)]) == Splice(Flat(sectors), SECTOR_SIZE * k + ofs, b)
  {
    var f := Flat(sectors);
    var x := Splice(sectors[k], ofs, b);
    FlatOfUpdate(sectors, k, x);
    SectorOfFlat(sectors, k);
    var lo := SECTOR_SIZE * k;
    forall i | 0 <= i < |f|
      ensures Splice(f, lo, x)[i] == Splice(f, lo + ofs, b)[i]
    {
      SpliceAt(f, lo, x, i);
      SpliceAt(f, lo + ofs, b, i);
      if lo <= i < lo + SECTOR_SIZE {
        SpliceAt(sectors[k], ofs, b, i - lo);
        assert f[lo..lo + SECTOR_SIZE][i - lo] == f[i];
      }
    }
  }

  lemma SpliceOneMore(a: seq<Byte>, at: nat, b: seq<Byte>, x: Byte)
    requires at + |b| < |a|
    ensures Splice(a, at, b + [x]) == Splice(a, at, b)[at + |b| := x]
  {}

  // ---- memory and device ----

  method Memcpy(dst: array<Byte>, d: nat, src: array<Byte>, s: nat, n: nat)
    requires d + n <= dst.Length && s + n <= src.Length && dst != src
    modifies dst
    ensures dst[..] == Splice(old(dst[..]), d, src[s..s + n])
  {
    hide Splice;
    SpliceEnds(dst[..], d, []);
    assert src[s..s + 0] == [];
    var i := 0;
    while i < n
      invariant i <= n
      invariant dst[..] == Splice(old(dst[..]), d, src[s..s + i])
    {
      ghost var before := dst[..];
      dst[d + i] := src[s + i];
      assert dst[..] == before[d + i := src[s + i]];
      SpliceOneMore(old(dst[..]), d, src[s..s + i], src[s + i]);
      assert src[s..s + i + 1] == src[s..s + i] + [src[s + i]];
      i := i + 1;
    }
  }

  class BlockDevice {
    var sectors: seq<Sector>

    method Read(sector: nat, buffer: array<Byte>, at: nat)
      requires sector < |sectors| && at + SECTOR_SIZE <= buffer.Length
      modifies buffer
      ensures buffer[..] == Splice(old(buffer[..]), at, sectors[sector])
    {
      var i := 0;
      while i < SECTOR_SIZE
        invariant i <= SECTOR_SIZE
        invariant buffer[..] == Splice(old(buffer[..]), at, sectors[sector][..i])
      {
        buffer[at + i] := sectors[sector][i];
        assert sectors[sector][..i + 1] == sectors[sector][..i] + [sectors[sector][i]];
        i := i + 1;
      }
      assert sectors[sector][..SECTOR_SIZE] == sectors[sector];
    }

    method Write(sector: nat, buffer: array<Byte>, at: nat)
      requires sector < |sectors| && at + SECTOR_SIZE <= buffer.Length
      modifies this
      ensures sectors == old(sectors)[sector := buffer[at..at + SECTOR_SIZE]]
    {
      sectors := sectors[sector := buffer[at..at + SECTOR_SIZE]];
    }
  }

  // ---- inodes ----

  /** The least number of sectors that hold `size` bytes. */
  function BytesToSectors(size: nat): (n: nat)
    ensures SECTOR_SIZE * (n - 1) < size <= SECTOR_SIZE * n
  {
    (size + SECTOR_SIZE - 1) / SECTOR_SIZE
  }

  lemma WithinLastSector(pos: nat, length: nat)
    requires pos < length
    ensures pos / SECTOR_SIZE < BytesToSectors(length)
    ensures SECTOR_SIZE * (pos / SECTOR_SIZE) + pos % SECTOR_SIZE == pos
  {
    hide BytesToSectors;
    var n := BytesToSectors(length);
    assert SECTOR_SIZE * (pos / SECTOR_SIZE) <= pos < SECTOR_SIZE * n;
  }

  /** How many bytes a transfer of `size` bytes at `offset` moves in a file of `length` bytes. */
  function Transfer(size: int, offset: nat, length: nat): nat {
    Max(0, Min(size, length - offset))
  }

  /** The bytes of a file whose data starts at sector `start`. */
  function Data(sectors: seq<Sector>, start: nat, length: nat): (d: seq<Byte>)
    requires start + BytesToSectors(length) <= |sectors|
    ensures |d| == length
  {
    Flat(sectors)[SECTOR_SIZE * start..SECTOR_SIZE * start + length]
  }

  /** What a write of `b` at `offset` of a file does, for every file on the device: in the file itself
      it replaces exactly those bytes, so that reading them again gives `b`; a file whose sectors
      are others is as it was. */
  lemma WriteIsLocal(before: seq<Sector>, after: seq<Sector>, start: nat, length: nat, offset: nat, b: seq<Byte>,
                     start': nat, length': nat)
    requires |after| == |before|
    requires start + BytesToSectors(length) <= |before| && start' + BytesToSectors(length') <= |before|
    requires offset + |b| <= length
    requires Flat(after) == Splice(Flat(before), SECTOR_SIZE * start + offset, b)
    ensures Data(after, start, length) == Splice(Data(before, start, length), offset, b)
    ensures Data(after, start, length)[offset..offset + |b|] == b
    ensures start + BytesToSectors(length) <= start' || start' + BytesToSectors(length') <= start ==>
      Data(after, start', length') == Data(before, start', length')
  {
    hide Flat, BytesToSectors, Splice;
    var f, at := Flat(before), SECTOR_SIZE * start + offset;
    var lo, lo' := SECTOR_SIZE * start, SECTOR_SIZE * start';
    EndsBelow(start, length, |before|);
    EndsBelow(start', length', |before|);
    EndsBelow(start, length, start');
    EndsBelow(start', length', start);
    SpliceOfSlice(f, at, b, lo, lo + length);
    SliceOfSplice(Data(before, start, length), offset, b, offset, offset + |b|);
    SliceOfSplice(f, at, b, lo', lo' + length');
  }

  lemma EndsBelow(start: nat, length: nat, n: nat)
    ensures start + BytesToSectors(length) <= n ==> SECTOR_SIZE * start + length <= SECTOR_SIZE * n
  {
    hide BytesToSectors;
  }

  /** Only these sectors have changed. */
  ghost predicate SameOutside(before: seq<Sector>, after: seq<Sector>, start: nat, cnt: nat) {
    |after| == |before| && forall s | 0 <= s < |before| && !(start <= s < start + cnt) :: after[s] == before[s]
  }

  /** A write within a file changes only the sectors of this file. */
  lemma WriteStaysInside(before: seq<Sector>, after: seq<Sector>, start: nat, length: nat, offset: nat, b: seq<Byte>)
    requires |after| == |before| && start + BytesToSectors(length) <= |before| && offset + |b| <= length
    requires Flat(after) == Splice(Flat(before), SECTOR_SIZE * start + offset, b)
    ensures SameOutside(before, after, start, BytesToSectors(length))
  {
    var cnt := BytesToSectors(length);
    hide BytesToSectors, Flat, Splice;
    EndsBelow(start, length, start + cnt);
    forall s | 0 <= s < |before| && !(start <= s < start + cnt)
      ensures after[s] == before[s]
    {
      SectorOfFlat(before, s);
      SectorOfFlat(after, s);
      SliceOfSplice(Flat(before), SECTOR_SIZE * start + offset, b, SECTOR_SIZE * s, SECTOR_SIZE * s + SECTOR_SIZE);
    }
  }

  /** A file in other sectors is as it was. */
  lemma SameData(before: seq<Sector>, after: seq<Sector>, start: nat, cnt: nat, start': nat, length: nat)
    requires SameOutside(before, after, start, cnt) && start' + BytesToSectors(length) <= |before|
    requires cnt == 0 || length == 0 || start' + BytesToSectors(length) <= start || start + cnt <= start'
    ensures Data(after, start', length) == Data(before, start', length)
  {
    hide BytesToSectors, Data;
    forall i | 0 <= i < length
      ensures Data(after, start', length)[i] == Data(before, start', length)[i]
    {
      ByteOfData(before, start', length, i);
      ByteOfData(after, start', length, i);
    }
  }

  function ZeroSector(): (z: Sector)
    ensures forall i | 0 <= i < SECTOR_SIZE :: z[i] == 0
  {
    seq(SECTOR_SIZE, _ => 0)
  }

  /** A device with some of its sectors cleared. */
  function Cleared(sectors: seq<Sector>, start: nat, cnt: nat): (r: seq<Sector>)
    requires start + cnt <= |sectors|
    ensures |r| == |sectors|
  {
    sectors[..start] + seq<Sector>(cnt, _ => ZeroSector()) + sectors[start + cnt..]
  }

  /** The loop of inode_create that clears the data of a new file. */
  method ClearSectors(dev: BlockDevice, start: nat, cnt: nat)
    requires start + cnt <= |dev.sectors|
    modifies dev
    ensures dev.sectors == Cleared(old(dev.sectors), start, cnt)
  {
    var zeros := new Byte[SECTOR_SIZE](_ => 0);
    var i := 0;
    while i < cnt
      invariant i <= cnt && zeros[..] == ZeroSector()
      invariant dev.sectors == Cleared(old(dev.sectors), start, i)
    {
      assert zeros[0..SECTOR_SIZE] == zeros[..];
      dev.Write(start + i, zeros, 0);
      i := i + 1;
    }
  }

  /** A new file reads as zeros, and a file whose sectors are others is as it was. */
  lemma NewFileIsZero(sectors: seq<Sector>, start: nat, length: nat, start': nat, length': nat)
    requires start + BytesToSectors(length) <= |sectors| && start' + BytesToSectors(length') <= |sectors|
    ensures var after := Cleared(sectors, start, BytesToSectors(length));
      && (forall i | 0 <= i < length :: Data(after, start, length)[i] == 0)
      && (start + BytesToSectors(length) <= start' || start' + BytesToSectors(length') <= start ==>
            Data(after, start', length') == Data(sectors, start', length'))
  {
    hide BytesToSectors, Data;
    var after := Cleared(sectors, start, BytesToSectors(length));
    forall i | 0 <= i < length
      ensures Data(after, start, length)[i] == 0
    {
      ByteOfData(after, start, length, i);
    }
    forall i | 0 <= i < length' &&
      (start + BytesToSectors(length) <= start' || start' + BytesToSectors(length') <= start)
      ensures Data(after, start', length')[i] == Data(sectors, start', length')[i]
    {
      ByteOfData(after, start', length', i);
      ByteOfData(sectors, start', length', i);
    }
  }

  lemma ByteOfData(sectors: seq<Sector>, start: nat, length: nat, i: nat)
    requires start + BytesToSectors(length) <= |sectors| && i < length
    ensures i / SECTOR_SIZE < BytesToSectors(length)
    ensures Data(sectors, start, length)[i] == sectors[start + i / SECTOR_SIZE][i % SECTOR_SIZE]
  {
    WithinLastSector(i, length);
    hide BytesToSectors;
    var q, r := i / SECTOR_SIZE, i % SECTOR_SIZE;
    assert SECTOR_SIZE * start + i == SECTOR_SIZE * (start + q) + r;
  }

  /** An open inode; its data occupies the sectors from `start` on. */
  class Inode {
    const sector: nat
    const start: nat
    const length: nat
    var openCnt: nat
    var removed: bool
    var denyWriteCnt: nat

    /** The last part of inode_open: one opener, nothing denied. */
    constructor (sector: nat, start: nat, length: nat)
      ensures this.sector == sector && this.start == start && this.length == length
      ensures openCnt == 1 && !removed && denyWriteCnt == 0
    {
      this.sector, this.start, this.length := sector, start, length;
      openCnt, denyWriteCnt, removed := 1, 0, false;
    }

    predicate FitsOn(dev: BlockDevice)
      reads dev
    {
      start + BytesToSectors(length) <= |dev.sectors|
    }

    /** The content of the file. */
    function Contents(dev: BlockDevice): (c: seq<Byte>)
      requires FitsOn(dev)
      reads dev
      ensures |c| == length
    {
      Data(dev.sectors, start, length)
    }

    /** byte_to_sector. */
    function ByteToSector(pos: nat): (s: int) {
      if pos < length then start + pos / SECTOR_SIZE else -1
    }

    /** How much of a transfer one sector can serve: the least of what is asked for, what is left in
        the file and what is left in the sector. */
    function ChunkSize(size: int, offset: nat): (c: int)
      requires IsInt32(length) && IsInt32(offset)
      ensures c <= size && c <= length - offset && offset % SECTOR_SIZE + c <= SECTOR_SIZE
      ensures c <= 0 && size > 0 ==> length <= offset
    {
      var inodeLeft := length - offset;
      assert IsInt32(inodeLeft);
      var sectorLeft := SECTOR_SIZE - offset % SECTOR_SIZE;
      var minLeft := if inodeLeft < sectorLeft then inodeLeft else sectorLeft;
      if size < minLeft then size else minLeft
    }

    /** A piece of the content, wherever it would start when it is empty. */
    function Piece(dev: BlockDevice, offset: nat, n: nat): (p: seq<Byte>)
      requires FitsOn(dev) && (n == 0 || offset + n <= length)
      reads dev
      ensures |p| == n
    {
      if n == 0 then [] else Contents(dev)[offset..offset + n]
    }

    /** A chunk of the content lies within one sector of the device. */
    lemma ChunkInSector(dev: BlockDevice, offset: nat, n: nat)
      requires FitsOn(dev) && 0 < n && offset + n <= length && offset % SECTOR_SIZE + n <= SECTOR_SIZE
      ensures 0 <= ByteToSector(offset) < |dev.sectors|
      ensures SECTOR_SIZE * ByteToSector(offset) + offset % SECTOR_SIZE == SECTOR_SIZE * start + offset
      ensures dev.sectors[ByteToSector(offset)][offset % SECTOR_SIZE..offset % SECTOR_SIZE + n] == Piece(dev, offset, n)
    {
      hide Flat;
      var k := ByteToSector(offset);
      WithinLastSector(offset, length);
      PieceOfSector(dev.sectors, k, offset % SECTOR_SIZE, n);
      SliceOfSlice(Flat(dev.sectors), SECTOR_SIZE * start, SECTOR_SIZE * start + length, offset, offset + n);
    }

    lemma PieceGrows(dev: BlockDevice, offset: nat, n: nat, m: nat)
      requires FitsOn(dev) && 0 < m && offset + n + m <= length
      ensures Piece(dev, offset, n) + Piece(dev, offset + n, m) == Piece(dev, offset, n + m)
    {}

    /** inode_read_at: copies the bytes from `offset` on to the front of the buffer, as many as asked
        for or as the file has, and returns how many; the rest of the buffer is as before. */
    method ReadAt(dev: BlockDevice, buffer: array<Byte>, size: int, offset: nat) returns (bytesRead: nat)
      requires FitsOn(dev) && size <= buffer.Length && IsInt32(length) && IsInt32(offset)
      modifies buffer
      ensures bytesRead == Transfer(size, offset, length)
      ensures buffer[..] == Splice(old(buffer[..]), 0, Piece(dev, offset, bytesRead))
    {
      hide Flat, Splice, Piece, Contents, FitsOn, ByteToSector, ChunkSize;
      bytesRead := 0;
      SpliceEnds(buffer[..], 0, []);
      var size, offset := size, offset;
      ghost var size0, offset0 := size, offset;
      var bounce: array?<Byte> := null;
      while size > 0
        invariant size == size0 - bytesRead && offset == offset0 + bytesRead
        invariant bytesRead == 0 || (offset <= length && bytesRead <= size0)
        invariant bounce != null ==> fresh(bounce) && bounce.Length == SECTOR_SIZE
        invariant buffer[..] == Splice(old(buffer[..]), 0, Piece(dev, offset0, bytesRead))
      {
        var sector := ByteToSector(offset);
        var sectorOfs := offset % SECTOR_SIZE;
        var chunkSize := ChunkSize(size, offset);
        if chunkSize <= 0 {
          break;
        }
        ChunkInSector(dev, offset, chunkSize);
        ghost var before := buffer[..];
        if sectorOfs == 0 && chunkSize == SECTOR_SIZE {
          dev.Read(sector, buffer, bytesRead);
          assert dev.sectors[sector][0..SECTOR_SIZE] == dev.sectors[sector];
        } else {
          if bounce == null {
            bounce := new Byte[SECTOR_SIZE];
          }
          SpliceEnds(bounce[..], 0, dev.sectors[sector]);
          dev.Read(sector, bounce, 0);
          assert bounce[sectorOfs..sectorOfs + chunkSize] == bounce[..][sectorOfs..sectorOfs + chunkSize];
          Memcpy(buffer, bytesRead, bounce, sectorOfs, chunkSize);
        }
        assert buffer[..] == Splice(before, bytesRead, Piece(dev, offset, chunkSize));
        SpliceJoins(old(buffer[..]), 0, Piece(dev, offset0, bytesRead), Piece(dev, offset, chunkSize));
        PieceGrows(dev, offset0, bytesRead, chunkSize);
        size := size - chunkSize;
        offset := offset + chunkSize;
        bytesRead := bytesRead + chunkSize;
      }
    }

    /** The bytes of a device after `b` was written at `offset` of this file. */
    ghost function Patched(flat: seq<Byte>, offset: nat, b: seq<Byte>): (r: seq<Byte>)
      requires b == [] || SECTOR_SIZE * start + offset + |b| <= |flat|
      ensures |r| == |flat|
    {
      if b == [] then flat else Splice(flat, SECTOR_SIZE * start + offset, b)
    }

    lemma PatchedNothing(flat: seq<Byte>, offset: nat)
      ensures Patched(flat, offset, []) == flat
    {}

    /** Overwriting a piece of one sector with the next chunk extends what was written by it. */
    lemma PatchGrows(dev: BlockDevice, flat: seq<Byte>, offset: nat, written: seq<Byte>, chunk: seq<Byte>)
      requires FitsOn(dev) && |flat| == SECTOR_SIZE * |dev.sectors| && 0 < |chunk|
      requires offset + |written| + |chunk| <= length
      requires (offset + |written|) % SECTOR_SIZE + |chunk| <= SECTOR_SIZE
      requires SECTOR_SIZE * start + offset + |written| <= |flat|
      requires Flat(dev.sectors) == Patched(flat, offset, written)
      ensures SECTOR_SIZE * start + offset + |written + chunk| <= |flat|
      ensures var k, ofs := ByteToSector(offset + |written|), (offset + |written|) % SECTOR_SIZE;
        && 0 <= k < |dev.sectors|
        && Flat(dev.sectors[k := Splice(dev.sectors[k], ofs, chunk)]) == Patched(flat, offset, written + chunk)
    {
      hide Splice, Flat, BytesToSectors;
      hide Flat, Contents, Piece;
      ChunkInSector(dev, offset + |written|, |chunk|);
      var k, ofs := ByteToSector(offset + |written|), (offset + |written|) % SECTOR_SIZE;
      FlatOfPatch(dev.sectors, k, ofs, chunk);
      SpliceJoins(flat, SECTOR_SIZE * start + offset, written, chunk);
      SpliceEnds(flat, SECTOR_SIZE * start + offset, []);
      assert [] + chunk == chunk;
    }

    /** The branch that needs the bounce buffer: overwrites a piece of one sector. */
    static method WritePartial(dev: BlockDevice, sector: nat, sectorOfs: nat, buffer: array<Byte>, at: nat,
                               chunkSize: nat, bounce: array<Byte>)
      requires sector < |dev.sectors| && sectorOfs + chunkSize <= SECTOR_SIZE && at + chunkSize <= buffer.Length
      requires !(sectorOfs == 0 && chunkSize == SECTOR_SIZE)
      requires bounce != buffer && bounce.Length == SECTOR_SIZE
      modifies dev, bounce
      ensures dev.sectors == old(dev.sectors)[sector :=
        Splice(old(dev.sectors)[sector], sectorOfs, buffer[at..at + chunkSize])]
    {
      hide Splice;
      SpliceEnds(bounce[..], 0, dev.sectors[sector]);
      if sectorOfs > 0 || chunkSize < SECTOR_SIZE - sectorOfs {
        dev.Read(sector, bounce, 0);
      } else {
        // A chunk that fills the sector goes the other way.
        assert false;
      }
      Memcpy(bounce, sectorOfs, buffer, at, chunkSize);
      assert bounce[0..SECTOR_SIZE] == bounce[..];
      dev.Write(sector, bounce, 0);
    }

    /** inode_write_at: unless writes are denied, overwrites exactly the bytes that fit in the file
        and no other byte of the device. */
    method WriteAt(dev: BlockDevice, buffer: array<Byte>, size: int, offset: nat) returns (bytesWritten: nat)
      requires FitsOn(dev) && size <= buffer.Length && IsInt32(length) && IsInt32(offset)
      modifies dev
      ensures bytesWritten == if denyWriteCnt > 0 then 0 else Transfer(size, offset, length)
      ensures |dev.sectors| == |old(dev.sectors)|
      ensures Flat(dev.sectors) == Patched(old(Flat(dev.sectors)), offset, buffer[..bytesWritten])
    {
      hide Flat, Splice, Piece, Contents, ByteToSector, Patched, ChunkSize;
      PatchedNothing(old(Flat(dev.sectors)), offset);
      bytesWritten := 0;
      if denyWriteCnt > 0 {
        return;
      }
      var size, offset := size, offset;
      ghost var size0, offset0 := size, offset;
      var bounce: array?<Byte> := null;
      while size > 0
        invariant size == size0 - bytesWritten && offset == offset0 + bytesWritten
        invariant bytesWritten == 0 || (offset <= length && bytesWritten <= size0)
        invariant bounce != null ==> fresh(bounce) && bounce.Length == SECTOR_SIZE
        invariant FitsOn(dev) && |dev.sectors| == |old(dev.sectors)|
        invariant Flat(dev.sectors) == Patched(old(Flat(dev.sectors)), offset0, buffer[..bytesWritten])
      {
        var sector := ByteToSector(offset);
        var sectorOfs := offset % SECTOR_SIZE;
        var chunkSize := ChunkSize(size, offset);
        if chunkSize <= 0 {
          break;
        }
        ChunkInSector(dev, offset, chunkSize);
        ghost var chunk := buffer[bytesWritten..bytesWritten + chunkSize];
        PatchGrows(dev, old(Flat(dev.sectors)), offset0, buffer[..bytesWritten], chunk);
        if sectorOfs == 0 && chunkSize == SECTOR_SIZE {
          SpliceEnds(dev.sectors[sector], 0, chunk);
          dev.Write(sector, buffer, bytesWritten);
        } else {
          if bounce == null {
            bounce := new Byte[SECTOR_SIZE];
          }
          WritePartial(dev, sector, sectorOfs, buffer, bytesWritten, chunkSize, bounce);
        }
        assert buffer[..bytesWritten] + chunk == buffer[..bytesWritten + chunkSize];
        size := size - chunkSize;
        offset := offset + chunkSize;
        bytesWritten := bytesWritten + chunkSize;
      }
    }
  }
}
