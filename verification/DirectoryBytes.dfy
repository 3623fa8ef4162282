/** Directory entries as the bytes of a directory's file (struct dir_entry of filesys/directory.c): a 32-bit sector
    number, a name with its null in 15 bytes, and the flag. */
module DirectoryBytes {
  import opened Bytes
  import opened Directory
  import opened InodeIO
  import opened Machine
  import opened Options

  const NAME_OFS := 4
  const FLAG_OFS := 19

  /** The entry that these bytes stand for. */
  function Decode(b: seq<Byte>): Entry
    requires |b| == ENTRY_SIZE
  {
    Entry(WordAt(b, 0), StringAt(b[..FLAG_OFS], NAME_OFS), b[FLAG_OFS] != 0)
  }

  /** What dir_add makes of the bytes of a free entry; strlcpy leaves those behind the null. */
  function Used(b: seq<Byte>, name: string, sector: nat): (r: seq<Byte>)
    requires |b| == ENTRY_SIZE && ValidName(name) && IsText(name) && sector < B32
    ensures |r| == ENTRY_SIZE
  {
    Le(sector) + CBytes(name) + b[NAME_OFS + |name| + 1..FLAG_OFS] + [1]
  }

  lemma UsedDecodes(b: seq<Byte>, name: string, sector: nat)
    requires |b| == ENTRY_SIZE && ValidName(name) && IsText(name) && sector < B32
    ensures Decode(Used(b, name, sector)) == Entry(sector, name, true)
  {
    var r, rest := Used(b, name, sector), b[NAME_OFS + |name| + 1..FLAG_OFS];
    assert r == [] + Le(sector) + (CBytes(name) + rest + [1]);
    LeIsRead(sector, [], CBytes(name) + rest + [1]);
    assert r[..FLAG_OFS][NAME_OFS..NAME_OFS + |name| + 1] == CBytes(name);
    StringIsRead(r[..FLAG_OFS], NAME_OFS, name);
  }

  /** What dir_remove makes of an entry. */
  lemma ErasedDecodes(b: seq<Byte>)
    requires |b| == ENTRY_SIZE
    ensures Decode(b[FLAG_OFS := 0]) == Decode(b).(inUse := false)
  {
    assert b[FLAG_OFS := 0][..FLAG_OFS] == b[..FLAG_OFS];
  }

  /** The entries that fit in a directory's file. */
  function Slots(data: seq<Byte>): (s: seq<Entry>)
    ensures |s| == |data| / ENTRY_SIZE
  {
    seq(|data| / ENTRY_SIZE, k requires 0 <= k < |data| / ENTRY_SIZE =>
      Decode(data[ENTRY_SIZE * k..ENTRY_SIZE * k + ENTRY_SIZE]))
  }

  /** Overwriting the bytes of an entry replaces this entry and no other. */
  lemma SlotsOfWrite(data: seq<Byte>, k: nat, b: seq<Byte>)
    requires k < |Slots(data)| && |b| == ENTRY_SIZE
    ensures ENTRY_SIZE * k + ENTRY_SIZE <= |data|
    ensures Slots(Splice(data, ENTRY_SIZE * k, b)) == Slots(data)[k := Decode(b)]
  {
    var after := Splice(data, ENTRY_SIZE * k, b);
    hide Decode;
    forall j | 0 <= j < |Slots(data)|
      ensures Slots(after)[j] == Slots(data)[k := Decode(b)][j]
    {
      SliceOfSplice(data, ENTRY_SIZE * k, b, ENTRY_SIZE * j, ENTRY_SIZE * j + ENTRY_SIZE);
    }
  }

  /** A cleared file is a directory without entries in use. */
  lemma ClearedIsEmpty(data: seq<Byte>)
    requires forall i | 0 <= i < |data| :: data[i] == 0
    ensures forall k | 0 <= k < |Slots(data)| :: Slots(data)[k] == Entry(0, "", false)
  {}

  /** `inode_read_at (dir->inode, &e, sizeof e, ofs) == sizeof e`: the bytes of an entry, as long as there are any. */
  method ReadBytes(dir: Inode, dev: BlockDevice, k: nat, e: array<Byte>) returns (success: bool)
    requires dir.FitsOn(dev) && IsInt32(dir.length) && IsInt32(ENTRY_SIZE * k) && e.Length == ENTRY_SIZE
    modifies e
    ensures success <==> k < |Slots(dir.Contents(dev))|
    ensures success ==> Decode(e[..]) == Slots(dir.Contents(dev))[k]
  {
    var n := dir.ReadAt(dev, e, ENTRY_SIZE, ENTRY_SIZE * k);
    success := n == ENTRY_SIZE;
    if success {
      SpliceEnds(e[..], 0, dir.Piece(dev, ENTRY_SIZE * k, n));
      assert e[..] == dir.Piece(dev, ENTRY_SIZE * k, n);
    }
  }

  /** The entry itself. */
  method ReadEntry(dir: Inode, dev: BlockDevice, k: nat) returns (e: Option<Entry>)
    requires dir.FitsOn(dev) && IsInt32(dir.length) && IsInt32(ENTRY_SIZE * k)
    ensures var slots := Slots(dir.Contents(dev));
      e == if k < |slots| then Some(slots[k]) else None
  {
    hide Slots, Decode;
    var bytes := new Byte[ENTRY_SIZE](_ => 0);
    var success := ReadBytes(dir, dev, k, bytes);
    return if success then Some(Decode(bytes[..])) else None;
  }

  lemma SameFlat(before: seq<Sector>, after: seq<Sector>)
    requires |after| == |before| && Flat(after) == Flat(before)
    ensures after == before
  {
    hide Flat;
    forall s | 0 <= s < |before|
      ensures after[s] == before[s]
    {
      SectorOfFlat(before, s);
      SectorOfFlat(after, s);
    }
  }

  /** `inode_write_at (dir->inode, &e, sizeof e, ofs) == sizeof e`: replaces one entry, unless writes are denied. */
  method WriteEntry(dir: Inode, dev: BlockDevice, k: nat, bytes: array<Byte>) returns (success: bool)
    requires dir.FitsOn(dev) && IsInt32(dir.length) && bytes.Length == ENTRY_SIZE && k < |Slots(dir.Contents(dev))|
    modifies dev
    ensures dir.FitsOn(dev) && (success <==> dir.denyWriteCnt == 0)
    ensures Slots(dir.Contents(dev)) ==
      if success then old(Slots(dir.Contents(dev)))[k := Decode(bytes[..])] else old(Slots(dir.Contents(dev)))
    ensures SameOutside(old(dev.sectors), dev.sectors, dir.start, BytesToSectors(dir.length))
  {
    hide Decode, Flat;
    ghost var before, data := dev.sectors, dir.Contents(dev);
    SlotsOfWrite(data, k, bytes[..]);
    var n := dir.WriteAt(dev, bytes, ENTRY_SIZE, ENTRY_SIZE * k);
    success := n == ENTRY_SIZE;
    if success {
      assert bytes[..n] == bytes[..];
      WriteIsLocal(before, dev.sectors, dir.start, dir.length, ENTRY_SIZE * k, bytes[..], dir.start, dir.length);
      WriteStaysInside(before, dev.sectors, dir.start, dir.length, ENTRY_SIZE * k, bytes[..]);
    } else {
      SameFlat(before, dev.sectors);
    }
  }

  /** lookup, on the bytes: the slot of the entry with this name. */
  method LookupEntry(dir: Inode, dev: BlockDevice, name: string) returns (slot: Option<nat>)
    requires dir.FitsOn(dev) && IsInt32(dir.length) && UniqueNames(Slots(dir.Contents(dev)))
    ensures var slots := Slots(dir.Contents(dev));
      if slot.Some? then Named(slots, slot.value, name) else name !in Bindings(slots)
  {
    hide Slots, Decode;
    ghost var slots := Slots(dir.Contents(dev));
    var k := 0;
    while true
      invariant k <= |slots|
      invariant forall j | 0 <= j < k :: !Named(slots, j, name)
      decreases |slots| - k
    {
      var e := ReadEntry(dir, dev, k);
      if e.None? {
        break;
      }
      if e.value.inUse && e.value.name == name {
        return Some(k);
      }
      k := k + 1;
    }
    if name in Bindings(slots) {
      var j := BoundSomewhere(slots, name);
    }
    return None;
  }

  /** dir_add, on the bytes: what Directory.DirectoryFile.Add does to the entries. */
  method AddEntry(dir: Inode, dev: BlockDevice, name: string, sector: nat) returns (success: bool)
    requires dir.FitsOn(dev) && IsInt32(dir.length) && UniqueNames(Slots(dir.Contents(dev)))
    requires IsText(name) && sector < B32
    modifies dev
    ensures dir.FitsOn(dev) && UniqueNames(Slots(dir.Contents(dev)))
    ensures var slots := old(Slots(dir.Contents(dev)));
      success <==> ValidName(name) && name !in Bindings(slots) && !Full(slots) && dir.denyWriteCnt == 0
    ensures !success ==> Slots(dir.Contents(dev)) == old(Slots(dir.Contents(dev)))
    ensures success ==> Bindings(Slots(dir.Contents(dev))) == old(Bindings(Slots(dir.Contents(dev))))[name := sector]
    ensures success ==> AddsEntry(old(Slots(dir.Contents(dev))), Slots(dir.Contents(dev)), name, sector)
    ensures SameOutside(old(dev.sectors), dev.sectors, dir.start, BytesToSectors(dir.length))
  {
    if |name| == 0 || |name| > NAME_MAX {
      return false;
    }
    hide Slots, Decode, UniqueNames, Bindings;
    ghost var slots := Slots(dir.Contents(dev));
    var existing := LookupEntry(dir, dev, name);
    if existing.Some? {
      BindingOf(slots, existing.value);
      return false;
    }
    var k := 0;
    while true
      invariant k <= |slots| && dev.sectors == old(dev.sectors)
      invariant forall j | 0 <= j < k :: slots[j].inUse
      decreases |slots| - k
    {
      var e := ReadEntry(dir, dev, k);
      if e.None? {
        return false;
      }
      if !e.value.inUse {
        break;
      }
      k := k + 1;
    }
    UseSlot(slots, k, name, sector);
    assert FirstFree(slots, k);
    success := UseEntry(dir, dev, k, name, sector);
  }

  method UseEntry(dir: Inode, dev: BlockDevice, k: nat, name: string, sector: nat) returns (success: bool)
    requires dir.FitsOn(dev) && IsInt32(dir.length) && k < |Slots(dir.Contents(dev))|
    requires ValidName(name) && IsText(name) && sector < B32
    modifies dev
    ensures dir.FitsOn(dev) && (success <==> dir.denyWriteCnt == 0)
    ensures Slots(dir.Contents(dev)) ==
      if success then old(Slots(dir.Contents(dev)))[k := Entry(sector, name, true)] else old(Slots(dir.Contents(dev)))
    ensures SameOutside(old(dev.sectors), dev.sectors, dir.start, BytesToSectors(dir.length))
  {
    hide Slots, Decode;
    var bytes := new Byte[ENTRY_SIZE](_ => 0);
    var n := dir.ReadAt(dev, bytes, ENTRY_SIZE, ENTRY_SIZE * k);
    UsedDecodes(bytes[..], name, sector);
    var used := Used(bytes[..], name, sector);
    forall i | 0 <= i < ENTRY_SIZE {
      bytes[i] := used[i];
    }
    assert bytes[..] == used;
    success := WriteEntry(dir, dev, k, bytes);
  }

  /** The lookup and the write of dir_remove, on the bytes: what Directory.DirectoryFile.Erase does to the entries. */
  method EraseEntry(dir: Inode, dev: BlockDevice, name: string) returns (success: bool)
    requires dir.FitsOn(dev) && IsInt32(dir.length) && UniqueNames(Slots(dir.Contents(dev)))
    modifies dev
    ensures dir.FitsOn(dev) && UniqueNames(Slots(dir.Contents(dev)))
    ensures success <==> name in old(Bindings(Slots(dir.Contents(dev)))) && dir.denyWriteCnt == 0
    ensures !success ==> Slots(dir.Contents(dev)) == old(Slots(dir.Contents(dev)))
    ensures success ==> Bindings(Slots(dir.Contents(dev))) == old(Bindings(Slots(dir.Contents(dev)))) - {name}
    ensures success ==> ErasesEntry(old(Slots(dir.Contents(dev))), Slots(dir.Contents(dev)), name)
    ensures SameOutside(old(dev.sectors), dev.sectors, dir.start, BytesToSectors(dir.length))
  {
    hide Slots, Decode, UniqueNames, Bindings;
    ghost var slots := Slots(dir.Contents(dev));
    var slot := LookupEntry(dir, dev, name);
    if slot.None? {
      return false;
    }
    BindingOf(slots, slot.value);
    ClearSlot(slots, slot.value);
    var bytes := new Byte[ENTRY_SIZE](_ => 0);
    var _ := ReadBytes(dir, dev, slot.value, bytes);
    ErasedDecodes(bytes[..]);
    bytes[FLAG_OFS] := 0;
    success := WriteEntry(dir, dev, slot.value, bytes);
  }
}
