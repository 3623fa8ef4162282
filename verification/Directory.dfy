/** Directories (filesys/directory.c): a file of fixed-size entries searched slot by slot, against a
    map from names to inode sectors. */
module Directory {
  import opened Options

  /** The longest file name. */
  const NAME_MAX := 14
  /** sizeof (struct dir_entry). */
  const ENTRY_SIZE := 20

  /** struct dir_entry; the name matters only while the entry is in use. */
  datatype Entry = Entry(sector: nat, name: string, inUse: bool)

  predicate ValidName(name: string) { 0 < |name| <= NAME_MAX }

  predicate Named(slots: seq<Entry>, k: int, name: string) {
    0 <= k < |slots| && slots[k].inUse && slots[k].name == name
  }

  predicate Full(slots: seq<Entry>) { forall k | 0 <= k < |slots| :: slots[k].inUse }

  ghost predicate UniqueNames(slots: seq<Entry>) {
    && (forall k | 0 <= k < |slots| && slots[k].inUse :: ValidName(slots[k].name))
    && (forall j, k | 0 <= j < k < |slots| && slots[j].inUse && slots[k].inUse :: slots[j].name != slots[k].name)
  }

  /** The map that a directory stands for. */
  ghost function Bindings(slots: seq<Entry>): map<string, nat>
    requires UniqueNames(slots)
  {
    map k | 0 <= k < |slots| && slots[k].inUse :: slots[k].name := slots[k].sector
  }

  lemma BindingOf(slots: seq<Entry>, k: nat)
    requires UniqueNames(slots) && k < |slots| && slots[k].inUse
    ensures slots[k].name in Bindings(slots) && Bindings(slots)[slots[k].name] == slots[k].sector
  {}

  lemma BoundSomewhere(slots: seq<Entry>, name: string) returns (k: nat)
    requires UniqueNames(slots) && name in Bindings(slots)
    ensures Named(slots, k, name) && Bindings(slots)[name] == slots[k].sector
  {
    k :| 0 <= k < |slots| && slots[k].inUse && slots[k].name == name;
  }

  /** dir_add: the entry goes into the first unused slot. */
  ghost predicate AddsEntry(before: seq<Entry>, after: seq<Entry>, name: string, sector: nat) {
    exists k :: FirstFree(before, k) && after == before[k := Entry(sector, name, true)]
  }

  predicate FirstFree(slots: seq<Entry>, k: int) {
    0 <= k < |slots| && !slots[k].inUse && forall j | 0 <= j < k :: slots[j].inUse
  }

  /** dir_remove: the entry with this name is marked as unused. */
  ghost predicate ErasesEntry(before: seq<Entry>, after: seq<Entry>, name: string) {
    exists k :: Named(before, k, name) && after == before[k := before[k].(inUse := false)]
  }

  /** Both determine what becomes of the entries. */
  lemma AddsOnce(before: seq<Entry>, one: seq<Entry>, other: seq<Entry>, name: string, sector: nat)
    requires AddsEntry(before, one, name, sector) && AddsEntry(before, other, name, sector)
    ensures one == other
  {
    var j :| FirstFree(before, j) && one == before[j := Entry(sector, name, true)];
    var k :| FirstFree(before, k) && other == before[k := Entry(sector, name, true)];
    assert j == k;
  }

  lemma ErasesOnce(before: seq<Entry>, one: seq<Entry>, other: seq<Entry>, name: string)
    requires UniqueNames(before) && ErasesEntry(before, one, name) && ErasesEntry(before, other, name)
    ensures one == other
  {
    var j :| Named(before, j, name) && one == before[j := before[j].(inUse := false)];
    var k :| Named(before, k, name) && other == before[k := before[k].(inUse := false)];
    assert j == k;
  }

  lemma UseSlot(slots: seq<Entry>, k: nat, name: string, sector: nat)
    requires UniqueNames(slots) && k < |slots| && !slots[k].inUse
    requires ValidName(name) && name !in Bindings(slots)
    ensures var after := slots[k := Entry(sector, name, true)];
      UniqueNames(after) && Bindings(after) == Bindings(slots)[name := sector]
  {
    var after := slots[k := Entry(sector, name, true)];
    forall j | 0 <= j < |slots| && slots[j].inUse
      ensures slots[j].name != name
    {
      BindingOf(slots, j);
    }
    assert UniqueNames(after);
    forall n
      ensures n in Bindings(after) <==> n in Bindings(slots)[name := sector]
      ensures n in Bindings(after) ==> Bindings(after)[n] == Bindings(slots)[name := sector][n]
    {
      if n in Bindings(after) {
        var j := BoundSomewhere(after, n);
        if j != k { BindingOf(slots, j); }
      }
      if n in Bindings(slots) {
        var j := BoundSomewhere(slots, n);
        BindingOf(after, j);
      }
      BindingOf(after, k);
    }
  }

  lemma ClearKeepsUnique(slots: seq<Entry>, k: nat)
    requires UniqueNames(slots) && k < |slots| && slots[k].inUse
    ensures UniqueNames(slots[k := slots[k].(inUse := false)])
    ensures forall j | 0 <= j < |slots| && j != k && slots[j].inUse :: slots[j].name != slots[k].name
  {}

  lemma ClearSlot(slots: seq<Entry>, k: nat)
    requires UniqueNames(slots) && k < |slots| && slots[k].inUse
    ensures var after := slots[k := slots[k].(inUse := false)];
      UniqueNames(after) && Bindings(after) == Bindings(slots) - {slots[k].name}
  {
    hide UniqueNames, Bindings;
    var after := slots[k := slots[k].(inUse := false)];
    ClearKeepsUnique(slots, k);
    forall n
      ensures n in Bindings(after) <==> n in Bindings(slots) && n != slots[k].name
      ensures n in Bindings(after) ==> Bindings(after)[n] == Bindings(slots)[n]
    {
      if n in Bindings(after) {
        var j := BoundSomewhere(after, n);
        BindingOf(slots, j);
      }
      if n in Bindings(slots) && n != slots[k].name {
        var j := BoundSomewhere(slots, n);
        BindingOf(after, j);
      }
    }
  }

  /** The names from slot `pos` on, in order. */
  function Listing(slots: seq<Entry>, pos: nat): seq<string>
    decreases |slots| - pos
  {
    if pos >= |slots| then []
    else (if slots[pos].inUse then [slots[pos].name] else []) + Listing(slots, pos + 1)
  }

  lemma {:induction false} ListingFrom(slots: seq<Entry>, pos: nat)
    requires UniqueNames(slots)
    ensures forall i, j | 0 <= i < j < |Listing(slots, pos)| :: Listing(slots, pos)[i] != Listing(slots, pos)[j]
    ensures forall n :: n in Listing(slots, pos) <==> exists k :: pos <= k && Named(slots, k, n)
    decreases |slots| - pos
  {
    if pos < |slots| {
      ListingFrom(slots, pos + 1);
      assert slots[pos].inUse ==> slots[pos].name !in Listing(slots, pos + 1);
      forall n
        ensures n in Listing(slots, pos) <==> exists k :: pos <= k && Named(slots, k, n)
      {
        var head := if slots[pos].inUse then [slots[pos].name] else [];
        assert n in Listing(slots, pos) <==> n in head || n in Listing(slots, pos + 1);
        if n in Listing(slots, pos + 1) {
          var k :| pos + 1 <= k && Named(slots, k, n);
        }
        if n in head {
          assert Named(slots, pos, n);
        }
      }
    }
  }

  /** Reading a directory from its start lists every name that is bound, each once. */
  lemma ListingIsTheBindings(slots: seq<Entry>)
    requires UniqueNames(slots)
    ensures forall i, j | 0 <= i < j < |Listing(slots, 0)| :: Listing(slots, 0)[i] != Listing(slots, 0)[j]
    ensures forall n :: n in Listing(slots, 0) <==> n in Bindings(slots)
  {
    ListingFrom(slots, 0);
    forall n
      ensures n in Listing(slots, 0) <==> n in Bindings(slots)
    {
      if n in Bindings(slots) {
        var k := BoundSomewhere(slots, n);
      }
      if k: nat :| Named(slots, k, n) {
        BindingOf(slots, k);
      }
    }
  }

  /** The content of a directory's file.  A whole entry can be read or written only inside the file,
      which does not grow. */
  class DirectoryFile {
    var slots: seq<Entry>

    /** dir_create: every entry is zeroed, so unused. */
    constructor (entryCnt: nat)
      ensures UniqueNames(slots) && Bindings(slots) == map[] && |slots| == entryCnt
      ensures forall k | 0 <= k < |slots| :: slots[k] == Entry(0, "", false)
    {
      slots := seq(entryCnt, _ => Entry(0, "", false));
    }

    /** lookup: the slot of the entry with this name. */
    method Lookup(name: string) returns (slot: Option<nat>)
      requires UniqueNames(slots)
      ensures slot.Some? ==> Named(slots, slot.value, name) && name in Bindings(slots)
      ensures slot.Some? ==> Bindings(slots)[name] == slots[slot.value].sector
      ensures slot.None? ==> name !in Bindings(slots)
    {
      var k := 0;
      while k < |slots|
        invariant k <= |slots|
        invariant forall j | 0 <= j < k :: !Named(slots, j, name)
      {
        if slots[k].inUse && slots[k].name == name {
          BindingOf(slots, k);
          return Some(k);
        }
        k := k + 1;
      }
      if name in Bindings(slots) {
        var j := BoundSomewhere(slots, name);
      }
      return None;
    }

    /** dir_add: inserts exactly one binding, in the first unused slot, or changes nothing; it fails
        exactly for a bad name, a name in use and a full directory. */
    method Add(name: string, sector: nat) returns (success: bool)
      requires UniqueNames(slots)
      modifies this`slots
      ensures UniqueNames(slots)
      ensures success <==> ValidName(name) && name !in old(Bindings(slots)) && !Full(old(slots))
      ensures !success ==> slots == old(slots)
      ensures success ==> Bindings(slots) == old(Bindings(slots))[name := sector]
      ensures success ==> AddsEntry(old(slots), slots, name, sector)
    {
      if |name| == 0 || |name| > NAME_MAX {
        return false;
      }
      var existing := Lookup(name);
      if existing.Some? {
        return false;
      }
      var k := 0;
      while k < |slots|
        invariant k <= |slots|
        invariant forall j | 0 <= j < k :: slots[j].inUse
      {
        if !slots[k].inUse {
          break;
        }
        k := k + 1;
      }
      // Past the end of the file nothing can be written.
      if k == |slots| {
        return false;
      }
      UseSlot(slots, k, name, sector);
      assert FirstFree(slots, k);
      slots := slots[k := Entry(sector, name, true)];
      return true;
    }

    /** The part of dir_remove that erases the entry found by lookup: deletes exactly one binding. */
    method Erase(slot: nat)
      requires UniqueNames(slots) && slot < |slots| && slots[slot].inUse
      modifies this`slots
      ensures UniqueNames(slots) && slots == old(slots)[slot := old(slots)[slot].(inUse := false)]
      ensures Bindings(slots) == old(Bindings(slots)) - {old(slots)[slot].name}
    {
      ClearSlot(slots, slot);
      slots := slots[slot := slots[slot].(inUse := false)];
    }

    /** dir_readdir: the next name of the listing, and the position after it. */
    method ReadDir(pos: nat) returns (name: Option<string>, pos': nat)
      ensures name.None? <==> Listing(slots, pos) == []
      ensures name.Some? ==> Listing(slots, pos) == [name.value] + Listing(slots, pos')
      ensures name.None? ==> Listing(slots, pos') == []
    {
      pos' := pos;
      while pos' < |slots|
        invariant Listing(slots, pos') == Listing(slots, pos)
      {
        var e := slots[pos'];
        pos' := pos' + 1;
        if e.inUse {
          return Some(e.name), pos';
        }
      }
      return None, pos';
    }
  }
}
