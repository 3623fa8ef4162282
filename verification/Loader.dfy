/** Loading the segments of an ELF executable (userprog/process.c): from the checks on a program header to
    the bytes that a user process finds at its addresses.  Program headers are described in the
    System V ABI, "Program Header". */
module Loader {
  import opened Bytes
  import opened Machine
  import opened Options
  import opened Vaddr
  import opened Palloc
  import opened Lists
  import opened PageDir
  import Bitmap

  const PF_W := 2
  const PT_LOAD := 1
  const PT_DYNAMIC := 2
  const PT_INTERP := 3
  const PT_SHLIB := 5

  /** Elf32_Phdr, as far as load uses it; all fields are 32-bit words. */
  datatype Phdr = Phdr(kind: Word, offset: Word, vaddr: Word, filesz: Word, memsz: Word, flags: Word)

  // ---- the arithmetic of segments ----

  /** validate_segment, in 32-bit arithmetic, for a file of this length. */
  predicate ValidateSegment(p: Phdr, fileLength: nat) {
    && PgOfs(p.offset) == PgOfs(p.vaddr)
    && p.offset <= fileLength
    && !(p.memsz < p.filesz)
    && p.memsz != 0
    && IsUser(p.vaddr)
    && IsUser(Wrap32(p.vaddr + p.memsz))
    && !(Wrap32(p.vaddr + p.memsz) < p.vaddr)
    && !(p.vaddr < PGSIZE)
  }

  /** What it comes to: the region lies in user memory above page 0, without wrapping around. */
  lemma ValidSegments(p: Phdr, fileLength: nat)
    ensures ValidateSegment(p, fileLength) <==>
      PgOfs(p.offset) == PgOfs(p.vaddr) && p.offset <= fileLength && p.filesz <= p.memsz && 0 < p.memsz &&
      PGSIZE <= p.vaddr && p.vaddr + p.memsz < PHYS_BASE
  {
    if p.vaddr + p.memsz >= ADDRESS_END {
      assert Wrap32(p.vaddr + p.memsz) == p.vaddr + p.memsz - ADDRESS_END;
    }
  }

  /** ROUND_UP (x, PGSIZE), in 32-bit arithmetic. */
  function RoundUp32(x: nat): nat { Wrap32(x + PGSIZE - 1) / PGSIZE * PGSIZE }

  /** The arguments of load_segment that load computes, in 32-bit arithmetic. */
  function FilePage(p: Phdr): nat { RoundDown(p.offset) }
  function MemPage(p: Phdr): nat { RoundDown(p.vaddr) }

  function ReadBytes(p: Phdr): nat {
    if p.filesz > 0 then Wrap32(PgOfs(p.vaddr) + p.filesz) else 0
  }

  function ZeroBytes(p: Phdr): nat {
    if p.filesz > 0 then Wrap32(RoundUp32(Wrap32(PgOfs(p.vaddr) + p.memsz)) - ReadBytes(p))
    else RoundUp32(Wrap32(PgOfs(p.vaddr) + p.memsz))
  }

  /** For every valid header the arguments meet load_segment's assertions, describe whole pages of user
      memory, and hold the segment. */
  lemma SegmentArithmetic(p: Phdr, fileLength: nat)
    requires ValidateSegment(p, fileLength)
    ensures (ReadBytes(p) + ZeroBytes(p)) % PGSIZE == 0 && MemPage(p) % PGSIZE == 0 && FilePage(p) % PGSIZE == 0
    ensures FilePage(p) <= fileLength && PGSIZE <= MemPage(p) <= p.vaddr
    ensures p.vaddr + p.memsz <= MemPage(p) + ReadBytes(p) + ZeroBytes(p) <= PHYS_BASE
    ensures MemPage(p) + ReadBytes(p) + ZeroBytes(p) < p.vaddr + p.memsz + PGSIZE
    ensures p.filesz > 0 ==>
      MemPage(p) + ReadBytes(p) == p.vaddr + p.filesz && FilePage(p) + ReadBytes(p) == p.offset + p.filesz
    ensures p.filesz == 0 ==> ReadBytes(p) == 0
  {
    ValidSegments(p, fileLength);
    RoundDownIsPage(p.vaddr);
    RoundDownIsPage(p.offset);
    RoundUpIsLeast(PgOfs(p.vaddr) + p.memsz);
    EndFits(p);
    hide RoundDown, PgOfs, RoundUp32;
  }

  lemma RoundUpIsLeast(x: nat)
    requires x <= PHYS_BASE
    ensures x <= RoundUp32(x) < x + PGSIZE && RoundUp32(x) % PGSIZE == 0
  {}

  lemma EndFits(p: Phdr)
    requires p.vaddr + p.memsz < PHYS_BASE
    ensures MemPage(p) + RoundUp32(PgOfs(p.vaddr) + p.memsz) <= PHYS_BASE
  {
    RoundDownIsPage(p.vaddr);
    RoundUpIsLeast(PgOfs(p.vaddr) + p.memsz);
    var e := MemPage(p) + RoundUp32(PgOfs(p.vaddr) + p.memsz);
    assert e % PGSIZE == 0 && e < PHYS_BASE + PGSIZE && PHYS_BASE % PGSIZE == 0;
  }

  // ---- address spaces ----

  predicate IsUserPage(v: nat) { v % PGSIZE == 0 && IsUser(v) }

  /** The frame that an address is mapped to. */
  function FrameOf(t: Tables, pd: nat, va: Va): Option<nat>
    requires PdOk(t, pd)
  {
    var m := Meaning(EntryFor(t, pd, va));
    if m.Some? then Some(m.value.frame) else None
  }

  /** The frames of the mapped user pages are used pages of the user pool, and no two pages share one. */
  ghost predicate MappedOk(t: Tables, pd: nat, base: nat, used: seq<bool>)
    requires PdOk(t, pd)
  {
    && (forall v: Va | IsUserPage(v) && FrameOf(t, pd, v).Some? :: HeldIn(base, used, FrameOf(t, pd, v).value, 1))
    && (forall u: Va, v: Va | IsUserPage(u) && IsUserPage(v) && FrameOf(t, pd, u).Some? &&
         FrameOf(t, pd, u) == FrameOf(t, pd, v) ::
          u == v)
  }

  /** This is what pagedir_destroy relies on. */
  lemma MappedFramesAreApart(t: Tables, pd: nat, base: nat, used: seq<bool>)
    requires PdOk(t, pd) && MappedOk(t, pd, base, used)
    ensures FramesOk(t, pd, base, used)
  {
    forall i, j | Present(t, pd, i, j)
      ensures IsUserPage(PageAddress(i, j)) && FrameOf(t, pd, PageAddress(i, j)) == Some(FrameAt(t, pd, i, j))
      ensures PdNo(PageAddress(i, j)) == i && PtNo(PageAddress(i, j)) == j
    {
      PageAddressIndices(i, j);
    }
    hide HeldIn, PdOk, FrameOf, FrameAt, Present, IsUserPage, PageAddress, PdNo, PtNo;
  }

  /** Mapping one more page to a frame that was just taken. */
  lemma MapOneMore(t: Tables, t': Tables, pd: nat, base: nat, used: seq<bool>, used': seq<bool>, upage: Va, kpage: nat)
    requires PdOk(t, pd) && PdOk(t', pd) && MappedOk(t, pd, base, used) && base % PGSIZE == 0
    requires Took(used, used', base, kpage, 1)
    requires forall v: Va | IsUserPage(v) :: FrameOf(t', pd, v) == if v == upage then Some(kpage) else FrameOf(t, pd, v)
    ensures MappedOk(t', pd, base, used')
    ensures forall v: Va | IsUserPage(v) && v != upage :: FrameOf(t', pd, v) != Some(kpage)
  {
    hide PdOk, FrameOf, HeldIn, Took;
    TookIsApart(used, used', base, kpage, 1, kpage, 1);
    forall v: Va | IsUserPage(v) && FrameOf(t, pd, v).Some?
      ensures HeldIn(base, used', FrameOf(t, pd, v).value, 1) && FrameOf(t, pd, v).value != kpage
    {
      TookIsApart(used, used', base, kpage, 1, FrameOf(t, pd, v).value, 1);
    }
  }

  // ---- room for pages ----

  /** What decides whether more pages can be mapped: the user pages that are mapped, the page tables that are
      there, and how many pages are free in the two pools. */
  datatype Space = Space(mapped: set<Va>, tabled: set<nat>, userFree: int, kernelFree: int)

  ghost function SpaceOf(t: Tables, pd: nat, kernelUsed: seq<bool>, userUsed: seq<bool>): Space
    requires PdOk(t, pd)
  {
    Space(MappedPages(t, pd), Tabled(t, pd), FreeCount(userUsed), FreeCount(kernelUsed))
  }

  ghost function MappedPages(t: Tables, pd: nat): set<Va>
    requires PdOk(t, pd)
  {
    set v: Va | IsUserPage(v) && FrameOf(t, pd, v).Some?
  }

  /** The places of the page tables for some pages. */
  ghost function TablesFor(pages: seq<Va>): set<nat> { set v | v in pages :: PdNo(v) }

  /** These pages are different ones that are not mapped yet, and there are enough pages in both pools for them and
      for the page tables that are missing. */
  ghost predicate CanMap(s: Space, pages: seq<Va>) {
    && Distinct(pages) && (forall v | v in pages :: v !in s.mapped)
    && |pages| <= s.userFree && |TablesFor(pages) - s.tabled| <= s.kernelFree
  }

  /** What is left when they have been mapped. */
  ghost function Mapped(s: Space, pages: seq<Va>): Space {
    Space(s.mapped + (set v | v in pages), s.tabled + TablesFor(pages), s.userFree - |pages|,
      s.kernelFree - |TablesFor(pages) - s.tabled|)
  }

  /** Pages can be mapped exactly if those in front can, and then the rest. */
  lemma CanMapInTurn(s: Space, a: seq<Va>, b: seq<Va>)
    requires CanMap(s, a)
    ensures CanMap(s, a + b) <==> CanMap(Mapped(s, a), b)
    ensures Mapped(s, a + b) == Mapped(Mapped(s, a), b)
  {
    MissingTables(s, a, b);
    DistinctParts(a, b);
    hide Distinct, TablesFor;
    assert (set v | v in a + b) == (set v | v in a) + (set v | v in b);
  }

  lemma MissingTables(s: Space, a: seq<Va>, b: seq<Va>)
    ensures TablesFor(a + b) == TablesFor(a) + TablesFor(b)
    ensures |TablesFor(a + b) - s.tabled| ==
      |TablesFor(a) - s.tabled| + |TablesFor(b) - (s.tabled + TablesFor(a))|
  {
    forall i
      ensures i in TablesFor(a + b) <==> i in TablesFor(a) || i in TablesFor(b)
    {
      if i in TablesFor(a) {
        var v :| v in a && PdNo(v) == i;
        assert v in a + b;
      }
      if i in TablesFor(b) {
        var v :| v in b && PdNo(v) == i;
        assert v in a + b;
      }
    }
    assert TablesFor(a + b) == TablesFor(a) + TablesFor(b);
    var x, y := TablesFor(a) - s.tabled, TablesFor(b) - (s.tabled + TablesFor(a));
    assert TablesFor(a + b) - s.tabled == x + y && x !! y;
  }

  lemma DistinctParts(a: seq<Va>, b: seq<Va>)
    ensures Distinct(a + b) <==> Distinct(a) && Distinct(b) && forall v | v in a :: v !in b
  {
    var c := a + b;
    if Distinct(c) {
      forall i, j | 0 <= i < j < |a|
        ensures a[i] != a[j]
      {
        assert c[i] != c[j];
      }
      forall i, j | 0 <= i < j < |b|
        ensures b[i] != b[j]
      {
        assert c[|a| + i] != c[|a| + j];
      }
      forall v | v in a
        ensures v !in b
      {
        var i :| 0 <= i < |a| && a[i] == v;
        assert forall j | 0 <= j < |b| :: c[i] != c[|a| + j] == b[j];
      }
    }
    if Distinct(a) && Distinct(b) && forall v | v in a :: v !in b {
      forall i, j | 0 <= i < j < |c|
        ensures c[i] != c[j]
      {
        assert i < |a| ==> c[i] in a;
        assert j >= |a| ==> c[j] in b;
      }
    }
  }

  lemma CanMapFront(s: Space, a: seq<Va>, b: seq<Va>)
    requires CanMap(s, a + b)
    ensures CanMap(s, a)
  {
    MissingTables(s, a, b);
    DistinctParts(a, b);
    hide Distinct, TablesFor;
  }

  lemma OnePage(s: Space, v: Va)
    ensures CanMap(s, [v]) <==> v !in s.mapped && s.userFree > 0 && s.kernelFree >= if PdNo(v) in s.tabled then 0 else 1
    ensures Mapped(s, [v]) ==
      Space(s.mapped + {v}, s.tabled + {PdNo(v)}, s.userFree - 1, s.kernelFree - if PdNo(v) in s.tabled then 0 else 1)
  {
    JustOne(v);
    hide PdNo, Distinct, TablesFor;
    assert {PdNo(v)} - s.tabled == if PdNo(v) in s.tabled then {} else {PdNo(v)};
  }

  lemma JustOne(v: Va)
    ensures Distinct([v]) && TablesFor([v]) == {PdNo(v)} && (set u | u in [v]) == {v}
  {
    hide PdNo;
    assert TablesFor([v]) == {PdNo(v)};
    assert (set u | u in [v]) == {v};
  }

  lemma CanMapOne(t: Tables, pd: nat, kernelUsed: seq<bool>, userUsed: seq<bool>, v: Va)
    requires PdOk(t, pd) && IsUserPage(v)
    ensures CanMap(SpaceOf(t, pd, kernelUsed, userUsed), [v]) <==>
      && FrameOf(t, pd, v) == None && FreeCount(userUsed) > 0
      && (t[pd][PdNo(v)] != 0 || FreeCount(kernelUsed) > 0)
  {
    OnePage(SpaceOf(t, pd, kernelUsed, userUsed), v);
    assert PdNo(v) in Tabled(t, pd) <==> t[pd][PdNo(v)] != 0;
    hide FreeCount, FrameOf, PdOk, CanMap, Tabled;
  }

  lemma TabledAt(t: Tables, pd: nat, v: Va)
    requires PdOk(t, pd)
    ensures PdNo(v) in Tabled(t, pd) <==> t[pd][PdNo(v)] != 0
  {}

  lemma OneMoreMapped(t: Tables, t': Tables, pd: nat, kernelUsed: seq<bool>, kernelUsed': seq<bool>,
                      userUsed: seq<bool>, userUsed': seq<bool>, v: Va, frame: nat)
    requires PdOk(t, pd) && PdOk(t', pd) && IsUserPage(v) && Tabled(t', pd) == Tabled(t, pd) + {PdNo(v)}
    requires FreeCount(userUsed) == FreeCount(userUsed') + 1
    requires FreeCount(kernelUsed) == FreeCount(kernelUsed') + if PdNo(v) in Tabled(t, pd) then 0 else 1
    requires forall u: Va | IsUserPage(u) :: FrameOf(t', pd, u) == if u == v then Some(frame) else FrameOf(t, pd, u)
    ensures SpaceOf(t', pd, kernelUsed', userUsed') == Mapped(SpaceOf(t, pd, kernelUsed, userUsed), [v])
  {
    hide FreeCount, FrameOf, PdOk, Mapped, Tabled, PdNo, IsUserPage, MappedPages;
    OnePage(SpaceOf(t, pd, kernelUsed, userUsed), v);
    OneMoreIsMapped(t, t', pd, v, frame);
  }

  lemma OneMoreIsMapped(t: Tables, t': Tables, pd: nat, v: Va, frame: nat)
    requires PdOk(t, pd) && PdOk(t', pd) && IsUserPage(v)
    requires forall u: Va | IsUserPage(u) :: FrameOf(t', pd, u) == if u == v then Some(frame) else FrameOf(t, pd, u)
    ensures MappedPages(t', pd) == MappedPages(t, pd) + {v}
  {
    hide FrameOf, PdOk, IsUserPage;
  }

  /** The pages of a region, in order. */
  function PagesBetween(start: nat, end: nat): (pages: seq<Va>)
    requires end <= PHYS_BASE
    decreases end - start
  {
    if start >= end then [] else [start] + PagesBetween(start + PGSIZE, end)
  }

  lemma {:induction false} PagesInTurn(start: nat, at: nat, end: nat)
    requires start <= at <= end <= PHYS_BASE && start % PGSIZE == at % PGSIZE
    ensures PagesBetween(start, end) == PagesBetween(start, at) + PagesBetween(at, end)
    decreases at - start
  {
    if start < at {
      PagesInTurn(start + PGSIZE, at, end);
    }
  }

  /** The pages from `start` to `at` have been mapped. */
  ghost predicate RoomSoFar(s: Space, s': Space, start: nat, at: nat)
    requires at <= PHYS_BASE
  {
    CanMap(s, PagesBetween(start, at)) && s' == Mapped(s, PagesBetween(start, at))
  }

  lemma RoomAtFirst(s: Space, start: nat)
    requires start <= PHYS_BASE && s.userFree >= 0 && s.kernelFree >= 0
    ensures RoomSoFar(s, s, start, start)
  {
    assert TablesFor([]) == {} && (set v: Va | v in []) == {};
  }

  lemma StartingRoom(t: Tables, pd: nat, kernelUsed: seq<bool>, userUsed: seq<bool>, start: nat)
    requires PdOk(t, pd) && start <= PHYS_BASE
    ensures RoomSoFar(SpaceOf(t, pd, kernelUsed, userUsed), SpaceOf(t, pd, kernelUsed, userUsed), start, start)
  {
    RoomAtFirst(SpaceOf(t, pd, kernelUsed, userUsed), start);
  }

  lemma RoomAtLast(s: Space, s': Space, start: nat, end: nat)
    requires end <= PHYS_BASE && RoomSoFar(s, s', start, end)
    ensures CanMap(s, PagesBetween(start, end)) && s' == Mapped(s, PagesBetween(start, end))
  {}

  lemma RoomForNext(s: Space, s': Space, start: nat, at: nat)
    requires at + PGSIZE <= PHYS_BASE && start <= at && start % PGSIZE == at % PGSIZE
    requires RoomSoFar(s, s', start, at) && CanMap(s', [at])
    ensures RoomSoFar(s, Mapped(s', [at]), start, at + PGSIZE)
  {
    hide CanMap, Mapped;
    PagesInTurn(start, at, at + PGSIZE);
    assert PagesBetween(at, at + PGSIZE) == [at];
    CanMapInTurn(s, PagesBetween(start, at), [at]);
  }

  lemma NoRoomForNext(s: Space, s': Space, start: nat, at: nat, end: nat)
    requires start <= at < end <= PHYS_BASE && start % PGSIZE == at % PGSIZE
    requires RoomSoFar(s, s', start, at) && !CanMap(s', [at])
    ensures !CanMap(s, PagesBetween(start, end))
  {
    hide CanMap, Mapped;
    PagesInTurn(start, at, end);
    CanMapInTurn(s, PagesBetween(start, at), PagesBetween(at, end));
    assert PagesBetween(at, end) == [at] + PagesBetween(at + PGSIZE, end);
    if CanMap(s', PagesBetween(at, end)) {
      CanMapFront(s', [at], PagesBetween(at + PGSIZE, end));
    }
  }

  /** The pages that a header's segment touches. */
  function SegmentPages(p: Phdr): seq<Va> { PagesBetween(RoundDown(p.vaddr), Min(p.vaddr + p.memsz, PHYS_BASE)) }

  /** They are those that load_segment is asked to map. */
  lemma SegmentIsItsPages(p: Phdr, fileLength: nat)
    requires ValidateSegment(p, fileLength)
    ensures MemPage(p) + ReadBytes(p) + ZeroBytes(p) <= PHYS_BASE
    ensures SegmentPages(p) == PagesBetween(MemPage(p), MemPage(p) + ReadBytes(p) + ZeroBytes(p))
    ensures ReadBytes(p) > 0 <==> p.filesz > 0
  {
    SegmentArithmetic(p, fileLength);
    ValidSegments(p, fileLength);
    hide ReadBytes, ZeroBytes, RoundDown, PgOfs, ValidateSegment;
    EndWithinPage(MemPage(p), p.vaddr + p.memsz, MemPage(p) + ReadBytes(p) + ZeroBytes(p));
  }

  lemma {:induction false} EndWithinPage(start: nat, end: nat, rounded: nat)
    requires end <= rounded < end + PGSIZE && rounded <= PHYS_BASE && (rounded - start) % PGSIZE == 0
    ensures PagesBetween(start, end) == PagesBetween(start, rounded)
    decreases rounded - start
  {
    if start < end {
      EndWithinPage(start + PGSIZE, end, rounded);
    }
  }

  /** The pages of all PT_LOAD headers. */
  function AllPages(headers: seq<Phdr>): seq<Va> {
    if headers == [] then []
    else (if headers[0].kind == PT_LOAD then SegmentPages(headers[0]) else []) + AllPages(headers[1..])
  }

  lemma {:induction false} AllPagesInTurn(a: seq<Phdr>, b: seq<Phdr>)
    ensures AllPages(a + b) == AllPages(a) + AllPages(b)
    decreases |a|
  {
    hide SegmentPages;
    if a == [] {
      assert a + b == b;
    } else {
      assert (a + b)[1..] == a[1..] + b;
      AllPagesInTurn(a[1..], b);
    }
  }

  /** Nothing but a lack of room can keep load from loading this header. */
  predicate Loadable(p: Phdr, data: seq<Byte>) {
    p.kind !in {PT_DYNAMIC, PT_INTERP, PT_SHLIB} && (p.kind == PT_LOAD ==>
      ValidateSegment(p, |data|) && (p.filesz > 0 ==> p.offset + p.filesz <= |data|))
  }

  /** The headers before the i-th have been loaded. */
  ghost predicate LoadedSoFar(s: Space, s': Space, headers: seq<Phdr>) {
    CanMap(s, AllPages(headers)) && s' == Mapped(s, AllPages(headers))
  }

  lemma NoHeaders(t: Tables, pd: nat, kernelUsed: seq<bool>, userUsed: seq<bool>)
    requires PdOk(t, pd)
    ensures LoadedSoFar(SpaceOf(t, pd, kernelUsed, userUsed), SpaceOf(t, pd, kernelUsed, userUsed), [])
  {
    RoomAtFirst(SpaceOf(t, pd, kernelUsed, userUsed), 0);
  }

  lemma AllLoaded(s: Space, s': Space, headers: seq<Phdr>)
    requires LoadedSoFar(s, s', headers)
    ensures CanMap(s, AllPages(headers))
  {}

  lemma NextHeader(s: Space, s': Space, headers: seq<Phdr>, p: Phdr)
    requires LoadedSoFar(s, s', headers) && p.kind == PT_LOAD && CanMap(s', SegmentPages(p))
    ensures LoadedSoFar(s, Mapped(s', SegmentPages(p)), headers + [p])
  {
    hide CanMap, Mapped, SegmentPages;
    AllPagesInTurn(headers, [p]);
    assert AllPages([p]) == SegmentPages(p);
    CanMapInTurn(s, AllPages(headers), SegmentPages(p));
  }

  lemma OtherHeader(s: Space, s': Space, headers: seq<Phdr>, p: Phdr)
    requires LoadedSoFar(s, s', headers) && p.kind != PT_LOAD
    ensures LoadedSoFar(s, s', headers + [p])
  {
    hide CanMap, Mapped, SegmentPages;
    AllPagesInTurn(headers, [p]);
    assert AllPages([p]) == [];
    assert AllPages(headers) + [] == AllPages(headers);
  }

  lemma NoRoomForHeader(s: Space, s': Space, headers: seq<Phdr>, i: nat)
    requires i < |headers| && LoadedSoFar(s, s', headers[..i])
    requires headers[i].kind == PT_LOAD && !CanMap(s', SegmentPages(headers[i]))
    ensures !CanMap(s, AllPages(headers))
  {
    hide CanMap, Mapped, SegmentPages;
    var front, p, rest := headers[..i], headers[i], headers[i + 1..];
    assert headers == front + ([p] + rest);
    AllPagesInTurn(front, [p] + rest);
    assert ([p] + rest)[1..] == rest;
    CanMapInTurn(s, AllPages(front), SegmentPages(p) + AllPages(rest));
    if CanMap(s', SegmentPages(p) + AllPages(rest)) {
      CanMapFront(s', SegmentPages(p), AllPages(rest));
    }
  }

  /** An open executable. */
  class ProgramFile {
    const data: seq<Byte>
    var pos: nat

    constructor (data: seq<Byte>)
      ensures this.data == data && pos == 0
    {
      this.data, pos := data, 0;
    }

    /** file_seek. */
    method Seek(newPos: nat)
      modifies this`pos
      ensures pos == newPos
    {
      pos := newPos;
    }

    /** file_read: as many bytes as asked for or as are left. */
    method Read(size: nat) returns (bytes: seq<Byte>)
      modifies this`pos
      ensures bytes == Part(data, old(pos), size) && pos == old(pos) + |bytes|
    {
      bytes := Part(data, pos, size);
      pos := pos + |bytes|;
    }
  }

  function Part(data: seq<Byte>, pos: nat, size: nat): (p: seq<Byte>)
    ensures |p| == Max(0, Min(size, |data| - pos))
  {
    if pos >= |data| then [] else data[pos..pos + Min(size, |data| - pos)]
  }

  /** The address space of a process that is being loaded. */
  class AddressSpace {
    const paging: Paging
    const pd: nat
    /** What the frames contain. */
    var frames: map<nat, seq<Byte>>

    /** A new page directory. */
    constructor (paging: Paging, pd: nat)
      requires paging.Valid() && paging.UserPd(pd)
      requires forall v: Va | IsUser(v) :: EntryFor(paging.tables, pd, v) == 0
      ensures Valid() && this.paging == paging && this.pd == pd
    {
      NothingIsNotPresent();
      this.paging, this.pd, frames := paging, pd, map[];
    }

    ghost predicate Valid()
      reads this, paging, paging.pages.kernel, paging.pages.user
    {
      && paging.Valid() && paging.UserPd(pd)
      && MappedOk(paging.tables, pd, paging.pages.user.base, paging.pages.user.used)
      && Filled(paging.tables, pd, frames)
    }

    /** What is left for more pages. */
    ghost function Room(): Space
      requires Valid()
      reads this, paging, paging.pages.kernel, paging.pages.user
    {
      SpaceOf(paging.tables, pd, paging.pages.kernel.used, paging.pages.user.used)
    }

    /** install_page: maps a page that is not mapped yet. */
    method InstallPage(upage: Va, kpage: Va, writable: bool) returns (success: bool)
      requires paging.Valid() && paging.UserPd(pd) && IsUserPage(upage) && kpage % PGSIZE == 0 && !IsUser(kpage)
      modifies paging`tables, paging.pages.kernel`used
      ensures paging.Valid() && paging.UserPd(pd)
      ensures !success ==> paging.tables == old(paging.tables)
      ensures !success ==> paging.pages.kernel.used == old(paging.pages.kernel.used)
      ensures success ==> Tabled(paging.tables, pd) == old(Tabled(paging.tables, pd)) + {PdNo(upage)}
      ensures old(FreeCount(paging.pages.kernel.used)) == FreeCount(paging.pages.kernel.used) +
        if success && old(paging.tables)[pd][PdNo(upage)] == 0 then 1 else 0
      ensures success <==>
        && FrameOf(old(paging.tables), pd, upage) == None
        && (old(paging.tables)[pd][PdNo(upage)] != 0 ||
            exists s: nat :: Bitmap.Fits(old(paging.pages.kernel.used), s, 1))
      ensures success ==>
        Meaning(EntryFor(paging.tables, pd, upage)) == Some(Mapping(kpage, writable, true, false, false))
      ensures forall v: Va | RoundDown(v) != upage ::
        EntryFor(paging.tables, pd, v) == EntryFor(old(paging.tables), pd, v)
    {
      hide Meaning, EntryFor, PdOk, RoundDown, PgOfs, Bitmap.Fits, FreeCount, Tabled;
      var present := paging.GetPageOf(pd, upage);
      if present.Some? {
        return false;
      }
      success := paging.SetPage(pd, upage, kpage, writable);
    }

    /** One pass of the loop of load_segment: a new page with the next bytes of the file and zeros behind
        them.  It succeeds exactly if the file has the bytes and there is room for the page; if it fails, the pools
        and the address space are as they were. */
    method LoadPage(file: ProgramFile, upage: Va, readBytes: nat, writable: bool) returns (success: bool)
      requires Valid() && IsUserPage(upage) && readBytes <= PGSIZE
      modifies this`frames, file`pos, paging`tables, paging.pages.kernel`used, paging.pages.user`used
      ensures Valid()
      ensures success ==>
        |Part(file.data, old(file.pos), readBytes)| == readBytes && file.pos == old(file.pos) + readBytes
      ensures success ==> PageAdded(old(paging.tables), old(frames), paging.tables, frames, pd, upage,
                                    PageOfFile(file.data, old(file.pos), readBytes), writable)
      ensures success ==> FrameOf(paging.tables, pd, upage).Some? && Took(old(paging.pages.user.used),
                            paging.pages.user.used, paging.pages.user.base, FrameOf(paging.tables, pd, upage).value, 1)
      ensures success <==> old(CanMap(Room(), [upage])) && (readBytes > 0 ==> old(file.pos) + readBytes <= |file.data|)
      ensures success ==> Room() == Mapped(old(Room()), [upage])
      ensures !success ==> paging.tables == old(paging.tables) && paging.pages.user.used == old(paging.pages.user.used)
      ensures !success ==> paging.pages.kernel.used == old(paging.pages.kernel.used)
      ensures !success ==> forall va: Va ::
        ByteIn(paging.tables, pd, frames, va) == ByteIn(paging.tables, pd, old(frames), va)
    {
      hide Meaning, EntryFor, PdOk, RoundDown, PgOfs, HeldIn, Filled, MappedOk, FrameOf, ByteIn, Bitmap.Fits, Part,
           Zeros;
      hide Took, PageAdded, Bitmap.SetMultiple, CanMap, Mapped, FreeCount, Tabled, MappedPages;
      ghost var base, used := paging.pages.user.base, paging.pages.user.used;
      ghost var kernelUsed := paging.pages.kernel.used;
      OneFits(used);
      OneFits(kernelUsed);
      CanMapOne(paging.tables, pd, kernelUsed, used, upage);
      var page := paging.pages.GetMultiple(true, 1);
      if page.None? {
        return false;
      }
      var kpage := page.value;
      NewFrame(paging.tables, pd, base, used, paging.pages.user.used, frames, kpage);
      var bytes := file.Read(readBytes);
      if |bytes| != readBytes {
        paging.pages.FreeMultiple(true, kpage, 1);
        return false;
      }
      frames := frames[kpage := bytes + Zeros(PGSIZE - readBytes)];
      UnmappedFrame(paging.tables, pd, old(frames), kpage, frames[kpage]);
      success := InstallPage(upage, kpage, writable);
      if !success {
        paging.pages.FreeMultiple(true, kpage, 1);
        return false;
      }
      AddPage(old(paging.tables), paging.tables, pd, old(frames), base, used, paging.pages.user.used, upage, kpage,
        frames[kpage], writable);
      TookOneIsOneLess(used, paging.pages.user.used, base, kpage);
      TabledAt(old(paging.tables), pd, upage);
      OneMoreMapped(old(paging.tables), paging.tables, pd, kernelUsed, paging.pages.kernel.used, used,
        paging.pages.user.used, upage, kpage);
    }

    /** load_segment: on success the region holds the bytes of the file and zeros behind them, and no other
        address changed; the counters never underflow.  It succeeds exactly if the file has the bytes and there is
        room for the pages of the region.  On failure some of them may be mapped.
        In any case whatever was mapped before stays as it was, and every page taken from the user
        pool is mapped, so that none is lost. */
    method LoadSegment(file: ProgramFile, ofs: nat, upage: Va, readBytes: nat, zeroBytes: nat, writable: bool)
      returns (success: bool)
      requires Valid() && (readBytes + zeroBytes) % PGSIZE == 0 && upage % PGSIZE == 0 && ofs % PGSIZE == 0
      requires upage + readBytes + zeroBytes <= PHYS_BASE
      modifies this`frames, file`pos, paging`tables, paging.pages.kernel`used, paging.pages.user`used
      ensures Valid()
      ensures success ==> SegmentLoaded(old(paging.tables), old(frames), paging.tables, frames, pd, file.data, ofs,
                                        upage, upage + readBytes + zeroBytes, readBytes, writable)
      ensures success <==>
        && old(CanMap(Room(), PagesBetween(upage, upage + readBytes + zeroBytes)))
        && (readBytes > 0 ==> ofs + readBytes <= |file.data|)
      ensures success ==> Room() == Mapped(old(Room()), PagesBetween(upage, upage + readBytes + zeroBytes))
      ensures Untouched(old(paging.tables), old(frames), paging.tables, frames, pd, upage,
        upage + readBytes + zeroBytes)
      ensures KeepsMapped(old(paging.tables), old(frames), paging.tables, frames, pd)
      ensures Accounted(paging.tables, pd, paging.pages.user.base, old(paging.pages.user.used), paging.pages.user.used)
    {
      hide PdOk, Filled, MappedOk, FrameOf, Took, PageAdded, PageOfFile, Part, Progress;
      hide Meaning, EntryFor, ByteIn, HeldIn, RoundDown, PgOfs, Unshared, PtOf, Bit, IsUserPage, Zeros;
      hide CanMap, Mapped, SpaceOf, RoomSoFar, PagesBetween;
      var readBytes: nat, zeroBytes: nat, at: nat := readBytes, zeroBytes, upage;
      ghost var read, end := readBytes, upage + readBytes + zeroBytes;
      ghost var t, used := paging.tables, paging.pages.user.used;
      ghost var base, room := paging.pages.user.base, Room();
      StartingRoom(t, pd, paging.pages.kernel.used, used, upage);
      NoProgress(t, frames, pd, file.data, ofs, upage, end, read, writable, base, used);
      file.Seek(ofs);
      while readBytes > 0 || zeroBytes > 0
        invariant Valid() && at % PGSIZE == 0 && upage <= at && at + readBytes + zeroBytes == end
        invariant readBytes == Max(0, read - (at - upage))
        invariant readBytes > 0 ==> file.pos == ofs + (at - upage)
        invariant Progress(t, old(frames), paging.tables, frames, pd, file.data, ofs, upage, at, end, read, writable,
                           base, used, paging.pages.user.used)
        invariant RoomSoFar(room, Room(), upage, at)
        decreases readBytes + zeroBytes
      {
        WholePages(at, readBytes + zeroBytes, end);
        var pageReadBytes := if readBytes < PGSIZE then readBytes else PGSIZE;
        var pageZeroBytes := PGSIZE - pageReadBytes;
        ghost var t', frames', used', pos := paging.tables, frames, paging.pages.user.used, file.pos;
        ghost var left := Room();
        success := LoadPage(file, at, pageReadBytes, writable);
        if !success {
          if !CanMap(left, [at]) {
            NoRoomForNext(room, left, upage, at, end);
          }
          ProgressKept(t, old(frames), frames', paging.tables, frames, pd, file.data, ofs, upage, at, end, read,
                       writable, base, used, paging.pages.user.used);
          return;
        }
        MoreProgress(t, old(frames), t', frames', paging.tables, frames, pd, file.data, ofs, upage, at, end, read,
                     writable, pos, pageReadBytes, base, used, used', paging.pages.user.used);
        RoomForNext(room, left, upage, at);
        readBytes := readBytes - pageReadBytes;
        zeroBytes := zeroBytes - pageZeroBytes;
        at := at + PGSIZE;
      }
      ProgressEnds(t, old(frames), paging.tables, frames, pd, file.data, ofs, upage, end, read, writable, base, used,
                   paging.pages.user.used);
      RoomAtLast(room, Room(), upage, end);
      return true;
    }

    /** What load does with a PT_LOAD header.  It succeeds exactly if the header is valid, the file holds the
        segment and there is room for its pages; then the bytes of the segment are at its addresses: those that
        the file holds, and zeros up to the end of the last page. */
    method LoadHeader(file: ProgramFile, p: Phdr) returns (success: bool)
      requires Valid()
      modifies this`frames, file`pos, paging`tables, paging.pages.kernel`used, paging.pages.user`used
      ensures Valid() && (success ==> ValidateSegment(p, |file.data|))
      ensures success ==> p.filesz > 0 ==> p.offset + p.filesz <= |file.data|
      ensures success <==>
        && ValidateSegment(p, |file.data|) && (p.filesz > 0 ==> p.offset + p.filesz <= |file.data|)
        && old(CanMap(Room(), SegmentPages(p)))
      ensures success ==> Room() == Mapped(old(Room()), SegmentPages(p))
      ensures success ==> SegmentInPlace(paging.tables, frames, pd, file.data, p, IsWritable(p))
      ensures ValidateSegment(p, |file.data|) ==> Untouched(old(paging.tables), old(frames), paging.tables, frames, pd,
        MemPage(p), MemPage(p) + ReadBytes(p) + ZeroBytes(p))
      ensures !ValidateSegment(p, |file.data|) ==> paging.tables == old(paging.tables) && frames == old(frames)
      ensures KeepsMapped(old(paging.tables), old(frames), paging.tables, frames, pd)
      ensures Accounted(paging.tables, pd, paging.pages.user.base, old(paging.pages.user.used), paging.pages.user.used)
    {
      hide PdOk, Filled, MappedOk, FrameOf, SegmentLoaded, Accounted, Untouched, KeepsMapped, EntryFor, RoundDown,
           PgOfs, ReadBytes, ZeroBytes, CanMap, Mapped, SegmentPages, PagesBetween, SpaceOf;
      if !ValidateSegment(p, |file.data|) {
        NothingLoaded(paging.tables, frames, pd, file.data, 0, 0, 0, 0, false, paging.pages.user.base,
          paging.pages.user.used);
        return false;
      }
      SegmentArithmetic(p, |file.data|);
      SegmentIsItsPages(p, |file.data|);
      var writable := IsWritable(p);
      success := LoadSegment(file, FilePage(p), MemPage(p), ReadBytes(p), ZeroBytes(p), writable);
      if success {
        SegmentImage(old(paging.tables), old(frames), paging.tables, frames, pd, file.data, p, writable);
      }
    }

    /** The loop of load over the program headers.  It succeeds exactly if none is of a kind that it does not
        support, those of kind PT_LOAD are valid and in the file, and there is room for all of their pages, which
        must be different ones.  Then every segment is in place, those loaded first, too. */
    method LoadHeaders(file: ProgramFile, headers: seq<Phdr>) returns (success: bool)
      requires Valid()
      modifies this`frames, file`pos, paging`tables, paging.pages.kernel`used, paging.pages.user`used
      ensures Valid() && KeepsMapped(old(paging.tables), old(frames), paging.tables, frames, pd)
      ensures success <==>
        && (forall p | p in headers :: Loadable(p, file.data)) && old(CanMap(Room(), AllPages(headers)))
      ensures success ==> AllInPlace(paging.tables, frames, pd, file.data, headers)
      ensures Accounted(paging.tables, pd, paging.pages.user.base, old(paging.pages.user.used), paging.pages.user.used)
    {
      hide PdOk, Filled, MappedOk, FrameOf, Accounted, Untouched, KeepsMapped, EntryFor, SegmentInPlace, AllInPlace;
      hide CanMap, Mapped, SegmentPages, SpaceOf, AllPages, ValidateSegment, LoadedSoFar;
      ghost var t, used, room := paging.tables, paging.pages.user.used, Room();
      NoHeaders(t, pd, paging.pages.kernel.used, used);
      NothingLoaded(t, frames, pd, file.data, 0, 0, 0, 0, false, paging.pages.user.base, used);
      NothingInPlace(t, frames, pd, file.data);
      var i := 0;
      while i < |headers|
        invariant i <= |headers| && Valid() && KeepsMapped(t, old(frames), paging.tables, frames, pd)
        invariant forall p | p in headers[..i] :: Loadable(p, file.data)
        invariant LoadedSoFar(room, Room(), headers[..i])
        invariant AllInPlace(paging.tables, frames, pd, file.data, headers[..i])
        invariant Accounted(paging.tables, pd, paging.pages.user.base, used, paging.pages.user.used)
      {
        var p := headers[i];
        assert headers[..i + 1] == headers[..i] + [p];
        ghost var t', frames', used', left := paging.tables, frames, paging.pages.user.used, Room();
        success := true;
        if p.kind == PT_DYNAMIC || p.kind == PT_INTERP || p.kind == PT_SHLIB {
          success := false;
        } else if p.kind == PT_LOAD {
          success := LoadHeader(file, p);
          StillMapped(t, old(frames), t', frames', paging.tables, frames, pd);
          StillAccounted(t', frames', paging.tables, frames, pd, paging.pages.user.base, used, used',
                         paging.pages.user.used);
        }
        if !success {
          assert p in headers;
          if p.kind == PT_LOAD && !CanMap(left, SegmentPages(p)) {
            NoRoomForHeader(room, left, headers, i);
          }
          return;
        }
        if p.kind == PT_LOAD {
          NextHeader(room, left, headers[..i], p);
        } else {
          OtherHeader(room, left, headers[..i], p);
        }
        OneMoreInPlace(t', frames', paging.tables, frames, pd, file.data, headers[..i], p);
        i := i + 1;
      }
      assert headers[..i] == headers;
      AllLoaded(room, Room(), headers);
      return true;
    }
  }

  predicate IsWritable(p: Phdr) { p.flags / PF_W % 2 == 1 }

  /** It is the write permission, whatever the others are: the flags are 4 for reading, 2 for writing and 1 for
      running, and bits of the system above. */
  lemma WritableIsItsBit(p: Phdr, rest: nat, r: bool, w: bool, x: bool)
    requires p.flags == 8 * rest + (if r then 4 else 0) + (if w then 2 else 0) + if x then 1 else 0
    ensures IsWritable(p) == w
  {}

  /** Every PT_LOAD header is valid and its segment is in place. */
  ghost predicate AllInPlace(t: Tables, frames: map<nat, seq<Byte>>, pd: nat, data: seq<Byte>, headers: seq<Phdr>)
    requires PdOk(t, pd) && Filled(t, pd, frames)
  {
    forall p | p in headers && p.kind == PT_LOAD ::
      && ValidateSegment(p, |data|) && (p.filesz > 0 ==> p.offset + p.filesz <= |data|)
      && SegmentInPlace(t, frames, pd, data, p, IsWritable(p))
  }

  lemma NothingInPlace(t: Tables, frames: map<nat, seq<Byte>>, pd: nat, data: seq<Byte>)
    requires PdOk(t, pd) && Filled(t, pd, frames)
    ensures AllInPlace(t, frames, pd, data, []) && KeepsMapped(t, frames, t, frames, pd)
  {
    hide PdOk, Filled, EntryFor, ByteIn;
  }

  /** A segment that is in place stays, since none of its pages can be mapped again. */
  lemma SegmentStays(t: Tables, frames: map<nat, seq<Byte>>, t': Tables, frames': map<nat, seq<Byte>>, pd: nat,
                     data: seq<Byte>, p: Phdr)
    requires PdOk(t, pd) && PdOk(t', pd) && Filled(t, pd, frames) && Filled(t', pd, frames')
    requires KeepsMapped(t, frames, t', frames', pd) && p.filesz <= p.memsz
    requires (p.filesz > 0 ==> p.offset + p.filesz <= |data|) && SegmentInPlace(t, frames, pd, data, p, IsWritable(p))
    ensures SegmentInPlace(t', frames', pd, data, p, IsWritable(p))
  {
    hide PdOk, Filled, EntryFor, ByteIn, Meaning;
    forall va: Va | p.vaddr <= va < p.vaddr + p.memsz
      ensures ByteIn(t', pd, frames', va) == ByteIn(t, pd, frames, va) && EntryFor(t', pd, va) == EntryFor(t, pd, va)
    {
      assert ByteIn(t, pd, frames, va).Some?;
    }
  }

  lemma OneMoreInPlace(t: Tables, frames: map<nat, seq<Byte>>, t': Tables, frames': map<nat, seq<Byte>>, pd: nat,
                       data: seq<Byte>, headers: seq<Phdr>, p: Phdr)
    requires PdOk(t, pd) && PdOk(t', pd) && Filled(t, pd, frames) && Filled(t', pd, frames')
    requires AllInPlace(t, frames, pd, data, headers)
    requires if p.kind == PT_LOAD then KeepsMapped(t, frames, t', frames', pd) else t' == t && frames' == frames
    requires p.kind == PT_LOAD ==> ValidateSegment(p, |data|) && (p.filesz > 0 ==> p.offset + p.filesz <= |data|)
    requires p.kind == PT_LOAD ==> SegmentInPlace(t', frames', pd, data, p, IsWritable(p))
    ensures AllInPlace(t', frames', pd, data, headers + [p])
  {
    hide PdOk, Filled, SegmentInPlace, KeepsMapped;
    if p.kind == PT_LOAD {
      forall q | q in headers && q.kind == PT_LOAD
        ensures SegmentInPlace(t', frames', pd, data, q, IsWritable(q))
      {
        SegmentStays(t, frames, t', frames', pd, data, q);
      }
    }
  }

  lemma SegmentImage(t: Tables, frames: map<nat, seq<Byte>>, t': Tables, frames': map<nat, seq<Byte>>, pd: nat,
                     data: seq<Byte>, p: Phdr, writable: bool)
    requires PdOk(t, pd) && PdOk(t', pd) && Filled(t, pd, frames) && Filled(t', pd, frames') &&
      ValidateSegment(p, |data|)
    requires SegmentLoaded(t, frames, t', frames', pd, data, FilePage(p), MemPage(p),
                           MemPage(p) + ReadBytes(p) + ZeroBytes(p), ReadBytes(p), writable)
    ensures p.vaddr + p.memsz <= ADDRESS_END && (p.filesz > 0 ==> p.offset + p.filesz <= |data|)
    ensures SegmentInPlace(t', frames', pd, data, p, writable)
  {
    hide PdOk, Filled, FrameOf, EntryFor, ByteIn, Meaning, ReadBytes, ZeroBytes;
    SegmentArithmetic(p, |data|);
    SameOffset(p, |data|);
    hide RoundDown, PgOfs;
    forall va: Va | p.vaddr <= va < p.vaddr + p.memsz
      ensures ByteIn(t', pd, frames', va) ==
        Some(if va - p.vaddr < p.filesz then data[p.offset + (va - p.vaddr)] else 0)
      ensures Meaning(EntryFor(t', pd, va)).Some? && Meaning(EntryFor(t', pd, va)).value.writable == writable
    {
      assert MemPage(p) <= va < MemPage(p) + ReadBytes(p) + ZeroBytes(p);
    }
  }

  /** The process finds the segment where the header says: `filesz` bytes of the file at `offset`, and zeros up
      to `memsz`, all with this permission. */
  ghost predicate SegmentInPlace(t: Tables, frames: map<nat, seq<Byte>>, pd: nat, data: seq<Byte>, p: Phdr,
                                 writable: bool)
    requires PdOk(t, pd) && Filled(t, pd, frames) && (p.filesz > 0 ==> p.offset + p.filesz <= |data|)
  {
    && (forall va: Va | p.vaddr <= va < p.vaddr + p.filesz ::
          ByteIn(t, pd, frames, va) == Some(data[p.offset + (va - p.vaddr)]))
    && (forall va: Va | p.vaddr + p.filesz <= va < p.vaddr + p.memsz :: ByteIn(t, pd, frames, va) == Some(0))
    && (forall va: Va | p.vaddr <= va < p.vaddr + p.memsz ::
          Meaning(EntryFor(t, pd, va)).Some? && Meaning(EntryFor(t, pd, va)).value.writable == writable)
  }

  /** Addresses and file offsets of a segment differ by the same amount throughout. */
  lemma SameOffset(p: Phdr, fileLength: nat)
    requires ValidateSegment(p, fileLength)
    ensures p.vaddr - MemPage(p) == p.offset - FilePage(p) && p.vaddr + p.memsz < PHYS_BASE
  {
    ValidSegments(p, fileLength);
  }

  lemma WholePages(at: nat, rest: nat, end: nat)
    requires at % PGSIZE == 0 && at + rest == end && end % PGSIZE == 0 && rest > 0 && end <= PHYS_BASE
    ensures PGSIZE <= rest && IsUserPage(at)
  {}

  /** The byte of the region `k` bytes behind its start. */
  function SegmentByte(data: seq<Byte>, ofs: nat, read: nat, k: nat): Byte {
    if k < read && ofs + k < |data| then data[ofs + k] else 0
  }

  /** The pages from `upage` to `at` are mapped, with the bytes of the file, as far as they are to be read, and
      zeros behind them; no address outside has changed. */
  ghost predicate SegmentLoaded(t: Tables, frames: map<nat, seq<Byte>>, t': Tables, frames': map<nat, seq<Byte>>,
                                pd: nat, data: seq<Byte>, ofs: nat, upage: nat, at: nat, read: nat, writable: bool)
    requires PdOk(t, pd) && PdOk(t', pd) && Filled(t, pd, frames) && Filled(t', pd, frames')
  {
    && upage <= at && (at > upage && read > 0 ==> ofs + Min(read, at - upage) <= |data|)
    && (forall va: Va :: ByteIn(t', pd, frames', va) ==
          if upage <= va < at then Some(SegmentByte(data, ofs, read, va - upage)) else ByteIn(t, pd, frames, va))
    && (forall v: Va | upage <= v < at ::
          Meaning(EntryFor(t', pd, v)).Some? && Meaning(EntryFor(t', pd, v)).value.writable == writable)
  }

  /** Outside of a region the mappings and the bytes are as they were. */
  ghost predicate Untouched(t: Tables, frames: map<nat, seq<Byte>>, t': Tables, frames': map<nat, seq<Byte>>, pd: nat,
                            start: nat, end: nat)
    requires PdOk(t, pd) && PdOk(t', pd) && Filled(t, pd, frames) && Filled(t', pd, frames')
  {
    forall va: Va | !(start <= va < end) ::
      EntryFor(t', pd, va) == EntryFor(t, pd, va) && ByteIn(t', pd, frames', va) == ByteIn(t, pd, frames, va)
  }

  /** Whatever was mapped still is, with the same content. */
  ghost predicate KeepsMapped(t: Tables, frames: map<nat, seq<Byte>>, t': Tables, frames': map<nat, seq<Byte>>, pd: nat)
    requires PdOk(t, pd) && PdOk(t', pd) && Filled(t, pd, frames) && Filled(t', pd, frames')
  {
    forall va: Va | ByteIn(t, pd, frames, va).Some? ::
      EntryFor(t', pd, va) == EntryFor(t, pd, va) && ByteIn(t', pd, frames', va) == ByteIn(t, pd, frames, va)
  }

  lemma StillMapped(t: Tables, frames: map<nat, seq<Byte>>, t': Tables, frames': map<nat, seq<Byte>>, t'': Tables,
                    frames'': map<nat, seq<Byte>>, pd: nat)
    requires PdOk(t, pd) && PdOk(t', pd) && PdOk(t'', pd)
    requires Filled(t, pd, frames) && Filled(t', pd, frames') && Filled(t'', pd, frames'')
    requires KeepsMapped(t, frames, t', frames', pd)
    requires KeepsMapped(t', frames', t'', frames'', pd) ||
      (t'' == t' && forall va: Va :: ByteIn(t'', pd, frames'', va) == ByteIn(t', pd, frames', va))
    ensures KeepsMapped(t, frames, t'', frames'', pd)
  {
    hide PdOk, Filled, EntryFor, ByteIn;
  }

  /** A page that was mapped is not mapped again. */
  lemma AddedKeepsMapped(t: Tables, frames: map<nat, seq<Byte>>, t': Tables, frames': map<nat, seq<Byte>>, pd: nat,
                         upage: Va, c: seq<Byte>, writable: bool)
    requires PdOk(t, pd) && PdOk(t', pd) && Filled(t, pd, frames) && Filled(t', pd, frames') && |c| == PGSIZE
    requires PageAdded(t, frames, t', frames', pd, upage, c, writable)
    ensures KeepsMapped(t, frames, t', frames', pd)
  {
    hide PdOk, Filled, EntryFor, FrameOf, RoundDown, PgOfs;
  }

  lemma StillAccounted(t: Tables, frames: map<nat, seq<Byte>>, t': Tables, frames': map<nat, seq<Byte>>, pd: nat,
                       base: nat, used: seq<bool>, used': seq<bool>, used'': seq<bool>)
    requires PdOk(t, pd) && PdOk(t', pd) && Filled(t, pd, frames) && Filled(t', pd, frames')
    requires KeepsMapped(t, frames, t', frames', pd)
    requires Accounted(t, pd, base, used, used') && Accounted(t', pd, base, used', used'')
    ensures Accounted(t', pd, base, used, used'')
  {
    hide PdOk, EntryFor;
    forall k | 0 <= k < |used| && used''[k] && !used[k]
      ensures exists v: Va :: IsUserPage(v) && FrameOf(t', pd, v) == Some(base + PGSIZE * k)
    {
      if used'[k] {
        var v: Va :| IsUserPage(v) && FrameOf(t, pd, v) == Some(base + PGSIZE * k);
        assert RoundDown(v) == v && ByteIn(t, pd, frames, v).Some?;
        assert FrameOf(t', pd, v) == Some(base + PGSIZE * k);
      }
    }
  }

  lemma NothingLoaded(t: Tables, frames: map<nat, seq<Byte>>, pd: nat, data: seq<Byte>, ofs: nat, start: nat, end: nat,
                      read: nat, writable: bool, base: nat, used: seq<bool>)
    requires PdOk(t, pd) && Filled(t, pd, frames)
    ensures SegmentLoaded(t, frames, t, frames, pd, data, ofs, start, start, read, writable)
    ensures Untouched(t, frames, t, frames, pd, start, end) && Accounted(t, pd, base, used, used)
    ensures KeepsMapped(t, frames, t, frames, pd)
  {
    hide PdOk, Filled, EntryFor, ByteIn;
  }

  lemma FailedPage(t: Tables, frames: map<nat, seq<Byte>>, frames': map<nat, seq<Byte>>, t': Tables,
                   frames'': map<nat, seq<Byte>>, pd: nat, start: nat, end: nat)
    requires PdOk(t, pd) && PdOk(t', pd) && Filled(t, pd, frames) && Filled(t', pd, frames') && Filled(t', pd, frames'')
    requires Untouched(t, frames, t', frames', pd, start, end)
    requires forall va: Va :: ByteIn(t', pd, frames'', va) == ByteIn(t', pd, frames', va)
    ensures Untouched(t, frames, t', frames'', pd, start, end)
  {
    hide PdOk, Filled, EntryFor, ByteIn;
  }

  /** A page added at the end of what was loaded. */
  lemma NextPage(t: Tables, frames: map<nat, seq<Byte>>, t': Tables, frames': map<nat, seq<Byte>>, t'': Tables,
                 frames'': map<nat, seq<Byte>>, pd: nat, data: seq<Byte>, ofs: nat, start: nat, at: nat, end: nat,
                 read: nat, writable: bool, pos: nat, n: nat)
    requires PdOk(t, pd) && PdOk(t', pd) && PdOk(t'', pd)
    requires Filled(t, pd, frames) && Filled(t', pd, frames') && Filled(t'', pd, frames'')
    requires SegmentLoaded(t, frames, t', frames', pd, data, ofs, start, at, read, writable)
    requires Untouched(t, frames, t', frames', pd, start, end)
    requires start % PGSIZE == 0 && IsUserPage(at) && start <= at && at + PGSIZE <= end <= PHYS_BASE && at < ADDRESS_END
    requires n == Min(PGSIZE, Max(0, read - (at - start))) && (n > 0 ==> pos == ofs + (at - start))
    requires |Part(data, pos, n)| == n
    requires PageAdded(t', frames', t'', frames'', pd, at, PageOfFile(data, pos, n), writable)
    ensures SegmentLoaded(t, frames, t'', frames'', pd, data, ofs, start, at + PGSIZE, read, writable)
    ensures Untouched(t, frames, t'', frames'', pd, start, end)
  {
    hide PdOk, Filled, EntryFor, ByteIn, FrameOf, RoundDown, PgOfs, Meaning, Part, PageOfFile, SegmentByte, Untouched,
         PageAdded;
    PageRange(at);
    PageOfSegment(data, ofs, read, at - start, pos, n);
    AddedPage(t', frames', t'', frames'', pd, at, PageOfFile(data, pos, n), writable);
    StillUntouched(t, frames, t', frames', t'', frames'', pd, start, at, end);
    forall va: Va
      ensures ByteIn(t'', pd, frames'', va) ==
        if start <= va < at + PGSIZE then Some(SegmentByte(data, ofs, read, va - start)) else ByteIn(t, pd, frames, va)
    {
      if at <= va < at + PGSIZE {
        assert va - start == at - start + (va - at);
      }
    }
  }

  /** load_segment has got as far as `at`. */
  ghost predicate Progress(t: Tables, frames: map<nat, seq<Byte>>, t': Tables, frames': map<nat, seq<Byte>>, pd: nat,
                           data: seq<Byte>, ofs: nat, start: nat, at: nat, end: nat, read: nat, writable: bool,
                           base: nat, used: seq<bool>, used': seq<bool>)
    requires PdOk(t, pd) && PdOk(t', pd) && Filled(t, pd, frames) && Filled(t', pd, frames')
  {
    && SegmentLoaded(t, frames, t', frames', pd, data, ofs, start, at, read, writable)
    && Untouched(t, frames, t', frames', pd, start, end) && KeepsMapped(t, frames, t', frames', pd)
    && Accounted(t', pd, base, used, used')
  }

  lemma NoProgress(t: Tables, frames: map<nat, seq<Byte>>, pd: nat, data: seq<Byte>, ofs: nat, start: nat, end: nat,
                   read: nat, writable: bool, base: nat, used: seq<bool>)
    requires PdOk(t, pd) && Filled(t, pd, frames)
    ensures Progress(t, frames, t, frames, pd, data, ofs, start, start, end, read, writable, base, used, used)
  {
    hide PdOk, Filled, SegmentLoaded, Untouched, KeepsMapped, Accounted;
    NothingLoaded(t, frames, pd, data, ofs, start, end, read, writable, base, used);
  }

  lemma ProgressEnds(t: Tables, frames: map<nat, seq<Byte>>, t': Tables, frames': map<nat, seq<Byte>>, pd: nat,
                     data: seq<Byte>, ofs: nat, start: nat, end: nat, read: nat, writable: bool,
                     base: nat, used: seq<bool>, used': seq<bool>)
    requires PdOk(t, pd) && PdOk(t', pd) && Filled(t, pd, frames) && Filled(t', pd, frames')
    requires Progress(t, frames, t', frames', pd, data, ofs, start, end, end, read, writable, base, used, used')
    ensures SegmentLoaded(t, frames, t', frames', pd, data, ofs, start, end, read, writable)
    ensures Untouched(t, frames, t', frames', pd, start, end) && KeepsMapped(t, frames, t', frames', pd)
    ensures Accounted(t', pd, base, used, used')
  {
    hide PdOk, Filled, SegmentLoaded, Untouched, KeepsMapped, Accounted;
  }

  /** A page that could not be loaded has changed nothing. */
  lemma ProgressKept(t: Tables, frames: map<nat, seq<Byte>>, frames': map<nat, seq<Byte>>, t': Tables,
                     frames'': map<nat, seq<Byte>>, pd: nat, data: seq<Byte>, ofs: nat, start: nat, at: nat, end: nat,
                     read: nat, writable: bool, base: nat, used: seq<bool>, used': seq<bool>)
    requires PdOk(t, pd) && PdOk(t', pd) && Filled(t, pd, frames) && Filled(t', pd, frames') && Filled(t', pd, frames'')
    requires Progress(t, frames, t', frames', pd, data, ofs, start, at, end, read, writable, base, used, used')
    requires forall va: Va :: ByteIn(t', pd, frames'', va) == ByteIn(t', pd, frames', va)
    ensures Untouched(t, frames, t', frames'', pd, start, end) && KeepsMapped(t, frames, t', frames'', pd)
    ensures Accounted(t', pd, base, used, used')
  {
    hide PdOk, Filled, SegmentLoaded, Untouched, KeepsMapped, Accounted, ByteIn;
    FailedPage(t, frames, frames', t', frames'', pd, start, end);
    StillMapped(t, frames, t', frames', t', frames'', pd);
  }

  /** A page added at the end, with its frame just taken. */
  lemma MoreProgress(t: Tables, frames: map<nat, seq<Byte>>, t': Tables, frames': map<nat, seq<Byte>>, t'': Tables,
                     frames'': map<nat, seq<Byte>>, pd: nat, data: seq<Byte>, ofs: nat, start: nat, at: nat, end: nat,
                     read: nat, writable: bool, pos: nat, n: nat, base: nat, used: seq<bool>, used': seq<bool>,
                     used'': seq<bool>)
    requires PdOk(t, pd) && PdOk(t', pd) && PdOk(t'', pd)
    requires Filled(t, pd, frames) && Filled(t', pd, frames') && Filled(t'', pd, frames'')
    requires Progress(t, frames, t', frames', pd, data, ofs, start, at, end, read, writable, base, used, used')
    requires start % PGSIZE == 0 && IsUserPage(at) && start <= at && at + PGSIZE <= end <= PHYS_BASE && at < ADDRESS_END
    requires n == Min(PGSIZE, Max(0, read - (at - start))) && (n > 0 ==> pos == ofs + (at - start))
    requires |Part(data, pos, n)| == n
    requires PageAdded(t', frames', t'', frames'', pd, at, PageOfFile(data, pos, n), writable)
    requires FrameOf(t'', pd, at).Some? && Took(used', used'', base, FrameOf(t'', pd, at).value, 1)
    ensures Progress(t, frames, t'', frames'', pd, data, ofs, start, at + PGSIZE, end, read, writable, base, used,
      used'')
  {
    hide PdOk, Filled, SegmentLoaded, Untouched, KeepsMapped, Accounted, PageAdded, FrameOf, Took, Part, PageOfFile;
    NextPage(t, frames, t', frames', t'', frames'', pd, data, ofs, start, at, end, read, writable, pos, n);
    AddedKeepsMapped(t', frames', t'', frames'', pd, at, PageOfFile(data, pos, n), writable);
    StillMapped(t, frames, t', frames', t'', frames'', pd);
    AddedIsAccounted(t', frames', t'', frames'', pd, base, used, used', used'', at, PageOfFile(data, pos, n), writable);
  }

  /** What PageAdded says, by addresses. */
  lemma AddedPage(t: Tables, frames: map<nat, seq<Byte>>, t': Tables, frames': map<nat, seq<Byte>>, pd: nat, at: Va,
                  c: seq<Byte>, writable: bool)
    requires PdOk(t, pd) && PdOk(t', pd) && Filled(t, pd, frames) && Filled(t', pd, frames') && |c| == PGSIZE
    requires at % PGSIZE == 0 && PageAdded(t, frames, t', frames', pd, at, c, writable)
    ensures forall va: Va | at <= va < at + PGSIZE :: ByteIn(t', pd, frames', va) == Some(c[va - at])
    ensures forall va: Va | !(at <= va < at + PGSIZE) ::
      ByteIn(t', pd, frames', va) == ByteIn(t, pd, frames, va) && EntryFor(t', pd, va) == EntryFor(t, pd, va)
    ensures forall v: Va | at <= v < at + PGSIZE ::
      Meaning(EntryFor(t', pd, v)).Some? && Meaning(EntryFor(t', pd, v)).value.writable == writable
  {
    hide PdOk, Filled, EntryFor, ByteIn, FrameOf, RoundDown, PgOfs, Meaning;
    PageRange(at);
    forall v: Va | at <= v < at + PGSIZE
      ensures Meaning(EntryFor(t', pd, v)).Some? && Meaning(EntryFor(t', pd, v)).value.writable == writable
    {
      SameEntry(t', pd, v, at);
    }
  }

  lemma StillUntouched(t: Tables, frames: map<nat, seq<Byte>>, t': Tables, frames': map<nat, seq<Byte>>, t'': Tables,
                       frames'': map<nat, seq<Byte>>, pd: nat, start: nat, at: nat, end: nat)
    requires PdOk(t, pd) && PdOk(t', pd) && PdOk(t'', pd)
    requires Filled(t, pd, frames) && Filled(t', pd, frames') && Filled(t'', pd, frames'')
    requires Untouched(t, frames, t', frames', pd, start, end) && start <= at && at + PGSIZE <= end
    requires forall va: Va | !(at <= va < at + PGSIZE) ::
      ByteIn(t'', pd, frames'', va) == ByteIn(t', pd, frames', va) && EntryFor(t'', pd, va) == EntryFor(t', pd, va)
    ensures Untouched(t, frames, t'', frames'', pd, start, end)
  {
    hide PdOk, Filled, EntryFor, ByteIn;
  }

  lemma PageRange(page: nat)
    requires page % PGSIZE == 0
    ensures forall va: nat :: RoundDown(va) == page <==> page <= va < page + PGSIZE
    ensures forall va: nat | page <= va < page + PGSIZE :: PgOfs(va) == va - page
  {
    forall va: nat | page <= va < page + PGSIZE
      ensures PgOfs(va) == va - page && RoundDown(va) == page
    {
      PageOf(page, va - page);
    }
    forall va: nat | RoundDown(va) == page
      ensures page <= va < page + PGSIZE
    {
      RoundDownIsPage(va);
    }
  }

  /** A page of the segment, `done` bytes behind its start. */
  lemma PageOfSegment(data: seq<Byte>, ofs: nat, read: nat, done: nat, pos: nat, n: nat)
    requires n == Min(PGSIZE, Max(0, read - done)) && (n > 0 ==> pos == ofs + done) && |Part(data, pos, n)| == n
    ensures forall k | 0 <= k < PGSIZE :: PageOfFile(data, pos, n)[k] == SegmentByte(data, ofs, read, done + k)
    ensures n > 0 ==> ofs + Min(read, done + PGSIZE) <= |data|
  {
    if n > 0 {
      assert pos + n <= |data|;
    }
    forall k | 0 <= k < PGSIZE
      ensures PageOfFile(data, pos, n)[k] == SegmentByte(data, ofs, read, done + k)
    {
      if k < n {
        assert Part(data, pos, n)[k] == data[pos + k];
      } else {
        assert Zeros(PGSIZE - n)[k - n] == 0;
      }
    }
  }

  lemma SameEntry(t: Tables, pd: nat, v: Va, page: Va)
    requires PdOk(t, pd) && RoundDown(v) == page
    ensures EntryFor(t, pd, v) == EntryFor(t, pd, page)
    ensures FrameOf(t, pd, page).Some? ==> Meaning(EntryFor(t, pd, v)).Some?
  {
    IndicesOfPage(v);
  }

  lemma AddedIsAccounted(t: Tables, frames: map<nat, seq<Byte>>, t': Tables, frames': map<nat, seq<Byte>>, pd: nat,
                         base: nat, used: seq<bool>, used': seq<bool>, used'': seq<bool>, upage: Va, c: seq<Byte>,
                         writable: bool)
    requires PdOk(t, pd) && PdOk(t', pd) && Filled(t, pd, frames) && Filled(t', pd, frames') && |c| == PGSIZE
    requires PageAdded(t, frames, t', frames', pd, upage, c, writable) && IsUserPage(upage)
    requires Accounted(t, pd, base, used, used') && Took(used', used'', base, FrameOf(t', pd, upage).value, 1)
    ensures Accounted(t', pd, base, used, used'')
  {
    hide PdOk, Filled, EntryFor, Meaning, ByteIn, RoundDown, PgOfs, Took, Accounted;
    forall v: Va | IsUserPage(v)
      ensures FrameOf(t', pd, v) == if v == upage then Some(FrameOf(t', pd, upage).value) else FrameOf(t, pd, v)
    {
      PageOf(v, 0);
    }
    AccountOneMore(t, t', pd, base, used, used', used'', upage, FrameOf(t', pd, upage).value);
  }

  lemma AddPage(t: Tables, t': Tables, pd: nat, frames: map<nat, seq<Byte>>, base: nat, used: seq<bool>,
                used': seq<bool>, upage: Va, kpage: nat, c: seq<Byte>, writable: bool)
    requires PdOk(t, pd) && PdOk(t', pd) && MappedOk(t, pd, base, used) && base % PGSIZE == 0
    requires Filled(t, pd, frames) && |c| == PGSIZE && IsUserPage(upage) && Took(used, used', base, kpage, 1)
    requires FrameOf(t, pd, upage) == None
    requires Meaning(EntryFor(t', pd, upage)) == Some(Mapping(kpage, writable, true, false, false))
    requires forall v: Va | RoundDown(v) != upage :: EntryFor(t', pd, v) == EntryFor(t, pd, v)
    ensures MappedOk(t', pd, base, used') && Filled(t', pd, frames[kpage := c])
    ensures PageAdded(t, frames, t', frames[kpage := c], pd, upage, c, writable) &&
      FrameOf(t', pd, upage) == Some(kpage)
    ensures forall v: Va | IsUserPage(v) :: FrameOf(t', pd, v) == if v == upage then Some(kpage) else FrameOf(t, pd, v)
  {
    hide PdOk, RoundDown, PgOfs, EntryFor, Meaning, Took, HeldIn, MappedOk, Filled, ByteIn;
    forall v: Va | IsUserPage(v)
      ensures FrameOf(t', pd, v) == if v == upage then Some(kpage) else FrameOf(t, pd, v)
    {
      PageOf(v, 0);
    }
    MapOneMore(t, t', pd, base, used, used', upage, kpage);
    FillOneMore(t, t', pd, frames, upage, kpage, c);
  }

  /** A page with bytes of a file in front and zeros behind them. */
  function PageOfFile(data: seq<Byte>, pos: nat, n: nat): (c: seq<Byte>)
    requires n <= PGSIZE && |Part(data, pos, n)| == n
    ensures |c| == PGSIZE
  {
    Part(data, pos, n) + Zeros(PGSIZE - n)
  }

  /** A page was mapped, with this content, and no other page changed. */
  ghost predicate PageAdded(t: Tables, frames: map<nat, seq<Byte>>, t': Tables, frames': map<nat, seq<Byte>>, pd: nat,
                            upage: Va, c: seq<Byte>, writable: bool)
    requires PdOk(t, pd) && PdOk(t', pd) && Filled(t, pd, frames) && Filled(t', pd, frames') && |c| == PGSIZE
  {
    && FrameOf(t, pd, upage) == None
    && FrameOf(t', pd, upage).Some? && Meaning(EntryFor(t', pd, upage)).value.writable == writable
    && (forall v: Va | RoundDown(v) != upage :: EntryFor(t', pd, v) == EntryFor(t, pd, v))
    && (forall va: Va :: (
          ByteIn(t', pd, frames', va) ==
            if RoundDown(va) == upage then Some(c[PgOfs(va)]) else ByteIn(t, pd, frames, va)))
  }

  /** A page just taken from the user pool is a kernel address, and no page is mapped to it. */
  lemma NewFrame(t: Tables, pd: nat, base: nat, used: seq<bool>, used': seq<bool>, frames: map<nat, seq<Byte>>,
                 kpage: nat)
    requires PdOk(t, pd) && MappedOk(t, pd, base, used) && base % PGSIZE == 0 && PHYS_BASE < base
    requires Took(used, used', base, kpage, 1) && base + PGSIZE * |used| <= ADDRESS_END
    ensures kpage % PGSIZE == 0 && !IsUser(kpage) && kpage < ADDRESS_END && HeldIn(base, used', kpage, 1)
    ensures Bitmap.SetMultiple(used', PageIndex(base, kpage), 1, false) == used
    ensures forall v: Va | IsUserPage(v) :: FrameOf(t, pd, v) != Some(kpage)
  {
    hide PdOk, FrameOf, HeldIn;
    TookIsApart(used, used', base, kpage, 1, kpage, 1);
    forall v: Va | IsUserPage(v) && FrameOf(t, pd, v).Some?
      ensures FrameOf(t, pd, v).value != kpage
    {
      TookIsApart(used, used', base, kpage, 1, FrameOf(t, pd, v).value, 1);
    }
  }

  /** What is written in a frame that no page is mapped to is not seen. */
  lemma UnmappedFrame(t: Tables, pd: nat, frames: map<nat, seq<Byte>>, kpage: nat, c: seq<Byte>)
    requires PdOk(t, pd) && Filled(t, pd, frames)
    requires forall v: Va | IsUserPage(v) :: FrameOf(t, pd, v) != Some(kpage)
    ensures Filled(t, pd, frames[kpage := c])
    ensures forall va: Va :: ByteIn(t, pd, frames[kpage := c], va) == ByteIn(t, pd, frames, va)
  {
    hide PdOk, FrameOf, RoundDown, PgOfs;
  }

  /** Every frame of a mapped user page has content. */
  ghost predicate Filled(t: Tables, pd: nat, frames: map<nat, seq<Byte>>)
    requires PdOk(t, pd)
  {
    forall v: Va | IsUserPage(v) && FrameOf(t, pd, v).Some? ::
      FrameOf(t, pd, v).value in frames && |frames[FrameOf(t, pd, v).value]| == PGSIZE
  }

  /** The byte that a user program finds at an address. */
  ghost function ByteIn(t: Tables, pd: nat, frames: map<nat, seq<Byte>>, va: Va): Option<Byte>
    requires PdOk(t, pd) && Filled(t, pd, frames)
  {
    var f := FrameOf(t, pd, RoundDown(va));
    if IsUserPage(RoundDown(va)) && f.Some? then Some(frames[f.value][PgOfs(va)]) else None
  }

  /** The bytes of an address space with one more page in it. */
  lemma FillOneMore(t: Tables, t': Tables, pd: nat, frames: map<nat, seq<Byte>>, upage: Va, kpage: nat, c: seq<Byte>)
    requires PdOk(t, pd) && PdOk(t', pd) && Filled(t, pd, frames) && |c| == PGSIZE && IsUserPage(upage)
    requires forall v: Va | IsUserPage(v) :: FrameOf(t', pd, v) == if v == upage then Some(kpage) else FrameOf(t, pd, v)
    requires forall v: Va | IsUserPage(v) && v != upage :: FrameOf(t', pd, v) != Some(kpage)
    ensures Filled(t', pd, frames[kpage := c])
    ensures forall va: Va :: (
      ByteIn(t', pd, frames[kpage := c], va) ==
            if RoundDown(va) == upage then Some(c[PgOfs(va)]) else ByteIn(t, pd, frames, va))
  {
    hide PdOk, FrameOf, RoundDown, PgOfs;
  }

  /** Every page taken from the user pool in the meantime is the frame of a mapped page. */
  ghost predicate Accounted(t: Tables, pd: nat, base: nat, used: seq<bool>, used': seq<bool>)
    requires PdOk(t, pd)
  {
    && |used'| == |used|
    && forall k | 0 <= k < |used| && used'[k] && !used[k] ::
         exists v: Va :: IsUserPage(v) && FrameOf(t, pd, v) == Some(base + PGSIZE * k)
  }

  lemma AccountOneMore(t: Tables, t': Tables, pd: nat, base: nat, used: seq<bool>, used': seq<bool>, used'': seq<bool>,
                       upage: Va, kpage: nat)
    requires PdOk(t, pd) && PdOk(t', pd) && Accounted(t, pd, base, used, used') && Took(used', used'', base, kpage, 1)
    requires IsUserPage(upage) && FrameOf(t, pd, upage) == None
    requires forall v: Va | IsUserPage(v) :: FrameOf(t', pd, v) == if v == upage then Some(kpage) else FrameOf(t, pd, v)
    ensures Accounted(t', pd, base, used, used'')
  {
    hide PdOk, FrameOf, IsUserPage;
    forall k | 0 <= k < |used| && used''[k] && !used[k]
      ensures exists v: Va :: IsUserPage(v) && FrameOf(t', pd, v) == Some(base + PGSIZE * k)
    {
      if used'[k] {
        var v: Va :| IsUserPage(v) && FrameOf(t, pd, v) == Some(base + PGSIZE * k);
        assert FrameOf(t', pd, v) == Some(base + PGSIZE * k);
      } else {
        assert kpage == base + PGSIZE * k;
        assert FrameOf(t', pd, upage) == Some(kpage);
      }
    }
  }
}
