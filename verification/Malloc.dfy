/** The kernel allocator (threads/malloc.c over threads/palloc.c).  Addresses are numbers.  An arena is
    known by the address of its first page; the headers that sit at the start of arenas are a map. */
module Malloc {
  import opened Arith
  import opened Options
  import opened Lists
  import opened Machine
  import opened Vaddr
  import opened Palloc
  import Bitmap

  /** sizeof (struct arena). */
  const ARENA_SIZE := 12
  const MAX_DESCS := 10

  /** A descriptor manages the blocks of one size. */
  datatype Desc = Desc(blockSize: nat, blocksPerArena: nat, freeList: seq<nat>)

  /** The header of an arena: divided into the blocks of a descriptor, or a single big block. */
  datatype Arena = Small(desc: nat, freeCnt: nat) | Big(pageCnt: nat)

  // ---- blocks and arenas ----

  /** arena_to_block. */
  function ArenaToBlock(a: nat, blockSize: nat, idx: nat): nat { a + ARENA_SIZE + blockSize * idx }

  /** The sizes of descriptors; at least one block of such a size fits in a page after a header. */
  predicate SizeOk(d: Desc) {
    16 <= d.blockSize <= PGSIZE / 4 && d.blocksPerArena == (PGSIZE - ARENA_SIZE) / d.blockSize
  }

  /** block_to_arena's check of alignment, and the number of a block within its arena. */
  predicate Aligned(d: Desc, b: nat)
    requires d.blockSize > 0
  {
    PgOfs(b) >= ARENA_SIZE && (PgOfs(b) - ARENA_SIZE) % d.blockSize == 0
  }

  function IndexOf(d: Desc, b: nat): nat
    requires d.blockSize > 0 && PgOfs(b) >= ARENA_SIZE
  {
    (PgOfs(b) - ARENA_SIZE) / d.blockSize
  }

  /** b is a block of the arena a. */
  predicate IsBlock(d: Desc, a: nat, b: nat)
    requires d.blockSize > 0
  {
    RoundDown(b) == a && Aligned(d, b) && IndexOf(d, b) < d.blocksPerArena
  }

  lemma BlocksFit(d: Desc, idx: nat)
    requires SizeOk(d)
    ensures d.blocksPerArena > 0
    ensures idx < d.blocksPerArena ==> ARENA_SIZE + d.blockSize * idx + d.blockSize <= PGSIZE
  {
    var n, s := d.blocksPerArena, d.blockSize;
    DivBounds(PGSIZE - ARENA_SIZE, s);
    assert n == 0 ==> s * n == 0;
    if idx < n {
      MulLe(idx + 1, n, s);
      assert s * (idx + 1) == s * idx + s;
    }
  }

  /** arena_to_block gives the blocks of an arena, and block_to_arena finds the arena and number of each. */
  lemma BlockOfArena(d: Desc, a: nat, idx: nat)
    requires SizeOk(d) && a % PGSIZE == 0 && idx < d.blocksPerArena
    ensures IsBlock(d, a, ArenaToBlock(a, d.blockSize, idx)) && IndexOf(d, ArenaToBlock(a, d.blockSize, idx)) == idx
  {
    BlocksFit(d, idx);
    var m := d.blockSize * idx;
    PageOf(a, ARENA_SIZE + m);
    hide RoundDown, PgOfs;
    DivUnique(m, d.blockSize, idx);
    DivMod(m, d.blockSize);
    assert m % d.blockSize == 0;
  }

  lemma BlockIsItsIndex(d: Desc, a: nat, b: nat)
    requires SizeOk(d) && IsBlock(d, a, b)
    ensures b == ArenaToBlock(a, d.blockSize, IndexOf(d, b))
  {
    RoundDownIsPage(b);
    hide RoundDown, PgOfs;
    DivMod(PgOfs(b) - ARENA_SIZE, d.blockSize);
  }

  /** The first n blocks of an arena. */
  function Blocks(d: Desc, a: nat, n: nat): set<nat> {
    if n == 0 then {} else Blocks(d, a, n - 1) + {ArenaToBlock(a, d.blockSize, n - 1)}
  }

  lemma {:induction false} CountBlocks(d: Desc, a: nat, n: nat)
    requires SizeOk(d) && a % PGSIZE == 0 && n <= d.blocksPerArena
    ensures |Blocks(d, a, n)| == n
    ensures forall b :: b in Blocks(d, a, n) <==> IsBlock(d, a, b) && IndexOf(d, b) < n
  {
    hide RoundDown, PgOfs, ArenaToBlock;
    if n > 0 {
      CountBlocks(d, a, n - 1);
      BlockOfArena(d, a, n - 1);
      forall b | IsBlock(d, a, b) && IndexOf(d, b) == n - 1
        ensures b == ArenaToBlock(a, d.blockSize, n - 1)
      {
        BlockIsItsIndex(d, a, b);
      }
    }
  }

  /** Different blocks of the same arena do not overlap. */
  lemma BlocksAreApart(d: Desc, a: nat, b: nat, c: nat)
    requires SizeOk(d) && IsBlock(d, a, b) && IsBlock(d, a, c) && b < c
    ensures b + d.blockSize <= c
  {
    BlockIsItsIndex(d, a, b);
    BlockIsItsIndex(d, a, c);
    hide RoundDown, PgOfs;
    var i, j, s := IndexOf(d, b), IndexOf(d, c), d.blockSize;
    if j <= i {
      MulLe(j, i, s);
    } else {
      MulLe(i + 1, j, s);
      assert s * (i + 1) == s * i + s;
    }
  }

  // ---- the heap ----

  function PagesOf(x: Arena): nat { if x.Small? then 1 else x.pageCnt }

  /** block_size: how many bytes the caller of malloc may use at b. */
  function Capacity(descs: seq<Desc>, arenas: map<nat, Arena>, b: nat): int {
    if RoundDown(b) !in arenas then 0
    else match arenas[RoundDown(b)]
      case Small(k, _) => if k < |descs| then descs[k].blockSize else 0
      case Big(n) => PGSIZE * n - PgOfs(b)
  }

  /** All descriptors are of a possible size, with no block twice on a free list. */
  ghost predicate DescsOk(descs: seq<Desc>) {
    && |descs| <= MAX_DESCS
    && (forall k | 0 <= k < |descs| :: SizeOk(descs[k]) && Distinct(descs[k].freeList))
  }

  /** Arenas are groups of held pages, apart from each other. */
  ghost predicate ArenasOk(base: nat, used: seq<bool>, descs: seq<Desc>, arenas: map<nat, Arena>) {
    && base % PGSIZE == 0
    && (forall a | a in arenas :: a % PGSIZE == 0 && HeldIn(base, used, a, PagesOf(arenas[a])))
    && (forall a | a in arenas && arenas[a].Small? :: arenas[a].desc < |descs|)
    && (forall a, c | a in arenas && c in arenas && a < c :: a + PGSIZE * PagesOf(arenas[a]) <= c)
  }

  /** b is a place that malloc hands out. */
  predicate IsPlace(descs: seq<Desc>, arenas: map<nat, Arena>, b: nat) {
    var a := RoundDown(b);
    && a in arenas
    && match arenas[a]
       case Small(k, _) => k < |descs| && descs[k].blockSize > 0 && IsBlock(descs[k], a, b)
       case Big(_) => b == a + ARENA_SIZE
  }

  /** b is on the free list of its arena's descriptor. */
  predicate IsFree(descs: seq<Desc>, arenas: map<nat, Arena>, b: nat) {
    var a := RoundDown(b);
    a in arenas && arenas[a].Small? && arenas[a].desc < |descs| && b in descs[arenas[a].desc].freeList
  }

  ghost function FreeIn(freeList: seq<nat>, a: nat): set<nat> { set b | b in freeList && RoundDown(b) == a }
  ghost function LiveIn(live: set<nat>, a: nat): set<nat> { set b | b in live && RoundDown(b) == a }

  /** Every place is either free or live, and there are no other free or live blocks. */
  ghost predicate BlocksOk(descs: seq<Desc>, arenas: map<nat, Arena>, live: set<nat>) {
    && (forall k, b | 0 <= k < |descs| && b in descs[k].freeList ::
          IsPlace(descs, arenas, b) && arenas[RoundDown(b)].Small? && arenas[RoundDown(b)].desc == k)
    && (forall b | b in live :: IsPlace(descs, arenas, b))
    && (forall b | IsPlace(descs, arenas, b) :: b in live <==> !IsFree(descs, arenas, b))
  }

  /** The count in an arena's header counts its free blocks. */
  ghost predicate CountsOk(descs: seq<Desc>, arenas: map<nat, Arena>) {
    forall a | a in arenas && arenas[a].Small? && arenas[a].desc < |descs| ::
      arenas[a].freeCnt == |FreeIn(descs[arenas[a].desc].freeList, a)| <= descs[arenas[a].desc].blocksPerArena
  }

  /** Some block of each arena, but perhaps of `except`, is in use. */
  ghost predicate NoneEmpty(descs: seq<Desc>, arenas: map<nat, Arena>, except: set<nat>) {
    forall a | a in arenas && arenas[a].Small? && arenas[a].desc < |descs| && a !in except ::
      arenas[a].freeCnt < descs[arenas[a].desc].blocksPerArena
  }

  ghost predicate HeapOk(base: nat, used: seq<bool>, descs: seq<Desc>, arenas: map<nat, Arena>, live: set<nat>) {
    && DescsOk(descs) && ArenasOk(base, used, descs, arenas)
    && BlocksOk(descs, arenas, live) && CountsOk(descs, arenas)
  }

  // ---- what one step does to the heap ----

  /** The same arenas, divided in the same way. */
  ghost predicate SameShape(descs: seq<Desc>, arenas: map<nat, Arena>, descs': seq<Desc>, arenas': map<nat, Arena>) {
    && |descs'| == |descs| && arenas'.Keys == arenas.Keys
    && (forall k | 0 <= k < |descs| ::
          descs'[k].blockSize == descs[k].blockSize && descs'[k].blocksPerArena == descs[k].blocksPerArena)
    && (forall a | a in arenas :: match arenas[a]
          case Small(k, _) => arenas'[a].Small? && arenas'[a].desc == k
          case Big(_) => arenas'[a] == arenas[a])
  }

  lemma SamePlaces(descs: seq<Desc>, arenas: map<nat, Arena>, descs': seq<Desc>, arenas': map<nat, Arena>)
    requires SameShape(descs, arenas, descs', arenas')
    ensures forall b :: IsPlace(descs', arenas', b) <==> IsPlace(descs, arenas, b)
    ensures forall base, used :: ArenasOk(base, used, descs, arenas) ==> ArenasOk(base, used, descs', arenas')
  {
    hide RoundDown, PgOfs, HeldIn;
  }

  /** Taking the first block of a free list. */
  function TakenDescs(descs: seq<Desc>, k: nat): seq<Desc>
    requires k < |descs| && descs[k].freeList != []
  {
    descs[k := descs[k].(freeList := descs[k].freeList[1..])]
  }

  lemma FreeInRest(freeList: seq<nat>, a: nat)
    requires Distinct(freeList) && freeList != []
    ensures a != RoundDown(freeList[0]) ==> FreeIn(freeList[1..], a) == FreeIn(freeList, a)
    ensures a == RoundDown(freeList[0]) ==>
      FreeIn(freeList[1..], a) == FreeIn(freeList, a) - {freeList[0]} && freeList[0] in FreeIn(freeList, a)
  {
    hide RoundDown;
    PopDistinct(freeList);
  }

  lemma TakeKeepsHeap(descs: seq<Desc>, arenas: map<nat, Arena>, live: set<nat>, k: nat)
    requires DescsOk(descs) && BlocksOk(descs, arenas, live) && CountsOk(descs, arenas)
    requires k < |descs| && descs[k].freeList != []
    ensures var b := descs[k].freeList[0]; var a := RoundDown(b);
      && IsPlace(descs, arenas, b) && b !in live && arenas[a].Small? && arenas[a].desc == k && arenas[a].freeCnt > 0
      && DescsOk(TakenDescs(descs, k))
      && BlocksOk(TakenDescs(descs, k), arenas[a := Small(k, arenas[a].freeCnt - 1)], live + {b})
      && CountsOk(TakenDescs(descs, k), arenas[a := Small(k, arenas[a].freeCnt - 1)])
      && SameShape(descs, arenas, TakenDescs(descs, k), arenas[a := Small(k, arenas[a].freeCnt - 1)])
  {
    hide RoundDown, PgOfs, IsBlock, FreeIn;
    var fl := descs[k].freeList;
    var b, a := fl[0], RoundDown(fl[0]);
    PopDistinct(fl);
    FreeInRest(fl, a);
    assert b in fl;
    var descs', arenas' := TakenDescs(descs, k), arenas[a := Small(k, arenas[a].freeCnt - 1)];
    SamePlaces(descs, arenas, descs', arenas');
    forall c
      ensures IsFree(descs', arenas', c) <==> IsFree(descs, arenas, c) && c != b
    {}
    hide IsPlace, IsFree;
    forall c
      ensures FreeIn(fl[1..], c) == if c == a then FreeIn(fl, c) - {b} else FreeIn(fl, c)
    {
      FreeInRest(fl, c);
    }
  }

  /** Putting a live block on the front of its descriptor's free list. */
  function PutDescs(descs: seq<Desc>, k: nat, b: nat): seq<Desc>
    requires k < |descs|
  {
    descs[k := descs[k].(freeList := [b] + descs[k].freeList)]
  }

  lemma FreeInMore(freeList: seq<nat>, b: nat, a: nat)
    requires b !in freeList
    ensures a != RoundDown(b) ==> FreeIn([b] + freeList, a) == FreeIn(freeList, a)
    ensures a == RoundDown(b) ==> FreeIn([b] + freeList, a) == FreeIn(freeList, a) + {b} && b !in FreeIn(freeList, a)
  {
    hide RoundDown;
  }

  lemma PutKeepsHeap(descs: seq<Desc>, arenas: map<nat, Arena>, live: set<nat>, b: nat)
    requires DescsOk(descs) && BlocksOk(descs, arenas, live) && CountsOk(descs, arenas) && NoneEmpty(descs, arenas, {})
    requires b in live && RoundDown(b) in arenas && arenas[RoundDown(b)].Small?
    ensures var a := RoundDown(b); var k := arenas[a].desc;
      && k < |descs| && IsPlace(descs, arenas, b)
      && DescsOk(PutDescs(descs, k, b))
      && BlocksOk(PutDescs(descs, k, b), arenas[a := Small(k, arenas[a].freeCnt + 1)], live - {b})
      && CountsOk(PutDescs(descs, k, b), arenas[a := Small(k, arenas[a].freeCnt + 1)])
      && SameShape(descs, arenas, PutDescs(descs, k, b), arenas[a := Small(k, arenas[a].freeCnt + 1)])
      && NoneEmpty(PutDescs(descs, k, b), arenas[a := Small(k, arenas[a].freeCnt + 1)], {a})
  {
    hide RoundDown, PgOfs, IsBlock, FreeIn;
    assert IsPlace(descs, arenas, b) && !IsFree(descs, arenas, b);
    var a := RoundDown(b);
    var k := arenas[a].desc;
    var fl := descs[k].freeList;
    AppendDistinct(fl, b);
    FreeInMore(fl, b, a);
    var descs', arenas' := PutDescs(descs, k, b), arenas[a := Small(k, arenas[a].freeCnt + 1)];
    SamePlaces(descs, arenas, descs', arenas');
    forall c
      ensures IsFree(descs', arenas', c) <==> IsFree(descs, arenas, c) || c == b
    {}
    hide IsPlace, IsFree;
    forall c
      ensures FreeIn([b] + fl, c) == if c == a then FreeIn(fl, c) + {b} else FreeIn(fl, c)
    {
      FreeInMore(fl, b, c);
    }
  }

  /** The free list of a descriptor once a new arena was divided into blocks. */
  ghost predicate Extended(d: Desc, freeList': seq<nat>, a: nat)
    requires d.blockSize > 0
  {
    Distinct(freeList') && forall b :: b in freeList' <==> b in d.freeList || IsBlock(d, a, b)
  }

  lemma NewArenaIsUnknown(base: nat, used: seq<bool>, used': seq<bool>, descs: seq<Desc>, arenas: map<nat, Arena>,
                          a: nat, x: Arena)
    requires ArenasOk(base, used, descs, arenas) && Took(used, used', base, a, PagesOf(x))
    requires x.Small? ==> x.desc < |descs|
    ensures a !in arenas && a % PGSIZE == 0 && ArenasOk(base, used', descs, arenas[a := x])
  {
    hide HeldIn, Took, RoundDown;
    TookIsApart(used, used', base, a, PagesOf(x), a, PagesOf(x));
    forall c | c in arenas
      ensures HeldIn(base, used', c, PagesOf(arenas[c])) && PagesOf(arenas[c]) > 0
      ensures c + PGSIZE * PagesOf(arenas[c]) <= a || a + PGSIZE * PagesOf(x) <= c
    {
      TookIsApart(used, used', base, a, PagesOf(x), c, PagesOf(arenas[c]));
      HeldIsSome(base, used, c, PagesOf(arenas[c]));
    }
    HeldIsSome(base, used', a, PagesOf(x));
  }

  lemma HeldIsSome(base: nat, used: seq<bool>, a: nat, n: nat)
    requires HeldIn(base, used, a, n)
    ensures n > 0 && base <= a && PageIndex(base, a) + n <= |used|
  {}

  lemma DivideKeepsBlocks(descs: seq<Desc>, arenas: map<nat, Arena>, live: set<nat>, a: nat, k: nat,
                          freeList': seq<nat>)
    requires DescsOk(descs) && BlocksOk(descs, arenas, live) && CountsOk(descs, arenas)
    requires k < |descs| && a !in arenas && a % PGSIZE == 0 && Extended(descs[k], freeList', a)
    ensures var descs', arenas' := descs[k := descs[k].(freeList := freeList')],
      arenas[a := Small(k, descs[k].blocksPerArena)];
      DescsOk(descs') && BlocksOk(descs', arenas', live) && CountsOk(descs', arenas')
  {
    hide RoundDown, PgOfs, FreeIn, Blocks;
    var d := descs[k];
    var descs', arenas' := descs[k := d.(freeList := freeList')], arenas[a := Small(k, d.blocksPerArena)];
    CountBlocks(d, a, d.blocksPerArena);
    forall b
      ensures IsPlace(descs', arenas', b) <==> IsPlace(descs, arenas, b) || IsBlock(d, a, b)
      ensures IsFree(descs', arenas', b) <==> IsFree(descs, arenas, b) || IsBlock(d, a, b)
      ensures IsPlace(descs, arenas, b) ==> RoundDown(b) != a
    {}
    FreeInNew(d, freeList', a);
    assert DescsOk(descs');
    forall b, j | 0 <= j < |descs'| && b in descs'[j].freeList
      ensures IsPlace(descs', arenas', b) && arenas'[RoundDown(b)].Small? && arenas'[RoundDown(b)].desc == j
    {}
    hide IsPlace, IsFree, IsBlock;
  }

  lemma FreeInNew(d: Desc, freeList': seq<nat>, a: nat)
    requires SizeOk(d) && a % PGSIZE == 0 && Extended(d, freeList', a)
    requires forall b | b in d.freeList :: RoundDown(b) != a
    ensures |FreeIn(freeList', a)| == d.blocksPerArena
    ensures forall c | c != a :: FreeIn(freeList', c) == FreeIn(d.freeList, c)
  {
    CountBlocks(d, a, d.blocksPerArena);
    hide RoundDown, PgOfs, Blocks;
    assert FreeIn(freeList', a) == Blocks(d, a, d.blocksPerArena);
    forall c | c != a
      ensures FreeIn(freeList', c) == FreeIn(d.freeList, c)
    {}
  }

  /** The free list of a descriptor without the blocks of an arena. */
  ghost predicate Reduced(d: Desc, freeList': seq<nat>, a: nat)
    requires d.blockSize > 0
  {
    Distinct(freeList') && forall b :: b in freeList' <==> b in d.freeList && !IsBlock(d, a, b)
  }

  /** When the count of an arena says that all of its blocks are free, then they are. */
  lemma AllAreFree(descs: seq<Desc>, arenas: map<nat, Arena>, live: set<nat>, a: nat)
    requires DescsOk(descs) && BlocksOk(descs, arenas, live) && CountsOk(descs, arenas)
    requires a in arenas && arenas[a].Small? && arenas[a].desc < |descs| && a % PGSIZE == 0
    requires arenas[a].freeCnt == descs[arenas[a].desc].blocksPerArena
    ensures forall b | IsBlock(descs[arenas[a].desc], a, b) :: b in descs[arenas[a].desc].freeList
    ensures forall b | b in live :: RoundDown(b) != a
  {
    var k := arenas[a].desc;
    var d := descs[k];
    CountBlocks(d, a, d.blocksPerArena);
    hide RoundDown, PgOfs, Blocks;
    var free, all := FreeIn(d.freeList, a), Blocks(d, a, d.blocksPerArena);
    assert free <= all;
    SameSizeSameSet(free, all);
    forall b | IsBlock(d, a, b)
      ensures b in d.freeList
    {
      assert b in free;
    }
    assert forall b | b in live && RoundDown(b) == a :: IsPlace(descs, arenas, b) && IsFree(descs, arenas, b);
  }

  lemma {:induction false} SameSizeSameSet(s: set<nat>, t: set<nat>)
    requires s <= t && |s| == |t|
    ensures s == t
  {
    if x :| x in s {
      SameSizeSameSet(s - {x}, t - {x});
    } else {
      assert |t| == 0;
    }
  }

  lemma DropKeepsBlocks(descs: seq<Desc>, arenas: map<nat, Arena>, live: set<nat>, a: nat, freeList': seq<nat>)
    requires DescsOk(descs) && BlocksOk(descs, arenas, live) && CountsOk(descs, arenas) && NoneEmpty(descs, arenas, {a})
    requires a in arenas && arenas[a].Small? && arenas[a].desc < |descs| && a % PGSIZE == 0
    requires arenas[a].freeCnt == descs[arenas[a].desc].blocksPerArena
    requires Reduced(descs[arenas[a].desc], freeList', a)
    ensures var k := arenas[a].desc; var descs', arenas' := descs[k := descs[k].(freeList := freeList')], arenas - {a};
      DescsOk(descs') && BlocksOk(descs', arenas', live) && CountsOk(descs', arenas') && NoneEmpty(descs', arenas', {})
  {
    hide RoundDown, PgOfs, FreeIn;
    var k := arenas[a].desc;
    var d := descs[k];
    var descs', arenas' := descs[k := d.(freeList := freeList')], arenas - {a};
    AllAreFree(descs, arenas, live, a);
    forall b
      ensures IsPlace(descs', arenas', b) <==> IsPlace(descs, arenas, b) && RoundDown(b) != a
      ensures IsFree(descs', arenas', b) <==> IsFree(descs, arenas, b) && RoundDown(b) != a
    {}
    FreeInRemaining(d, freeList', a);
    assert DescsOk(descs');
    forall b, j | 0 <= j < |descs'| && b in descs'[j].freeList
      ensures IsPlace(descs', arenas', b) && arenas'[RoundDown(b)].Small? && arenas'[RoundDown(b)].desc == j
    {}
    hide IsPlace, IsFree, IsBlock;
  }

  lemma FreeInRemaining(d: Desc, freeList': seq<nat>, a: nat)
    requires d.blockSize > 0 && Reduced(d, freeList', a)
    ensures forall c | c != a :: FreeIn(freeList', c) == FreeIn(d.freeList, c)
  {
    hide RoundDown, PgOfs;
  }

  lemma DropKeepsArenas(base: nat, used: seq<bool>, descs: seq<Desc>, arenas: map<nat, Arena>, a: nat)
    requires ArenasOk(base, used, descs, arenas) && a in arenas && base <= a
    requires HeldIn(base, used, a, PagesOf(arenas[a]))
    ensures ArenasOk(base, Bitmap.SetMultiple(used, PageIndex(base, a), PagesOf(arenas[a]), false), descs, arenas - {a})
  {
    hide HeldIn;
    HeldIsSome(base, used, a, PagesOf(arenas[a]));
    forall c | c in arenas && c != a
      ensures HeldIn(base, Bitmap.SetMultiple(used, PageIndex(base, a), PagesOf(arenas[a]), false), c,
        PagesOf(arenas[c]))
    {
      FreeLeavesOthers(used, base, a, PagesOf(arenas[a]), c, PagesOf(arenas[c]));
    }
  }

  lemma BigKeepsBlocks(descs: seq<Desc>, arenas: map<nat, Arena>, live: set<nat>, a: nat, n: nat)
    requires BlocksOk(descs, arenas, live) && CountsOk(descs, arenas) && NoneEmpty(descs, arenas, {})
    requires a !in arenas && a % PGSIZE == 0
    ensures a + ARENA_SIZE !in live && BlocksOk(descs, arenas[a := Big(n)], live + {a + ARENA_SIZE})
    ensures CountsOk(descs, arenas[a := Big(n)]) && NoneEmpty(descs, arenas[a := Big(n)], {})
  {
    PageOf(a, ARENA_SIZE);
    hide RoundDown, PgOfs, FreeIn, IsBlock;
    var b, arenas' := a + ARENA_SIZE, arenas[a := Big(n)];
    forall c
      ensures IsPlace(descs, arenas', c) <==> IsPlace(descs, arenas, c) || c == b
      ensures IsFree(descs, arenas', c) <==> IsFree(descs, arenas, c)
      ensures IsPlace(descs, arenas, c) ==> RoundDown(c) != a
      ensures IsFree(descs, arenas, c) ==> RoundDown(c) != a
    {}
    hide IsPlace, IsFree;
  }

  lemma DropBigKeepsBlocks(descs: seq<Desc>, arenas: map<nat, Arena>, live: set<nat>, a: nat)
    requires BlocksOk(descs, arenas, live) && CountsOk(descs, arenas) && NoneEmpty(descs, arenas, {})
    requires a in arenas && arenas[a].Big? && a % PGSIZE == 0
    ensures BlocksOk(descs, arenas - {a}, live - {a + ARENA_SIZE})
    ensures CountsOk(descs, arenas - {a}) && NoneEmpty(descs, arenas - {a}, {})
  {
    PageOf(a, ARENA_SIZE);
    hide RoundDown, PgOfs, FreeIn, IsBlock;
    var b, arenas' := a + ARENA_SIZE, arenas - {a};
    forall c
      ensures IsPlace(descs, arenas', c) <==> IsPlace(descs, arenas, c) && c != b
      ensures IsFree(descs, arenas', c) <==> IsFree(descs, arenas, c)
    {}
    hide IsPlace, IsFree;
  }

  // ---- what holds of every heap ----

  /** Live blocks do not overlap. */
  lemma LiveBlocksAreApart(base: nat, used: seq<bool>, descs: seq<Desc>, arenas: map<nat, Arena>, live: set<nat>,
                           b: nat, c: nat)
    requires HeapOk(base, used, descs, arenas, live) && b in live && c in live && b < c
    ensures 0 < Capacity(descs, arenas, b) && b + Capacity(descs, arenas, b) <= c
  {
    assert IsPlace(descs, arenas, b) && IsPlace(descs, arenas, c);
    var a := RoundDown(b);
    PlaceEnds(descs, arenas, b);
    HeldIsSome(base, used, a, PagesOf(arenas[a]));
    RoundDownIsPage(b);
    RoundDownIsPage(c);
    hide HeldIn;
    if RoundDown(c) == a {
      match arenas[a]
      case Small(k, _) => BlocksAreApart(descs[k], a, b, c);
      case Big(_) =>
    }
  }

  /** A block lies behind the header of its arena and within its pages. */
  lemma PlaceEnds(descs: seq<Desc>, arenas: map<nat, Arena>, b: nat)
    requires DescsOk(descs) && IsPlace(descs, arenas, b)
    ensures RoundDown(b) in arenas && RoundDown(b) + ARENA_SIZE <= b
    ensures arenas[RoundDown(b)].Big? ==>
      Capacity(descs, arenas, b) == PGSIZE * PagesOf(arenas[RoundDown(b)]) - ARENA_SIZE
    ensures b + Capacity(descs, arenas, b) <= RoundDown(b) + PGSIZE * PagesOf(arenas[RoundDown(b)])
  {
    var a := RoundDown(b);
    RoundDownIsPage(b);
    match arenas[a]
    case Small(k, _) =>
      BlockIsItsIndex(descs[k], a, b);
      BlocksFit(descs[k], IndexOf(descs[k], b));
    case Big(_) =>
      PageOf(a, ARENA_SIZE);
  }

  /** Conservation in one arena: the free blocks that its header counts and the live ones are all. */
  lemma ArenaIsFreePlusLive(descs: seq<Desc>, arenas: map<nat, Arena>, live: set<nat>, a: nat)
    requires DescsOk(descs) && BlocksOk(descs, arenas, live) && CountsOk(descs, arenas)
    requires a in arenas && arenas[a].Small? && arenas[a].desc < |descs| && a % PGSIZE == 0
    ensures arenas[a].freeCnt + |LiveIn(live, a)| == descs[arenas[a].desc].blocksPerArena
  {
    hide RoundDown, PgOfs, Blocks, IsBlock, IndexOf;
    var d := descs[arenas[a].desc];
    AllBlocks(d, a);
    var free, used, all := FreeIn(d.freeList, a), LiveIn(live, a), Blocks(d, a, d.blocksPerArena);
    forall b
      ensures b in free + used <==> b in all
      ensures !(b in free && b in used)
    {
      assert IsPlace(descs, arenas, b) && RoundDown(b) == a <==> IsBlock(d, a, b);
    }
    assert free + used == all && free !! used;
  }

  lemma AllBlocks(d: Desc, a: nat)
    requires SizeOk(d) && a % PGSIZE == 0
    ensures |Blocks(d, a, d.blocksPerArena)| == d.blocksPerArena
    ensures forall b :: b in Blocks(d, a, d.blocksPerArena) <==> IsBlock(d, a, b)
    ensures forall b | IsBlock(d, a, b) :: RoundDown(b) == a
  {
    hide RoundDown, PgOfs, Blocks;
    CountBlocks(d, a, d.blocksPerArena);
  }

  /** The arenas of a descriptor, and the live blocks in some of them. */
  ghost function ArenasOf(arenas: map<nat, Arena>, k: nat): set<nat> {
    set a | a in arenas && arenas[a].Small? && arenas[a].desc == k
  }

  ghost function LiveAmong(live: set<nat>, some: set<nat>): set<nat> {
    set b | b in live && RoundDown(b) in some
  }

  ghost function FreeAmong(freeList: seq<nat>, some: set<nat>): set<nat> {
    set b | b in freeList && RoundDown(b) in some
  }

  lemma SplitAmong(freeList: seq<nat>, live: set<nat>, some: set<nat>, a: nat)
    requires a in some
    ensures |some| == |some - {a}| + 1
    ensures |FreeAmong(freeList, some)| == |FreeAmong(freeList, some - {a})| + |FreeIn(freeList, a)|
    ensures |LiveAmong(live, some)| == |LiveAmong(live, some - {a})| + |LiveIn(live, a)|
  {
    hide RoundDown;
    var rest := some - {a};
    assert FreeAmong(freeList, some) == FreeAmong(freeList, rest) + FreeIn(freeList, a);
    assert FreeAmong(freeList, rest) !! FreeIn(freeList, a);
    assert LiveAmong(live, some) == LiveAmong(live, rest) + LiveIn(live, a);
    assert LiveAmong(live, rest) !! LiveIn(live, a);
  }

  lemma {:induction false} CountAmong(descs: seq<Desc>, arenas: map<nat, Arena>, live: set<nat>, k: nat, some: set<nat>)
    requires DescsOk(descs) && BlocksOk(descs, arenas, live) && CountsOk(descs, arenas) && k < |descs|
    requires some <= ArenasOf(arenas, k) && forall a | a in some :: a % PGSIZE == 0
    ensures |FreeAmong(descs[k].freeList, some)| + |LiveAmong(live, some)| == |some| * descs[k].blocksPerArena
  {
    hide RoundDown, BlocksOk, DescsOk, FreeAmong, LiveAmong, FreeIn, LiveIn;
    if a :| a in some {
      CountAmong(descs, arenas, live, k, some - {a});
      ArenaIsFreePlusLive(descs, arenas, live, a);
      SplitAmong(descs[k].freeList, live, some, a);
      var n, m := |some - {a}|, descs[k].blocksPerArena;
      assert (n + 1) * m == n * m + m;
    } else {
      NoneAmong(descs[k].freeList, live);
      assert some == {};
    }
  }

  lemma NoneAmong(freeList: seq<nat>, live: set<nat>)
    ensures FreeAmong(freeList, {}) == {} && LiveAmong(live, {}) == {}
  {}

  lemma {:induction false} ListSize(s: seq<nat>, t: set<nat>)
    requires Distinct(s) && forall x :: x in s <==> x in t
    ensures |s| == |t|
  {
    if s != [] {
      PopDistinct(s);
      ListSize(s[1..], t - {s[0]});
    }
  }

  /** Conservation for a descriptor: its free blocks and its live ones are the blocks of its arenas. */
  lemma FreePlusLiveIsAll(base: nat, used: seq<bool>, descs: seq<Desc>, arenas: map<nat, Arena>, live: set<nat>, k: nat)
    requires HeapOk(base, used, descs, arenas, live) && k < |descs|
    ensures |descs[k].freeList| + |LiveAmong(live, ArenasOf(arenas, k))| ==
      |ArenasOf(arenas, k)| * descs[k].blocksPerArena
  {
    var fl, some := descs[k].freeList, ArenasOf(arenas, k);
    CountAmong(descs, arenas, live, k, some);
    hide RoundDown, HeldIn, IsPlace, IsFree;
    assert forall b :: b in fl <==> b in FreeAmong(fl, some);
    ListSize(fl, FreeAmong(fl, some));
  }

  // ---- arenas and the pool ----

  /** Page k of the pool belongs to an arena. */
  ghost predicate Covered(base: nat, arenas: map<nat, Arena>, k: nat) {
    exists a | a in arenas :: a <= base + PGSIZE * k < a + PGSIZE * PagesOf(arenas[a])
  }

  /** The pages in use that belong to no arena. */
  ghost function Foreign(base: nat, used: seq<bool>, arenas: map<nat, Arena>): set<nat> {
    set k | 0 <= k < |used| && used[k] && !Covered(base, arenas, k)
  }

  /** The pages of arenas are in use, so the used pages are those and the foreign ones. */
  lemma UsedPages(base: nat, used: seq<bool>, descs: seq<Desc>, arenas: map<nat, Arena>, k: nat)
    requires ArenasOk(base, used, descs, arenas) && k < |used|
    ensures used[k] <==> Covered(base, arenas, k) || k in Foreign(base, used, arenas)
  {
    if Covered(base, arenas, k) {
      var a :| a in arenas && a <= base + PGSIZE * k < a + PGSIZE * PagesOf(arenas[a]);
      CoveredByOne(base, used, a, PagesOf(arenas[a]), k);
    }
  }

  lemma CoveredByOne(base: nat, used: seq<bool>, a: nat, n: nat, k: nat)
    requires HeldIn(base, used, a, n)
    ensures a <= base + PGSIZE * k < a + PGSIZE * n <==> PageIndex(base, a) <= k < PageIndex(base, a) + n
    ensures PageIndex(base, a) <= k < PageIndex(base, a) + n ==> k < |used| && used[k]
  {
    assert a == base + PGSIZE * PageIndex(base, a);
  }

  /** When the foreign pages stay the same, a page comes into use exactly if an arena that is new covers it, and
      becomes free exactly if an arena that is gone did. */
  lemma PagesFollowArenas(base: nat, used: seq<bool>, descs: seq<Desc>, arenas: map<nat, Arena>,
                          used': seq<bool>, descs': seq<Desc>, arenas': map<nat, Arena>, k: nat)
    requires ArenasOk(base, used, descs, arenas) && ArenasOk(base, used', descs', arenas')
    requires Foreign(base, used', arenas') == Foreign(base, used, arenas) && k < |used| == |used'|
    ensures !used[k] && used'[k] <==> !Covered(base, arenas, k) && Covered(base, arenas', k)
    ensures used[k] && !used'[k] <==> Covered(base, arenas, k) && !Covered(base, arenas', k)
  {
    UsedPages(base, used, descs, arenas, k);
    UsedPages(base, used', descs', arenas', k);
    hide Covered, ArenasOk;
    assert k in Foreign(base, used, arenas) <==> k in Foreign(base, used', arenas');
  }

  /** With the same arenas as before, in as many pages each, the pool is as before. */
  ghost predicate SamePages(arenas: map<nat, Arena>, arenas': map<nat, Arena>) {
    arenas'.Keys == arenas.Keys && forall a | a in arenas :: PagesOf(arenas'[a]) == PagesOf(arenas[a])
  }

  lemma SamePagesSameForeign(base: nat, used: seq<bool>, arenas: map<nat, Arena>, arenas': map<nat, Arena>)
    requires SamePages(arenas, arenas')
    ensures forall k: nat :: Covered(base, arenas', k) == Covered(base, arenas, k)
    ensures Foreign(base, used, arenas') == Foreign(base, used, arenas)
  {
    forall k: nat
      ensures Covered(base, arenas', k) == Covered(base, arenas, k)
    {
      if Covered(base, arenas, k) {
        var a :| a in arenas && a <= base + PGSIZE * k < a + PGSIZE * PagesOf(arenas[a]);
        assert a in arenas';
      }
      if Covered(base, arenas', k) {
        var a :| a in arenas' && a <= base + PGSIZE * k < a + PGSIZE * PagesOf(arenas'[a]);
        assert a in arenas;
      }
    }
  }

  lemma SamePool(base: nat, used: seq<bool>, descs: seq<Desc>, arenas: map<nat, Arena>,
                 used': seq<bool>, descs': seq<Desc>, arenas': map<nat, Arena>)
    requires ArenasOk(base, used, descs, arenas) && ArenasOk(base, used', descs', arenas')
    requires Foreign(base, used', arenas') == Foreign(base, used, arenas) && |used'| == |used|
    requires SamePages(arenas, arenas')
    ensures used' == used
  {
    hide ArenasOk, Foreign;
    SamePagesSameForeign(base, used, arenas, arenas');
    forall k | 0 <= k < |used|
      ensures used'[k] == used[k]
    {
      PagesFollowArenas(base, used, descs, arenas, used', descs', arenas', k);
    }
  }

  lemma NewArenaKeepsForeign(base: nat, used: seq<bool>, used': seq<bool>, arenas: map<nat, Arena>, a: nat, x: Arena)
    requires Took(used, used', base, a, PagesOf(x)) && a !in arenas && base % PGSIZE == 0
    ensures |used'| == |used| && Foreign(base, used', arenas[a := x]) == Foreign(base, used, arenas)
  {
    TookIsApart(used, used', base, a, PagesOf(x), a, PagesOf(x));
    forall k | 0 <= k < |used|
      ensures k in Foreign(base, used', arenas[a := x]) <==> k in Foreign(base, used, arenas)
    {
      CoveredByOne(base, used', a, PagesOf(x), k);
      CoveredByMore(base, arenas, a, x, k);
    }
  }

  lemma CoveredByMore(base: nat, arenas: map<nat, Arena>, a: nat, x: Arena, k: nat)
    requires a !in arenas
    ensures Covered(base, arenas[a := x], k) <==>
      Covered(base, arenas, k) || a <= base + PGSIZE * k < a + PGSIZE * PagesOf(x)
  {
    var arenas' := arenas[a := x];
    if Covered(base, arenas, k) {
      var c :| c in arenas && c <= base + PGSIZE * k < c + PGSIZE * PagesOf(arenas[c]);
      assert c in arenas' && arenas'[c] == arenas[c];
    }
    if a <= base + PGSIZE * k < a + PGSIZE * PagesOf(x) {
      assert a in arenas' && arenas'[a] == x;
    }
  }

  lemma DroppedArenaKeepsForeign(base: nat, used: seq<bool>, arenas: map<nat, Arena>, a: nat)
    requires a in arenas && HeldIn(base, used, a, PagesOf(arenas[a]))
    ensures Foreign(base, Bitmap.SetMultiple(used, PageIndex(base, a), PagesOf(arenas[a]), false), arenas - {a}) ==
      Foreign(base, used, arenas)
  {
    var n := PagesOf(arenas[a]);
    var used' := Bitmap.SetMultiple(used, PageIndex(base, a), n, false);
    assert (arenas - {a})[a := arenas[a]] == arenas;
    forall k | 0 <= k < |used|
      ensures k in Foreign(base, used', arenas - {a}) <==> k in Foreign(base, used, arenas)
    {
      CoveredByOne(base, used, a, n, k);
      CoveredByMore(base, arenas - {a}, a, arenas[a], k);
    }
  }

  // ---- sizes of requests ----

  /** The block sizes are 16, 32, 64 and so on up to a quarter of a page. */
  ghost predicate SizesOk(descs: seq<Desc>) {
    && |descs| > 0 && descs[0].blockSize == 16 && descs[|descs| - 1].blockSize == PGSIZE / 4
    && forall k | 0 < k < |descs| :: descs[k].blockSize == 2 * descs[k - 1].blockSize
  }

  /** The number of the smallest descriptor from k on that satisfies a request. */
  function DescFor(descs: seq<Desc>, size: nat, k: nat): (r: nat)
    requires k <= |descs|
    ensures k <= r <= |descs| && (r < |descs| ==> descs[r].blockSize >= size)
    ensures forall j | k <= j < r :: descs[j].blockSize < size
    decreases |descs| - k
  {
    if k == |descs| || descs[k].blockSize >= size then k else DescFor(descs, size, k + 1)
  }

  /** A request is rounded up to less than twice its size, or to 16. */
  lemma RoundedUpToLessThanDouble(descs: seq<Desc>, size: nat)
    requires SizesOk(descs)
    ensures var k := DescFor(descs, size, 0);
      if size <= PGSIZE / 4 then k < |descs| && size <= descs[k].blockSize && descs[k].blockSize < Max(17, 2 * size)
      else k == |descs|
  {
    var k := DescFor(descs, size, 0);
    SizesIncrease(descs, k);
    if 0 < k < |descs| {
      assert descs[k].blockSize == 2 * descs[k - 1].blockSize && descs[k - 1].blockSize < size;
    }
  }

  lemma {:induction false} SizesIncrease(descs: seq<Desc>, k: nat)
    requires SizesOk(descs)
    ensures k < |descs| ==> descs[k].blockSize <= PGSIZE / 4
    decreases |descs| - k
  {
    if k + 1 < |descs| {
      SizesIncrease(descs, k + 1);
      assert descs[k + 1].blockSize == 2 * descs[k].blockSize;
    }
  }

  /** The pages for a big block, in 32-bit arithmetic. */
  function BigPages(size: nat): nat { Wrap32(Wrap32(size + ARENA_SIZE) + PGSIZE - 1) / PGSIZE }

  /** The largest request that a big block, if there is one, satisfies. */
  const LARGEST_REQUEST := 0xFFFF_FFF4

  /** The pages are enough for the request exactly if the size with the header does not exceed 2^32, and then none
      is to spare; beyond that a caller would be given a page for almost 4 GB. */
  lemma BigPagesSuffice(size: nat)
    requires PGSIZE / 4 < size && IsUint32(size) && BigPages(size) > 0
    ensures size <= PGSIZE * BigPages(size) - ARENA_SIZE <==> size <= LARGEST_REQUEST
    ensures size <= LARGEST_REQUEST ==> PGSIZE * (BigPages(size) - 1) - ARENA_SIZE < size
  {
    var n := BigPages(size);
    var total := size + ARENA_SIZE;
    if size > LARGEST_REQUEST {
      assert Wrap32(total) == total - B32;
    }
  }

  /** A request for all of memory gets one page. */
  lemma WrappedRequest()
    ensures BigPages(0xFFFF_FFFF) == 1 && PGSIZE * BigPages(0xFFFF_FFFF) - ARENA_SIZE < 0xFFFF_FFFF
  {}

  // ---- the allocator ----

  class Allocator {
    const pages: PageAllocator
    var descs: seq<Desc>
    var arenas: map<nat, Arena>
    var memory: seq<bv8>
    ghost var live: set<nat>

    /** The invariant of every run: no arena is entirely free, besides what HeapOk says. */
    ghost predicate Valid()
      reads this, pages.kernel, pages.user
    {
      pages.Valid() && Core() && NoneEmpty(descs, arenas, {}) && |memory| == ADDRESS_END
    }

    ghost predicate Core()
      reads this`descs, this`arenas, this`live, pages.kernel
    {
      SizesOk(descs) && HeapOk(pages.kernel.base, pages.kernel.used, descs, arenas, live)
    }

    /** The pages of the kernel pool that are in use by others. */
    ghost function Others(): set<nat>
      reads this`arenas, pages.kernel
    {
      Foreign(pages.kernel.base, pages.kernel.used, arenas)
    }

    /** An allocator without arenas. */
    constructor (pages: PageAllocator)
      requires pages.Valid()
      ensures Valid() && this.pages == pages && live == {} && arenas == map[]
    {
      this.pages := pages;
      arenas, live := map[], {};
      memory := seq(ADDRESS_END, _ => 0);
      new;
      hide DescsOk, SizesOk, SizeOk, IsBlock, RoundDown, PgOfs;
      descs := InitDescs();
    }

    /** The bytes that the owner of a block may use. */
    function Bytes(b: nat): seq<bv8>
      reads this`descs, this`arenas, this`memory
    {
      Slice(memory, b, Capacity(descs, arenas, b))
    }

    /** The part of malloc that makes a new arena for a descriptor without free blocks and divides it. */
    method MakeArena(k: nat) returns (arena: Option<nat>)
      requires Valid() && k < |descs| && descs[k].freeList == []
      modifies this`descs, this`arenas, pages.kernel`used
      ensures pages.Valid() && Core()
      ensures arena.None? <==> forall s: nat :: !Bitmap.Fits(old(pages.kernel.used), s, 1)
      ensures arena.None? ==> unchanged(this) && pages.kernel.used == old(pages.kernel.used)
      ensures arena.Some? ==> arena.value !in old(arenas) && |descs| == |old(descs)| && descs[k].freeList != []
      ensures arena.Some? ==> arenas == old(arenas)[arena.value := Small(k, old(descs)[k].blocksPerArena)]
      ensures arena.Some? ==> descs == old(descs)[k := old(descs)[k].(freeList := descs[k].freeList)]
      ensures arena.Some? ==> forall b | b in descs[k].freeList :: RoundDown(b) == arena.value
      ensures Others() == old(Others()) && |pages.kernel.used| == |old(pages.kernel.used)|
    {
      hide DescsOk, SizesOk, ArenasOk, BlocksOk, CountsOk, NoneEmpty, SizeOk, IsBlock, RoundDown, PgOfs, Bitmap.Fits,
           Extended, Foreign, Took;
      arena := pages.GetMultiple(false, 1);
      if arena.None? {
        return;
      }
      var a := arena.value;
      NewArenaIsUnknown(pages.kernel.base, old(pages.kernel.used), pages.kernel.used, descs, arenas, a, Small(k, 0));
      NewArenaKeepsForeign(pages.kernel.base, old(pages.kernel.used), pages.kernel.used, arenas, a,
        Small(k, descs[k].blocksPerArena));
      DescIsOk(descs, k);
      var fl := AddBlocks(descs[k], a);
      DivideKeepsBlocks(descs, arenas, live, a, k, fl);
      ResizedKeepsArenas(pages.kernel.base, pages.kernel.used, descs, arenas, a, k, fl);
      arenas := arenas[a := Small(k, descs[k].blocksPerArena)];
      descs := descs[k := descs[k].(freeList := fl)];
    }

    /** The last part of malloc: takes the first block of a free list. */
    method TakeBlock(k: nat) returns (b: nat)
      requires pages.Valid() && Core() && k < |descs| && descs[k].freeList != []
      modifies this`descs, this`arenas, this`live
      ensures Core() && b == old(descs)[k].freeList[0] && b !in old(live) && live == old(live) + {b}
      ensures RoundDown(b) in old(arenas) && Capacity(descs, arenas, b) == old(descs)[k].blockSize
      ensures forall c :: Capacity(descs, arenas, c) == Capacity(old(descs), old(arenas), c)
      ensures old(NoneEmpty(descs, arenas, {RoundDown(descs[k].freeList[0])})) ==> NoneEmpty(descs, arenas, {})
      ensures SamePages(old(arenas), arenas)
    {
      hide DescsOk, SizesOk, ArenasOk, BlocksOk, CountsOk, NoneEmpty, SizeOk, IsPlace, RoundDown, PgOfs, Capacity;
      TakeKeepsHeap(descs, arenas, live, k);
      b := descs[k].freeList[0];
      var a := RoundDown(b);
      TakeKeepsRest(descs, arenas, k);
      SameShapeSameCapacity(descs, arenas, TakenDescs(descs, k), arenas[a := Small(k, arenas[a].freeCnt - 1)]);
      SamePlaces(descs, arenas, TakenDescs(descs, k), arenas[a := Small(k, arenas[a].freeCnt - 1)]);
      descs := TakenDescs(descs, k);
      arenas := arenas[a := Small(k, arenas[a].freeCnt - 1)];
      live := live + {b};
    }

    /** The branch of malloc for requests that no descriptor satisfies. */
    method MallocBig(size: nat) returns (b: Option<nat>)
      requires Valid() && PGSIZE / 4 < size && IsUint32(size)
      modifies this`arenas, this`live, pages.kernel`used
      ensures Valid()
      ensures b.None? <==> BigPages(size) == 0 || forall s: nat ::
        !Bitmap.Fits(old(pages.kernel.used), s, BigPages(size))
      ensures b.None? ==> unchanged(this) && pages.kernel.used == old(pages.kernel.used)
      ensures b.Some? ==> b.value !in old(live) && live == old(live) + {b.value}
      ensures b.Some? ==> Capacity(descs, arenas, b.value) == PGSIZE * BigPages(size) - ARENA_SIZE
      ensures b.Some? ==> RoundDown(b.value) !in old(arenas)
      ensures b.Some? ==> arenas == old(arenas)[RoundDown(b.value) := Big(BigPages(size))]
      ensures Others() == old(Others()) && |pages.kernel.used| == |old(pages.kernel.used)|
      ensures forall c | c in old(live) :: Capacity(descs, arenas, c) == Capacity(old(descs), old(arenas), c)
    {
      hide DescsOk, SizesOk, ArenasOk, BlocksOk, CountsOk, NoneEmpty, RoundDown, PgOfs, Bitmap.Fits, Wrap32, BigPages,
           Capacity, Foreign, Took;
      var pageCnt := BigPages(size);
      var p := pages.GetMultiple(false, pageCnt);
      if p.None? {
        return None;
      }
      var a := p.value;
      NewArenaIsUnknown(pages.kernel.base, old(pages.kernel.used), pages.kernel.used, descs, arenas, a, Big(pageCnt));
      NewArenaKeepsForeign(pages.kernel.base, old(pages.kernel.used), pages.kernel.used, arenas, a, Big(pageCnt));
      PageOf(a, ARENA_SIZE);
      BigKeepsBlocks(descs, arenas, live, a, pageCnt);
      BigKeepsCapacities(descs, arenas, live, a, pageCnt);
      arenas := arenas[a := Big(pageCnt)];
      live := live + {a + ARENA_SIZE};
      return Some(a + ARENA_SIZE);
    }

    /** malloc. */
    method Malloc(size: nat) returns (b: Option<nat>)
      requires Valid() && IsUint32(size)
      modifies this`descs, this`arenas, this`live, pages.kernel`used
      ensures Valid()
      ensures b.None? <==> Refused(old(descs), old(pages.kernel.used), size)
      ensures b.None? ==> unchanged(this) && pages.kernel.used == old(pages.kernel.used)
      ensures b.Some? ==> b.value !in old(live) && live == old(live) + {b.value}
      ensures b.Some? ==> (size <= Capacity(descs, arenas, b.value) <==> size <= LARGEST_REQUEST)
      ensures b.Some? ==> Capacity(descs, arenas, b.value) == CapacityFor(old(descs), size)
      ensures forall c | c in old(live) :: Capacity(descs, arenas, c) == Capacity(old(descs), old(arenas), c)
      ensures Others() == old(Others()) && |pages.kernel.used| == |old(pages.kernel.used)|
      ensures b.Some? ==> Grown(old(arenas), arenas, RoundDown(b.value))
    {
      hide DescsOk, SizesOk, ArenasOk, BlocksOk, CountsOk, NoneEmpty, RoundDown, PgOfs, Bitmap.Fits, BigPages, Capacity,
           Foreign;
      if size == 0 {
        return None;
      }
      var k := 0;
      while k < |descs|
        invariant k <= |descs| && DescFor(descs, size, 0) == DescFor(descs, size, k)
      {
        if descs[k].blockSize >= size {
          break;
        }
        k := k + 1;
      }
      RoundedUpToLessThanDouble(descs, size);
      if k == |descs| {
        b := MallocBig(size);
        if b.Some? {
          BigPagesSuffice(size);
        }
        return;
      }
      if descs[k].freeList == [] {
        var arena := MakeArena(k);
        if arena.None? {
          return None;
        }
        NewArenaKeepsCapacities(old(descs), old(arenas), live, k, descs[k].freeList, arena.value);
        assert RoundDown(descs[k].freeList[0]) == arena.value;
      } else {
        NoneEmptyWeakens(descs, arenas, {RoundDown(descs[k].freeList[0])});
      }
      ghost var before, used := arenas, pages.kernel.used;
      var block := TakeBlock(k);
      SamePagesSameForeign(pages.kernel.base, used, before, arenas);
      return Some(block);
    }

    /** block_to_arena of a live block: all its assertions hold. */
    method BlockToArena(b: nat) returns (a: nat)
      requires Valid() && b in live
      ensures a == RoundDown(b) && a in arenas && a % PGSIZE == 0
      ensures arenas[a].Small? ==> arenas[a].desc < |descs| && SizeOk(descs[arenas[a].desc])
    {
      hide HeldIn, CountsOk, NoneEmpty;
      assert IsPlace(descs, arenas, b);
      a := RoundDown(b);
      ArenaIsPage(pages.kernel.base, pages.kernel.used, descs, arenas, a);
      hide RoundDown;
      assert a > 0 && a in arenas;
      assert arenas[a].Small? ==>
        PgOfs(b) >= ARENA_SIZE && (PgOfs(b) - ARENA_SIZE) % descs[arenas[a].desc].blockSize == 0;
      assert arenas[a].Big? ==> PgOfs(b) == ARENA_SIZE by {
        PageOf(a, ARENA_SIZE);
      }
    }

    /** The part of free that puts a block back on its free list. */
    method PutBlock(b: nat, a: nat)
      requires Valid() && b in live && a == RoundDown(b) && a in arenas && arenas[a].Small?
      requires arenas[a].desc < |descs| && SizeOk(descs[arenas[a].desc])
      modifies this`descs, this`arenas, this`live, this`memory
      ensures Core() && NoneEmpty(descs, arenas, {a}) && |memory| == ADDRESS_END && live == old(live) - {b}
      ensures a in arenas && arenas[a].Small? && arenas[a].desc == old(arenas)[a].desc && |descs| == |old(descs)|
      ensures SizeOk(descs[arenas[a].desc]) && arenas[a].freeCnt <= descs[arenas[a].desc].blocksPerArena
      ensures SamePages(old(arenas), arenas) && Wiped(memory, b, Capacity(descs, arenas, b))
      ensures forall c :: Capacity(descs, arenas, c) == Capacity(old(descs), old(arenas), c)
      ensures forall c | c in live :: Bytes(c) == old(Bytes(c))
    {
      hide DescsOk, SizesOk, ArenasOk, BlocksOk, CountsOk, NoneEmpty, IsPlace, RoundDown, PgOfs, Capacity, Fill,
           Slice, HeldIn;
      var k := arenas[a].desc;
      PutKeepsHeap(descs, arenas, live, b);
      PutKeepsRest(descs, arenas, b);
      var descs', arenas' := PutDescs(descs, k, b), arenas[a := Small(k, arenas[a].freeCnt + 1)];
      SameShapeSameCapacity(descs, arenas, descs', arenas');
      SamePlaces(descs, arenas, descs', arenas');
      var size := descs[k].blockSize;
      forall c | c in live && c != b
        ensures Slice(Fill(memory, b, size, 0xcc), c, Capacity(descs, arenas, c)) ==
          Slice(memory, c, Capacity(descs, arenas, c))
      {
        LiveBlocksAreApart(pages.kernel.base, pages.kernel.used, descs, arenas, live, Min(b, c), Max(b, c));
        FillElsewhere(memory, b, size, 0xcc, c, Capacity(descs, arenas, c));
      }
      FillWipes(memory, b, size);
      memory := Fill(memory, b, size, 0xcc);
      descs := descs';
      arenas := arenas';
      live := live - {b};
    }

    /** The part of free that gives an arena without live blocks back to the page allocator. */
    method DropArena(a: nat)
      requires pages.Valid() && Core() && NoneEmpty(descs, arenas, {a}) && |memory| == ADDRESS_END
      requires a in arenas && arenas[a].Small? && arenas[a].desc < |descs| && SizeOk(descs[arenas[a].desc])
      requires arenas[a].freeCnt == descs[arenas[a].desc].blocksPerArena
      modifies this`descs, this`arenas, this`memory, pages.kernel`used
      ensures Valid() && forall c | c in live :: Capacity(descs, arenas, c) == Capacity(old(descs), old(arenas), c)
      ensures forall c | c in live :: Bytes(c) == old(Bytes(c)) && RoundDown(c) != a
      ensures arenas == old(arenas) - {a} && KeepsWiped(old(memory), memory) && Wiped(memory, a, PGSIZE)
      ensures Others() == old(Others()) && |pages.kernel.used| == |old(pages.kernel.used)|
    {
      hide DescsOk, SizesOk, SizeOk, ArenasOk, BlocksOk, CountsOk, NoneEmpty, RoundDown, Capacity, Fill, Slice,
           Reduced, HeldIn, Foreign;
      var k := arenas[a].desc;
      DescIsOk(descs, k);
      ArenaIsPage(pages.kernel.base, pages.kernel.used, descs, arenas, a);
      AllAreFree(descs, arenas, live, a);
      DroppedArenaKeepsForeign(pages.kernel.base, pages.kernel.used, arenas, a);
      FillPagesElsewhere(pages.kernel.base, pages.kernel.used, descs, arenas, live, memory, a, 0xcc);
      var fl := RemoveBlocks(descs[k], a);
      DropKeepsBlocks(descs, arenas, live, a, fl);
      DropKeepsArenas(pages.kernel.base, pages.kernel.used, descs, arenas, a);
      var descs' := descs[k := descs[k].(freeList := fl)];
      DropKeepsCapacities(descs, arenas, descs', a);
      pages.FreeMultiple(false, a, 1);
      DropKeepsArenaDescs(pages.kernel.base, pages.kernel.used, descs, arenas - {a}, descs');
      FillWipes(memory, a, PGSIZE);
      memory := Fill(memory, a, PGSIZE, 0xcc);
      descs := descs';
      arenas := arenas - {a};
    }

    /** The branch of free for a big block. */
    method FreeBig(b: nat, a: nat)
      requires Valid() && b in live && a == RoundDown(b) && a in arenas && arenas[a].Big?
      modifies this`arenas, this`live, this`memory, pages.kernel`used
      ensures Valid() && live == old(live) - {b}
      ensures forall c | c in live :: Capacity(descs, arenas, c) == Capacity(old(descs), old(arenas), c)
      ensures forall c | c in live :: Bytes(c) == old(Bytes(c)) && RoundDown(c) != a
      ensures arenas == old(arenas) - {a} && Wiped(memory, b, Capacity(old(descs), old(arenas), b))
      ensures Others() == old(Others()) && |pages.kernel.used| == |old(pages.kernel.used)|
    {
      hide DescsOk, SizesOk, ArenasOk, BlocksOk, CountsOk, NoneEmpty, RoundDown, Capacity, Fill, Slice, HeldIn, Foreign;
      var n := arenas[a].pageCnt;
      ArenaIsPage(pages.kernel.base, pages.kernel.used, descs, arenas, a);
      BigIsAlone(descs, arenas, live, b);
      DroppedArenaKeepsForeign(pages.kernel.base, pages.kernel.used, arenas, a);
      FillPagesElsewhere(pages.kernel.base, pages.kernel.used, descs, arenas, live, memory, a, 0xcc);
      DropBigKeepsBlocks(descs, arenas, live, a);
      DropKeepsArenas(pages.kernel.base, pages.kernel.used, descs, arenas, a);
      DropKeepsCapacities(descs, arenas, descs, a);
      pages.FreeMultiple(false, a, n);
      FillWipes(memory, a, PGSIZE * n);
      PlaceEnds(descs, arenas, b);
      memory := Fill(memory, a, PGSIZE * n, 0xcc);
      arenas := arenas - {a};
      live := live - {b};
    }

    /** free of a null pointer or of a live block: that block is no longer live, all others are as they
        were, down to their bytes, and an arena whose last live block this was is given back, with its pages. */
    method Free(p: Option<nat>)
      requires Valid() && (p.Some? ==> p.value in live)
      modifies this`descs, this`arenas, this`live, this`memory, pages.kernel`used
      ensures Valid()
      ensures live == if p.Some? then old(live) - {p.value} else old(live)
      ensures forall c | c in live :: Capacity(descs, arenas, c) == Capacity(old(descs), old(arenas), c)
      ensures forall c | c in live :: Bytes(c) == old(Bytes(c))
      ensures Others() == old(Others()) && |pages.kernel.used| == |old(pages.kernel.used)|
      ensures if p.Some? then Shrunk(old(arenas), arenas, live, RoundDown(p.value)) else arenas == old(arenas)
      ensures p.Some? ==> Wiped(memory, p.value, Capacity(old(descs), old(arenas), p.value))
    {
      hide DescsOk, SizesOk, SizeOk, HeapOk, NoneEmpty, RoundDown, Capacity, Foreign;
      if p.Some? {
        var b := p.value;
        var a := BlockToArena(b);
        if arenas[a].Small? {
          PutBlock(b, a);
          SamePagesSameForeign(pages.kernel.base, pages.kernel.used, old(arenas), arenas);
          if arenas[a].freeCnt >= descs[arenas[a].desc].blocksPerArena {
            assert arenas[a].freeCnt == descs[arenas[a].desc].blocksPerArena;
            DropArena(a);
          } else {
            NoneEmptyAfterAll(descs, arenas, a);
            SomeIsLive(pages.kernel.base, pages.kernel.used, descs, arenas, live, a);
          }
        } else {
          FreeBig(b, a);
        }
      }
    }

    /** malloc and then free of the new block leave the arenas and the pool as they were: an arena that was made
        for it is given back, and one that was there has another live block. */
    method MallocThenFree(size: nat) returns (b: Option<nat>)
      requires Valid() && IsUint32(size)
      modifies this`descs, this`arenas, this`live, this`memory, pages.kernel`used
      ensures Valid() && live == old(live) && SamePages(old(arenas), arenas)
      ensures pages.kernel.used == old(pages.kernel.used)
    {
      hide RoundDown, Capacity, Foreign, NoneEmpty, Bitmap.Fits, BigPages, DescFor, SizesOk, SizeOk, IsPlace, IsFree,
           HeldIn, CountsOk;
      ghost var descs0, arenas0, live0, used0 := descs, arenas, live, pages.kernel.used;
      b := Malloc(size);
      Free(b);
      if b.Some? {
        ArenasHaveLiveBlocks(pages.kernel.base, used0, descs0, arenas0, live0, RoundDown(b.value));
      }
      SamePool(pages.kernel.base, used0, descs0, arenas0, pages.kernel.used, descs, arenas);
    }

    lemma BlocksAreInMemory(b: nat)
      requires Valid() && b in live
      ensures 0 < Capacity(descs, arenas, b) && b + Capacity(descs, arenas, b) <= |memory|
    {
      hide RoundDown, PgOfs, IsBlock, IsFree, NoneEmpty, CountsOk;
      assert IsPlace(descs, arenas, b);
      PlaceEnds(descs, arenas, b);
    }

    lemma CopyIsLocal(dst: nat, src: nat, n: nat)
      requires Valid() && dst in live && src in live && dst != src
      requires n <= Capacity(descs, arenas, dst) && dst + n <= |memory| && src + n <= |memory|
      ensures Slice(Copy(memory, dst, src, n), dst, n) == Slice(memory, src, n)
      ensures forall c | c in live && c != dst ::
        Slice(Copy(memory, dst, src, n), c, Capacity(descs, arenas, c)) == Slice(memory, c, Capacity(descs, arenas, c))
    {
      hide HeapOk, SizesOk, NoneEmpty, Capacity, Copy, Slice;
      CopyElsewhere(memory, dst, src, n, dst, 0);
      forall c | c in live && c != dst
        ensures Slice(Copy(memory, dst, src, n), c, Capacity(descs, arenas, c)) ==
          Slice(memory, c, Capacity(descs, arenas, c))
      {
        LiveBlocksAreApart(pages.kernel.base, pages.kernel.used, descs, arenas, live, Min(dst, c), Max(dst, c));
        CopyElsewhere(memory, dst, src, n, c, Capacity(descs, arenas, c));
      }
    }

    /** realloc: on success the new block begins with the old one's bytes, as many as fit; the old block is
        gone and all others are as they were.  If there is no memory, everything is.  The bound on the
        request keeps the copy inside the new block. */
    method Realloc(oldBlock: Option<nat>, newSize: nat) returns (newBlock: Option<nat>)
      requires Valid() && newSize <= LARGEST_REQUEST && (oldBlock.Some? ==> oldBlock.value in live)
      modifies this`descs, this`arenas, this`live, this`memory, pages.kernel`used
      ensures Valid()
      ensures newBlock.None? <==> Refused(old(descs), old(pages.kernel.used), newSize)
      ensures newBlock.None? && newSize > 0 ==> unchanged(this) && pages.kernel.used == old(pages.kernel.used)
      ensures newSize == 0 || newBlock.Some? ==> live == old(live) - Singleton(oldBlock) + Singleton(newBlock)
      ensures newBlock.Some? ==> newBlock.value !in old(live) && newSize <= Capacity(descs, arenas, newBlock.value)
      ensures newBlock.Some? ==> Capacity(descs, arenas, newBlock.value) == CapacityFor(old(descs), newSize)
      ensures newBlock.Some? && oldBlock.Some? ==> (
        var n := Min(newSize, Capacity(old(descs), old(arenas), oldBlock.value));
        Slice(memory, newBlock.value, n) == Slice(old(memory), oldBlock.value, n))
      ensures forall c | c in live && newBlock != Some(c) ::
        Capacity(descs, arenas, c) == Capacity(old(descs), old(arenas), c) && Bytes(c) == old(Bytes(c))
      ensures Others() == old(Others()) && |pages.kernel.used| == |old(pages.kernel.used)|
    {
      hide DescsOk, SizesOk, SizeOk, HeapOk, NoneEmpty, RoundDown, Capacity, Slice, Copy, DescFor, BigPages,
           Bitmap.Fits, Foreign;
      if newSize == 0 {
        Free(oldBlock);
        return None;
      }
      newBlock := Malloc(newSize);
      if oldBlock.Some? && newBlock.Some? {
        var oldSize := Capacity(descs, arenas, oldBlock.value);
        var minSize := if newSize < oldSize then newSize else oldSize;
        BlocksAreInMemory(oldBlock.value);
        BlocksAreInMemory(newBlock.value);
        CopyIsLocal(newBlock.value, oldBlock.value, minSize);
        memory := Copy(memory, newBlock.value, oldBlock.value, minSize);
        ghost var copied := memory;
        Free(oldBlock);
        assert newBlock.value in live;
        assert Bytes(newBlock.value) == Slice(copied, newBlock.value, Capacity(descs, arenas, newBlock.value));
        SlicePrefix(copied, memory, newBlock.value, Capacity(descs, arenas, newBlock.value), minSize);
      }
    }
  }

  /** An arena that is not entirely free has a live block. */
  lemma SomeIsLive(base: nat, used: seq<bool>, descs: seq<Desc>, arenas: map<nat, Arena>, live: set<nat>, a: nat)
    requires HeapOk(base, used, descs, arenas, live)
    requires a in arenas && arenas[a].Small? && arenas[a].desc < |descs|
    requires arenas[a].freeCnt < descs[arenas[a].desc].blocksPerArena
    ensures exists b :: b in live && RoundDown(b) == a
  {
    ArenaIsPage(base, used, descs, arenas, a);
    ArenaIsFreePlusLive(descs, arenas, live, a);
    hide RoundDown;
    var b :| b in LiveIn(live, a);
  }

  /** Every arena has a live block, and every live block is in an arena. */
  lemma ArenasHaveLiveBlocks(base: nat, used: seq<bool>, descs: seq<Desc>, arenas: map<nat, Arena>, live: set<nat>,
                             a: nat)
    requires HeapOk(base, used, descs, arenas, live) && NoneEmpty(descs, arenas, {})
    ensures a in arenas <==> exists b :: b in live && RoundDown(b) == a
  {
    if a in arenas {
      ArenaIsPage(base, used, descs, arenas, a);
      match arenas[a]
      case Small(_, _) => SomeIsLive(base, used, descs, arenas, live, a);
      case Big(_) =>
        PageOf(a, ARENA_SIZE);
        assert IsPlace(descs, arenas, a + ARENA_SIZE) && !IsFree(descs, arenas, a + ARENA_SIZE);
    }
    hide RoundDown;
    assert forall b | b in live :: IsPlace(descs, arenas, b);
  }

  function Singleton(b: Option<nat>): set<nat> { if b.Some? then {b.value} else {} }

  lemma NoneEmptyAfterAll(descs: seq<Desc>, arenas: map<nat, Arena>, a: nat)
    requires NoneEmpty(descs, arenas, {a})
    requires a in arenas && arenas[a].Small? && arenas[a].desc < |descs|
    requires arenas[a].freeCnt < descs[arenas[a].desc].blocksPerArena
    ensures NoneEmpty(descs, arenas, {})
  {}

  /** A big block is the only one in its arena. */
  lemma BigIsAlone(descs: seq<Desc>, arenas: map<nat, Arena>, live: set<nat>, b: nat)
    requires BlocksOk(descs, arenas, live) && b in live && RoundDown(b) in arenas && arenas[RoundDown(b)].Big?
    ensures b == RoundDown(b) + ARENA_SIZE
    ensures forall c | c in live && c != b :: RoundDown(c) != RoundDown(b)
  {
    hide RoundDown;
    assert forall c | c in live :: IsPlace(descs, arenas, c);
  }

  lemma ArenaIsPage(base: nat, used: seq<bool>, descs: seq<Desc>, arenas: map<nat, Arena>, a: nat)
    requires ArenasOk(base, used, descs, arenas) && a in arenas
    ensures a % PGSIZE == 0 && base <= a && HeldIn(base, used, a, PagesOf(arenas[a]))
  {}

  /** memset. */
  function Fill(memory: seq<bv8>, at: nat, n: nat, v: bv8): (r: seq<bv8>)
    ensures |r| == |memory|
  {
    seq(|memory|, i requires 0 <= i < |memory| => if at <= i < at + n then v else memory[i])
  }

  /** The bytes that free leaves in a block, to show its use after. */
  ghost predicate Wiped(memory: seq<bv8>, at: nat, n: int) {
    forall i | at <= i < at + n && i < |memory| :: memory[i] == 0xcc
  }

  /** No wiped byte is written again. */
  ghost predicate KeepsWiped(memory: seq<bv8>, memory': seq<bv8>) {
    |memory'| == |memory| && forall i | 0 <= i < |memory| && memory[i] == 0xcc :: memory'[i] == 0xcc
  }

  lemma FillWipes(memory: seq<bv8>, at: nat, n: nat)
    ensures Wiped(Fill(memory, at, n, 0xcc), at, n) && KeepsWiped(memory, Fill(memory, at, n, 0xcc))
  {}

  /** Some bytes of memory, as far as there are any. */
  function Slice(memory: seq<bv8>, at: nat, n: int): seq<bv8> {
    if 0 <= n && at + n <= |memory| then memory[at..at + n] else []
  }

  /** memcpy of bytes that exist. */
  function Copy(memory: seq<bv8>, dst: nat, src: nat, n: nat): (r: seq<bv8>)
    requires dst + n <= |memory| && src + n <= |memory|
    ensures |r| == |memory|
  {
    memory[..dst] + memory[src..src + n] + memory[dst + n..]
  }

  lemma SlicePrefix(memory: seq<bv8>, memory': seq<bv8>, b: nat, m: int, n: int)
    requires Slice(memory, b, m) == Slice(memory', b, m) && 0 <= n <= m
    requires b + m <= |memory| && |memory'| == |memory|
    ensures Slice(memory, b, n) == Slice(memory', b, n)
  {
    assert memory[b..b + m] == memory'[b..b + m];
    assert memory[b..b + n] == memory[b..b + m][..n];
    assert memory'[b..b + n] == memory'[b..b + m][..n];
  }

  lemma CopyElsewhere(memory: seq<bv8>, dst: nat, src: nat, n: nat, b: nat, m: int)
    requires dst + n <= |memory| && src + n <= |memory|
    ensures dst + n <= b || b + m <= dst ==> Slice(Copy(memory, dst, src, n), b, m) == Slice(memory, b, m)
    ensures Slice(Copy(memory, dst, src, n), dst, n) == Slice(memory, src, n)
  {
    if 0 <= m && b + m <= |memory| && (dst + n <= b || b + m <= dst) {
      var r := Copy(memory, dst, src, n);
      forall i | b <= i < b + m
        ensures r[i] == memory[i]
      {}
    }
  }

  lemma FillElsewhere(memory: seq<bv8>, at: nat, n: nat, v: bv8, b: nat, m: int)
    requires at + n <= b || b + m <= at
    ensures Slice(Fill(memory, at, n, v), b, m) == Slice(memory, b, m)
  {}

  lemma PutKeepsRest(descs: seq<Desc>, arenas: map<nat, Arena>, b: nat)
    requires RoundDown(b) in arenas && arenas[RoundDown(b)].Small? && arenas[RoundDown(b)].desc < |descs|
    ensures var a := RoundDown(b); var k := arenas[a].desc;
      && (SizesOk(descs) ==> SizesOk(PutDescs(descs, k, b))) && Capacity(descs, arenas, b) == descs[k].blockSize
      && (SizeOk(descs[k]) ==> SizeOk(PutDescs(descs, k, b)[k]))
      && (CountsOk(PutDescs(descs, k, b), arenas[a := Small(k, arenas[a].freeCnt + 1)]) ==>
            arenas[a].freeCnt + 1 <= descs[k].blocksPerArena)
  {
    hide RoundDown, FreeIn;
    var descs' := PutDescs(descs, arenas[RoundDown(b)].desc, b);
    assert forall j | 0 <= j < |descs| ::
      descs'[j].blockSize == descs[j].blockSize && descs'[j].blocksPerArena == descs[j].blocksPerArena;
    assert RoundDown(b) in arenas[RoundDown(b) := Small(arenas[RoundDown(b)].desc, arenas[RoundDown(b)].freeCnt + 1)];
  }

  /** What is written in the pages of an arena with no other live block leaves the live blocks alone. */
  lemma FillPagesElsewhere(base: nat, used: seq<bool>, descs: seq<Desc>, arenas: map<nat, Arena>, live: set<nat>,
                           memory: seq<bv8>, a: nat, v: bv8)
    requires HeapOk(base, used, descs, arenas, live) && a in arenas
    ensures forall c | c in live && RoundDown(c) != a ::
      Slice(Fill(memory, a, PGSIZE * PagesOf(arenas[a]), v), c, Capacity(descs, arenas, c)) ==
        Slice(memory, c, Capacity(descs, arenas, c))
  {
    hide RoundDown, PgOfs, Fill, Slice, HeldIn, IsBlock, IsFree;
    forall c | c in live && RoundDown(c) != a
      ensures Slice(Fill(memory, a, PGSIZE * PagesOf(arenas[a]), v), c, Capacity(descs, arenas, c)) ==
        Slice(memory, c, Capacity(descs, arenas, c))
    {
      assert IsPlace(descs, arenas, c);
      PlaceEnds(descs, arenas, c);
      FillElsewhere(memory, a, PGSIZE * PagesOf(arenas[a]), v, c, Capacity(descs, arenas, c));
    }
  }

  /** The loop of free that takes all blocks of an arena off the free list. */
  method RemoveBlocks(d: Desc, a: nat) returns (fl: seq<nat>)
    requires SizeOk(d) && a % PGSIZE == 0 && Distinct(d.freeList)
    ensures Reduced(d, fl, a)
  {
    hide RoundDown, PgOfs, ArenaToBlock;
    fl := d.freeList;
    var i := 0;
    while i < d.blocksPerArena
      invariant i <= d.blocksPerArena && Distinct(fl)
      invariant forall b :: b in fl <==> b in d.freeList && !(IsBlock(d, a, b) && IndexOf(d, b) < i)
    {
      BlockOfArena(d, a, i);
      NextBlock(d, a, i);
      RemoveFromDistinct(fl, ArenaToBlock(a, d.blockSize, i));
      fl := Remove(fl, ArenaToBlock(a, d.blockSize, i));
      i := i + 1;
    }
  }

  /** Capacities and places of blocks elsewhere do not depend on an arena. */
  lemma DropKeepsCapacities(descs: seq<Desc>, arenas: map<nat, Arena>, descs': seq<Desc>, a: nat)
    requires |descs'| == |descs| && forall k | 0 <= k < |descs| :: descs'[k].blockSize == descs[k].blockSize
    ensures forall c | RoundDown(c) != a :: Capacity(descs', arenas - {a}, c) == Capacity(descs, arenas, c)
    ensures SizesOk(descs) ==> SizesOk(descs')
  {
    hide RoundDown, PgOfs;
  }

  lemma DropKeepsArenaDescs(base: nat, used: seq<bool>, descs: seq<Desc>, arenas: map<nat, Arena>, descs': seq<Desc>)
    requires ArenasOk(base, used, descs, arenas) && |descs'| == |descs|
    ensures ArenasOk(base, used, descs', arenas)
  {
    hide HeldIn;
  }

  /** The size of the block for a request: that of the smallest descriptor that satisfies it, or of whole pages
      behind a header. */
  function CapacityFor(descs: seq<Desc>, size: nat): int {
    var k := DescFor(descs, size, 0);
    if k < |descs| then descs[k].blockSize else PGSIZE * BigPages(size) - ARENA_SIZE
  }

  /** There may be one more arena, and the others are as large as they were. */
  ghost predicate Grown(arenas: map<nat, Arena>, arenas': map<nat, Arena>, a: nat) {
    arenas'.Keys == arenas.Keys + {a} && forall c | c in arenas :: PagesOf(arenas'[c]) == PagesOf(arenas[c])
  }

  /** An arena is gone exactly if none of its blocks is live, and the others are as large as they were. */
  ghost predicate Shrunk(arenas: map<nat, Arena>, arenas': map<nat, Arena>, live: set<nat>, a: nat) {
    && arenas'.Keys == (if exists b :: b in live && RoundDown(b) == a then arenas.Keys else arenas.Keys - {a})
    && forall c | c in arenas' :: c in arenas && PagesOf(arenas'[c]) == PagesOf(arenas[c])
  }

  /** When malloc returns a null pointer. */
  ghost predicate Refused(descs: seq<Desc>, used: seq<bool>, size: nat) {
    var k := DescFor(descs, size, 0);
    || size == 0
    || (k < |descs| && descs[k].freeList == [] && forall s: nat :: !Bitmap.Fits(used, s, 1))
    || (k == |descs| && (BigPages(size) == 0 || forall s: nat :: !Bitmap.Fits(used, s, BigPages(size))))
  }

  lemma NoneEmptyWeakens(descs: seq<Desc>, arenas: map<nat, Arena>, except: set<nat>)
    requires NoneEmpty(descs, arenas, {})
    ensures NoneEmpty(descs, arenas, except)
  {}

  lemma BigKeepsCapacities(descs: seq<Desc>, arenas: map<nat, Arena>, live: set<nat>, a: nat, n: nat)
    requires BlocksOk(descs, arenas, live) && a !in arenas && a % PGSIZE == 0
    ensures Capacity(descs, arenas[a := Big(n)], a + ARENA_SIZE) == PGSIZE * n - ARENA_SIZE
    ensures forall c | c in live :: Capacity(descs, arenas[a := Big(n)], c) == Capacity(descs, arenas, c)
  {
    PageOf(a, ARENA_SIZE);
    hide PgOfs, RoundDown, IsBlock;
    assert forall c | c in live :: IsPlace(descs, arenas, c);
  }

  lemma NewArenaKeepsCapacities(descs: seq<Desc>, arenas: map<nat, Arena>, live: set<nat>, k: nat, fl: seq<nat>, a: nat)
    requires BlocksOk(descs, arenas, live) && a !in arenas && k < |descs|
    ensures forall c | c in live ::
      Capacity(descs[k := descs[k].(freeList := fl)], arenas[a := Small(k, descs[k].blocksPerArena)], c) ==
        Capacity(descs, arenas, c)
    ensures NoneEmpty(descs, arenas, {}) ==>
      NoneEmpty(descs[k := descs[k].(freeList := fl)], arenas[a := Small(k, descs[k].blocksPerArena)], {a})
  {
    hide PgOfs, RoundDown, IsBlock;
    assert forall c | c in live :: IsPlace(descs, arenas, c);
  }

  lemma TakeKeepsRest(descs: seq<Desc>, arenas: map<nat, Arena>, k: nat)
    requires k < |descs| && descs[k].freeList != []
    requires RoundDown(descs[k].freeList[0]) in arenas && arenas[RoundDown(descs[k].freeList[0])].Small?
    requires arenas[RoundDown(descs[k].freeList[0])].desc == k && arenas[RoundDown(descs[k].freeList[0])].freeCnt > 0
    requires CountsOk(descs, arenas)
    ensures var b := descs[k].freeList[0]; var a := RoundDown(b);
      var descs', arenas' := TakenDescs(descs, k), arenas[a := Small(k, arenas[a].freeCnt - 1)];
      && (SizesOk(descs) ==> SizesOk(descs'))
      && (NoneEmpty(descs, arenas, {a}) ==> NoneEmpty(descs', arenas', {}))
      && Capacity(descs', arenas', b) == descs[k].blockSize
  {
    hide RoundDown, FreeIn;
    var descs' := TakenDescs(descs, k);
    assert forall j | 0 <= j < |descs| ::
      descs'[j].blockSize == descs[j].blockSize && descs'[j].blocksPerArena == descs[j].blocksPerArena;
  }

  lemma SameShapeSameCapacity(descs: seq<Desc>, arenas: map<nat, Arena>, descs': seq<Desc>, arenas': map<nat, Arena>)
    requires SameShape(descs, arenas, descs', arenas')
    ensures forall b :: Capacity(descs', arenas', b) == Capacity(descs, arenas, b)
  {
    hide RoundDown, PgOfs;
  }

  lemma ResizedKeepsArenas(base: nat, used: seq<bool>, descs: seq<Desc>, arenas: map<nat, Arena>, a: nat, k: nat,
                           fl: seq<nat>)
    requires k < |descs| && ArenasOk(base, used, descs, arenas[a := Small(k, 0)])
    ensures ArenasOk(base, used, descs[k := descs[k].(freeList := fl)], arenas[a := Small(k, descs[k].blocksPerArena)])
    ensures SizesOk(descs) ==> SizesOk(descs[k := descs[k].(freeList := fl)])
  {
    hide HeldIn;
    var descs', x, x' := descs[k := descs[k].(freeList := fl)], arenas[a := Small(k, 0)],
      arenas[a := Small(k, descs[k].blocksPerArena)];
    assert forall c | c in x :: c in x' && PagesOf(x'[c]) == PagesOf(x[c]) && x'[c].Small? == x[c].Small?;
    assert forall j | 0 <= j < |descs| :: descs'[j].blockSize == descs[j].blockSize;
  }

  /** The loop of malloc that puts the blocks of a new arena on an empty free list. */
  method AddBlocks(d: Desc, a: nat) returns (fl: seq<nat>)
    requires SizeOk(d) && a % PGSIZE == 0 && d.freeList == []
    ensures Extended(d, fl, a) && |fl| == d.blocksPerArena > 0
    ensures forall b | b in fl :: RoundDown(b) == a
  {
    hide RoundDown, PgOfs, ArenaToBlock;
    BlocksFit(d, 0);
    fl := d.freeList;
    var i := 0;
    while i < d.blocksPerArena
      invariant i <= d.blocksPerArena && |fl| == i && Distinct(fl)
      invariant forall b :: b in fl <==> IsBlock(d, a, b) && IndexOf(d, b) < i
    {
      BlockOfArena(d, a, i);
      NextBlock(d, a, i);
      AppendDistinct(fl, ArenaToBlock(a, d.blockSize, i));
      fl := fl + [ArenaToBlock(a, d.blockSize, i)];
      i := i + 1;
    }
  }

  lemma NextBlock(d: Desc, a: nat, i: nat)
    requires SizeOk(d) && i < d.blocksPerArena && a % PGSIZE == 0
    ensures forall b :: IsBlock(d, a, b) && IndexOf(d, b) == i ==> b == ArenaToBlock(a, d.blockSize, i)
  {
    forall b | IsBlock(d, a, b) && IndexOf(d, b) == i
      ensures b == ArenaToBlock(a, d.blockSize, i)
    {
      BlockIsItsIndex(d, a, b);
    }
  }

  lemma DescIsOk(descs: seq<Desc>, k: nat)
    requires DescsOk(descs) && k < |descs|
    ensures SizeOk(descs[k]) && descs[k].blockSize > 0 && Distinct(descs[k].freeList)
  {}

  /** malloc_init. */
  method InitDescs() returns (ds: seq<Desc>)
    ensures SizesOk(ds) && DescsOk(ds)
    ensures forall k | 0 <= k < |ds| :: ds[k].freeList == []
  {
    hide Pow2;
    ds := [];
    var blockSize := 16;
    PowersOfTwo(0);
    while blockSize < PGSIZE / 2
      invariant |ds| <= 7 && blockSize == 16 * Pow2(|ds|)
      invariant forall k | 0 <= k < |ds| :: SizeOk(ds[k]) && ds[k].freeList == []
      invariant |ds| > 0 ==> ds[0].blockSize == 16 && blockSize == 2 * ds[|ds| - 1].blockSize
      invariant forall k | 0 < k < |ds| :: ds[k].blockSize == 2 * ds[k - 1].blockSize
      decreases 7 - |ds|
    {
      PowersOfTwo(|ds|);
      assert |ds| + 1 <= MAX_DESCS;
      ds := ds + [Desc(blockSize, (PGSIZE - ARENA_SIZE) / blockSize, [])];
      blockSize := blockSize * 2;
    }
    PowersOfTwo(|ds|);
  }

  lemma PowersOfTwo(n: nat)
    requires n <= 7
    ensures 16 * Pow2(n) < PGSIZE / 2 <==> n < 7
    ensures n < 7 ==> 16 * Pow2(n) <= PGSIZE / 4
    ensures n == 6 ==> 16 * Pow2(n) == PGSIZE / 4
    ensures Pow2(0) == 1 && Pow2(n + 1) == 2 * Pow2(n)
  {
    assert Pow2(2) == 4 && Pow2(4) == 16 && Pow2(6) == 64;
  }
}
