/** The page allocator (threads/palloc.c): two pools of pages, each with a bit map of the used ones. */
module Palloc {
  import opened Options
  import opened Machine
  import opened Vaddr
  import Bitmap

  const FREE_START := 0x10_0000
  /** sizeof (struct bitmap). */
  const BITMAP_HEADER := 8

  /** The pages that the bit map of a pool of `pageCnt` pages takes: the fewest that hold a bit for each, in whole
      words behind a header. */
  function BitmapPages(pageCnt: nat): (n: nat)
    ensures n > 0 && pageCnt <= 8 * (PGSIZE * n - BITMAP_HEADER)
    ensures 8 * (PGSIZE * (n - 1) - BITMAP_HEADER) < pageCnt + 31
  {
    (BITMAP_HEADER + 4 * ((pageCnt + 31) / 32) + PGSIZE - 1) / PGSIZE
  }

  class Pool {
    const base: nat
    var used: seq<bool>

    /** init_pool: the bit map comes out of the pool's own pages, which must be enough for it. */
    constructor (start: nat, pageCnt: nat)
      requires start % PGSIZE == 0 && BitmapPages(pageCnt) <= pageCnt
      ensures base == start + PGSIZE * BitmapPages(pageCnt) && base % PGSIZE == 0
      ensures |used| == pageCnt - BitmapPages(pageCnt) && Bitmap.All(used, 0, |used|, false)
      ensures End() == start + PGSIZE * pageCnt
    {
      var bmPages := BitmapPages(pageCnt);
      base := start + PGSIZE * bmPages;
      used := seq(pageCnt - bmPages, _ => false);
    }

    function End(): nat
      reads this
    {
      base + PGSIZE * |used|
    }

    /** The address of a page of the pool. */
    function PageAt(idx: nat): nat { base + PGSIZE * idx }

    /** page_from_pool. */
    predicate Owns(page: nat)
      reads this
    {
      PgNo(base) <= PgNo(page) < PgNo(base) + |used|
    }

    /** A page belongs to the pool exactly if its address lies in it. */
    lemma OwnsItsPages(page: nat)
      requires base % PGSIZE == 0
      ensures Owns(page) <==> base <= page < End()
      ensures page % PGSIZE == 0 && Owns(page) ==> page == PageAt(PgNo(page) - PgNo(base))
    {
      RoundDownIsPage(page);
      RoundDownIsPage(base);
    }
  }

  class PageAllocator {
    const kernel: Pool
    const user: Pool

    /** palloc_init, for a machine with this many pages of memory, enough to hold the bit maps. */
    constructor (ramPages: nat, userPageLimit: nat)
      requires FREE_START / PGSIZE <= ramPages && PGSIZE * ramPages <= ADDRESS_END - PHYS_BASE
      requires var freePages := ramPages - FREE_START / PGSIZE;
        var userPages := if freePages / 2 > userPageLimit then userPageLimit else freePages / 2;
        BitmapPages(userPages) <= userPages && BitmapPages(freePages - userPages) <= freePages - userPages
      ensures Valid() && fresh(kernel) && fresh(user)
      ensures forall k | 0 <= k < |kernel.used| :: !kernel.used[k]
      ensures forall k | 0 <= k < |user.used| :: !user.used[k]
      ensures kernel.End() + PGSIZE * BitmapPages(Min(userPageLimit, (ramPages - FREE_START / PGSIZE) / 2)) == user.base
      ensures kernel.base == Ptov(FREE_START) + PGSIZE *
        BitmapPages(ramPages - FREE_START / PGSIZE - Min(userPageLimit, (ramPages - FREE_START / PGSIZE) / 2))
      ensures user.End() == Ptov(PGSIZE * ramPages)
    {
      hide BitmapPages;
      var freeStart := Ptov(FREE_START);
      var freePages := ramPages - FREE_START / PGSIZE;
      var userPages := freePages / 2;
      if userPages > userPageLimit {
        userPages := userPageLimit;
      }
      var kernelPages := freePages - userPages;
      kernel := new Pool(freeStart, kernelPages);
      user := new Pool(freeStart + kernelPages * PGSIZE, userPages);
    }

    /** The pools are page-aligned, lie in kernel memory and do not overlap. */
    ghost predicate Valid()
      reads kernel, user
    {
      && kernel != user && kernel.base % PGSIZE == 0 && user.base % PGSIZE == 0
      && PHYS_BASE < kernel.base && kernel.End() <= user.base && user.End() <= ADDRESS_END
    }

    function PoolFor(fromUser: bool): Pool { if fromUser then user else kernel }

    /** palloc_get_multiple: the lowest run of free pages, now used, or none. */
    method GetMultiple(fromUser: bool, pageCnt: nat) returns (pages: Option<nat>)
      requires Valid()
      modifies PoolFor(fromUser)`used
      ensures Valid()
      ensures pages.None? <==> pageCnt == 0 || forall s: nat :: !Bitmap.Fits(old(PoolFor(fromUser).used), s, pageCnt)
      ensures pages.None? ==> PoolFor(fromUser).used == old(PoolFor(fromUser).used)
      ensures pages.Some? ==> forall s: nat | PoolFor(fromUser).PageAt(s) < pages.value ::
        !Bitmap.Fits(old(PoolFor(fromUser).used), s, pageCnt)
      ensures pages.Some? ==> Took(old(PoolFor(fromUser).used), PoolFor(fromUser).used, PoolFor(fromUser).base,
        pages.value, pageCnt)
    {
      if pageCnt == 0 {
        return None;
      }
      var pool := PoolFor(fromUser);
      var idx := Bitmap.Scan(pool.used, pageCnt);
      if idx.None? {
        return None;
      }
      pool.used := Bitmap.SetMultiple(pool.used, idx.value, pageCnt, true);
      RoundDownIsPage(pool.PageAt(idx.value));
      return Some(pool.PageAt(idx.value));
    }

    /** palloc_free_multiple: nothing for a null pointer or no pages, and otherwise of pages that are in use: they
        come from the pool they are given back to, and the others stay as they are. */
    method FreeMultiple(ghost fromUser: bool, pages: nat, pageCnt: nat)
      requires Valid()
      requires pages != 0 && pageCnt != 0 ==> HeldIn(PoolFor(fromUser).base, PoolFor(fromUser).used, pages, pageCnt)
      modifies PoolFor(fromUser)`used
      ensures Valid()
      ensures pages == 0 || pageCnt == 0 ==> PoolFor(fromUser).used == old(PoolFor(fromUser).used)
      ensures pages != 0 && pageCnt != 0 ==>
        PoolFor(fromUser).used ==
        Bitmap.SetMultiple(old(PoolFor(fromUser).used), PageIndex(PoolFor(fromUser).base, pages), pageCnt, false)
    {
      if pages == 0 || pageCnt == 0 {
        return;
      }
      var pool;
      kernel.OwnsItsPages(pages);
      user.OwnsItsPages(pages);
      if kernel.Owns(pages) {
        pool := kernel;
      } else if user.Owns(pages) {
        pool := user;
      } else {
        assert false;
      }
      assert pool == PoolFor(fromUser);
      var idx := PgNo(pages) - PgNo(pool.base);
      assert idx == PageIndex(pool.base, pages);
      assert Bitmap.All(pool.used, idx, pageCnt, true);
      pool.used := Bitmap.SetMultiple(pool.used, idx, pageCnt, false);
    }
  }

  /** The number of a page in a pool. */
  function PageIndex(base: nat, page: nat): nat
    requires base <= page
  {
    (page - base) / PGSIZE
  }

  /** These pages belong to the pool and are all used. */
  ghost predicate HeldIn(base: nat, used: seq<bool>, page: nat, cnt: nat) {
    && base <= page && (page - base) % PGSIZE == 0 && 0 < cnt
    && PageIndex(base, page) + cnt <= |used| && Bitmap.All(used, PageIndex(base, page), cnt, true)
  }

  /** Pages that were free are now used, and nothing else changed. */
  ghost predicate Took(used: seq<bool>, used': seq<bool>, base: nat, page: nat, cnt: nat) {
    && base <= page && (page - base) % PGSIZE == 0 && 0 < cnt
    && Bitmap.Fits(used, PageIndex(base, page), cnt)
    && used' == Bitmap.SetMultiple(used, PageIndex(base, page), cnt, true)
  }

  /** Pages just handed out are apart from all that were held before, which are still held, and freeing
      them undoes the allocation. */
  lemma TookIsApart(used: seq<bool>, used': seq<bool>, base: nat, page: nat, cnt: nat, other: nat, n: nat)
    requires Took(used, used', base, page, cnt) && base % PGSIZE == 0
    ensures HeldIn(base, used', page, cnt) && page % PGSIZE == 0
    ensures Bitmap.SetMultiple(used', PageIndex(base, page), cnt, false) == used
    ensures HeldIn(base, used, other, n) ==> HeldIn(base, used', other, n)
    ensures HeldIn(base, used, other, n) ==> other + PGSIZE * n <= page || page + PGSIZE * cnt <= other
  {
    if HeldIn(base, used, other, n) {
      var i, j := PageIndex(base, page), PageIndex(base, other);
      assert page == base + PGSIZE * i && other == base + PGSIZE * j;
      var k := if i < j then j else i;
      assert i <= k < i + cnt ==> !used[k];
      assert j <= k < j + n ==> used[k];
    }
  }

  /** Freeing held pages leaves any others held. */
  lemma FreeLeavesOthers(used: seq<bool>, base: nat, page: nat, cnt: nat, other: nat, n: nat)
    requires HeldIn(base, used, page, cnt) && HeldIn(base, used, other, n)
    requires other + PGSIZE * n <= page || page + PGSIZE * cnt <= other
    ensures HeldIn(base, Bitmap.SetMultiple(used, PageIndex(base, page), cnt, false), other, n)
  {}

  /** How many pages of a pool are free. */
  ghost function FreeCount(used: seq<bool>): nat { |FreePages(used)| }

  ghost function FreePages(used: seq<bool>): set<nat> { set k | 0 <= k < |used| && !used[k] }

  /** A page can be had exactly if there is a free one, and then there is one less. */
  lemma OneFits(used: seq<bool>)
    ensures (exists s: nat :: Bitmap.Fits(used, s, 1)) <==> FreeCount(used) > 0
  {
    if s: nat :| Bitmap.Fits(used, s, 1) {
      assert s in FreePages(used);
    }
    if k :| k in FreePages(used) {
      assert Bitmap.Fits(used, k, 1);
    }
  }

  lemma TookOneIsOneLess(used: seq<bool>, used': seq<bool>, base: nat, page: nat)
    requires Took(used, used', base, page, 1)
    ensures FreeCount(used) == FreeCount(used') + 1
  {
    var k := PageIndex(base, page);
    assert FreePages(used) == FreePages(used') + {k} && k !in FreePages(used');
  }
}
