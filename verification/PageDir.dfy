/** Page directories and page tables (userprog/pagedir.c, threads/pte.h) against a map from user pages
    to frames with flags.  Entries are 32-bit words as natural numbers. */
module PageDir {
  import opened Arith
  import opened Options
  import opened Vaddr
  import opened Palloc
  import Bitmap

  /** Words in a page. */
  const ENTRIES := 1024
  /** Bytes that one page table covers. */
  const PTSPAN := 0x40_0000

  const PTE_P := 1
  const PTE_W := 2
  const PTE_U := 4
  const PTE_A := 32
  const PTE_D := 64

  type Va = va: nat | va < ADDRESS_END
  type Word = w: nat | w < ADDRESS_END

  // ---- pte.h ----

  function PdNo(va: Va): (i: nat) ensures i < ENTRIES { va / PTSPAN }
  function PtNo(va: Va): (i: nat) ensures i < ENTRIES { va % PTSPAN / PGSIZE }

  /** `w & flag`, for a flag with a single bit. */
  predicate Bit(w: nat, flag: nat)
    requires flag > 0
  {
    w / flag % 2 == 1
  }

  /** `w | flag` and `w & ~flag`. */
  function SetBit(w: Word, flag: nat, on: bool): nat
    requires flag > 0
  {
    if Bit(w, flag) == on then w else if on then w + flag else if w >= flag then w - flag else 0
  }

  const FLAGS: set<nat> := {PTE_P, PTE_W, PTE_U, PTE_A, PTE_D}

  /** `w & PTE_ADDR`, as the kernel address of the page. */
  function GetPage(w: Word): nat
    requires w < PHYS_BASE
  {
    Ptov(RoundDown(w))
  }

  /** pde_create, and pte_create_user. */
  function PdeCreate(pt: nat): Word
    requires !IsUser(pt) && pt < ADDRESS_END
  {
    Vtop(pt) + PTE_U + PTE_W + PTE_P
  }

  function PteCreateUser(page: nat, writable: bool): Word
    requires !IsUser(page) && page < ADDRESS_END
  {
    Vtop(page) + PTE_P + (if writable then PTE_W else 0) + PTE_U
  }

  // A flag divides the next ones and the size of a page an even number of times.

  /** Adding a flag keeps the bits below it. */
  lemma LowerBit(w: nat, g: nat, m: nat)
    requires g > 0 && m % 2 == 0
    ensures (w + g * m) / g % 2 == w / g % 2
  {
    DivBounds(w, g);
    assert g * (w / g + m) == g * (w / g) + g * m;
    DivUnique(w + g * m, g, w / g + m);
  }

  /** Adding a flag that was not set keeps what is above it. */
  lemma HigherPart(w: nat, f: nat, m: nat)
    requires f > 0 && m > 0 && m % 2 == 0 && w / f % 2 == 0
    ensures f * m > 0 && (w + f) / (f * m) == w / (f * m)
  {
    NestedDiv(w, f, m);
    NestedDiv(w + f, f, m);
    var q := w / f;
    DivBounds(w, f);
    assert f * (q + 1) == f * q + f;
    DivUnique(w + f, f, q + 1);
    EvenPlusOne(q, m);
  }

  lemma EvenPlusOne(q: nat, m: nat)
    requires m > 0 && m % 2 == 0 && q % 2 == 0
    ensures (q + 1) / m == q / m
  {
    DivBounds(q, m);
    var a, h := q / m, m / 2;
    assert m * a == 2 * (h * a);
    DivUnique(q + 1, m, a);
  }

  /** The flags that v and w agree on, and their address bits. */
  predicate Agree(v: nat, w: nat, flags: set<nat>) {
    && (forall f | f in flags && f > 0 :: Bit(v, f) == Bit(w, f)) && v / PGSIZE == w / PGSIZE
  }

  lemma OwnBit(w: nat, f: nat)
    requires f > 0 && !Bit(w, f)
    ensures Bit(w + f, f)
  {
    DivBounds(w, f);
    assert f * (w / f + 1) == f * (w / f) + f;
    DivUnique(w + f, f, w / f + 1);
  }

  lemma AddD(w: nat)
    requires !Bit(w, PTE_D)
    ensures Bit(w + PTE_D, PTE_D) && Agree(w + PTE_D, w, FLAGS - {PTE_D})
  {
    OwnBit(w, PTE_D);
    LowerBit(w, PTE_P, 64);
    LowerBit(w, PTE_W, 32);
    LowerBit(w, PTE_U, 16);
    LowerBit(w, PTE_A, 2);
    HigherPart(w, PTE_D, 64);
  }

  lemma AddA(w: nat)
    requires !Bit(w, PTE_A)
    ensures Bit(w + PTE_A, PTE_A) && Agree(w + PTE_A, w, FLAGS - {PTE_A})
  {
    OwnBit(w, PTE_A);
    LowerBit(w, PTE_P, 32);
    LowerBit(w, PTE_W, 16);
    LowerBit(w, PTE_U, 8);
    HigherPart(w, PTE_A, 2);
    HigherPart(w, PTE_A, 128);
  }

  lemma AddP(w: nat)
    requires !Bit(w, PTE_P)
    ensures Bit(w + PTE_P, PTE_P) && Agree(w + PTE_P, w, FLAGS - {PTE_P})
  {
    OwnBit(w, PTE_P);
    HigherPart(w, PTE_P, 2);
    HigherPart(w, PTE_P, 4);
    HigherPart(w, PTE_P, 32);
    HigherPart(w, PTE_P, 64);
    HigherPart(w, PTE_P, 4096);
  }

  lemma AddFlag(w: nat, f: nat)
    requires f in {PTE_P, PTE_A, PTE_D} && !Bit(w, f)
    ensures Bit(w + f, f) && Agree(w + f, w, FLAGS - {f})
  {
    hide Bit, Agree;
    if f == PTE_P {
      AddP(w);
    } else if f == PTE_A {
      AddA(w);
    } else {
      AddD(w);
    }
  }

  /** Setting or clearing a flag does that to this flag, and keeps the others and the address. */
  lemma SetBitSetsOne(w: Word, flag: nat, on: bool)
    requires flag in {PTE_P, PTE_A, PTE_D}
    ensures Bit(SetBit(w, flag, on), flag) == on && Agree(SetBit(w, flag, on), w, FLAGS - {flag})
    ensures SetBit(w, flag, on) < ADDRESS_END && RoundDown(SetBit(w, flag, on)) == RoundDown(w)
  {
    hide Bit;
    if Bit(w, flag) != on {
      if on {
        AddFlag(w, flag);
      } else {
        ClearedBit(w, flag);
        AddFlag(w - flag, flag);
      }
    }
    SameQuotient(SetBit(w, flag, on), w);
  }

  lemma ClearedBit(w: nat, f: nat)
    requires f > 0 && Bit(w, f)
    ensures w >= f && !Bit(w - f, f)
  {
    DivBounds(w, f);
    var q := w / f;
    assert q >= 1;
    assert f * q == f * (q - 1) + f;
    MulLe(0, q - 1, f);
    DivUnique(w - f, f, q - 1);
  }

  /** Words with the same address bits are in the same page. */
  lemma SameQuotient(v: nat, w: nat)
    requires v / PGSIZE == w / PGSIZE
    ensures RoundDown(v) == RoundDown(w) && (w < ADDRESS_END ==> v < ADDRESS_END)
  {
    DivMod(v, PGSIZE);
    DivMod(w, PGSIZE);
  }

  /** What is put in an entry is found there. */
  lemma EntryHoldsPage(page: nat, writable: bool)
    requires !IsUser(page) && page < ADDRESS_END && page % PGSIZE == 0
    ensures var w := PteCreateUser(page, writable);
      && w < PHYS_BASE && GetPage(w) == page && Bit(w, PTE_P) && Bit(w, PTE_U) && Bit(w, PTE_W) == writable
      && !Bit(w, PTE_A) && !Bit(w, PTE_D)
    ensures PdeCreate(page) < PHYS_BASE && GetPage(PdeCreate(page)) == page
    ensures Bit(PdeCreate(page), PTE_P) && Bit(PdeCreate(page), PTE_U) && Bit(PdeCreate(page), PTE_W)
  {
    assert Bit(5, PTE_P) && !Bit(5, PTE_W) && Bit(5, PTE_U) && !Bit(5, PTE_A) && !Bit(5, PTE_D);
    assert Bit(7, PTE_P) && Bit(7, PTE_W) && Bit(7, PTE_U) && !Bit(7, PTE_A) && !Bit(7, PTE_D);
    var n := Vtop(page) / PGSIZE;
    PageNumber(page);
    FlagsOfSum(n, 5);
    FlagsOfSum(n, 7);
    hide Bit, RoundDown;
  }

  lemma PageNumber(page: nat)
    requires !IsUser(page) && page < ADDRESS_END && page % PGSIZE == 0
    ensures Vtop(page) == PGSIZE * (Vtop(page) / PGSIZE) && Vtop(page) + 7 < PHYS_BASE
  {
    DivMod(Vtop(page), PGSIZE);
  }

  lemma FlagsOfSum(n: nat, c: nat)
    requires c < 8
    ensures forall f | f in FLAGS :: Bit(PGSIZE * n + c, f) == Bit(c, f)
    ensures RoundDown(PGSIZE * n + c) == PGSIZE * n
  {
    hide Bit;
    BitsOfSum(n, c);
    DivUnique(PGSIZE * n + c, PGSIZE, n);
    DivMod(PGSIZE * n + c, PGSIZE);
  }

  lemma BitsOfSum(n: nat, c: nat)
    ensures forall f | f in FLAGS :: Bit(PGSIZE * n + c, f) == Bit(c, f)
  {
    LowerBit(c, PTE_P, PGSIZE * n);
    LowerBit(c, PTE_W, PGSIZE / PTE_W * n);
    LowerBit(c, PTE_U, PGSIZE / PTE_U * n);
    LowerBit(c, PTE_A, PGSIZE / PTE_A * n);
    LowerBit(c, PTE_D, PGSIZE / PTE_D * n);
  }

  /** A page is known by its two indices. */
  lemma IndicesIdentify(u: Va)
    requires u % PGSIZE == 0
    ensures u == PageAddress(PdNo(u), PtNo(u))
  {
    DivMod(u, PTSPAN);
    var r := u % PTSPAN;
    DivMod(r, PGSIZE);
    DivUnique(u, PGSIZE, 1024 * (u / PTSPAN) + r / PGSIZE);
    DivMod(u, PGSIZE);
  }

  lemma IndicesOfPage(va: Va)
    ensures PdNo(RoundDown(va)) == PdNo(va) && PtNo(RoundDown(va)) == PtNo(va)
    ensures IsUser(va) <==> PdNo(va) < PdNo(PHYS_BASE)
  {}

  /** The address of a page with given indices. */
  function PageAddress(i: nat, j: nat): Va
    requires i < ENTRIES && j < ENTRIES
  {
    i * PTSPAN + j * PGSIZE
  }

  lemma PageAddressIndices(i: nat, j: nat)
    requires i < ENTRIES && j < ENTRIES
    ensures PdNo(PageAddress(i, j)) == i && PtNo(PageAddress(i, j)) == j && PageAddress(i, j) % PGSIZE == 0
    ensures i < PdNo(PHYS_BASE) ==> IsUser(PageAddress(i, j))
  {}

  // ---- page directories in memory ----

  /** What the kernel pages that hold page directories and page tables contain. */
  type Tables = map<nat, seq<Word>>

  /** The page table that an entry of a page directory leads to.  It allows users and writing, so that it is the
      entry in the page table that decides. */
  predicate LeadsTo(t: Tables, pde: Word, pt: nat) {
    && pde < PHYS_BASE && Bit(pde, PTE_P) && Bit(pde, PTE_U) && Bit(pde, PTE_W)
    && GetPage(pde) == pt && pt in t && |t[pt]| == ENTRIES
  }

  function PtOf(pde: Word): nat { if pde < PHYS_BASE then GetPage(pde) else 0 }

  /** Every entry of the page directory that is not 0 leads to a page table of its own, and present
      entries of the user part of page tables lead to pages. */
  ghost predicate PdOk(t: Tables, pd: nat) {
    && pd in t && |t[pd]| == ENTRIES
    && (forall i | 0 <= i < ENTRIES && t[pd][i] != 0 :: LeadsTo(t, t[pd][i], PtOf(t[pd][i])) && PtOf(t[pd][i]) != pd)
    && (forall i, j | 0 <= i < j < ENTRIES && t[pd][i] != 0 && t[pd][j] != 0 :: PtOf(t[pd][i]) != PtOf(t[pd][j]))
    && (forall i, j | 0 <= i < PdNo(PHYS_BASE) && t[pd][i] != 0 && 0 <= j < ENTRIES &&
         Bit(t[PtOf(t[pd][i])][j], PTE_P) ::
          t[PtOf(t[pd][i])][j] < PHYS_BASE)
  }

  /** The entry for an address; 0 where there is no page table. */
  function EntryFor(t: Tables, pd: nat, va: Va): Word
    requires PdOk(t, pd)
  {
    var pde := t[pd][PdNo(va)];
    if pde == 0 then 0 else t[PtOf(pde)][PtNo(va)]
  }

  /** What a page directory means: where an address is mapped to, and how. */
  datatype Mapping = Mapping(frame: nat, writable: bool, user: bool, accessed: bool, dirty: bool)

  function Meaning(w: Word): Option<Mapping> {
    if Bit(w, PTE_P) && w < PHYS_BASE
    then Some(Mapping(GetPage(w), Bit(w, PTE_W), Bit(w, PTE_U), Bit(w, PTE_A), Bit(w, PTE_D)))
    else None
  }

  /** The entries of a page directory that lead to page tables. */
  ghost function Tabled(t: Tables, pd: nat): set<nat>
    requires PdOk(t, pd)
  {
    set i | 0 <= i < ENTRIES && t[pd][i] != 0
  }

  /** The tables with another entry for one address. */
  function WithEntry(t: Tables, pd: nat, va: Va, w: Word): Tables
    requires PdOk(t, pd) && t[pd][PdNo(va)] != 0
  {
    var pt := PtOf(t[pd][PdNo(va)]);
    var table: seq<Word> := t[pt][PtNo(va) := w];
    t[pt := table]
  }

  /** Changing one entry changes the meaning of that page's addresses and of no others. */
  lemma WithEntryChangesOne(t: Tables, pd: nat, va: Va, w: Word)
    requires PdOk(t, pd) && t[pd][PdNo(va)] != 0 && (IsUser(va) && Bit(w, PTE_P) ==> w < PHYS_BASE)
    ensures PdOk(WithEntry(t, pd, va, w), pd)
    ensures forall v: Va :: (
      EntryFor(WithEntry(t, pd, va, w), pd, v) == if RoundDown(v) == RoundDown(va) then w else EntryFor(t, pd, v))
    ensures forall p | p in t && p != PtOf(t[pd][PdNo(va)]) :: WithEntry(t, pd, va, w)[p] == t[p]
  {
    hide Bit, PdNo, PtNo, RoundDown, GetPage;
    var t' := WithEntry(t, pd, va, w);
    UserIsBelow(va);
    forall v: Va
      ensures RoundDown(v) == RoundDown(va) <==> PdNo(v) == PdNo(va) && PtNo(v) == PtNo(va)
    {
      SamePageSameIndices(v, va);
    }
  }

  lemma UserIsBelow(va: Va)
    ensures IsUser(va) <==> PdNo(va) < PdNo(PHYS_BASE)
  {}

  lemma SamePageSameIndices(u: Va, v: Va)
    ensures RoundDown(u) == RoundDown(v) <==> PdNo(u) == PdNo(v) && PtNo(u) == PtNo(v)
  {
    IndicesOfPage(u);
    IndicesOfPage(v);
    RoundDownIsPage(u);
    RoundDownIsPage(v);
    IndicesIdentify(RoundDown(u));
    IndicesIdentify(RoundDown(v));
    hide PdNo, PtNo, RoundDown;
  }

  function EmptyTable(): (t: seq<Word>)
    ensures |t| == ENTRIES && forall j | 0 <= j < ENTRIES :: t[j] == 0
  {
    seq<Word>(ENTRIES, _ => 0)
  }

  /** A new, empty page table. */
  function WithTable(t: Tables, pd: nat, va: Va, pt: nat): Tables
    requires pd in t && |t[pd]| == ENTRIES && !IsUser(pt) && pt < ADDRESS_END && pt % PGSIZE == 0
  {
    var pde: Word := PdeCreate(pt);
    var empty: seq<Word> := EmptyTable();
    var directory: seq<Word> := t[pd][PdNo(va) := pde];
    t[pt := empty][pd := directory]
  }

  /** Adding an empty page table for addresses without one changes the meaning of no address. */
  lemma WithTableChangesNone(t: Tables, pd: nat, va: Va, pt: nat)
    requires PdOk(t, pd) && t[pd][PdNo(va)] == 0 && pt !in t && !IsUser(pt) && pt < ADDRESS_END && pt % PGSIZE == 0
    ensures PdOk(WithTable(t, pd, va, pt), pd) && WithTable(t, pd, va, pt)[pd][PdNo(va)] != 0
    ensures PtOf(WithTable(t, pd, va, pt)[pd][PdNo(va)]) == pt
    ensures forall v: Va :: EntryFor(WithTable(t, pd, va, pt), pd, v) == EntryFor(t, pd, v)
    ensures WithTable(t, pd, va, pt).Keys == t.Keys + {pt} && |WithTable(t, pd, va, pt)[pd]| == ENTRIES
    ensures forall p | p in t && p != pd :: WithTable(t, pd, va, pt)[p] == t[p]
    ensures forall i | 0 <= i < ENTRIES && i != PdNo(va) :: WithTable(t, pd, va, pt)[pd][i] == t[pd][i]
  {
    EntryHoldsPage(pt, true);
    NothingIsNotPresent();
    hide Bit, PdNo, PtNo, RoundDown, GetPage;
  }

  lemma NothingIsNotPresent()
    ensures !Bit(0, PTE_P)
  {}

  // ---- pagedir.c ----

  /** A page directory without user pages stays one whatever is written in other pages. */
  lemma EmptyPdKept(t: Tables, t': Tables, pd: nat)
    requires PdOk(t, pd) && forall i | 0 <= i < PdNo(PHYS_BASE) :: t[pd][i] == 0
    requires pd in t' && t'[pd] == t[pd] && forall p | p in t :: p in t' && |t'[p]| == |t[p]|
    ensures PdOk(t', pd)
  {
    hide Bit, GetPage;
  }

  /** A page just taken is none of those that were held, which still are. */
  lemma TookIsNew(base: nat, used: seq<bool>, used': seq<bool>, page: nat, held: set<nat>)
    requires Took(used, used', base, page, 1) && base % PGSIZE == 0
    requires forall p | p in held :: HeldIn(base, used, p, 1)
    ensures page !in held && page % PGSIZE == 0 && base <= page < base + PGSIZE * |used'|
    ensures forall p | p in held + {page} :: HeldIn(base, used', p, 1)
  {
    TookIsApart(used, used', base, page, 1, page, 1);
    forall p | p in held
      ensures HeldIn(base, used', p, 1) && p != page
    {
      TookIsApart(used, used', base, page, 1, p, 1);
    }
  }

  // ---- destruction ----

  /** The pages of a pool that are still used when some were freed. */
  function Freed(used: seq<bool>, base: nat, pages: set<nat>): (r: seq<bool>)
    ensures |r| == |used|
    ensures forall k | 0 <= k < |used| :: r[k] == (used[k] && base + PGSIZE * k !in pages)
  {
    seq(|used|, k requires 0 <= k < |used| => used[k] && base + PGSIZE * k !in pages)
  }

  /** A page that was not freed yet is still held, and can be freed. */
  lemma FreeOneMore(used: seq<bool>, base: nat, pages: set<nat>, p: nat)
    requires HeldIn(base, used, p, 1) && p !in pages
    ensures HeldIn(base, Freed(used, base, pages), p, 1)
    ensures Bitmap.SetMultiple(Freed(used, base, pages), PageIndex(base, p), 1, false) == Freed(used, base, pages + {p})
  {
    assert base + PGSIZE * PageIndex(base, p) == p;
  }

  /** The frames in the first n entries of a page table. */
  function FramesOf(table: seq<Word>, n: nat): set<nat>
    requires n <= |table|
  {
    if n == 0 then {}
    else FramesOf(table, n - 1) + if Bit(table[n - 1], PTE_P) then {PtOf(table[n - 1])} else {}
  }

  /** The page tables behind the first n entries of a page directory, and the frames in them. */
  function PtsBelow(t: Tables, pd: nat, n: nat): set<nat>
    requires PdOk(t, pd) && n <= ENTRIES
  {
    if n == 0 then {} else PtsBelow(t, pd, n - 1) + if t[pd][n - 1] != 0 then {PtOf(t[pd][n - 1])} else {}
  }

  function FramesBelow(t: Tables, pd: nat, n: nat): set<nat>
    requires PdOk(t, pd) && n <= ENTRIES
  {
    if n == 0 then {}
    else FramesBelow(t, pd, n - 1) + if t[pd][n - 1] != 0 then FramesOf(t[PtOf(t[pd][n - 1])], ENTRIES) else {}
  }

  /** A present entry of the user part. */
  predicate Present(t: Tables, pd: nat, i: int, j: int)
    requires PdOk(t, pd)
  {
    0 <= i < PdNo(PHYS_BASE) && 0 <= j < ENTRIES && t[pd][i] != 0 && Bit(t[PtOf(t[pd][i])][j], PTE_P)
  }

  function FrameAt(t: Tables, pd: nat, i: int, j: int): nat
    requires PdOk(t, pd) && Present(t, pd, i, j)
  {
    PtOf(t[PtOf(t[pd][i])][j])
  }

  /** The frames of the mapped pages are used pages of the user pool, and no two pages share one. */
  ghost predicate FramesOk(t: Tables, pd: nat, base: nat, used: seq<bool>)
    requires PdOk(t, pd)
  {
    && (forall i, j | Present(t, pd, i, j) :: HeldIn(base, used, FrameAt(t, pd, i, j), 1))
    && (forall i, j, k, l | Present(t, pd, i, j) && Present(t, pd, k, l) &&
         FrameAt(t, pd, i, j) == FrameAt(t, pd, k, l) ::
          i == k && j == l)
  }

  lemma {:induction false} FramesOfAre(t: Tables, pd: nat, i: nat, n: nat)
    requires PdOk(t, pd) && i < PdNo(PHYS_BASE) && t[pd][i] != 0 && n <= ENTRIES
    ensures forall f :: f in FramesOf(t[PtOf(t[pd][i])], n) <==>
      exists j :: j < n && Present(t, pd, i, j) && FrameAt(t, pd, i, j) == f
  {
    hide PtOf, Bit;
    if n > 0 {
      FramesOfAre(t, pd, i, n - 1);
      var table := t[PtOf(t[pd][i])];
      forall f
        ensures f in FramesOf(table, n) <==> exists j :: j < n && Present(t, pd, i, j) && FrameAt(t, pd, i, j) == f
      {
        if Present(t, pd, i, n - 1) && FrameAt(t, pd, i, n - 1) == f {
          assert f in FramesOf(table, n);
        }
      }
    }
  }

  lemma {:induction false} FramesBelowAre(t: Tables, pd: nat, n: nat)
    requires PdOk(t, pd) && n <= PdNo(PHYS_BASE)
    ensures forall f :: f in FramesBelow(t, pd, n) <==>
      exists i, j :: i < n && Present(t, pd, i, j) && FrameAt(t, pd, i, j) == f
  {
    hide PtOf, Bit, FramesOf;
    if n > 0 {
      FramesBelowAre(t, pd, n - 1);
      var i := n - 1;
      if t[pd][i] != 0 {
        FramesOfAre(t, pd, i, ENTRIES);
      }
      forall f
        ensures f in FramesBelow(t, pd, n) <==>
          exists i, j :: i < n && Present(t, pd, i, j) && FrameAt(t, pd, i, j) == f
      {
        if f in FramesBelow(t, pd, n - 1) {
          var i, j :| i < n - 1 && Present(t, pd, i, j) && FrameAt(t, pd, i, j) == f;
        }
        if k, j :| k < n && Present(t, pd, k, j) && FrameAt(t, pd, k, j) == f {
          assert f in FramesBelow(t, pd, n);
        }
      }
    }
  }

  lemma {:induction false} PtsBelowAre(t: Tables, pd: nat, n: nat)
    requires PdOk(t, pd) && n <= ENTRIES
    ensures forall p :: p in PtsBelow(t, pd, n) <==> exists i :: 0 <= i < n && t[pd][i] != 0 && PtOf(t[pd][i]) == p
    ensures PtsBelow(t, pd, n) <= t.Keys && pd !in PtsBelow(t, pd, n)
  {
    hide PtOf, Bit;
    if n > 0 {
      PtsBelowAre(t, pd, n - 1);
    }
  }

  /** Freeing the frames of one more page table. */
  lemma NextFrames(t: Tables, pd: nat, i: nat, base: nat, used: seq<bool>, j: nat)
    requires PdOk(t, pd) && FramesOk(t, pd, base, used) && i < PdNo(PHYS_BASE) && t[pd][i] != 0
    requires j < ENTRIES && Bit(t[PtOf(t[pd][i])][j], PTE_P)
    ensures var w := t[PtOf(t[pd][i])][j];
      && HeldIn(base, used, PtOf(w), 1) && PtOf(w) !in FramesBelow(t, pd, i) + FramesOf(t[PtOf(t[pd][i])], j)
  {
    FramesBelowAre(t, pd, i);
    FramesOfAre(t, pd, i, j);
    hide HeldIn, PtOf, Bit, FramesOf, FramesBelow;
    assert Present(t, pd, i, j);
  }

  lemma NothingFreed(t: Tables, pd: nat, used: seq<bool>, base: nat)
    requires PdOk(t, pd)
    ensures PtsBelow(t, pd, 0) == {} && FramesBelow(t, pd, 0) == {} && Freed(used, base, {}) == used && t - {} == t
  {}

  lemma SkippedFrames(t: Tables, pd: nat, i: nat)
    requires PdOk(t, pd) && i < ENTRIES && t[pd][i] == 0
    ensures FramesBelow(t, pd, i + 1) == FramesBelow(t, pd, i) && PtsBelow(t, pd, i + 1) == PtsBelow(t, pd, i)
  {}

  /** A page directory stays when neither its page nor those of its page tables go. */
  lemma EmptyPdStays(t: Tables, gone: set<nat>, pd: nat)
    requires PdOk(t, pd) && pd !in gone && forall i | 0 <= i < ENTRIES && t[pd][i] != 0 :: PtOf(t[pd][i]) !in gone
    ensures PdOk(t - gone, pd)
  {
    hide Bit, GetPage;
  }

  /** The page tables of the user part of a page directory belong to it alone, not to the kernel. */
  ghost predicate Unshared(t: Tables, pd: nat, kernelPd: nat)
    requires PdOk(t, pd) && PdOk(t, kernelPd)
  {
    forall k | 0 <= k < ENTRIES && t[kernelPd][k] != 0 ::
      && PtOf(t[kernelPd][k]) != pd
      && forall i | 0 <= i < PdNo(PHYS_BASE) && t[pd][i] != 0 :: PtOf(t[pd][i]) != PtOf(t[kernelPd][k])
  }

  lemma KernelPdStays(t: Tables, pd: nat, kernelPd: nat)
    requires PdOk(t, pd) && PdOk(t, kernelPd) && Unshared(t, pd, kernelPd) && kernelPd != pd
    requires forall i | 0 <= i < ENTRIES && t[pd][i] != 0 :: PtOf(t[pd][i]) != kernelPd
    ensures PdOk(t - (PtsBelow(t, pd, PdNo(PHYS_BASE)) + {pd}), kernelPd)
  {
    hide PtOf, Bit, PtsBelow;
    PtsBelowAre(t, pd, PdNo(PHYS_BASE));
    EmptyPdStays(t, PtsBelow(t, pd, PdNo(PHYS_BASE)) + {pd}, kernelPd);
  }

  lemma OthersAreHeld(t: Tables, gone: set<nat>, base: nat, used: seq<bool>)
    requires forall p | p in t :: HeldIn(base, used, p, 1)
    ensures forall p | p in t - gone :: HeldIn(base, Freed(used, base, gone), p, 1)
  {
    hide HeldIn, Freed;
    forall p | p in t - gone
      ensures HeldIn(base, Freed(used, base, gone), p, 1)
    {
      FreeOneMore(used, base, gone, p);
    }
  }

  class Paging {
    const pages: PageAllocator
    const initPageDir: nat
    var tables: Tables

    /** The kernel's own page directory, which maps no user page, was set up before. */
    constructor (pages: PageAllocator, initPageDir: nat, tables: Tables)
      requires pages.Valid() && PdOk(tables, initPageDir)
      requires forall p | p in tables :: HeldIn(pages.kernel.base, pages.kernel.used, p, 1)
      requires forall i | 0 <= i < PdNo(PHYS_BASE) :: tables[initPageDir][i] == 0
      ensures Valid() && this.pages == pages && this.tables == tables
    {
      this.pages, this.initPageDir, this.tables := pages, initPageDir, tables;
    }

    /** The pages with page directories and page tables are used pages of the kernel pool. */
    ghost predicate Valid()
      reads this, pages.kernel, pages.user
    {
      && pages.Valid() && (forall p | p in tables :: HeldIn(pages.kernel.base, pages.kernel.used, p, 1))
      && PdOk(tables, initPageDir) && forall i | 0 <= i < PdNo(PHYS_BASE) :: tables[initPageDir][i] == 0
    }

    /** A page directory of a process. */
    ghost predicate UserPd(pd: nat)
      reads this
    {
      && PdOk(tables, pd) && pd != initPageDir
      && (forall i | 0 <= i < ENTRIES && tables[pd][i] != 0 :: PtOf(tables[pd][i]) != initPageDir)
      && PdOk(tables, initPageDir) && Unshared(tables, pd, initPageDir)
    }

    /** The pages that a page directory of a process does not share with the kernel. */
    ghost function OwnPages(pd: nat): set<nat>
      requires PdOk(tables, pd)
      reads this
    {
      PtsBelow(tables, pd, PdNo(PHYS_BASE)) + {pd}
    }

    /** pagedir_create: a page directory in which no user page is mapped. */
    method Create() returns (pd: Option<nat>)
      requires Valid()
      modifies this`tables, pages.kernel`used
      ensures Valid()
      ensures pd.None? <==> forall s: nat :: !Bitmap.Fits(old(pages.kernel.used), s, 1)
      ensures pd.Some? ==> pd.value !in old(tables) && tables == old(tables)[pd.value := old(tables)[initPageDir]]
      ensures FreeCount(pages.kernel.used) == old(FreeCount(pages.kernel.used)) - if pd.Some? then 1 else 0
      ensures pd.Some? ==> UserPd(pd.value) && forall v: Va | IsUser(v) :: EntryFor(tables, pd.value, v) == 0
    {
      hide GetPage, Bit, Bitmap.Fits, HeldIn, Took, FreeCount;
      pd := pages.GetMultiple(false, 1);
      if pd.Some? {
        TookOneIsOneLess(old(pages.kernel.used), pages.kernel.used, pages.kernel.base, pd.value);
        TookIsNew(pages.kernel.base, old(pages.kernel.used), pages.kernel.used, pd.value, tables.Keys);
        tables := tables[pd.value := tables[initPageDir]];
      }
    }

    /** lookup_page: the page table with the entry for an address.  Where there is none it is created if
        asked for, which changes the meaning of no address; it is missing only if it was not asked
        for or there is no page for it. */
    method LookupPage(pd: nat, va: Va, create: bool) returns (pt: Option<nat>)
      requires Valid() && UserPd(pd) && (create ==> IsUser(va))
      modifies this`tables, pages.kernel`used
      ensures Valid() && UserPd(pd)
      ensures pt.Some? ==> tables[pd][PdNo(va)] != 0 && pt.value == PtOf(tables[pd][PdNo(va)])
      ensures pt.None? <==> old(tables)[pd][PdNo(va)] == 0 && (create ==>
        forall s: nat :: !Bitmap.Fits(old(pages.kernel.used), s, 1))
      ensures pt.None? || !create ==> tables == old(tables) && pages.kernel.used == old(pages.kernel.used)
      ensures Tabled(tables, pd) == old(Tabled(tables, pd)) + if pt.Some? then {PdNo(va)} else {}
      ensures FreeCount(pages.kernel.used) == old(FreeCount(pages.kernel.used)) -
        if pt.Some? && old(tables)[pd][PdNo(va)] == 0 then 1 else 0
      ensures forall v: Va :: EntryFor(tables, pd, v) == EntryFor(old(tables), pd, v)
      ensures forall p | p in old(tables) && p != pd :: p in tables && tables[p] == old(tables)[p]
    {
      hide PdNo, PtNo, GetPage, Bitmap.Fits, HeldIn, WithTable, EntryFor, Took, FreeCount;
      var pde := tables[pd][PdNo(va)];
      if pde == 0 {
        if !create {
          return None;
        }
        pt := pages.GetMultiple(false, 1);
        if pt.Some? {
          TookIsNew(pages.kernel.base, old(pages.kernel.used), pages.kernel.used, pt.value, tables.Keys);
          WithTableChangesNone(tables, pd, va, pt.value);
          EmptyPdKept(tables, WithTable(tables, pd, va, pt.value), initPageDir);
          TookOneIsOneLess(old(pages.kernel.used), pages.kernel.used, pages.kernel.base, pt.value);
          tables := WithTable(tables, pd, va, pt.value);
        }
      } else {
        pt := Some(PtOf(pde));
      }
    }

    /** Writes one entry of the page table found by lookup_page. */
    method WriteEntry(pd: nat, va: Va, pt: nat, w: Word)
      requires Valid() && UserPd(pd) && tables[pd][PdNo(va)] != 0
      requires pt == PtOf(tables[pd][PdNo(va)]) && (IsUser(va) && Bit(w, PTE_P) ==> w < PHYS_BASE)
      modifies this`tables
      ensures Valid() && UserPd(pd)
      ensures forall v: Va :: (
        EntryFor(tables, pd, v) == if RoundDown(v) == RoundDown(va) then w else EntryFor(old(tables), pd, v))
      ensures forall p | p in old(tables) && p != pt :: p in tables && tables[p] == old(tables)[p]
      ensures tables.Keys == old(tables).Keys
    {
      hide PdNo, PtNo, GetPage, HeldIn, EntryFor, Bit, RoundDown;
      WithEntryChangesOne(tables, pd, va, w);
      EmptyPdKept(tables, WithEntry(tables, pd, va, w), initPageDir);
      var table: seq<Word> := tables[pt][PtNo(va) := w];
      tables := tables[pt := table];
    }

    /** pagedir_set_page of a page that is not mapped: maps it, with no flags but those asked for, and changes
        no other page; without memory for a page table, nothing changes. */
    method SetPage(pd: nat, upage: Va, kpage: Va, writable: bool) returns (success: bool)
      requires Valid() && UserPd(pd)
      requires upage % PGSIZE == 0 && IsUser(upage) && kpage % PGSIZE == 0 && !IsUser(kpage)
      requires Meaning(EntryFor(tables, pd, upage)) == None
      modifies this`tables, pages.kernel`used
      ensures Valid() && UserPd(pd)
      ensures success <==> old(tables)[pd][PdNo(upage)] != 0 || exists s: nat ::
        Bitmap.Fits(old(pages.kernel.used), s, 1)
      ensures success ==> Meaning(EntryFor(tables, pd, upage)) == Some(Mapping(kpage, writable, true, false, false))
      ensures !success ==> tables == old(tables) && pages.kernel.used == old(pages.kernel.used)
      ensures forall v: Va | RoundDown(v) != upage :: EntryFor(tables, pd, v) == EntryFor(old(tables), pd, v)
      ensures Tabled(tables, pd) == old(Tabled(tables, pd)) + if success then {PdNo(upage)} else {}
      ensures FreeCount(pages.kernel.used) == old(FreeCount(pages.kernel.used)) -
        if success && old(tables)[pd][PdNo(upage)] == 0 then 1 else 0
      ensures forall p | p in old(tables) && p != pd && p != PtOf(tables[pd][PdNo(upage)]) ::
        p in tables && tables[p] == old(tables)[p]
    {
      hide PdNo, PtNo, GetPage, HeldIn, EntryFor, Bit, RoundDown, Bitmap.Fits, FreeCount;
      PageOf(upage, 0);
      var pt := LookupPage(pd, upage, true);
      if pt.None? {
        return false;
      }
      EntryHoldsPage(kpage, writable);
      WriteEntry(pd, upage, pt.value, PteCreateUser(kpage, writable));
      return true;
    }

    /** pagedir_get_page: the address behind a mapping, or none. */
    method GetPageOf(pd: nat, uaddr: Va) returns (kaddr: Option<nat>)
      requires Valid() && UserPd(pd) && IsUser(uaddr)
      modifies this`tables, pages.kernel`used
      ensures tables == old(tables) && pages.kernel.used == old(pages.kernel.used)
      ensures var m := Meaning(EntryFor(tables, pd, uaddr));
        kaddr == if m.Some? then Some(m.value.frame + PgOfs(uaddr)) else None
    {
      hide PdNo, PtNo, GetPage, HeldIn, Bit, RoundDown, Bitmap.Fits;
      UserIsBelow(uaddr);
      NothingIsNotPresent();
      var pt := LookupPage(pd, uaddr, false);
      if pt.Some? && Bit(tables[pt.value][PtNo(uaddr)], PTE_P) {
        return Some(GetPage(tables[pt.value][PtNo(uaddr)]) + PgOfs(uaddr));
      }
      return None;
    }

    /** pagedir_clear_page: later accesses fault; the other flags and the address stay in the entry, and no
        other page changes. */
    method ClearPage(pd: nat, upage: Va)
      requires Valid() && UserPd(pd) && upage % PGSIZE == 0 && IsUser(upage)
      modifies this`tables, pages.kernel`used
      ensures Valid() && UserPd(pd) && pages.kernel.used == old(pages.kernel.used)
      ensures Meaning(EntryFor(tables, pd, upage)) == None
      ensures forall f | f in FLAGS - {PTE_P} ::
        Bit(EntryFor(tables, pd, upage), f) == Bit(EntryFor(old(tables), pd, upage), f)
      ensures RoundDown(EntryFor(tables, pd, upage)) == RoundDown(EntryFor(old(tables), pd, upage))
      ensures forall v: Va | RoundDown(v) != upage :: EntryFor(tables, pd, v) == EntryFor(old(tables), pd, v)
      ensures tables.Keys == old(tables).Keys
      ensures forall p | p in tables && p != PtOf(old(tables)[pd][PdNo(upage)]) :: tables[p] == old(tables)[p]
    {
      hide PdNo, PtNo, GetPage, HeldIn, Bit, RoundDown, Bitmap.Fits;
      PageOf(upage, 0);
      NothingIsNotPresent();
      var pt := LookupPage(pd, upage, false);
      if pt.Some? && Bit(tables[pt.value][PtNo(upage)], PTE_P) {
        var w := tables[pt.value][PtNo(upage)];
        SetBitSetsOne(w, PTE_P, false);
        WriteEntry(pd, upage, pt.value, SetBit(w, PTE_P, false));
      }
    }

    /** pagedir_is_dirty and pagedir_is_accessed. */
    method IsFlagSet(pd: nat, vpage: Va, flag: nat) returns (isSet: bool)
      requires Valid() && UserPd(pd) && flag in {PTE_A, PTE_D}
      modifies this`tables, pages.kernel`used
      ensures tables == old(tables) && pages.kernel.used == old(pages.kernel.used)
      ensures isSet == Bit(EntryFor(tables, pd, vpage), flag)
    {
      hide PdNo, PtNo, GetPage, HeldIn, Bitmap.Fits;
      var pt := LookupPage(pd, vpage, false);
      return pt.Some? && Bit(tables[pt.value][PtNo(vpage)], flag);
    }

    /** pagedir_set_dirty and pagedir_set_accessed: one flag of one page, if it has a page table, and nothing
        else. */
    method SetFlag(pd: nat, vpage: Va, flag: nat, on: bool)
      requires Valid() && UserPd(pd) && flag in {PTE_A, PTE_D}
      modifies this`tables, pages.kernel`used
      ensures Valid() && UserPd(pd) && pages.kernel.used == old(pages.kernel.used)
      ensures old(tables)[pd][PdNo(vpage)] != 0 ==> Bit(EntryFor(tables, pd, vpage), flag) == on
      ensures old(tables)[pd][PdNo(vpage)] == 0 ==> tables == old(tables)
      ensures Agree(EntryFor(tables, pd, vpage), EntryFor(old(tables), pd, vpage), FLAGS - {flag})
      ensures forall v: Va | RoundDown(v) != RoundDown(vpage) :: EntryFor(tables, pd, v) == EntryFor(old(tables), pd, v)
      ensures tables.Keys == old(tables).Keys
      ensures forall p | p in tables && p != PtOf(old(tables)[pd][PdNo(vpage)]) :: tables[p] == old(tables)[p]
    {
      hide PdNo, PtNo, GetPage, HeldIn, Bit, RoundDown, Bitmap.Fits;
      UserIsBelow(vpage);
      var pt := LookupPage(pd, vpage, false);
      if pt.Some? {
        var w := tables[pt.value][PtNo(vpage)];
        SetBitSetsOne(w, flag, on);
        if w < PHYS_BASE {
          StillInRange(SetBit(w, flag, on), w);
        }
        WriteEntry(pd, vpage, pt.value, SetBit(w, flag, on));
      }
    }

    /** The inner loop of pagedir_destroy: frees the pages mapped by one page table. */
    method FreeFrames(t: Tables, pd: nat, i: nat, ghost used: seq<bool>)
      requires pages.Valid() && PdOk(t, pd) && i < PdNo(PHYS_BASE) && t[pd][i] != 0
      requires FramesOk(t, pd, pages.user.base, used)
      requires pages.user.used == Freed(used, pages.user.base, FramesBelow(t, pd, i))
      modifies pages.user`used
      ensures pages.Valid() && pages.user.used == Freed(used, pages.user.base, FramesBelow(t, pd, i + 1))
    {
      hide HeldIn, PtOf, Bit, FramesOk, Freed, Bitmap.SetMultiple;
      ghost var base := pages.user.base;
      var table := t[PtOf(t[pd][i])];
      var j := 0;
      assert FramesBelow(t, pd, i) + FramesOf(table, 0) == FramesBelow(t, pd, i);
      while j < ENTRIES
        invariant j <= ENTRIES && pages.Valid()
        invariant pages.user.used == Freed(used, base, FramesBelow(t, pd, i) + FramesOf(table, j))
      {
        if Bit(table[j], PTE_P) {
          NextFrames(t, pd, i, base, used, j);
          FreeOneMore(used, base, FramesBelow(t, pd, i) + FramesOf(table, j), PtOf(table[j]));
          pages.FreeMultiple(true, PtOf(table[j]), 1);
          assert FramesBelow(t, pd, i) + FramesOf(table, j) + {PtOf(table[j])} ==
            FramesBelow(t, pd, i) + FramesOf(table, j + 1);
        } else {
          assert FramesOf(table, j + 1) == FramesOf(table, j);
        }
        j := j + 1;
      }
    }

    /** The part of pagedir_destroy for one page table: its frames, and then its own page. */
    method FreeTable(t: Tables, pd: nat, i: nat, ghost kernelUsed: seq<bool>, ghost userUsed: seq<bool>)
      requires pages.Valid() && PdOk(t, pd) && i < PdNo(PHYS_BASE) && t[pd][i] != 0
      requires FramesOk(t, pd, pages.user.base, userUsed)
      requires forall p | p in t :: HeldIn(pages.kernel.base, kernelUsed, p, 1)
      requires tables == t - PtsBelow(t, pd, i)
      requires pages.kernel.used == Freed(kernelUsed, pages.kernel.base, PtsBelow(t, pd, i))
      requires pages.user.used == Freed(userUsed, pages.user.base, FramesBelow(t, pd, i))
      modifies this`tables, pages.kernel`used, pages.user`used
      ensures pages.Valid() && tables == t - PtsBelow(t, pd, i + 1)
      ensures pages.kernel.used == Freed(kernelUsed, pages.kernel.base, PtsBelow(t, pd, i + 1))
      ensures pages.user.used == Freed(userUsed, pages.user.base, FramesBelow(t, pd, i + 1))
    {
      hide HeldIn, PtOf, Bit, FramesOk, Freed, Bitmap.SetMultiple, FramesBelow, PdNo;
      PtsBelowAre(t, pd, i);
      var pt := PtOf(t[pd][i]);
      assert pt in tables;
      FreeFrames(t, pd, i, userUsed);
      FreeOneMore(kernelUsed, pages.kernel.base, PtsBelow(t, pd, i), pt);
      pages.FreeMultiple(false, pt, 1);
      tables := tables - {pt};
    }

    /** pagedir_destroy: frees the frame of every user page that is mapped, every page table of the user part
        and the page directory, each exactly once, and no other page. */
    method Destroy(pd: nat)
      requires Valid() && UserPd(pd) && FramesOk(tables, pd, pages.user.base, pages.user.used)
      modifies this`tables, pages.kernel`used, pages.user`used
      ensures Valid()
      ensures tables == old(tables) - old(OwnPages(pd))
      ensures pages.kernel.used == Freed(old(pages.kernel.used), pages.kernel.base, old(OwnPages(pd)))
      ensures pages.user.used == Freed(old(pages.user.used), pages.user.base, old(FramesBelow(tables, pd,
        PdNo(PHYS_BASE))))
    {
      hide HeldIn, PtOf, Bit, FramesOk, Freed, Bitmap.SetMultiple, FramesBelow, PdNo, Unshared;
      var t: Tables, n: nat := tables, PdNo(PHYS_BASE);
      ghost var kernelUsed, userUsed := pages.kernel.used, pages.user.used;
      NothingFreed(t, pd, kernelUsed, pages.kernel.base);
      NothingFreed(t, pd, userUsed, pages.user.base);
      var i := 0;
      while i < n
        invariant i <= n && pages.Valid()
        invariant tables == t - PtsBelow(t, pd, i)
        invariant pages.kernel.used == Freed(kernelUsed, pages.kernel.base, PtsBelow(t, pd, i))
        invariant pages.user.used == Freed(userUsed, pages.user.base, FramesBelow(t, pd, i))
      {
        PtsBelowAre(t, pd, i);
        assert tables[pd][i] == t[pd][i];
        if tables[pd][i] != 0 {
          FreeTable(t, pd, i, kernelUsed, userUsed);
        } else {
          SkippedFrames(t, pd, i);
        }
        i := i + 1;
      }
      PtsBelowAre(t, pd, n);
      FreeOneMore(kernelUsed, pages.kernel.base, PtsBelow(t, pd, n), pd);
      pages.FreeMultiple(false, pd, 1);
      tables := tables - {pd};
      assert tables == t - (PtsBelow(t, pd, n) + {pd});
      KernelPdStays(t, pd, initPageDir);
      OthersAreHeld(t, PtsBelow(t, pd, n) + {pd}, pages.kernel.base, kernelUsed);
    }
  }

  lemma StillInRange(v: nat, w: nat)
    requires v / PGSIZE == w / PGSIZE && w < PHYS_BASE
    ensures v < PHYS_BASE
  {
    DivMod(v, PGSIZE);
    DivMod(w, PGSIZE);
  }
}
