/** Two-level 32-bit page tables: hardware entries, the kernel's own pointers beside them, and the walks over each. */
module Paging {
  import opened Basics

  const PAGE_SIZE := 4096
  const ENTRIES := 1024
  const KERN_BASE := 0xc000_0000
  const KERN_PAGE := 0xc_0000  // KERN_BASE / PAGE_SIZE
  const PAGES := 0x10_0000     // pages in a 32-bit address space

  datatype Pte = Pte(present: bool, frame: int, rw: bool, user: bool)
  datatype Pde = Pde(present: bool, frame: int, rw: bool, user: bool)

  /**
    A page directory: `tables` is what the processor reads, `refs` holds the virtual addresses of
    the same tables (0 for none). `phys` is the content of the physical frames that hold tables.
   */
  datatype Space = Space(tables: seq<Pde>, refs: seq<int>, phys: map<int, seq<Pte>>, paging: bool)

  const NO_PAGE := Pte(false, 0, false, false)

  /** A table just cleared by memset. */
  function EmptyTable(): (t: seq<Pte>)
    ensures |t| == ENTRIES && forall i :: 0 <= i < ENTRIES ==> t[i] == NO_PAGE
  {
    seq(ENTRIES, _ => NO_PAGE)
  }

  /** Page directory and page table index of a page number: va >> 22 and (va >> 12) & 0x3ff. */
  function DirIndex(page: int): int
  {
    page / ENTRIES
  }

  function TblIndex(page: int): int
  {
    page % ENTRIES
  }

  predicate Shaped(s: Space)
  {
    |s.tables| == ENTRIES && |s.refs| == ENTRIES
  }

  /** The frame the processor finds for a page, in the manner of section 4.3 of volume 3A of the Intel SDM. */
  function Walk(s: Space, page: int): Option<int>
    requires Shaped(s) && 0 <= page < PAGES
  {
    var pde := s.tables[DirIndex(page)];
    if !pde.present || pde.frame !in s.phys || |s.phys[pde.frame]| != ENTRIES then None
    else
      var pte := s.phys[pde.frame][TblIndex(page)];
      if pte.present then Some(pte.frame) else None
  }

  /** The entry of `page` can be written: its table exists. */
  ghost predicate HasTable(s: Space, page: int)
    requires Shaped(s) && 0 <= page < PAGES
  {
    s.tables[DirIndex(page)].present
  }

  /** What an entry grants: writing, and access from user mode. */
  datatype Rights = Rights(write: bool, user: bool)

  /** The rights in the page table entry of a present page. */
  function Flags(s: Space, page: int): (r: Option<Rights>)
    requires Shaped(s) && 0 <= page < PAGES
    ensures r.None? <==> Walk(s, page).None?
  {
    if Walk(s, page).None? then None
    else
      var pte := s.phys[s.tables[DirIndex(page)].frame][TblIndex(page)];
      Some(Rights(pte.rw, pte.user))
  }

  /** The rights in a directory entry. */
  function DirRights(s: Space, d: int): Rights
    requires Shaped(s) && 0 <= d < ENTRIES
  {
    Rights(s.tables[d].rw, s.tables[d].user)
  }

  /**
    The rights the processor grants to a present page: a right has to be in both entries, by section
    4.6 of volume 3A of the Intel SDM.
   */
  function Access(s: Space, page: int): Option<Rights>
    requires Shaped(s) && 0 <= page < PAGES
  {
    var flags := Flags(s, page);
    if flags.None? then None
    else
      var dir := DirRights(s, DirIndex(page));
      Some(Rights(dir.write && flags.value.write, dir.user && flags.value.user))
  }

  /** What the kernel maps for itself: writable, and closed to user mode. */
  const KERNEL := Rights(true, false)
  const READ_ONLY := Rights(false, false)

  /** Directory entry `d` covers a page of [first, next). */
  predicate Covers(d: int, first: int, next: int)
  {
    ENTRIES * d < next && first < ENTRIES * (d + 1)
  }

  /** New pages and tables are those of [first, next), with rights `r`; the others are untouched. */
  ghost predicate Granted(s: Space, s': Space, first: int, next: int, r: Rights)
    requires Shaped(s) && Shaped(s')
  {
    && (forall pg :: 0 <= pg < PAGES && Flags(s', pg) != Flags(s, pg) ==>
          first <= pg < next && Flags(s, pg).None? && Flags(s', pg) == Some(r))
    && (forall d :: 0 <= d < ENTRIES && s'.tables[d] != s.tables[d] ==>
          Covers(d, first, next) && !s.tables[d].present && s'.tables[d].present && DirRights(s', d) == r)
  }

  lemma GrantedMore(s: Space, s1: Space, s2: Space, first: int, next: int, page: int, next': int, r: Rights)
    requires Shaped(s) && Shaped(s1) && Shaped(s2) && first <= page && next <= next'
    requires Granted(s, s1, first, next, r) && Granted(s1, s2, page, next', r)
    ensures Granted(s, s2, first, next', r)
  {
    hide Flags;
  }

  /** A page and its table, where they are new, have rights `r`. */
  ghost predicate PageRights(s: Space, s': Space, page: int, r: Rights)
    requires Shaped(s) && Shaped(s') && 0 <= page < PAGES
  {
    && (Flags(s', page) != Flags(s, page) ==> Flags(s, page).None? && Flags(s', page) == Some(r))
    && var d := DirIndex(page);
    s'.tables[d] != s.tables[d] ==> !s.tables[d].present && s'.tables[d].present && DirRights(s', d) == r
  }

  lemma PageRightsThen(s: Space, s1: Space, s2: Space, page: int, r: Rights)
    requires Shaped(s) && Shaped(s1) && Shaped(s2) && 0 <= page < PAGES
    requires PageRights(s, s1, page, r) && PageRights(s1, s2, page, r)
    ensures PageRights(s, s2, page, r)
  {
    hide Flags;
  }

  lemma GrantedPage(s: Space, s': Space, first: int, page: int, next: int, r: Rights)
    requires Shaped(s) && Shaped(s') && 0 <= page < PAGES && first <= page < next && Granted(s, s', first, next, r)
    ensures PageRights(s, s', page, r)
  {
    hide Flags;
  }

  lemma SameRights(s: Space, page: int, r: Rights)
    requires Shaped(s) && 0 <= page < PAGES
    ensures PageRights(s, s, page, r)
  {
  }

  /** What is new has the rights asked for, in the page table entry and in the directory. */
  lemma PageFlags(s: Space, s': Space, page: int, r: Rights)
    requires Shaped(s) && Shaped(s') && 0 <= page < PAGES && PageRights(s, s', page, r)
    requires Walk(s, page).None? && Walk(s', page).Some?
    ensures Flags(s', page) == Some(r) && (!HasTable(s, page) ==> DirRights(s', DirIndex(page)) == r)
  {
  }

  /** Without a table there is no page. */
  lemma NoTableYet(s: Space, s': Space, page: int, r: Rights)
    requires Shaped(s) && Shaped(s') && 0 <= page < PAGES && !HasTable(s, page) && s'.tables == s.tables
    ensures PageRights(s, s', page, r)
  {
  }

  /**
    A page that is mapped anew gets the rights asked for, as far as its table, if it had one before,
    grants them too; a page that was there before keeps its own.
   */
  lemma PageAccess(s: Space, s': Space, page: int, r: Rights)
    requires Shaped(s) && Shaped(s') && 0 <= page < PAGES && PageRights(s, s', page, r) && Walk(s', page).Some?
    ensures Access(s', page) == if Walk(s, page).Some? then Access(s, page) else
      var dir := DirRights(s, DirIndex(page));
      Some(Rights(r.write && (HasTable(s, page) ==> dir.write), r.user && (HasTable(s, page) ==> dir.user)))
  {
  }

  lemma PresentTable(s: Space, page: int)
    requires Shaped(s) && 0 <= page < PAGES && Walk(s, page).Some?
    ensures HasTable(s, page)
  {
  }

  /** What that means for the processor, page by page. */
  lemma GrantedAccess(s: Space, s': Space, first: int, next: int, r: Rights, page: int)
    requires Shaped(s) && Shaped(s') && 0 <= page < PAGES && Granted(s, s', first, next, r)
    ensures Walk(s, page).Some? ==> Access(s', page) == Access(s, page)
    ensures Walk(s, page).None? && Walk(s', page).Some? ==>
      var had, dir := HasTable(s, page), DirRights(s, DirIndex(page));
      && first <= page < next
      && Access(s', page) == Some(Rights(r.write && (had ==> dir.write), r.user && (had ==> dir.user)))
  {
    if Walk(s, page).Some? {
      PresentTable(s, page);
    } else if Walk(s', page).Some? {
      assert Flags(s', page) != Flags(s, page);
      GrantedPage(s, s', first, page, next, r);
      PageAccess(s, s', page, r);
    }
  }

  /** The physical address the processor uses for a virtual one. */
  function HardTranslate(s: Space, va: int): Option<int>
    requires Shaped(s) && 0 <= va < PAGES * PAGE_SIZE
  {
    var frame := Walk(s, va / PAGE_SIZE);
    if frame.None? then None else Some(frame.value * PAGE_SIZE + va % PAGE_SIZE)
  }

  /** The frame behind a virtual page of kernel memory: the boot mapping until paging is on, the walk afterwards. */
  function FrameOf(s: Space, page: int): Option<int>
    requires Shaped(s) && 0 <= page < PAGES
  {
    if s.paging then Walk(s, page) else Some(page - KERN_PAGE)
  }

  /** The table the kernel reads through a pointer of `refs`. */
  function TableAt(s: Space, va: int): Option<seq<Pte>>
    requires Shaped(s) && 0 <= va < PAGES * PAGE_SIZE
  {
    var frame := FrameOf(s, va / PAGE_SIZE);
    if frame.Some? && frame.value in s.phys then Some(s.phys[frame.value]) else None
  }

  /** virt2phys: the kernel's own lookup; None stands for the NULL it returns after complaining. */
  function Virt2Phys(s: Space, va: int): Option<int>
    requires Shaped(s) && 0 <= va < PAGES * PAGE_SIZE
    requires forall d :: 0 <= d < ENTRIES ==> 0 <= s.refs[d] < PAGES * PAGE_SIZE
  {
    if !s.paging then Some(va - KERN_BASE)
    else
      var page := va / PAGE_SIZE;
      var ref := s.refs[DirIndex(page)];
      if ref == 0 then None
      else
        var table := TableAt(s, ref);
        if table.None? || |table.value| != ENTRIES || !table.value[TblIndex(page)].present then None
        else Some(table.value[TblIndex(page)].frame * PAGE_SIZE + va % PAGE_SIZE)
  }

  ghost predicate CoherentAt(s: Space, d: int)
    requires Shaped(s) && 0 <= d < ENTRIES
  {
    && 0 <= s.refs[d] < PAGES * PAGE_SIZE && s.refs[d] % PAGE_SIZE == 0
    && (s.refs[d] != 0 <==> s.tables[d].present)
    && (s.refs[d] != 0 ==>
          && FrameOf(s, s.refs[d] / PAGE_SIZE) == Some(s.tables[d].frame)
          && s.tables[d].frame in s.phys && |s.phys[s.tables[d].frame]| == ENTRIES)
  }

  /** Both views of every table agree, and no two tables share a frame. */
  ghost predicate Coherent(s: Space)
  {
    && Shaped(s)
    && (forall d {:trigger CoherentAt(s, d)} :: 0 <= d < ENTRIES ==> CoherentAt(s, d))
    && (forall d, e :: 0 <= d < e < ENTRIES && s.tables[d].present && s.tables[e].present ==>
          s.tables[d].frame != s.tables[e].frame)
  }

  /** The kernel's lookup and the processor's walk give the same answer at every address. */
  lemma SoftEqualsHard(s: Space, va: int)
    requires Coherent(s) && s.paging && 0 <= va < PAGES * PAGE_SIZE
    ensures forall d :: 0 <= d < ENTRIES ==> 0 <= s.refs[d] < PAGES * PAGE_SIZE
    ensures Virt2Phys(s, va) == HardTranslate(s, va)
  {
    forall d | 0 <= d < ENTRIES
      ensures 0 <= s.refs[d] < PAGES * PAGE_SIZE
    {
      assert CoherentAt(s, d);
    }
    assert CoherentAt(s, DirIndex(va / PAGE_SIZE));
  }

  /** For an aligned address that lies in kernel memory virt2phys gives the frame's first byte. */
  lemma Virt2PhysFrame(s: Space, va: int)
    requires Coherent(s) && 0 <= va < PAGES * PAGE_SIZE && va % PAGE_SIZE == 0 && FrameOf(s, va / PAGE_SIZE).Some?
    ensures forall d :: 0 <= d < ENTRIES ==> 0 <= s.refs[d] < PAGES * PAGE_SIZE
    ensures Virt2Phys(s, va) == Some(FrameOf(s, va / PAGE_SIZE).value * PAGE_SIZE)
  {
    forall d | 0 <= d < ENTRIES
      ensures 0 <= s.refs[d] < PAGES * PAGE_SIZE
    {
      assert CoherentAt(s, d);
    }
    if s.paging {
      SoftEqualsHard(s, va);
    }
  }

  // ---- A new, empty table ----

  function Install(s: Space, d: int, table: int, frame: int, rw: bool, user: bool): Space
    requires Shaped(s) && 0 <= d < ENTRIES
  {
    Space(s.tables[d := Pde(true, frame, rw, user)], s.refs[d := table], s.phys[frame := EmptyTable()], s.paging)
  }

  ghost predicate FreshTable(s: Space, d: int, table: int, frame: int)
    requires Shaped(s) && 0 <= d < ENTRIES
  {
    && !s.tables[d].present
    && 0 < table < PAGES * PAGE_SIZE && table % PAGE_SIZE == 0
    && FrameOf(s, table / PAGE_SIZE) == Some(frame)
    && forall e :: 0 <= e < ENTRIES && s.tables[e].present ==> s.tables[e].frame != frame
  }

  /** Installing a table maps nothing new and disturbs no walk. */
  lemma InstallWalk(s: Space, d: int, table: int, frame: int, rw: bool, user: bool, page: int)
    requires Coherent(s) && 0 <= d < ENTRIES && FreshTable(s, d, table, frame) && 0 <= page < PAGES
    ensures Walk(Install(s, d, table, frame, rw, user), page) == Walk(s, page)
    ensures Flags(Install(s, d, table, frame, rw, user), page) == Flags(s, page)
  {
  }

  lemma InstallGranted(s: Space, s': Space, page: int, table: int, frame: int, rw: bool, user: bool)
    requires Shaped(s) && 0 <= page < PAGES && !HasTable(s, page)
    requires s' == Install(s, DirIndex(page), table, frame, rw, user)
    requires forall pg :: 0 <= pg < PAGES ==> Flags(s', pg) == Flags(s, pg)
    ensures Granted(s, s', page, page + 1, Rights(rw, user))
  {
    hide Flags;
  }

  lemma NothingGranted(s: Space, first: int, r: Rights)
    requires Shaped(s)
    ensures Granted(s, s, first, first, r) && Granted(s, s, first, first + 1, r)
  {
  }

  lemma InstallCoherent(s: Space, d: int, table: int, frame: int, rw: bool, user: bool)
    requires Coherent(s) && 0 <= d < ENTRIES && FreshTable(s, d, table, frame)
    ensures Coherent(Install(s, d, table, frame, rw, user))
  {
    var s' := Install(s, d, table, frame, rw, user);
    forall e {:trigger CoherentAt(s', e)} | 0 <= e < ENTRIES
      ensures CoherentAt(s', e)
    {
      assert CoherentAt(s, e);
      InstallWalk(s, d, table, frame, rw, user, s'.refs[e] / PAGE_SIZE);
    }
  }

  // ---- A new or changed page table entry ----

  function SetEntry(s: Space, page: int, pte: Pte): Space
    requires Shaped(s) && 0 <= page < PAGES
    requires s.tables[DirIndex(page)].frame in s.phys && |s.phys[s.tables[DirIndex(page)].frame]| == ENTRIES
  {
    var frame := s.tables[DirIndex(page)].frame;
    s.(phys := s.phys[frame := s.phys[frame][TblIndex(page) := pte]])
  }

  /** Writing one entry changes the walk of that page and of no other. */
  lemma SetEntryWalk(s: Space, page: int, pte: Pte, other: int)
    requires Coherent(s) && 0 <= page < PAGES && HasTable(s, page) && 0 <= other < PAGES
    ensures s.tables[DirIndex(page)].frame in s.phys && |s.phys[s.tables[DirIndex(page)].frame]| == ENTRIES
    ensures Walk(SetEntry(s, page, pte), other) ==
            if other == page then (if pte.present then Some(pte.frame) else None) else Walk(s, other)
    ensures Flags(SetEntry(s, page, pte), other) ==
            if other == page then (if pte.present then Some(Rights(pte.rw, pte.user)) else None) else Flags(s, other)
  {
    assert CoherentAt(s, DirIndex(page)) && CoherentAt(s, DirIndex(other));
    assert other == ENTRIES * DirIndex(other) + TblIndex(other) && page == ENTRIES * DirIndex(page) + TblIndex(page);
  }

  /** No page table lies in the page. */
  ghost predicate HoldsNoTable(s: Space, page: int)
    requires Shaped(s)
  {
    forall d :: 0 <= d < ENTRIES && s.tables[d].present ==> s.refs[d] / PAGE_SIZE != page
  }

  /** With paging on, the views are out of step once the page of a table is absent. */
  lemma LostTable(s: Space, page: int)
    requires Shaped(s) && s.paging && 0 <= page < PAGES && Walk(s, page).None? && !HoldsNoTable(s, page)
    ensures !Coherent(s)
  {
    var d :| 0 <= d < ENTRIES && s.tables[d].present && s.refs[d] / PAGE_SIZE == page;
    assert !CoherentAt(s, d);
  }

  /** Mapping an absent page, or unmapping a page that holds no page table, keeps both views in step. */
  lemma SetEntryCoherent(s: Space, page: int, pte: Pte)
    requires Coherent(s) && 0 <= page < PAGES && HasTable(s, page)
    requires Walk(s, page) == None || !s.paging || HoldsNoTable(s, page)
    ensures s.tables[DirIndex(page)].frame in s.phys && |s.phys[s.tables[DirIndex(page)].frame]| == ENTRIES
    ensures Coherent(SetEntry(s, page, pte))
  {
    assert CoherentAt(s, DirIndex(page));
    var s' := SetEntry(s, page, pte);
    forall e {:trigger CoherentAt(s', e)} | 0 <= e < ENTRIES
      ensures CoherentAt(s', e)
    {
      assert CoherentAt(s, e);
      SetEntryWalk(s, page, pte, s.refs[e] / PAGE_SIZE);
    }
  }

  /** Turning paging on keeps the views in step when the tables' own pages are mapped where boot put them. */
  lemma EnableCoherent(s: Space)
    requires Coherent(s) && !s.paging
    requires forall d :: 0 <= d < ENTRIES && s.tables[d].present ==>
               0 <= s.refs[d] / PAGE_SIZE < PAGES && Walk(s,
                 s.refs[d] / PAGE_SIZE) == Some(s.refs[d] / PAGE_SIZE - KERN_PAGE)
    ensures Coherent(s.(paging := true))
  {
    var s' := s.(paging := true);
    forall e {:trigger CoherentAt(s', e)} | 0 <= e < ENTRIES
      ensures CoherentAt(s', e)
    {
      assert CoherentAt(s, e);
    }
  }
}
