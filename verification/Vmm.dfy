/** The page-table manager on top of the frame allocator. */
module VirtualMemory {
  import opened Basics
  import opened FrameAllocator
  import opened Paging

  /** Page `pg` is backed by frame `owner[pg]`, and `holder` is the inverse of `owner`. */
  ghost predicate Backed(s: Space, owner: map<int, int>, holder: map<int, int>)
    requires Shaped(s)
  {
    && (forall pg :: pg in owner ==> 0 <= pg < PAGES && Walk(s, pg) == Some(owner[pg]))
    && (forall pg :: pg in owner ==> owner[pg] in holder && holder[owner[pg]] == pg)
    && (forall fr :: fr in holder ==> holder[fr] in owner && owner[holder[fr]] == fr)
  }

  /** Mapping an absent page leaves the owners as they were. */
  lemma BackedElse(s: Space, s': Space, owner: map<int, int>, holder: map<int, int>, page: int)
    requires Shaped(s) && Shaped(s') && Backed(s, owner, holder) && 0 <= page < PAGES && Walk(s, page).None?
    requires forall pg :: 0 <= pg < PAGES && pg != page ==> Walk(s', pg) == Walk(s, pg)
    ensures Backed(s', owner, holder) && page !in owner
  {
    hide Walk;
  }

  /** A new frame gets one owner. */
  lemma BackedMore(s: Space, s': Space, owner: map<int, int>, holder: map<int, int>, page: int, frame: int)
    requires Shaped(s) && Shaped(s') && Backed(s, owner, holder) && 0 <= page < PAGES && Walk(s, page).None?
    requires forall pg :: 0 <= pg < PAGES ==> Walk(s', pg) == if pg == page then Some(frame) else Walk(s, pg)
    requires frame !in holder
    ensures Backed(s', owner[page := frame], holder[frame := page])
  {
    hide Walk;
  }

  /** What the page table holds for a page, present or not, as far as there is a table. */
  function Stored(s: Space, page: int): Option<Pte>
    requires Shaped(s) && 0 <= page < PAGES
  {
    var pde := s.tables[DirIndex(page)];
    if !pde.present || pde.frame !in s.phys || |s.phys[pde.frame]| != ENTRIES then None
    else Some(s.phys[pde.frame][TblIndex(page)])
  }

  /** The entry of a page that is present. */
  function EntryAt(s: Space, page: int): Pte
    requires Shaped(s) && 0 <= page < PAGES && Walk(s, page).Some?
  {
    s.phys[s.tables[DirIndex(page)].frame][TblIndex(page)]
  }

  lemma EntryFlags(s: Space, page: int)
    requires Shaped(s) && 0 <= page < PAGES && Walk(s, page).Some?
    ensures Flags(s, page) == Some(Rights(EntryAt(s, page).rw, EntryAt(s, page).user))
  {
  }

  /** The page is absent, or its frame has a bit in a bitmap of n bits. */
  ghost predicate InBitmap(s: Space, page: int, n: int)
    requires Shaped(s)
  {
    0 <= page < PAGES && (Walk(s, page).Some? ==> 0 <= Walk(s, page).value < n)
  }

  lemma SameTables(s: Space, s': Space, page: int)
    requires Shaped(s) && Shaped(s') && s'.tables == s.tables && s'.refs == s.refs && HoldsNoTable(s, page)
    ensures HoldsNoTable(s', page)
  {
  }

  lemma HeldFrame(s: Space, owner: map<int, int>, holder: map<int, int>, page: int)
    requires Shaped(s) && Backed(s, owner, holder)
    ensures page in owner ==> 0 <= page < PAGES && Walk(s, page) == Some(owner[page])
    ensures page in owner ==> |holder - {owner[page]}| == |holder| - 1
  {
    if page in owner {
      var fr := owner[page];
      assert holder.Keys == (holder - {fr}).Keys + {fr};
    }
  }

  lemma {:induction false} SameSize(s: set<nat>, t: set<int>)
    requires forall k: int :: k in s <==> k in t
    ensures |s| == |t|
  {
    if s == {} {
      forall k: int
        ensures k !in t
      {
        assert k !in s;
      }
    } else {
      var k :| k in s;
      SameSize(s - {k}, t - {k});
    }
  }

  /** The counter is short of the frames held by the number of foreign frames released. */
  ghost predicate ShortBy(held: int, used: int, foreign: int)
  {
    (held - used - foreign) % UINT32 == 0
  }

  lemma CountStep(held: int, used: int, foreign: int)
    requires ShortBy(held, used, foreign)
    ensures ShortBy(held - 1, (used - 1) % UINT32, foreign)
    ensures ShortBy(held, (used - 1) % UINT32, foreign + 1)
  {
    var q := (used - 1) / UINT32;
    assert used - 1 == q * UINT32 + (used - 1) % UINT32;
    var k := (held - used - foreign) / UINT32;
    assert held - used - foreign == k * UINT32;
    assert held - 1 - (used - 1) % UINT32 - foreign == (k + q) * UINT32;
  }

  lemma CountFreed(held: int, held': int, used: int, used': int, foreign: int, gone: bool, mine: bool)
    requires ShortBy(held, used, foreign) && (mine ==> gone)
    requires held' == (if gone && mine then held - 1 else held) && used' == (if gone then (used - 1) % UINT32 else used)
    ensures ShortBy(held', used', if gone && !mine then foreign + 1 else foreign)
  {
    CountStep(held, used, foreign);
  }

  lemma PresentHasTable(s: Space, owner: map<int, int>, holder: map<int, int>, page: int)
    requires Coherent(s) && Backed(s, owner, holder) && 0 <= page < PAGES
    ensures Walk(s, page).Some? ==> s.refs[DirIndex(page)] != 0 && HasTable(s, page)
    ensures page in owner ==> Walk(s, page) == Some(owner[page])
    ensures s.refs[DirIndex(page)] == 0 ==> Walk(s, page).None?
  {
    assert CoherentAt(s, DirIndex(page));
  }

  /** Unmapping a present page: the owners stay in order exactly if an owner gives up its frame. */
  lemma BackedLess(s: Space, s': Space, owner: map<int, int>, holder: map<int, int>, page: int, free: bool)
    requires Shaped(s) && Shaped(s') && Backed(s, owner, holder) && 0 <= page < PAGES && Walk(s, page).Some?
    requires forall pg :: 0 <= pg < PAGES ==> Walk(s', pg) == if pg == page then None else Walk(s, pg)
    ensures var o, h := if free then owner - {page} else owner, if free &&
      page in owner then holder - {owner[page]} else holder;
      Backed(s', o, h) <==> free || page !in owner
  {
    hide Walk;
    if free && page in owner {
      var o, h := owner - {page}, holder - {owner[page]};
      forall pg | pg in o
        ensures o[pg] in h && h[o[pg]] == pg
      {
        assert holder[owner[pg]] == pg && holder[owner[page]] == page;
      }
    }
  }

  /**
    The taken frames are those held, before and after, exactly if an allocator's frame was released or
    a foreign one kept.
   */
  lemma FramesLess(s: Space, owner: map<int, int>, holder: map<int, int>, taken: set<nat>, page: int, free: bool)
    requires Shaped(s) && Backed(s, owner, holder) && 0 <= page < PAGES && Walk(s, page).Some?
    requires forall fr: int :: fr in taken <==> fr in holder
    ensures var t: set<int> := if free then taken - {Walk(s, page).value} else taken;
      var h := if free && page in owner then holder - {owner[page]} else holder;
      (forall fr: int :: fr in t <==> fr in h) <==> !free || page in owner || Walk(s, page).value !in taken
    ensures page in owner ==> Walk(s, page).value in taken
  {
    hide Walk;
    var fr := Walk(s, page).value;
    if free && page !in owner && fr in taken {
      assert fr in holder && fr !in taken - {fr};
    }
  }

  /** ALIGN: the page boundary after `addr`, which is never `addr` itself. */
  function AlignAfter(addr: int): (r: int)
    ensures r % PAGE_SIZE == 0 && addr < r <= addr + PAGE_SIZE
  {
    addr / PAGE_SIZE * PAGE_SIZE + PAGE_SIZE
  }

  /** Whole pages move the boundary by themselves, wherever in its page the pointer was. */
  lemma AlignMoves(addr: int, size: int)
    requires size % PAGE_SIZE == 0
    ensures AlignAfter(addr + size) == AlignAfter(addr) + size
  {
    assert addr + size == (addr / PAGE_SIZE + size / PAGE_SIZE) * PAGE_SIZE + addr % PAGE_SIZE;
  }

  /**
    What allocate_page does to the walks, the owners and the taken frames: a present page is left
    alone, an absent one gets `frame`, or, when that is 0, the lowest free frame of the allocator. When
    the allocator is `full` its answer 0 is taken for a frame, which then belongs to nobody.
   */
  ghost predicate PageAllocated(s: Space, owner: map<int, int>, taken: set<nat>,
                                s': Space, owner': map<int, int>, taken': set<nat>, page: int, frame: int, full: bool)
    requires Shaped(s) && Shaped(s') && 0 <= page < PAGES
  {
    && (forall pg :: 0 <= pg < PAGES && pg != page ==> Walk(s', pg) == Walk(s, pg))
    && (if Walk(s, page).Some? then Walk(s', page) == Walk(s, page) && owner' == owner && taken' == taken
        else if frame != 0 || full then Walk(s', page) == Some(frame) && owner' == owner && taken' == taken
        else
          && page in owner' && owner'[page] >= 0 && owner' == owner[page := owner'[page]] && Walk(s',
            page) == Some(owner'[page])
          && owner'[page] !in taken && taken' == taken + {owner'[page]}
          && forall k: nat :: k < owner'[page] ==> k in taken)
  }

  lemma StillAllocated(s: Space, owner: map<int, int>, taken: set<nat>, page: int, frame: int, full: bool)
    requires Shaped(s) && 0 <= page < PAGES && Walk(s, page).Some?
    ensures PageAllocated(s, owner, taken, s, owner, taken, page, frame, full)
  {
  }

  lemma NowAllocated(s: Space, owner: map<int, int>, taken: set<nat>, s': Space, owner': map<int, int>,
                     taken': set<nat>,
                     page: int, frame: int, full: bool, t: int)
    requires Shaped(s) && Shaped(s') && 0 <= page < PAGES && Walk(s, page).None? && t >= 0
    requires forall pg :: 0 <= pg < PAGES ==> Walk(s', pg) == if pg == page then Some(t) else Walk(s, pg)
    requires frame != 0 || full ==> t == frame && owner' == owner && taken' == taken
    requires frame == 0 && !full ==>
      owner' == owner[page := t] && t !in taken && taken' == taken + {t} && forall k: nat :: k < t ==> k in taken
    ensures PageAllocated(s, owner, taken, s', owner', taken', page, frame, full)
  {
    hide Walk;
  }

  /** The first `n` pages from KERN_BASE on are mapped to the frames 0 to n - 1, and nothing else is. */
  ghost predicate LinearMap(s: Space, owner: map<int, int>, taken: set<nat>, n: int)
    requires Shaped(s)
  {
    && (forall k :: k in taken <==> 0 <= k < n)
    && (forall pg :: 0 <= pg < PAGES ==> Walk(s, pg) == if 0 <= pg - KERN_PAGE < n then Some(pg - KERN_PAGE) else None)
    && (forall pg :: pg in owner <==> 0 <= pg - KERN_PAGE < n)
  }

  lemma LinearRoom(s: Space, owner: map<int, int>, taken: set<nat>, n: int, max: nat)
    requires Shaped(s) && 0 <= n < max && n <= 3 * ENTRIES && LinearMap(s, owner, taken, n)
    requires forall k :: k in taken ==> k < max
    ensures |taken| < max && Walk(s, KERN_PAGE + n) == None
  {
    Pigeonhole(taken, max);
    assert n !in taken;
  }

  lemma {:induction false} LinearFull(taken: set<nat>, n: nat)
    requires forall k :: k in taken <==> 0 <= k < n
    ensures |taken| == n
  {
    if n > 0 {
      LinearFull(taken - {n - 1}, n - 1);
      assert n - 1 in taken;
    } else {
      assert taken == {};
    }
  }

  lemma LinearNext(s: Space, owner: map<int, int>, taken: set<nat>, s': Space, owner': map<int, int>,
                   taken': set<nat>, n: int)
    requires Shaped(s) && Shaped(s') && 0 <= n < 3 * ENTRIES && LinearMap(s, owner, taken, n)
    requires PageAllocated(s, owner, taken, s', owner', taken', KERN_PAGE + n, 0, false)
    ensures LinearMap(s', owner', taken', n + 1)
  {
    assert Walk(s, KERN_PAGE + n) == None;
    hide Walk;
    assert n !in taken && owner'[KERN_PAGE + n] == n;
  }

  /**
    What allocate_region does to the pages in [first, next): present ones are left alone, absent ones
    are mapped to themselves or to a frame of the allocator, which page 0 gets as long as there is one.
   */
  ghost predicate RegionAllocated(s: Space, owner: map<int, int>, s': Space, owner': map<int, int>, first: int,
                                  next: int, iden: bool, full: bool)
    requires Shaped(s) && Shaped(s') && 0 <= first <= next <= PAGES
  {
    && (forall pg :: 0 <= pg < PAGES && !(first <= pg < next && Walk(s, pg).None?) ==> Walk(s', pg) == Walk(s, pg))
    && (forall pg :: first <= pg < next && Walk(s, pg).None? ==>
          if iden && (pg != 0 || full) then Walk(s', pg) == Some(pg)
          else pg in owner' && Walk(s', pg) == Some(owner'[pg]))
    && (forall pg ::
          (pg in owner' <==>
           pg in owner || (first <= pg < next && Walk(s, pg).None? && (!iden || (pg == 0 && !full)))))
    && (forall pg :: pg in owner ==> owner'[pg] == owner[pg])
  }

  lemma RegionStep(s: Space, owner: map<int, int>, s1: Space, owner1: map<int, int>, t1: set<nat>,
                   s2: Space, owner2: map<int, int>, t2: set<nat>, first: int, page: int, iden: bool, full: bool,
                     full1: bool)
    requires Shaped(s) && Shaped(s1) && Shaped(s2) && 0 <= first <= page < PAGES
    requires RegionAllocated(s, owner, s1, owner1, first, page, iden, full)
    requires PageAllocated(s1, owner1, t1, s2, owner2, t2, page, if iden then page else 0, full1)
    requires iden ==> page != 0 || full1 == full
    requires !iden ==> !full1 && !full
    requires forall pg :: pg in owner ==> 0 <= pg < PAGES && Walk(s, pg).Some?
    ensures RegionAllocated(s, owner, s2, owner2, first, page + 1, iden, full)
  {
    hide Walk;
  }

  /** Page tables needed for the first `n` pages from KERN_BASE on. */
  function TablesFor(n: int): int
  {
    (n + ENTRIES - 1) / ENTRIES
  }

  lemma OneMoreTable(n: int)
    requires 0 <= n < 3 * ENTRIES
    ensures 0 <= TablesFor(n) <= 3 && 1 <= TablesFor(n + 1) && DirIndex(KERN_PAGE + n) == 768 + TablesFor(n + 1) - 1
    ensures TablesFor(n + 1) == TablesFor(n) || (TablesFor(n + 1) == TablesFor(n) + 1 && TablesFor(n) <= 2)
  {
  }

  class Vmm {
    const pmm: Pmm
    var sp: Space
    var tempMem: int
    ghost var owner: map<int, int>   // pages backed by a frame of the allocator
    ghost var holder: map<int, int>

    ghost predicate Valid()
      reads this, pmm, pmm.bitmap
    {
      && pmm.Valid() && pmm.Counted() && pmm.maxBlocks % 32 == 0
      && Shaped(sp) && Coherent(sp)
      && Backed(sp, owner, holder)
      && (forall fr: int :: fr in pmm.taken <==> fr in holder)
    }

    /** The state before vmm_init: an empty directory and no frame taken. */
    constructor (pmm: Pmm, mem: int)
      requires pmm.Valid() && pmm.Counted() && pmm.maxBlocks % 32 == 0 && pmm.taken == {}
      ensures Valid() && this.pmm == pmm && tempMem == mem && owner == map[]
      ensures !sp.paging && LinearMap(sp, owner, pmm.taken, 0) && forall d :: 0 <= d < ENTRIES ==> !sp.tables[d].present
    {
      this.pmm := pmm;
      tempMem := mem;
      sp := Space(seq(ENTRIES, _ => Pde(false, 0, false, false)), seq(ENTRIES, _ => 0), map[], false);
      owner, holder := map[], map[];
      new;
      forall d {:trigger CoherentAt(sp, d)} | 0 <= d < ENTRIES
        ensures CoherentAt(sp, d)
      {
      }
    }

    /** dumb_kmalloc: IS_ALIGN never holds, so an aligned result is always moved up. */
    method DumbKmalloc(size: int, align: bool) returns (r: int)
      modifies `tempMem
      ensures r == (if align then AlignAfter(old(tempMem)) else old(tempMem)) && tempMem == old(tempMem) + size
    {
      r := tempMem;
      if align {
        r := AlignAfter(r);
      }
      tempMem := tempMem + size;
    }

    /** Any run of aligned requests for whole pages gives aligned stretches of memory that do not overlap. */
    method DumbRun(sizes: seq<int>) returns (rs: seq<int>)
      requires forall i :: 0 <= i < |sizes| ==> sizes[i] >= 0 && sizes[i] % PAGE_SIZE == 0
      modifies `tempMem
      ensures |rs| == |sizes| && forall i :: 0 <= i < |rs| ==> rs[i] % PAGE_SIZE == 0 && rs[i] > old(tempMem)
      ensures forall i, j :: 0 <= i < j < |rs| ==> rs[i] + sizes[i] <= rs[j]
    {
      rs := [];
      while |rs| < |sizes|
        invariant |rs| <= |sizes| && old(tempMem) <= tempMem
        invariant forall i :: 0 <= i < |rs| ==>
          rs[i] % PAGE_SIZE == 0 && rs[i] > old(tempMem) && rs[i] + sizes[i] <= AlignAfter(tempMem)
        invariant forall i, j :: 0 <= i < j < |rs| ==> rs[i] + sizes[i] <= rs[j]
      {
        var n := |rs|;
        ghost var mem := tempMem;
        var one := DumbKmalloc(sizes[n], true);
        AlignMoves(mem, sizes[n]);
        rs := rs + [one];
      }
    }

    /** Clears a table and enters it in both views of the directory. */
    method InstallTable(d: int, table: int, rw: bool, user: bool)
      requires Valid() && 0 <= d < ENTRIES && 0 <= table < PAGES * PAGE_SIZE
      requires FrameOf(sp, table / PAGE_SIZE).Some? && FreshTable(sp, d, table, FrameOf(sp, table / PAGE_SIZE).value)
      modifies `sp
      ensures Valid()
      ensures sp == Install(old(sp), d, table, FrameOf(old(sp), table / PAGE_SIZE).value, rw, user)
      ensures forall pg :: 0 <= pg < PAGES ==> Walk(sp, pg) == Walk(old(sp), pg) && Flags(sp, pg) == Flags(old(sp), pg)
    {
      Virt2PhysFrame(sp, table);
      var frame := Virt2Phys(sp, table).value / PAGE_SIZE;
      InstallCoherent(sp, d, table, frame, rw, user);
      forall pg | 0 <= pg < PAGES
        ensures Walk(Install(sp, d, table, frame, rw, user), pg) == Walk(sp, pg)
        ensures Flags(Install(sp, d, table, frame, rw, user), pg) == Flags(sp, pg)
      {
        InstallWalk(sp, d, table, frame, rw, user, pg);
      }
      sp := Install(sp, d, table, frame, rw, user);
    }

    /** Writes a page table entry through the kernel's pointer to the table. */
    method StoreEntry(page: int, pte: Pte)
      requires Coherent(sp) && 0 <= page < PAGES && HasTable(sp, page)
      modifies `sp
      ensures Shaped(sp) && sp.tables == old(sp).tables && sp.refs == old(sp).refs && sp.paging == old(sp).paging
      ensures forall pg :: 0 <= pg < PAGES ==>
                Walk(sp, pg) == if pg == page then (if pte.present then Some(pte.frame) else None) else Walk(old(sp),
                  pg)
      ensures forall pg :: 0 <= pg < PAGES ==>
        Flags(sp, pg) == if pg == page then (if pte.present then Some(Rights(pte.rw, pte.user)) else None)
          else Flags(old(sp), pg)
      ensures Stored(sp, page) == Some(pte)
      ensures Walk(old(sp), page) == None || !sp.paging || HoldsNoTable(old(sp), page) ==> Coherent(sp)
    {
      assert CoherentAt(sp, DirIndex(page));
      var frame := FrameOf(sp, sp.refs[DirIndex(page)] / PAGE_SIZE).value;
      var table := sp.phys[frame][TblIndex(page) := pte];
      forall pg | 0 <= pg < PAGES
        ensures Walk(SetEntry(sp, page, pte), pg) == if pg == page then (if pte.present then Some(pte.frame)
          else None) else Walk(sp, pg)
        ensures Flags(SetEntry(sp, page, pte), pg) == if pg == page then (if pte.present
          then Some(Rights(pte.rw, pte.user)) else None) else Flags(sp, pg)
      {
        SetEntryWalk(sp, page, pte, pg);
      }
      if Walk(sp, page) == None || !sp.paging || HoldsNoTable(sp, page) {
        SetEntryCoherent(sp, page, pte);
      }
      sp := sp.(phys := sp.phys[frame := table]);
    }

    /** The second half of allocate_page: an absent page gets `frame`, or a frame of the allocator when that is 0. */
    method MapEntry(page: int, frame: int, rw: bool, user: bool)
      requires Valid() && 0 <= page < PAGES && HasTable(sp, page) && frame >= 0
      modifies `sp, `owner, `holder, pmm, pmm.bitmap
      ensures Valid()
      ensures sp.tables == old(sp).tables && sp.refs == old(sp).refs && sp.paging == old(sp).paging
      ensures PageAllocated(old(sp), old(owner), old(pmm.taken), sp, owner, pmm.taken, page, frame,
        old(pmm.used) == pmm.maxBlocks)
      ensures Granted(old(sp), sp, page, page + 1, Rights(rw, user))
    {
      hide Pmm.Valid, Pmm.Counted, Walk, Flags, Stored, Coherent, Backed, PageAllocated;
      ghost var full := pmm.used == pmm.maxBlocks;
      if Walk(sp, page).None? {
        var t := frame;
        if frame == 0 {
          t := NextFrame();
        }
        StoreEntry(page, Pte(true, t, rw, user));
        BackedElse(old(sp), sp, owner, holder, page);
        if frame == 0 && !full {
          BackedMore(old(sp), sp, owner, holder, page, t);
          owner, holder := owner[page := t], holder[t := page];
        }
        NowAllocated(old(sp), old(owner), old(pmm.taken), sp, owner, pmm.taken, page, frame, full, t);
      } else {
        StillAllocated(sp, owner, pmm.taken, page, frame, full);
      }
    }

    /** A frame of the allocator, or 0 when all are in use. */
    method NextFrame() returns (t: nat)
      requires pmm.Valid() && pmm.Counted() && pmm.maxBlocks % 32 == 0
      modifies pmm, pmm.bitmap
      ensures pmm.Valid() && pmm.Counted()
      ensures if old(pmm.used) == pmm.maxBlocks then t == 0 && pmm.taken == old(pmm.taken) else
        t !in old(pmm.taken) && pmm.taken == old(pmm.taken) + {t} && forall k: nat :: k < t ==> k in old(pmm.taken)
    {
      Pigeonhole(pmm.taken, pmm.maxBlocks);
      if pmm.used != pmm.maxBlocks {
        pmm.WholeWordsNeverFallBack();
      }
      var addr := pmm.AllocBlock();
      t := addr / PAGE_SIZE;
    }

    /**
      free_page: releases the frame when `free` is set and clears the entry; absent pages are left
      alone. Page tables and frames are in order afterwards exactly when a frame was released just
      if it came from the allocator, and no page that holds a page table went with paging on.
     */
    method FreePage(page: int, free: bool)
      requires Mapped() && 0 <= page < PAGES
      requires free && Walk(sp, page).Some? ==> 0 <= Walk(sp, page).value < 32 * pmm.bitmap.Length
      modifies `sp, `owner, `holder, pmm, pmm.bitmap
      ensures Shaped(sp) && pmm.Valid() && sp.tables == old(sp).tables && sp.refs == old(sp).refs
      ensures sp.paging == old(sp).paging
      ensures forall pg :: 0 <= pg < PAGES ==> Walk(sp, pg) == if pg == page then None else Walk(old(sp), pg)
      ensures forall pg :: 0 <= pg < PAGES ==> Flags(sp, pg) == if pg == page then None else Flags(old(sp), pg)
      // Of the entry only the frame and the present bit are cleared.
      ensures Walk(old(sp), page).Some? ==>
        Stored(sp, page) == Some(Pte(false, 0, Flags(old(sp), page).value.write, Flags(old(sp), page).value.user))
      ensures var gone := free && Walk(old(sp), page).Some?;
        && pmm.taken == (if gone then old(pmm.taken) - {Walk(old(sp), page).value} else old(pmm.taken))
        && pmm.used == (if gone then (old(pmm.used) - 1) % UINT32 else old(pmm.used))
        && owner == (if gone then old(owner) - {page} else old(owner))
        && holder == (if gone && page in old(owner) then old(holder) - {old(owner)[page]} else old(holder))
      ensures Mapped() <==>
        Walk(old(sp), page).None? || ((free || page !in old(owner)) && (sp.paging ==> HoldsNoTable(old(sp), page)))
      ensures old(Valid()) ==>
        (Valid() <==> Walk(old(sp), page).None? || ((free <==> page in old(owner)) && (sp.paging ==>
          HoldsNoTable(old(sp), page))))
    {
      hide Pmm.Valid, Pmm.Counted, Coherent, Backed, Walk, Flags, Stored;
      ghost var s, o, h, t := sp, owner, holder, pmm.taken;
      PresentHasTable(sp, owner, holder, page);
      if sp.refs[DirIndex(page)] == 0 || Walk(sp, page).None? {
        return;
      }
      var entry := EntryAt(sp, page);
      EntryFlags(sp, page);
      if free {
        pmm.FreeBlock(Walk(sp, page).value * PAGE_SIZE);
        holder := if page in owner then holder - {owner[page]} else holder;
        owner := owner - {page};
      }
      StoreEntry(page, entry.(present := false, frame := 0));
      if sp.paging && !HoldsNoTable(s, page) {
        LostTable(sp, page);
      }
      BackedLess(s, sp, o, h, page, free);
      if forall fr: int :: fr in t <==> fr in h {
        FramesLess(s, o, h, t, page, free);
      }
    }

    /** Page tables and owners are in order, whatever the bitmap says. */
    ghost predicate Mapped()
      reads this, pmm, pmm.bitmap
    {
      pmm.Valid() && Shaped(sp) && Coherent(sp) && Backed(sp, owner, holder)
    }

    // ---- Before the heap: page tables come from dumb_kmalloc ----

    /** Boot state: tables lie in kernel memory below the next one that dumb_kmalloc would hand out. */
    ghost predicate Booting()
      reads this, pmm, pmm.bitmap
    {
      && Valid() && !sp.paging
      && KERN_BASE <= tempMem && AlignAfter(tempMem) <= KERN_BASE + 0x40_0000
      && forall d :: 0 <= d < ENTRIES && sp.tables[d].present ==> KERN_BASE <= sp.refs[d] < AlignAfter(tempMem)
    }

    method AllocatePage(page: int, frame: int, rw: bool, user: bool)
      requires Booting() && 0 <= page < PAGES && frame >= 0
      requires !HasTable(sp, page) ==> AlignAfter(tempMem) + PAGE_SIZE <= KERN_BASE + 0x40_0000
      modifies `sp, `owner, `holder, `tempMem, pmm, pmm.bitmap
      ensures Booting()
      ensures tempMem == old(tempMem) + if HasTable(old(sp), page) then 0 else PAGE_SIZE
      ensures forall d :: 0 <= d < ENTRIES ==>
        (sp.tables[d].present <==> d == DirIndex(page) || old(sp).tables[d].present)
      ensures PageAllocated(old(sp), old(owner), old(pmm.taken), sp, owner, pmm.taken, page, frame,
        old(pmm.used) == pmm.maxBlocks)
      ensures |pmm.taken| <= |old(pmm.taken)| + if frame == 0 then 1 else 0
      ensures Granted(old(sp), sp, page, page + 1, Rights(rw, user))
    {
      hide Flags, Granted;
      ghost var s := sp;
      NothingGranted(s, page, Rights(rw, user));
      if sp.refs[DirIndex(page)] == 0 {
        assert CoherentAt(sp, DirIndex(page));
        forall e | 0 <= e < ENTRIES && sp.tables[e].present
          ensures sp.tables[e].frame == sp.refs[e] / PAGE_SIZE - KERN_PAGE && sp.refs[e] % PAGE_SIZE == 0
        {
          assert CoherentAt(sp, e);
        }
        var table := DumbKmalloc(PAGE_SIZE, true);
        InstallTable(DirIndex(page), table, rw, user);
        InstallGranted(s, sp, page, table, sp.tables[DirIndex(page)].frame, rw, user);
      } else {
        assert CoherentAt(sp, DirIndex(page));
      }
      ghost var s1 := sp;
      MapEntry(page, frame, rw, user);
      GrantedMore(s, s1, sp, page, page + 1, page, page + 1, Rights(rw, user));
    }

    ghost predicate Linear(n: int, mem: int)
      reads this, pmm, pmm.bitmap
    {
      && Booting()
      && tempMem == mem + PAGE_SIZE * TablesFor(n)
      && (forall d :: 0 <= d < ENTRIES ==> (sp.tables[d].present <==> 0 <= d - 768 < TablesFor(n)))
      && LinearMap(sp, owner, pmm.taken, n)
    }

    /** A mapping loop of vmm_init. */
    method MapLinear(lo: int, hi: int, rw: bool, ghost mem: int)
      requires 0 <= lo <= hi <= 3 * ENTRIES && Linear(lo, mem)
      requires hi <= pmm.maxBlocks && AlignAfter(mem) + 3 * PAGE_SIZE <= KERN_BASE + 0x40_0000
      modifies this, pmm, pmm.bitmap
      ensures Linear(hi, mem) && Granted(old(sp), sp, KERN_PAGE + lo, KERN_PAGE + hi, Rights(rw, false))
    {
      hide Coherent, Backed, Walk, Flags, LinearMap, TablesFor, DirIndex, Covers, Granted;
      NothingGranted(sp, KERN_PAGE + lo, Rights(rw, false));
      var i := lo;
      while i < hi
        invariant lo <= i <= hi && Linear(i, mem)
        invariant Granted(old(sp), sp, KERN_PAGE + lo, KERN_PAGE + i, Rights(rw, false))
      {
        ghost var s, o, t := sp, owner, pmm.taken;
        OneMoreTable(i);
        LinearRoom(sp, owner, pmm.taken, i, pmm.maxBlocks);
        AllocatePage(KERN_PAGE + i, 0, rw, false);
        GrantedMore(old(sp), s, sp, KERN_PAGE + lo, KERN_PAGE + i, KERN_PAGE + i, KERN_PAGE + i + 1, Rights(rw, false));
        LinearNext(s, o, t, sp, owner, pmm.taken, i);
        i := i + 1;
      }
    }

    /** allocate_region: page by page, an identity mapping or frames of the allocator. */
    method AllocateRegion(startVa: int, endVa: int, iden: bool, rw: bool, user: bool)
      requires Booting() && 0 <= startVa <= endVa < PAGES * PAGE_SIZE
      // At the last page of the address space the 32-bit cursor would wrap to 0 and the loop would not end.
      requires endVa / PAGE_SIZE < PAGES - 1
      requires iden || pmm.used + endVa / PAGE_SIZE - startVa / PAGE_SIZE < pmm.maxBlocks
      requires var tables := DirIndex(endVa / PAGE_SIZE) - DirIndex(startVa / PAGE_SIZE) + 1;
        AlignAfter(tempMem) + PAGE_SIZE * tables <= KERN_BASE + 0x40_0000
      modifies this, pmm, pmm.bitmap
      ensures Booting()
      ensures forall d :: 0 <= d < ENTRIES ==>
        (sp.tables[d].present <==>
         old(sp).tables[d].present || DirIndex(startVa / PAGE_SIZE) <= d <= DirIndex(endVa / PAGE_SIZE))
      ensures RegionAllocated(old(sp), old(owner), sp, owner, startVa / PAGE_SIZE, endVa / PAGE_SIZE + 1, iden,
        old(pmm.used) == pmm.maxBlocks)
      ensures Granted(old(sp), sp, startVa / PAGE_SIZE, endVa / PAGE_SIZE + 1, Rights(rw, user))
    {
      hide Coherent, Backed, Walk, Flags, DirIndex, RegionAllocated, PageAllocated, Covers, Granted;
      NothingGranted(sp, startVa / PAGE_SIZE, Rights(rw, user));
      ghost var first, last := startVa / PAGE_SIZE, endVa / PAGE_SIZE;
      ghost var full := pmm.used == pmm.maxBlocks;
      RegionStart(sp, owner, holder, first, iden, full);
      var start, end := startVa / PAGE_SIZE * PAGE_SIZE, endVa / PAGE_SIZE * PAGE_SIZE;
      ghost var page := first;
      while start <= end
        invariant start == page * PAGE_SIZE && first <= page <= last + 1
        invariant Booting()
        invariant |pmm.taken| <= |old(pmm.taken)| + if !iden then page - first else if first == 0 < page then 1 else 0
        invariant tempMem <= old(tempMem) + PAGE_SIZE * (if page == first then 0
          else DirIndex(page - 1) - DirIndex(first) + 1)
        invariant page > first ==> HasTable(sp, page - 1)
        invariant forall d :: 0 <= d < ENTRIES ==>
          (sp.tables[d].present <==>
           old(sp).tables[d].present || (page > first && DirIndex(first) <= d <= DirIndex(page - 1)))
        invariant page == first ==> pmm.used == old(pmm.used)
        invariant RegionAllocated(old(sp), old(owner), sp, owner, first, page, iden, full)
        invariant Granted(old(sp), sp, first, page, Rights(rw, user))
        decreases end - start
      {
        ghost var s, o, t, full1 := sp, owner, pmm.taken, pmm.used == pmm.maxBlocks;
        DirSteps(first, page, last);
        AllocatePage(start / PAGE_SIZE, if iden then start / PAGE_SIZE else 0, rw, user);
        GrantedMore(old(sp), s, sp, first, page, page, page + 1, Rights(rw, user));
        RegionStep(old(sp), old(owner), s, o, t, sp, owner, pmm.taken, first, page, iden, full, full1);
        AddPage(page);
        start := (start + PAGE_SIZE) % (PAGES * PAGE_SIZE);
        page := page + 1;
      }
    }

    /**
      free_region: every page of the range is freed, whatever the `free` argument says. The bitmap and
      its counter are in order afterwards exactly when all pages that were present had frames of the
      allocator.
     */
    method FreeRegion(startVa: int, endVa: int)
      requires Valid() && 0 <= startVa <= endVa < PAGES * PAGE_SIZE && endVa / PAGE_SIZE < PAGES - 1
      requires forall pg :: startVa / PAGE_SIZE <= pg <= endVa / PAGE_SIZE ==> InBitmap(sp, pg, 32 * pmm.bitmap.Length)
      requires sp.paging ==>
        forall pg {:trigger HoldsNoTable(sp, pg)} :: startVa / PAGE_SIZE <= pg <= endVa / PAGE_SIZE ==>
          HoldsNoTable(sp, pg)
      modifies this, pmm, pmm.bitmap
      ensures Mapped()
      ensures Valid() <==> OwnedIn(old(sp), old(owner), startVa / PAGE_SIZE, endVa / PAGE_SIZE + 1)
      ensures sp.tables == old(sp).tables && sp.refs == old(sp).refs && sp.paging == old(sp).paging
      ensures tempMem == old(tempMem)
      ensures RegionFreed(old(sp), old(owner), sp, owner, startVa / PAGE_SIZE, endVa / PAGE_SIZE + 1)
    {
      hide Coherent, Backed, Walk, Pmm.Valid, Pmm.Counted, HoldsNoTable, ShortBy, RegionFreed, OwnedIn, InBitmap;
      ghost var first, last := startVa / PAGE_SIZE, endVa / PAGE_SIZE;
      var start, end := startVa / PAGE_SIZE * PAGE_SIZE, endVa / PAGE_SIZE * PAGE_SIZE;
      ghost var page, foreign := first, 0;
      StartRegion();
      NothingFreed(sp, owner, holder, first);
      while start <= end
        invariant start == page * PAGE_SIZE && first <= page <= last + 1
        invariant sp.tables == old(sp).tables && sp.refs == old(sp).refs && sp.paging == old(sp).paging
        invariant tempMem == old(tempMem)
        invariant FreedTo(old(sp), old(owner), first, page, foreign)
        decreases end - start
      {
        foreign := FreeNext(start / PAGE_SIZE, old(sp), old(owner), first, foreign);
        AddPage(page);
        start := (start + PAGE_SIZE) % (PAGES * PAGE_SIZE);
        page := page + 1;
      }
      if foreign > 0 {
        NotCounted(foreign);
      }
    }

    /** The pages in [first, page) are freed, `foreign` of them with frames that were not the allocator's. */
    ghost predicate FreedTo(s: Space, o: map<int, int>, first: int, page: int, foreign: int)
      requires Shaped(s) && 0 <= first <= page <= PAGES
      reads this, pmm, pmm.bitmap
    {
      && Mapped() && RegionFreed(s, o, sp, owner, first, page)
      && 0 <= foreign <= page - first && ShortBy(|holder|, pmm.used, foreign)
      && (foreign == 0 ==> Valid()) && (foreign == 0 <==> OwnedIn(s, o, first, page))
    }

    method FreeNext(page: int, ghost s: Space, ghost o: map<int, int>, ghost first: int, ghost foreign: int)
      returns (ghost foreign': int)
      requires Shaped(s) && 0 <= first <= page < PAGES && FreedTo(s, o, first, page, foreign)
      requires sp.tables == s.tables && sp.refs == s.refs && InBitmap(s, page, 32 * pmm.bitmap.Length)
      requires (sp.paging ==> HoldsNoTable(s, page))
      modifies `sp, `owner, `holder, pmm, pmm.bitmap
      ensures FreedTo(s, o, first, page + 1, foreign')
      ensures sp.tables == s.tables && sp.refs == s.refs && sp.paging == old(sp).paging
    {
      hide Coherent, Backed, Walk, Pmm.Valid, Pmm.Counted, HoldsNoTable, ShortBy, RegionFreed, OwnedIn, Valid;
      if sp.paging {
        SameTables(s, sp, page);
      }
      HeldFrame(sp, owner, holder, page);
      NotYetFreed(s, o, sp, owner, first, page);
      ghost var held, used, gone, mine := |holder|, pmm.used, Walk(s, page).Some?, page in owner;
      FreePage(page, true);
      FreedMore(s, o, old(sp), old(owner), sp, owner, first, page);
      foreign' := if gone && !mine then foreign + 1 else foreign;
      CountFreed(held, |holder|, used, pmm.used, foreign, gone, mine);
    }

    lemma StartRegion()
      requires Valid()
      ensures Mapped() && |holder| == pmm.used && ShortBy(|holder|, pmm.used, 0)
    {
      var keys := set fr: int | fr in holder;
      assert keys == holder.Keys;
      SameSize(pmm.taken, keys);
    }

    /** A counter that has lost track of a foreign page cannot be in order. */
    lemma NotCounted(foreign: int)
      requires 0 < foreign < UINT32 && ShortBy(|holder|, pmm.used, foreign)
      ensures !Valid()
    {
      if Valid() {
        StartRegion();
      }
    }

    /** Allocating a region of absent pages and freeing it again gives back every frame and the count. */
    method AllocateThenFreeRegion(startVa: int, endVa: int, rw: bool, user: bool)
      requires Booting() && 0 <= startVa <= endVa < PAGES * PAGE_SIZE && endVa / PAGE_SIZE < PAGES - 1
      requires pmm.used + endVa / PAGE_SIZE - startVa / PAGE_SIZE < pmm.maxBlocks
      requires var tables := DirIndex(endVa / PAGE_SIZE) - DirIndex(startVa / PAGE_SIZE) + 1;
        AlignAfter(tempMem) + PAGE_SIZE * tables <= KERN_BASE + 0x40_0000
      requires forall pg :: startVa / PAGE_SIZE <= pg <= endVa / PAGE_SIZE ==> Walk(sp, pg).None?
      modifies this, pmm, pmm.bitmap
      ensures Valid() && owner == old(owner) && pmm.taken == old(pmm.taken) && pmm.used == old(pmm.used)
      ensures forall pg :: 0 <= pg < PAGES ==> Walk(sp, pg) == Walk(old(sp), pg)
    {
      hide Coherent, Walk, RegionAllocated, RegionFreed, OwnedIn;
      ghost var first, next := startVa / PAGE_SIZE, endVa / PAGE_SIZE + 1;
      AllocateRegion(startVa, endVa, false, rw, user);
      Freeable(old(sp), old(owner), sp, owner, holder, first, next, 32 * pmm.bitmap.Length);
      ghost var s, o := sp, owner;
      FreeRegion(startVa, endVa);
      RegionRestored(old(sp), old(owner), old(holder), s, o, sp, owner, first, next);
      SameFrames(old(sp), sp, owner, old(holder), holder);
      assert forall fr :: fr in pmm.taken <==> fr in old(pmm.taken);
    }

    /** vmm_init: maps the kernel's 4 MiB and the heap's first 8 MiB, then the low region, and turns paging on. */
    method Init()
      requires Booting() && LinearMap(sp, owner, pmm.taken, 0) && forall d :: 0 <= d < ENTRIES ==> !sp.tables[d].present
      requires pmm.maxBlocks >= 3 * ENTRIES && AlignAfter(tempMem) + 6 * PAGE_SIZE <= KERN_BASE + 0x40_0000
      modifies this, pmm, pmm.bitmap
      ensures Valid() && sp.paging
      // The processor translates the kernel's 12 MiB as virt2phys did while paging was off.
      ensures !old(sp).paging && forall d :: 0 <= d < ENTRIES ==> 0 <= old(sp).refs[d] < PAGES * PAGE_SIZE
      ensures forall va :: KERN_BASE <= va < KERN_BASE + 0xc0_0000 ==> HardTranslate(sp, va) == Virt2Phys(old(sp), va)
      ensures forall pg :: KERN_PAGE <= pg < KERN_PAGE + 3 * ENTRIES ==>
        pg in owner && Walk(sp, pg) == Some(pg - KERN_PAGE)
      ensures forall pg :: KERN_PAGE + 3 * ENTRIES <= pg < PAGES ==> Walk(sp, pg) == None
      ensures forall d :: 0 <= d < ENTRIES && sp.tables[d].present ==> KERN_BASE <= sp.refs[d] < KERN_BASE + 0x40_0000
      ensures forall d :: 0 <= d < ENTRIES ==> (sp.tables[d].present <==> d == 0 || 768 <= d < 771)
      // The low region is mapped to itself, except for page 0, which gets a frame of the allocator while there is one.
      ensures forall pg :: 0 < pg <= 16 ==> Walk(sp, pg) == Some(pg)
      ensures if pmm.maxBlocks == 3 * ENTRIES then Walk(sp, 0) == Some(0) else 0 in owner
      ensures forall pg :: 16 < pg < KERN_PAGE ==> Walk(sp, pg) == None
      // No page is open to user mode, and only the heap's are writable.
      ensures forall pg :: 0 <= pg < PAGES && Walk(sp, pg).Some? ==>
        Access(sp, pg) == Flags(sp, pg) == Some(BootRights(pg))
      ensures forall d :: 769 <= d < 771 ==> DirRights(sp, d) == KERNEL
    {
      hide Coherent, Backed, Walk, Flags, Granted, Access, Virt2Phys, HardTranslate;
      ghost var s0 := sp;
      RefsInRange(sp);
      var dir := DumbKmalloc(2 * PAGE_SIZE, true);
      ghost var mem := tempMem;
      MapLinear(0, ENTRIES, false, mem);
      ghost var s1 := sp;
      MapLinear(ENTRIES, 3 * ENTRIES, true, mem);
      ghost var s2 := sp;
      LinearFull(pmm.taken, 3 * ENTRIES);
      assert forall d :: 0 <= d < ENTRIES ==> (sp.tables[d].present <==> 768 <= d < 771);
      AllocateRegion(0, 0x1_0000, true, false, false);
      ghost var s3 := sp;
      TurnOn();
      InitRights(s0, s1, s2, s3, sp);
      forall va | KERN_BASE <= va < KERN_BASE + 0xc0_0000
        ensures HardTranslate(sp, va) == Virt2Phys(s0, va)
      {
        Linearly(s0, sp, va);
      }
    }

    method TurnOn()
      requires Booting()
      requires forall pg :: KERN_PAGE <= pg < KERN_PAGE + ENTRIES ==> Walk(sp, pg) == Some(pg - KERN_PAGE)
      modifies `sp
      ensures Valid() && sp == old(sp).(paging := true)
      ensures forall pg :: 0 <= pg < PAGES ==> Walk(sp, pg) == Walk(old(sp), pg) && Flags(sp, pg) == Flags(old(sp), pg)
    {
      hide Pmm.Valid, Pmm.Counted, Backed, Coherent, Walk, Flags;
      TablesAreMapped(sp, tempMem);
      EnableCoherent(sp);
      EnableWalk(sp, owner, holder);
      sp := sp.(paging := true);
    }
  }

  lemma RefsInRange(s: Space)
    requires Coherent(s)
    ensures forall d :: 0 <= d < ENTRIES ==> 0 <= s.refs[d] < PAGES * PAGE_SIZE
  {
    forall d | 0 <= d < ENTRIES
      ensures 0 <= s.refs[d] < PAGES * PAGE_SIZE
    {
      assert CoherentAt(s, d);
    }
  }

  /** Mapping the kernel's pages in frame order is the boot rule of virt2phys, address by address. */
  lemma Linearly(s: Space, s': Space, va: int)
    requires Shaped(s) && Shaped(s') && !s.paging && KERN_BASE <= va < KERN_BASE + 0xc0_0000
    requires forall d :: 0 <= d < ENTRIES ==> 0 <= s.refs[d] < PAGES * PAGE_SIZE
    requires forall pg :: KERN_PAGE <= pg < KERN_PAGE + 3 * ENTRIES ==> Walk(s', pg) == Some(pg - KERN_PAGE)
    ensures HardTranslate(s', va) == Virt2Phys(s, va) == Some(va - KERN_BASE)
  {
    hide Walk;
    assert KERN_PAGE <= va / PAGE_SIZE < KERN_PAGE + 3 * ENTRIES;
  }

  /** The heap's first 8 MiB are writable, the kernel's 4 MiB and the low region are not. */
  function BootRights(page: int): Rights
  {
    if KERN_PAGE + ENTRIES <= page < KERN_PAGE + 3 * ENTRIES then KERNEL else READ_ONLY
  }

  /** The rights left by the three mappings of vmm_init and the switch to paging. */
  lemma InitRights(s0: Space, s1: Space, s2: Space, s3: Space, s4: Space)
    requires Shaped(s0) && Shaped(s1) && Shaped(s2) && Shaped(s3) && Shaped(s4)
    requires forall d :: 0 <= d < ENTRIES ==> !s0.tables[d].present
    requires forall pg :: 0 <= pg < PAGES ==> Walk(s0, pg).None?
    requires Granted(s0, s1, KERN_PAGE, KERN_PAGE + ENTRIES, READ_ONLY)
    requires Granted(s1, s2, KERN_PAGE + ENTRIES, KERN_PAGE + 3 * ENTRIES, KERNEL)
    requires Granted(s2, s3, 0, 17, READ_ONLY)
    requires s4.tables == s3.tables && forall pg :: 0 <= pg < PAGES ==> Flags(s4, pg) == Flags(s3, pg)
    requires forall d :: 0 <= d < ENTRIES ==> (s4.tables[d].present <==> d == 0 || 768 <= d < 771)
    requires forall pg :: KERN_PAGE <= pg < KERN_PAGE + 3 * ENTRIES ==> Walk(s4, pg).Some?
    ensures forall pg :: 0 <= pg < PAGES && Walk(s4, pg).Some? ==>
      Access(s4, pg) == Flags(s4, pg) == Some(BootRights(pg))
    ensures forall d :: 769 <= d < 771 ==> DirRights(s4, d) == KERNEL
  {
    hide Walk, Flags;
    assert forall d :: 0 <= d < ENTRIES && s4.tables[d].present ==>
      DirRights(s4, d) == if 769 <= d < 771 then KERNEL else READ_ONLY;
    forall pg | 0 <= pg < PAGES && Walk(s4, pg).Some?
      ensures Flags(s4, pg) == Some(BootRights(pg))
      ensures s4.tables[DirIndex(pg)].present
    {
      assert Flags(s0, pg).None?;
      PresentTable(s4, pg);
    }
  }

  /** While booting every table lies in the part of the kernel image that is about to be mapped. */
  lemma TablesAreMapped(s: Space, temp: int)
    requires Coherent(s) && KERN_BASE <= temp && AlignAfter(temp) <= KERN_BASE + 0x40_0000
    requires forall d :: 0 <= d < ENTRIES && s.tables[d].present ==> KERN_BASE <= s.refs[d] < AlignAfter(temp)
    requires forall pg :: KERN_PAGE <= pg < KERN_PAGE + ENTRIES ==> Walk(s, pg) == Some(pg - KERN_PAGE)
    ensures forall d :: 0 <= d < ENTRIES && s.tables[d].present ==>
      0 <= s.refs[d] / PAGE_SIZE < PAGES && Walk(s, s.refs[d] / PAGE_SIZE) == Some(s.refs[d] / PAGE_SIZE - KERN_PAGE)
  {
    hide Walk;
    forall d | 0 <= d < ENTRIES && s.tables[d].present
      ensures 0 <= s.refs[d] / PAGE_SIZE < PAGES
      ensures Walk(s, s.refs[d] / PAGE_SIZE) == Some(s.refs[d] / PAGE_SIZE - KERN_PAGE)
    {
      assert CoherentAt(s, d);
    }
  }

  /** Switching paging on changes no translation by the tables. */
  lemma EnableWalk(s: Space, owner: map<int, int>, holder: map<int, int>)
    requires Shaped(s) && Backed(s, owner, holder)
    ensures var s' := s.(paging := true);
      && Shaped(s') && Backed(s', owner, holder)
      && forall pg :: 0 <= pg < PAGES ==> Walk(s', pg) == Walk(s, pg) && Flags(s', pg) == Flags(s, pg)
  {
    var s' := s.(paging := true);
    assert forall pg :: 0 <= pg < PAGES ==> Walk(s', pg) == Walk(s, pg) && Flags(s', pg) == Flags(s, pg);
    hide Walk;
  }

  ghost predicate RegionFreed(s: Space, owner: map<int, int>, s': Space, owner': map<int, int>, first: int, next: int)
    requires Shaped(s) && Shaped(s') && 0 <= first <= next <= PAGES
  {
    && (forall pg :: 0 <= pg < PAGES ==> Walk(s', pg) == if first <= pg < next then None else Walk(s, pg))
    && (forall pg :: 0 <= pg < PAGES ==> Flags(s', pg) == if first <= pg < next then None else Flags(s, pg))
    && (forall pg :: pg in owner' <==> pg in owner && !(first <= pg < next))
    && (forall pg :: pg in owner' ==> owner'[pg] == owner[pg])
  }

  /** Every present page in [first, next) has a frame of the allocator. */
  ghost predicate OwnedIn(s: Space, owner: map<int, int>, first: int, next: int)
    requires Shaped(s) && 0 <= first <= next <= PAGES
  {
    forall pg :: first <= pg < next && Walk(s, pg).Some? ==> pg in owner
  }

  lemma NothingFreed(s: Space, owner: map<int, int>, holder: map<int, int>, first: int)
    requires Shaped(s) && Backed(s, owner, holder) && 0 <= first <= PAGES
    ensures RegionFreed(s, owner, s, owner, first, first) && OwnedIn(s, owner, first, first)
  {
  }

  lemma FreedMore(s: Space, owner: map<int, int>, s1: Space, owner1: map<int, int>, s2: Space, owner2: map<int, int>,
                  first: int, page: int)
    requires Shaped(s) && Shaped(s1) && Shaped(s2) && 0 <= first <= page < PAGES
    requires RegionFreed(s, owner, s1, owner1, first, page)
    requires forall pg :: 0 <= pg < PAGES ==> Walk(s2, pg) == if pg == page then None else Walk(s1, pg)
    requires forall pg :: 0 <= pg < PAGES ==> Flags(s2, pg) == if pg == page then None else Flags(s1, pg)
    requires owner2 == if Walk(s1, page).Some? then owner1 - {page} else owner1
    requires page in owner1 ==> Walk(s1, page).Some?
    ensures RegionFreed(s, owner, s2, owner2, first, page + 1)
    ensures Walk(s1, page) == Walk(s, page) && (page in owner1 <==> page in owner)
    ensures OwnedIn(s, owner, first, page + 1) <==>
      OwnedIn(s, owner, first, page) && (Walk(s, page).Some? ==> page in owner)
  {
    hide Walk, Flags;
  }

  lemma NotYetFreed(s: Space, owner: map<int, int>, s1: Space, owner1: map<int, int>, first: int, page: int)
    requires Shaped(s) && Shaped(s1) && 0 <= first <= page < PAGES && RegionFreed(s, owner, s1, owner1, first, page)
    ensures Walk(s1, page) == Walk(s, page)
  {
  }

  /** The owners determine which frames are held. */
  lemma SameFrames(s: Space, s': Space, owner: map<int, int>, holder: map<int, int>, holder': map<int, int>)
    requires Shaped(s) && Shaped(s') && Backed(s, owner, holder) && Backed(s', owner, holder')
    ensures forall fr :: fr in holder <==> fr in holder'
  {
    forall fr | fr in holder
      ensures fr in holder'
    {
      var pg := holder[fr];
      assert pg in owner && owner[pg] == fr;
    }
    forall fr | fr in holder'
      ensures fr in holder
    {
      var pg := holder'[fr];
      assert pg in owner && owner[pg] == fr;
    }
  }

  lemma Freeable(s: Space, owner: map<int, int>, s1: Space, owner1: map<int, int>, holder1: map<int, int>, first: int,
                 next: int, n: int)
    requires Shaped(s) && Shaped(s1) && 0 <= first <= next <= PAGES && Backed(s1, owner1, holder1)
    requires RegionAllocated(s, owner, s1, owner1, first, next, false, false)
    requires forall pg :: first <= pg < next ==> Walk(s, pg).None?
    requires forall fr :: fr in holder1 ==> 0 <= fr < n
    ensures OwnedIn(s1, owner1, first, next) && forall pg :: first <= pg < next ==> InBitmap(s1, pg, n)
  {
    hide Walk;
    forall pg | first <= pg < next
      ensures pg in owner1 && InBitmap(s1, pg, n)
    {
      assert Walk(s, pg).None?;
      assert owner1[pg] in holder1;
    }
  }

  lemma RegionRestored(s: Space, owner: map<int, int>, holder: map<int, int>, s1: Space, owner1: map<int, int>,
                       s2: Space, owner2: map<int, int>, first: int, next: int)
    requires Shaped(s) && Shaped(s1) && Shaped(s2) && 0 <= first <= next <= PAGES
    requires Backed(s, owner, holder) && RegionAllocated(s, owner, s1, owner1, first, next, false, false)
    requires RegionFreed(s1, owner1, s2, owner2, first, next)
    requires forall pg :: first <= pg < next ==> Walk(s, pg).None?
    ensures owner2 == owner && forall pg :: 0 <= pg < PAGES ==> Walk(s2, pg) == Walk(s, pg)
  {
    hide Walk;
    assert forall pg :: pg in owner2 <==> pg in owner;
    assert forall pg :: pg in owner2 ==> owner2[pg] == owner1[pg] && owner1[pg] == owner[pg];
  }

  lemma RegionStart(s: Space, owner: map<int, int>, holder: map<int, int>, first: int, iden: bool, full: bool)
    requires Shaped(s) && Backed(s, owner, holder) && 0 <= first < PAGES
    ensures RegionAllocated(s, owner, s, owner, first, first, iden, full)
    ensures forall pg :: pg in owner ==> 0 <= pg < PAGES && Walk(s, pg).Some?
  {
  }

  lemma AddPage(page: int)
    requires 0 <= page < PAGES - 1
    ensures (page * PAGE_SIZE + PAGE_SIZE) % (PAGES * PAGE_SIZE) == (page + 1) * PAGE_SIZE
  {
  }

  /** The cursor of a region loop after `k` rounds, in 32 bits. */
  function Cursor(start: int, k: nat): int
  {
    if k == 0 then start else (Cursor(start, k - 1) + PAGE_SIZE) % (PAGES * PAGE_SIZE)
  }

  lemma {:induction false} CursorIs(first: int, k: nat)
    requires 0 <= first < PAGES
    ensures Cursor(first * PAGE_SIZE, k) == (first + k) % PAGES * PAGE_SIZE
  {
    if k > 0 {
      CursorIs(first, k - 1);
      var page := (first + k - 1) % PAGES;
      if page < PAGES - 1 {
        AddPage(page);
        assert (first + k) % PAGES == page + 1;
      } else {
        assert (first + k) % PAGES == 0;
      }
    }
  }

  /**
    The loops of allocate_region and free_region leave the range if and only if it stops short of the
    last page of the address space: otherwise the cursor wraps and is never past the end.
   */
  lemma RegionLoopEnds(first: int, last: int)
    requires 0 <= first <= last < PAGES
    ensures (exists k: nat :: Cursor(first * PAGE_SIZE, k) > last * PAGE_SIZE) <==> last < PAGES - 1
  {
    if last < PAGES - 1 {
      CursorIs(first, last + 1 - first);
      assert Cursor(first * PAGE_SIZE, last + 1 - first) > last * PAGE_SIZE;
    } else {
      forall k: nat
        ensures Cursor(first * PAGE_SIZE, k) <= last * PAGE_SIZE
      {
        CursorIs(first, k);
      }
    }
  }

  /** The directory index grows by at most one from page to page. */
  lemma DirSteps(first: int, page: int, last: int)
    requires 0 <= first <= page <= last < PAGES
    ensures 0 <= DirIndex(first) <= DirIndex(page) <= DirIndex(last) < ENTRIES
    ensures page > first ==> DirIndex(first) <= DirIndex(page - 1) <= DirIndex(page) <= DirIndex(page - 1) + 1
  {
  }
}
