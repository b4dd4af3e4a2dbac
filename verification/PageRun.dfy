/** Regions of pages, and whole runs of allocate_page and free_page, with the heap on. */
module PageRun {
  import opened Basics
  import opened FrameAllocator
  import opened Memory
  import opened Blocks
  import opened Tags
  import opened HeapSteps
  import opened KernelHeap
  import opened Paging
  import opened VirtualMemory
  import opened KernelState
  import opened KernelMemory

  // ---- Regions ----

  /** Nothing of the callers' changes, and outside the range and the heap window nothing is mapped. */
  ghost predicate RegionQuiet(x: Snap, y: Snap, first: int, next: int)
  {
    && Keeps(x, y, {}) && SameUsers(x, y)
    && (forall pg :: 0 <= pg < PAGES && !(first <= pg < next) && !InWindow(pg) ==> Walk(y.sp, pg) == Walk(x.sp, pg))
    && (forall pg :: 0 <= pg < PAGES && !(first <= pg < next) && !InWindow(pg) ==> (pg in y.owner <==> pg in x.owner))
  }

  /** Every page of the range was present, or is mapped now to itself or to a frame of the allocator. */
  ghost predicate RegionPlaced(x: Snap, y: Snap, first: int, next: int, iden: bool)
    requires Shaped(x.sp) && Shaped(y.sp) && 0 <= first && next <= PAGES
  {
    forall pg {:trigger PlacedAt(x, y, pg, iden)} :: first <= pg < next ==> PlacedAt(x, y, pg, iden)
  }

  ghost predicate PlacedAt(x: Snap, y: Snap, pg: int, iden: bool)
    requires Shaped(x.sp) && Shaped(y.sp) && 0 <= pg < PAGES
  {
    Placed(x, y, pg, if iden then pg else 0)
  }

  /** New pages of the range and their tables have rights `r`; other new ones are the kernel's, for the heap. */
  ghost predicate RegionRights(s: Space, s': Space, first: int, next: int, r: Rights)
    requires Shaped(s) && Shaped(s')
  {
    && (forall pg :: 0 <= pg < PAGES && Flags(s', pg) != Flags(s, pg) ==>
          && Flags(s, pg).None?
          && ((first <= pg < next && Flags(s', pg) == Some(r)) || (InWindow(pg) && Flags(s', pg) == Some(KERNEL))))
    && (forall d :: 0 <= d < ENTRIES && s'.tables[d] != s.tables[d] ==>
          && !s.tables[d].present && s'.tables[d].present
          && ((Covers(d, first, next) && DirRights(s', d) == r)
              || (InWindow(ENTRIES * d) && DirRights(s', d) == KERNEL)))
  }

  lemma RegionRightsStart(s: Space, first: int, r: Rights)
    requires Shaped(s)
    ensures RegionRights(s, s, first, first, r)
  {
  }

  lemma RegionRightsMore(s: Space, y: Snap, z: Snap, first: int, page: int, r: Rights)
    requires Shaped(s) && Shaped(y.sp) && Shaped(z.sp) && 0 <= first <= page < PAGES
    requires RegionRights(s, y.sp, first, page, r) && Calm(y, z, page) && PageRights(y.sp, z.sp, page, r)
    ensures RegionRights(s, z.sp, first, page + 1, r)
  {
    hide Flags, Keeps, SameUsers, Still;
  }

  lemma RegionRightsWider(s: Space, s': Space, first: int, next: int, wide: int, r: Rights)
    requires Shaped(s) && Shaped(s') && RegionRights(s, s', first, next, r) && next <= wide
    ensures RegionRights(s, s', first, wide, r)
  {
    hide Flags;
  }

  /**
    Page by page: outside the heap window the pages of the range get the rights asked for as
    allocate_page grants them, and all pages that were there keep their own.
   */
  lemma RegionAccess(s: Space, s': Space, first: int, next: int, r: Rights, page: int)
    requires Shaped(s) && Shaped(s') && RegionRights(s, s', first, next, r) && 0 <= page < PAGES
    ensures Walk(s, page).Some? ==> Access(s', page) == Access(s, page)
    ensures first <= page < next && !InWindow(page) ==> PageRights(s, s', page, r)
    ensures first <= page < next && !InWindow(page) && Walk(s, page).None? && Walk(s', page).Some? ==>
      var had, dir := HasTable(s, page), DirRights(s, DirIndex(page));
      Access(s', page) == Some(Rights(r.write && (had ==> dir.write), r.user && (had ==> dir.user)))
  {
    if Walk(s, page).Some? {
      PresentTable(s, page);
    } else if first <= page < next && !InWindow(page) {
      RegionPage(s, s', first, next, r, page);
      if Walk(s', page).Some? {
        PageAccess(s, s', page, r);
      }
    }
  }

  lemma RegionPage(s: Space, s': Space, first: int, next: int, r: Rights, page: int)
    requires Shaped(s) && Shaped(s') && RegionRights(s, s', first, next, r) && 0 <= page < PAGES
    requires first <= page < next && !InWindow(page)
    ensures PageRights(s, s', page, r)
  {
    hide Flags;
    assert !InWindow(ENTRIES * DirIndex(page));
  }

  /** The range needs one page table at most. */
  ghost predicate OneTable(x: Snap, first: int, next: int)
    requires Shaped(x.sp) && 0 <= first < next <= PAGES
  {
    (next <= HEAP_PAGE || WINDOW_PAGE <= first) && (DirIndex(first) == DirIndex(next - 1) || Tabled(x.sp, first, next))
  }

  /** In the heap window exactly the pages are mapped that the request for this table takes. */
  ghost predicate TableReached(x: Snap, y: Snap, first: int, page: int)
    requires Shaped(x.sp) && Shaped(y.sp) && 0 <= first < PAGES && 0 <= x.curr
  {
    forall pg :: InWindow(pg) ==>
      (Walk(y.sp, pg).Some? <==>
       Walk(x.sp, pg).Some? || (page > first && !HasTable(x.sp, first) && x.end / PAGE_SIZE <= pg < Reach(x,
         TABLE_REQUEST)))
  }

  lemma RegionStarts(x: Snap, first: int)
    requires Shaped(x.sp) && Tagged(x.mem, x.b, x.f) && 0 <= first < PAGES && 0 <= x.curr
    ensures RegionQuiet(x, x, first, first) && RegionPlaced(x, x, first, first, true)
    ensures RegionPlaced(x, x, first, first, false)
    ensures TableReached(x, x, first, first)
  {
    KeepsSelf(x);
  }

  /** One page more. */
  lemma RegionGrows(x: Snap, y: Snap, z: Snap, holder: map<int, int>, first: int, page: int, iden: bool, r: Result,
                    depth: nat)
    requires 0 <= first <= page < PAGES && RegionQuiet(x, y, first, page) && RegionPlaced(x, y, first, page, iden)
    requires Calm(y, z, page)
    requires 0 <= y.curr && PageOutcome(y, z, page, if iden then page else 0, r, depth) && r.Ok? && |z.taken| <= z.max
    requires Backed(z.sp, z.owner, holder) && (InWindow(page) ==> page in z.owner)
    ensures RegionQuiet(x, z, first, page + 1) && RegionPlaced(x, z, first, page + 1, iden)
  {
    hide Walk, Backed, Extended, ExtendedBut, Roomy, TableStuck, PageAllocated, LiveKept, SameUsers, TablesKept,
      Frozen;
    KeepsTrans(x, y, z, {});
    SameTrans(x, y, z);
    OwnerWalks(z.sp, z.owner, holder, page);
    forall pg {:trigger PlacedAt(x, z, pg, iden)} | first <= pg < page + 1
      ensures PlacedAt(x, z, pg, iden)
    {
      if pg < page {
        assert PlacedAt(x, y, pg, iden);
        PlacedStays(x, y, z, pg, page, if iden then pg else 0);
      } else {
        PlacedNow(x, y, z, page, if iden then pg else 0, first);
      }
    }
  }

  lemma PlacedStays(x: Snap, y: Snap, z: Snap, pg: int, page: int, frame: int)
    requires Shaped(x.sp) && 0 <= pg < PAGES && pg != page && Calm(y, z, page) && Shaped(y.sp)
    requires Placed(x, y, pg, frame) && |z.taken| <= z.max
    ensures Shaped(z.sp) && Placed(x, z, pg, frame)
  {
    hide Walk, LiveKept, SameUsers, TablesKept;
    if |y.taken| == y.max {
      Within(y.taken, z.taken);
    }
  }

  lemma Within(s: set<nat>, t: set<nat>)
    requires s <= t
    ensures |s| <= |t|
  {
    assert t == s + (t - s);
  }

  lemma PlacedNow(x: Snap, y: Snap, z: Snap, page: int, frame: int, first: int)
    requires 0 <= first <= page < PAGES && RegionQuiet(x, y, first, page) && Calm(y, z, page) && Shaped(y.sp)
    requires Placed(y, z, page, frame)
    requires InWindow(page) ==> page in z.owner && Walk(z.sp, page) == Some(z.owner[page])
    ensures Shaped(x.sp) && Shaped(z.sp) && Placed(x, z, page, frame)
  {
    hide Walk, LiveKept, SameUsers, TablesKept;
  }

  lemma ReachGrows(x: Snap, y: Snap, z: Snap, first: int, page: int, next: int, frame: int, r: Result, depth: nat)
    requires 0 <= first <= page < next <= PAGES && RegionQuiet(x, y, first, page) && 0 <= x.curr
    requires OneTable(x, first, next) && Shaped(z.sp)
    requires TableReached(x, y, first, page) && (page == first ==> y == x) && 0 <= y.curr
    requires PageOutcome(y, z, page, frame, r, depth) && r.Ok?
    requires page > first ==> HasTable(y.sp, page - 1)
    ensures TableReached(x, z, first, page + 1) && HasTable(z.sp, page)
  {
    hide Walk, LiveKept, SameUsers, Stable, Roomy, TableStuck, Fits, Placed, Frozen, PageGrowth, PageExact;
    if page > first {
      LaterTabled(x, y, first, page, next);
    } else if HasTable(x.sp, first) {
      assert HasTable(y.sp, page);
    }
  }

  lemma SameDir(first: int, page: int, next: int)
    requires 0 <= first < page < next <= PAGES && DirIndex(first) == DirIndex(next - 1)
    ensures DirIndex(page) == DirIndex(first) == DirIndex(page - 1)
  {
  }

  /** Allocating the range stopped in state `stop` at page `at`, which could not be mapped. */
  ghost predicate Stopped(x: Snap, stop: Snap, y: Snap, first: int, next: int, at: int, iden: bool, st: Result,
                          depth: nat)
  {
    && 0 <= first <= at < next <= PAGES && Shaped(x.sp) && Shaped(y.sp) && Sound(stop)
    && RegionQuiet(x, stop, first, at) && RegionPlaced(x, stop, first, at, iden)
    && Calm(stop, y, at) && PageOutcome(stop, y, at, if iden then at else 0, st, depth)
  }

  /** A range that needs one page table at most is mapped if and only if that table can be had. */
  ghost predicate OneTableServes(x: Snap, first: int, depth: nat)
    requires Shaped(x.sp) && 0 <= first < PAGES
  {
    HasTable(x.sp, first) || (depth > 0 && TableServes(x))
  }

  /** allocate_region, with the heap on: page by page, until one cannot be mapped. */
  method AllocateRegion(k: Kernel, startVa: int, endVa: int, iden: bool, rw: bool, user: bool, depth: nat)
    returns (st: Result, ghost stop: Snap, ghost at: int)
    requires k.Valid() && 0 <= startVa <= endVa < PAGES * PAGE_SIZE
    // At the last page of the address space the loop does not end.
    requires endVa / PAGE_SIZE < PAGES - 1
    // The heap window is not mapped to itself.
    requires iden ==> endVa / PAGE_SIZE < HEAP_PAGE || WINDOW_PAGE <= startVa / PAGE_SIZE
    modifies k, k.heap, k.vmm, k.vmm.pmm, k.vmm.pmm.bitmap
    ensures k.Valid() && RegionQuiet(old(k.Now()), k.Now(), startVa / PAGE_SIZE, endVa / PAGE_SIZE + 1)
    ensures RegionRights(old(k.vmm.sp), k.vmm.sp, startVa / PAGE_SIZE, endVa / PAGE_SIZE + 1, Rights(rw, user))
    ensures st.Ok? ==> RegionPlaced(old(k.Now()), k.Now(), startVa / PAGE_SIZE, endVa / PAGE_SIZE + 1, iden)
    ensures !st.Ok? ==>
      Stopped(old(k.Now()), stop, k.Now(), startVa / PAGE_SIZE, endVa / PAGE_SIZE + 1, at, iden, st, depth)
    ensures OneTable(old(k.Now()), startVa / PAGE_SIZE, endVa / PAGE_SIZE + 1) ==>
              && (st.Ok? <==> OneTableServes(old(k.Now()), startVa / PAGE_SIZE, depth))
              && (st.Ok? ==> TableReached(old(k.Now()), k.Now(), startVa / PAGE_SIZE, endVa / PAGE_SIZE + 1))
  {
    hide RegionQuiet, RegionPlaced, RegionRights, TableReached, OneTable, OneTableServes, PageOutcome, Calm, Sound,
      Kernel.CoreAt;
    ghost var x, first, last := k.Now(), startVa / PAGE_SIZE, endVa / PAGE_SIZE;
    k.Handy();
    RegionStarts(x, first);
    RegionRightsStart(x.sp, first, Rights(rw, user));
    var start, end := startVa / PAGE_SIZE * PAGE_SIZE, endVa / PAGE_SIZE * PAGE_SIZE;
    ghost var page := first;
    st, stop, at := Ok(0), x, first;
    while start <= end
      invariant start == page * PAGE_SIZE && first <= page <= last + 1 && st.Ok? && k.Valid()
      invariant Shaped(k.vmm.sp) && RegionQuiet(x, k.Now(), first, page) && RegionPlaced(x, k.Now(), first, page, iden)
      invariant RegionRights(x.sp, k.vmm.sp, first, page, Rights(rw, user))
      invariant OneTable(x, first, last + 1) ==> TableReached(x, k.Now(), first, page)
      invariant OneTable(x, first, last + 1) && page > first ==> OneTableServes(x, first, depth)
      invariant page == first ==> k.Now() == x
      invariant page > first ==> HasTable(k.vmm.sp, page - 1)
      decreases end - start
    {
      stop, at := k.Now(), page;
      k.NowSound();
      st := RegionNext(k, start / PAGE_SIZE, iden, rw, user, x, first, last + 1, depth);
      if !st.Ok? {
        RegionWider(x, k.Now(), first, page + 1, last + 1);
        RegionRightsWider(x.sp, k.vmm.sp, first, page + 1, last + 1, Rights(rw, user));
        return;
      }
      AddPage(page);
      start := (start + PAGE_SIZE) % (PAGES * PAGE_SIZE);
      page := page + 1;
    }
  }

  lemma RegionWider(x: Snap, y: Snap, first: int, next: int, wide: int)
    requires RegionQuiet(x, y, first, next) && next <= wide
    ensures RegionQuiet(x, y, first, wide)
  {
    hide Walk, Keeps, SameUsers;
  }

  method RegionNext(k: Kernel, page: int, iden: bool, rw: bool, user: bool, ghost x: Snap, ghost first: int,
                    ghost next: int,
                    depth: nat) returns (st: Result)
    requires k.Valid() && 0 <= first <= page < next <= PAGES && (iden ==> !InWindow(page))
    requires Shaped(x.sp) && 0 <= x.curr && Shaped(k.vmm.sp)
    requires RegionQuiet(x, k.Now(), first, page) && RegionPlaced(x, k.Now(), first, page, iden)
    requires RegionRights(x.sp, k.vmm.sp, first, page, Rights(rw, user))
    requires OneTable(x, first, next) ==> TableReached(x, k.Now(), first, page)
    requires OneTable(x, first, next) && page > first ==> OneTableServes(x, first, depth)
    requires (page == first ==> k.Now() == x) && (page > first ==> HasTable(k.vmm.sp, page - 1))
    modifies k, k.heap, k.vmm, k.vmm.pmm, k.vmm.pmm.bitmap
    ensures k.Valid() && Shaped(k.vmm.sp) && RegionQuiet(x, k.Now(), first, page + 1)
    ensures RegionRights(x.sp, k.vmm.sp, first, page + 1, Rights(rw, user))
    ensures Calm(old(k.Now()), k.Now(), page) && 0 <= old(k.heapCurr)
    ensures PageOutcome(old(k.Now()), k.Now(), page, if iden then page else 0, st, depth)
    ensures st.Ok? ==> RegionPlaced(x, k.Now(), first, page + 1, iden) && HasTable(k.vmm.sp, page)
    ensures OneTable(x, first, next) ==> (st.Ok? <==> OneTableServes(x, first, depth))
    ensures st.Ok? && OneTable(x, first, next) ==> TableReached(x, k.Now(), first, page + 1)
  {
    hide RegionQuiet, RegionPlaced, RegionRights, PageRights, Access, TableReached, OneTable, OneTableServes,
      PageOutcome, Calm, Roomy, Backed, Kernel.CoreAt;
    ghost var y := k.Now();
    k.Handy();
    st := k.AllocatePage(page, if iden then page else 0, rw, user, depth);
    k.Handy();
    RegionRightsMore(x.sp, y, k.Now(), first, page, Rights(rw, user));
    PageEnds(y, k.Now(), page, if iden then page else 0, st, depth);
    if OneTable(x, first, next) {
      RegionExact(x, y, k.Now(), first, page, next, if iden then page else 0, st, depth);
    }
    if st.Ok? {
      RegionGrows(x, y, k.Now(), k.vmm.holder, first, page, iden, st, depth);
      if OneTable(x, first, next) {
        ReachGrows(x, y, k.Now(), first, page, next, if iden then page else 0, st, depth);
      }
    } else {
      RegionMore(x, y, k.Now(), first, page);
    }
  }

  lemma PageEnds(x: Snap, y: Snap, page: int, frame: int, r: Result, depth: nat)
    requires Shaped(x.sp) && Shaped(y.sp) && 0 <= page < PAGES && 0 <= x.curr
    requires PageOutcome(x, y, page, frame, r, depth)
    ensures r.Ok? ==> HasTable(y.sp, page)
  {
    hide Placed, Frozen, PageAllocated, ExtendedBut, TableStuck, Roomy, PageExact, PageGrowth;
  }

  /** Only the first page of the range can lack a table, and only that can fail. */
  lemma RegionExact(x: Snap, y: Snap, z: Snap, first: int, page: int, next: int, frame: int, r: Result, depth: nat)
    requires 0 <= first <= page < next <= PAGES && RegionQuiet(x, y, first, page) && 0 <= x.curr
    requires OneTable(x, first, next)
    requires (page == first ==> y == x)
    requires (page > first ==> HasTable(y.sp, page - 1) && OneTableServes(x, first, depth))
    requires Shaped(z.sp) && 0 <= y.curr && PageOutcome(y, z, page, frame, r, depth)
    ensures r.Ok? <==> OneTableServes(x, first, depth)
  {
    hide Walk, LiveKept, SameUsers, Stable, Roomy, TableStuck, Fits, Placed, Frozen, PageGrowth, TableServes,
      Exhausted, ExtendedBut, PageAllocated;
    if page > first {
      LaterTabled(x, y, first, page, next);
    }
  }

  lemma LaterTabled(x: Snap, y: Snap, first: int, page: int, next: int)
    requires 0 <= first < page < next <= PAGES && RegionQuiet(x, y, first, page) && OneTable(x, first, next)
    requires HasTable(y.sp, page - 1)
    ensures HasTable(y.sp, page)
  {
    hide Walk, LiveKept, SameUsers, Stable;
    if Tabled(x.sp, first, next) {
      TabledAt(x.sp, first, next, page);
    } else {
      SameDir(first, page, next);
    }
  }

  lemma RegionMore(x: Snap, y: Snap, z: Snap, first: int, page: int)
    requires first <= page && RegionQuiet(x, y, first, page) && Calm(y, z, page)
    ensures RegionQuiet(x, z, first, page + 1)
  {
    hide Walk, LiveKept;
    KeepsTrans(x, y, z, {});
    SameTrans(x, y, z);
    hide Keeps, SameUsers;
  }

  /**
    free_region, with the heap on: everything is in order afterwards exactly when all present pages
    were the allocator's and none part of the heap.
   */
  method FreeRegion(k: Kernel, startVa: int, endVa: int)
    requires k.Valid() && 0 <= startVa <= endVa < PAGES * PAGE_SIZE && endVa / PAGE_SIZE < PAGES - 1
    requires forall pg :: startVa / PAGE_SIZE <= pg <= endVa / PAGE_SIZE ==>
      InBitmap(k.vmm.sp, pg, 32 * k.vmm.pmm.bitmap.Length)
    requires forall pg {:trigger HoldsNoTable(k.vmm.sp, pg)} :: startVa / PAGE_SIZE <= pg <= endVa / PAGE_SIZE ==>
      HoldsNoTable(k.vmm.sp, pg)
    modifies k.vmm, k.vmm.pmm, k.vmm.pmm.bitmap
    ensures k.vmm.Mapped() && k.Now() == old(k.Now()).(sp := k.vmm.sp, owner := k.vmm.owner, taken := k.vmm.pmm.taken)
    ensures k.vmm.sp.tables == old(k.vmm.sp).tables && k.vmm.sp.refs == old(k.vmm.sp).refs
    ensures RegionFreed(old(k.vmm.sp), old(k.vmm.owner), k.vmm.sp, k.vmm.owner, startVa / PAGE_SIZE,
      endVa / PAGE_SIZE + 1)
    ensures k.Valid() <==>
      && OwnedIn(old(k.vmm.sp), old(k.vmm.owner), startVa / PAGE_SIZE, endVa / PAGE_SIZE + 1)
      && (endVa / PAGE_SIZE < HEAP_PAGE || k.heapEnd / PAGE_SIZE <= startVa / PAGE_SIZE)
  {
    hide Word, WellFormed, Walk, Coherent, Backed, Window, Homed, HoldsNoTable, InBitmap, RegionFreed, OwnedIn,
      Pmm.Valid, Pmm.Counted, Ends, Heap.Ok;
    ghost var x, first, next := k.Now(), startVa / PAGE_SIZE, endVa / PAGE_SIZE + 1;
    k.vmm.FreeRegion(startVa, endVa);
    HeapAfterRegion(x, k.vmm.sp, k.vmm.owner, first, next);
  }

  lemma TableElsewhere(x: Snap, first: int, next: int, d: int)
    requires Shaped(x.sp) && 0 <= d < ENTRIES && x.sp.tables[d].present
    requires forall pg {:trigger HoldsNoTable(x.sp, pg)} :: first <= pg < next ==> HoldsNoTable(x.sp, pg)
    ensures !(first <= x.sp.refs[d] / PAGE_SIZE < next)
  {
    if HoldsNoTable(x.sp, x.sp.refs[d] / PAGE_SIZE) {
      assert false;
    }
  }

  lemma HeapAfterRegion(x: Snap, s: Space, owner: map<int, int>, first: int, next: int)
    requires Shaped(x.sp) && Shaped(s) && 0 <= first < next <= PAGES
    requires RegionFreed(x.sp, x.owner, s, owner, first, next)
    requires Window(x.sp, x.owner, HEAP_PAGE, x.end / PAGE_SIZE) && Homed(x.sp, x.owner, x.b, x.f, HEAP_START, x.home)
    requires HEAP_PAGE < x.end / PAGE_SIZE
    requires s.tables == x.sp.tables && s.refs == x.sp.refs
    requires forall pg {:trigger HoldsNoTable(x.sp, pg)} :: first <= pg < next ==> HoldsNoTable(x.sp, pg)
    ensures Homed(s, owner, x.b, x.f, HEAP_START, x.home)
    ensures Window(s, owner, HEAP_PAGE, x.end / PAGE_SIZE) <==> next <= HEAP_PAGE || x.end / PAGE_SIZE <= first
  {
    hide Walk;
    forall d | 0 <= d < ENTRIES && x.sp.tables[d].present
      ensures !(first <= x.sp.refs[d] / PAGE_SIZE < next)
    {
      TableElsewhere(x, first, next, d);
    }
    if !(next <= HEAP_PAGE || x.end / PAGE_SIZE <= first) {
      var pg := if first < HEAP_PAGE then HEAP_PAGE else first;
      assert pg !in owner;
    }
  }

  // ---- Allocating a region and freeing it again ----

  /** Tables lie in the heap or where they were, so not in a range that was absent. */
  lemma NoTablesThere(x: Snap, y: Snap, holder: map<int, int>, first: int, next: int)
    requires Keeps(x, y, {}) && Backed(x.sp, x.owner, holder) && Homed(x.sp, x.owner, x.b, x.f, HEAP_START, x.home)
    requires Homed(y.sp, y.owner, y.b, y.f, HEAP_START, y.home) && 0 <= first <= next <= PAGES
    requires (forall pg :: first <= pg < next ==> Walk(x.sp, pg).None?) && (next <= HEAP_PAGE || WINDOW_PAGE <= first)
    requires forall a :: a in y.b ==> HEAP_START <= a && End(y.b, a) <= WINDOW_PAGE * PAGE_SIZE
    ensures forall pg {:trigger HoldsNoTable(y.sp, pg)} :: first <= pg < next ==> HoldsNoTable(y.sp, pg)
  {
    hide Walk, LiveKept, Stable;
    forall pg {:trigger HoldsNoTable(y.sp, pg)} | first <= pg < next
      ensures HoldsNoTable(y.sp, pg)
    {
      forall d | 0 <= d < ENTRIES && y.sp.tables[d].present
        ensures y.sp.refs[d] / PAGE_SIZE != pg
      {
        if y.sp.refs[d] >= HEAP_START {
          assert Holds(y.b, y.home[d], y.sp.refs[d]);
        } else {
          assert x.sp.refs[d] / PAGE_SIZE in x.owner;
        }
      }
    }
  }

  /** After allocating and freeing, the frames in use are those before and those of newly mapped heap pages. */
  lemma Restored(x: Snap, mid: Snap, z: Snap, hx: map<int, int>, hz: map<int, int>, first: int, next: int)
    requires RegionQuiet(x, mid, first, next) && Shaped(z.sp) && 0 <= first < next <= PAGES
    requires (next <= HEAP_PAGE || WINDOW_PAGE <= first)
    requires forall pg :: first <= pg < next ==> Walk(x.sp, pg).None?
    requires RegionFreed(mid.sp, mid.owner, z.sp, z.owner, first, next)
    requires Backed(x.sp, x.owner, hx) && Backed(z.sp, z.owner, hz)
    requires Window(x.sp, x.owner, HEAP_PAGE, x.end / PAGE_SIZE)
    requires Window(mid.sp, mid.owner, HEAP_PAGE, mid.end / PAGE_SIZE)
    requires forall pg :: pg in mid.owner ==> 0 <= pg < PAGES && Walk(mid.sp, pg).Some?
    requires (forall fr: int :: fr in x.taken <==> fr in hx) && (forall fr: int :: fr in z.taken <==> fr in hz)
    ensures forall pg :: 0 <= pg < PAGES && !InWindow(pg) ==> Walk(z.sp, pg) == Walk(x.sp, pg)
    ensures z.taken == x.taken <==> forall pg :: InWindow(pg) && Walk(mid.sp, pg).Some? ==> Walk(x.sp, pg).Some?
  {
    hide Walk, LiveKept, SameUsers, TablesKept;
    forall pg | 0 <= pg < PAGES
      ensures !InWindow(pg) ==> Walk(z.sp, pg) == Walk(x.sp, pg)
      ensures pg in z.owner <==> pg in x.owner || (InWindow(pg) && pg in mid.owner)
      ensures pg in x.owner ==> pg in z.owner && z.owner[pg] == x.owner[pg]
    {
    }
    if forall pg :: InWindow(pg) && Walk(mid.sp, pg).Some? ==> Walk(x.sp, pg).Some? {
      forall pg
        ensures pg in z.owner <==> pg in x.owner
      {
        if pg in z.owner && InWindow(pg) {
          assert Walk(mid.sp, pg).Some?;
        }
      }
      assert forall pg :: pg in z.owner ==> z.owner[pg] == x.owner[pg];
      assert z.owner == x.owner;
      SameFrames(x.sp, z.sp, x.owner, hx, hz);
      assert z.taken == x.taken;
    } else {
      var pg :| InWindow(pg) && Walk(mid.sp, pg).Some? && !Walk(x.sp, pg).Some?;
      NewFrame(x, z, hx, hz, pg);
    }
  }

  lemma SameHolder(x: Snap, z: Snap, hx: map<int, int>, hz: map<int, int>, fr: int)
    requires Shaped(x.sp) && Shaped(z.sp) && Backed(x.sp, x.owner, hx) && Backed(z.sp, z.owner, hz) && fr in hx
    requires forall q :: q in x.owner ==> q in z.owner && z.owner[q] == x.owner[q]
    ensures hx[fr] in x.owner && fr in hz && hz[fr] == hx[fr]
  {
    hide Walk;
    var q := hx[fr];
    assert q in x.owner && z.owner[q] == fr;
  }

  lemma NewFrame(x: Snap, z: Snap, hx: map<int, int>, hz: map<int, int>, pg: int)
    requires Shaped(x.sp) && Shaped(z.sp) && Backed(x.sp, x.owner, hx) && Backed(z.sp, z.owner, hz) && 0 <= pg < PAGES
    requires pg in z.owner && Walk(x.sp, pg).None?
    requires forall q :: q in x.owner ==> q in z.owner && z.owner[q] == x.owner[q]
    requires (forall fr: int :: fr in x.taken <==> fr in hx) && (forall fr: int :: fr in z.taken <==> fr in hz)
    ensures z.taken != x.taken
  {
    hide Walk;
    var fr := z.owner[pg];
    assert fr in z.taken && hz[fr] == pg;
    if fr in hx {
      SameHolder(x, z, hx, hz, fr);
    }
  }

  /**
    Over absent pages outside the heap window. The frames are given back and everything is in order
    exactly when every page had got a frame of its own. The bitmap is then as before exactly when no
    page of the heap was mapped for page tables; for a range under one directory entry that is known
    beforehand.
   */
  method AllocateThenFreeRegion(k: Kernel, startVa: int, endVa: int, rw: bool, user: bool, depth: nat)
    returns (st: Result, ghost stop: Snap, ghost at: int, ghost mid: Snap)
    requires k.Valid() && 0 <= startVa <= endVa < PAGES * PAGE_SIZE && endVa / PAGE_SIZE < PAGES - 1
    requires endVa / PAGE_SIZE < HEAP_PAGE || WINDOW_PAGE <= startVa / PAGE_SIZE
    requires forall pg :: startVa / PAGE_SIZE <= pg <= endVa / PAGE_SIZE ==> Walk(k.vmm.sp, pg).None?
    modifies k, k.heap, k.vmm, k.vmm.pmm, k.vmm.pmm.bitmap
    ensures !st.Ok? ==>
      k.Valid() && mid == k.Now() && Stopped(old(k.Now()), stop, mid, startVa / PAGE_SIZE, endVa / PAGE_SIZE + 1, at,
        false, st, depth)
    ensures OneTable(old(k.Now()), startVa / PAGE_SIZE, endVa / PAGE_SIZE + 1) ==>
      (st.Ok? <==> OneTableServes(old(k.Now()), startVa / PAGE_SIZE, depth))
    ensures RegionQuiet(old(k.Now()), mid, startVa / PAGE_SIZE, endVa / PAGE_SIZE + 1)
    ensures st.Ok? ==>
      && RegionPlaced(old(k.Now()), mid, startVa / PAGE_SIZE, endVa / PAGE_SIZE + 1, false)
      && (k.Valid() <==> OwnedIn(mid.sp, mid.owner, startVa / PAGE_SIZE, endVa / PAGE_SIZE + 1))
    ensures st.Ok? && k.Valid() ==>
      && (forall pg :: 0 <= pg < PAGES && !InWindow(pg) ==> Walk(k.vmm.sp, pg) == Walk(old(k.vmm.sp), pg))
      && (k.vmm.pmm.taken == old(k.vmm.pmm.taken) <==>
          forall pg :: InWindow(pg) && Walk(mid.sp, pg).Some? ==> Walk(old(k.vmm.sp), pg).Some?)
    ensures st.Ok? && k.Valid() && OneTable(old(k.Now()), startVa / PAGE_SIZE, endVa / PAGE_SIZE + 1) ==>
      (k.vmm.pmm.taken == old(k.vmm.pmm.taken) <==>
       || old(HasTable(k.vmm.sp, startVa / PAGE_SIZE))
       || forall pg :: InWindow(pg) && old(k.heapEnd) / PAGE_SIZE <= pg < Reach(old(k.Now()), TABLE_REQUEST) ==>
         Walk(old(k.vmm.sp), pg).Some?)
  {
    hide RegionQuiet, RegionPlaced, TableReached, OneTable, OneTableServes, Stopped, RegionFreed, OwnedIn, Walk,
      Backed, Coherent, Homed, Window, WellFormed, HoldsNoTable, InBitmap, Pmm.Valid, Pmm.Counted, Kernel.CoreAt;
    ghost var x, hx, first, next := k.Now(), k.vmm.holder, startVa / PAGE_SIZE, endVa / PAGE_SIZE + 1;
    k.Handy();
    k.Inner();
    st, stop, at := AllocateRegion(k, startVa, endVa, false, rw, user, depth);
    mid := k.Now();
    if st.Ok? {
      k.Handy();
      k.Inner();
      QuietKeeps(x, mid, first, next);
      NoTablesThere(x, mid, hx, first, next);
      FramesInBitmap(x, mid, k.vmm.holder, first, next, 32 * k.vmm.pmm.bitmap.Length);
      FreeRegion(k, startVa, endVa);
      if k.Valid() {
        k.Handy();
        k.Inner();
        Restored(x, mid, k.Now(), hx, k.vmm.holder, first, next);
        if OneTable(x, first, next) {
          RestoredOne(x, mid, first, next);
        }
      }
    }
  }

  lemma QuietKeeps(x: Snap, y: Snap, first: int, next: int)
    requires RegionQuiet(x, y, first, next)
    ensures Keeps(x, y, {})
  {
  }

  lemma FramesInBitmap(x: Snap, y: Snap, holder: map<int, int>, first: int, next: int, n: int)
    requires Shaped(x.sp) && Shaped(y.sp) && 0 <= first <= next <= PAGES && RegionPlaced(x, y, first, next, false)
    requires (next <= HEAP_PAGE || WINDOW_PAGE <= first) && 0 < n
    requires Backed(y.sp, y.owner, holder) && (forall fr :: fr in holder ==> 0 <= fr < n)
    requires forall pg :: first <= pg < next ==> Walk(x.sp, pg).None?
    ensures forall pg :: first <= pg < next ==> InBitmap(y.sp, pg, n)
  {
    hide Walk;
    forall pg | first <= pg < next
      ensures InBitmap(y.sp, pg, n)
    {
      assert PlacedAt(x, y, pg, false);
      if pg in y.owner {
        assert y.owner[pg] in holder;
      }
    }
  }

  lemma RestoredOne(x: Snap, mid: Snap, first: int, next: int)
    requires Shaped(x.sp) && Shaped(mid.sp) && 0 <= first < next <= PAGES && 0 <= x.curr
    requires TableReached(x, mid, first, next)
    ensures (forall pg :: InWindow(pg) && Walk(mid.sp, pg).Some? ==> Walk(x.sp, pg).Some?) <==>
      || HasTable(x.sp, first)
      || forall pg :: InWindow(pg) && x.end / PAGE_SIZE <= pg < Reach(x, TABLE_REQUEST) ==> Walk(x.sp, pg).Some?
  {
    hide Walk;
  }

  // ---- Whole runs ----

  datatype Op = Map(page: int, rw: bool, user: bool) | Unmap(page: int)

  /** Distinct owned pages have distinct frames, and the frames in use are exactly theirs. */
  ghost predicate Exclusive(x: Snap)
  {
    && Sound(x) && Shaped(x.sp)
    && (forall pg :: pg in x.owner ==> 0 <= pg < PAGES && Walk(x.sp, pg) == Some(x.owner[pg]))
    && (forall pg, other :: pg in x.owner && other in x.owner && pg != other ==> x.owner[pg] != x.owner[other])
    && (forall fr: int :: fr in x.taken <==> InUse(x.owner, fr))
  }

  ghost predicate InUse(owner: map<int, int>, fr: int)
  {
    exists pg :: pg in owner && owner[pg] == fr
  }

  lemma OwnersAreExclusive(x: Snap, holder: map<int, int>)
    requires Sound(x) && Shaped(x.sp) && Backed(x.sp, x.owner, holder)
    requires forall fr: int :: fr in x.taken <==> fr in holder
    ensures Exclusive(x)
  {
    hide Walk, Sound;
    forall fr: int
      ensures fr in x.taken <==> InUse(x.owner, fr)
    {
      if fr in x.taken {
        var pg := holder[fr];
        assert pg in x.owner && x.owner[pg] == fr;
      }
      if InUse(x.owner, fr) {
        var pg :| pg in x.owner && x.owner[pg] == fr;
        assert fr in holder;
      }
    }
  }

  /**
    free_page with free set leaves everything in order: the page is owned, and neither holds a table
    nor is part of the heap.
   */
  ghost predicate Releasable(x: Snap, page: int)
    requires Shaped(x.sp)
  {
    page in x.owner && HoldsNoTable(x.sp, page) && !(HEAP_PAGE <= page < x.end / PAGE_SIZE)
  }

  /** allocate_page with frame 0, or free_page with free set for a page that can be released. */
  ghost predicate Stepped(op: Op, x: Snap, y: Snap, r: Result, depth: nat)
  {
    && Shaped(x.sp) && Shaped(y.sp) && 0 <= x.curr
    && if !(0 <= op.page < PAGES) then y == x
       else match op
         case Map(page, rw, user) =>
           Calm(x, y, page) && PageOutcome(x, y, page, 0, r, depth) && PageRights(x.sp, y.sp, page, Rights(rw, user))
         case Unmap(page) => if Releasable(x, page) then PageFreed(x, y, page, true) else y == x
  }

  /** `owned` are the owned pages outside the heap window. */
  ghost predicate Tracks(x: Snap, owned: set<int>)
  {
    forall pg :: 0 <= pg < PAGES && !InWindow(pg) ==> (pg in owned <==> pg in x.owner)
  }

  method HoldsTable(k: Kernel, page: int) returns (holds: bool)
    requires Shaped(k.vmm.sp)
    ensures holds <==> !HoldsNoTable(k.vmm.sp, page)
  {
    for d := 0 to ENTRIES
      invariant forall e :: 0 <= e < d && k.vmm.sp.tables[e].present ==> k.vmm.sp.refs[e] / PAGE_SIZE != page
    {
      if k.vmm.sp.tables[d].present && k.vmm.sp.refs[d] / PAGE_SIZE == page {
        return true;
      }
    }
    return false;
  }

  method CountMissing(k: Kernel) returns (n: nat)
    requires Shaped(k.vmm.sp)
    ensures n == Missing(k.vmm.sp, HEAP_PAGE, WINDOW_PAGE)
  {
    hide Walk;
    n := 0;
    for page := HEAP_PAGE to WINDOW_PAGE
      invariant n == Missing(k.vmm.sp, HEAP_PAGE, page)
    {
      MissingMore(k.vmm.sp, HEAP_PAGE, page);
      if Walk(k.vmm.sp, page).None? {
        n := n + 1;
      }
    }
  }

  /** Starting from `start`, each operation leads from one state to the next, and owners stay exclusive. */
  ghost predicate Explains(trace: seq<Snap>, ops: seq<Op>, rs: seq<Result>, start: Snap, depth: nat)
  {
    && |trace| == |ops| + 1 && |rs| == |ops| && trace[0] == start
    && (forall i :: 0 <= i < |trace| ==> Exclusive(trace[i]))
    && (forall i :: 0 <= i < |ops| ==> Stepped(ops[i], trace[i], trace[i + 1], rs[i], depth))
  }

  lemma ExplainsMore(trace: seq<Snap>, ops: seq<Op>, rs: seq<Result>, start: Snap, depth: nat, op: Op, r: Result,
                     x: Snap)
    requires Explains(trace, ops, rs, start, depth) && Stepped(op, trace[|ops|], x, r, depth) && Exclusive(x)
    ensures Explains(trace + [x], ops + [op], rs + [r], start, depth)
  {
    hide Stepped, Exclusive;
    var trace', ops', rs' := trace + [x], ops + [op], rs + [r];
    forall i | 0 <= i < |ops'|
      ensures Stepped(ops'[i], trace'[i], trace'[i + 1], rs'[i], depth)
    {
      if i < |ops| {
        assert trace'[i] == trace[i] && trace'[i + 1] == trace[i + 1];
      }
    }
  }

  /**
    Any run of allocate_page with frame 0 and free_page with free set, heap growth for page tables
    included: at every moment distinct owned pages have distinct frames and the frames taken are
    exactly theirs, and each step maps or unmaps what it says. `owned` tells which pages outside the
    heap window are owned, at the start and at the end.
   */
  method Run(k: Kernel, ops: seq<Op>, owned: set<int>, depth: nat)
    returns (rs: seq<Result>, owned': set<int>, ghost trace: seq<Snap>)
    requires k.Valid() && Tracks(k.Now(), owned)
    modifies k, k.heap, k.vmm, k.vmm.pmm, k.vmm.pmm.bitmap
    ensures k.Valid() && Explains(trace, ops, rs, old(k.Now()), depth) && trace[|ops|] == k.Now()
    ensures Tracks(k.Now(), owned') && k.vmm.pmm.used == |k.vmm.pmm.taken|
  {
    hide Stepped, Exclusive, Tracks, Sound, Kernel.CoreAt;
    rs, owned' := [], owned;
    k.Handy();
    k.Inner();
    k.NowSound();
    OwnersAreExclusive(k.Now(), k.vmm.holder);
    trace := [k.Now()];
    for i := 0 to |ops|
      invariant k.Valid() && Explains(trace, ops[..i], rs, old(k.Now()), depth) && trace[i] == k.Now()
      invariant Tracks(k.Now(), owned')
    {
      var r;
      r, owned' := RunOne(k, ops[i], owned', depth);
      k.Handy();
      k.Inner();
      k.NowSound();
      OwnersAreExclusive(k.Now(), k.vmm.holder);
      ExplainsMore(trace, ops[..i], rs, old(k.Now()), depth, ops[i], r, k.Now());
      assert ops[..i] + [ops[i]] == ops[..i + 1];
      rs, trace := rs + [r], trace + [k.Now()];
    }
    assert ops[..|ops|] == ops;
    k.Handy();
  }

  method RunOne(k: Kernel, op: Op, owned: set<int>, depth: nat) returns (r: Result, owned': set<int>)
    requires k.Valid() && Tracks(k.Now(), owned)
    modifies k, k.heap, k.vmm, k.vmm.pmm, k.vmm.pmm.bitmap
    ensures k.Valid() && Tracks(k.Now(), owned') && Stepped(op, old(k.Now()), k.Now(), r, depth)
  {
    hide Walk, Backed, Coherent, Homed, Window, WellFormed, HoldsNoTable, Calm, PageOutcome, Tracks, Pmm.Valid,
      Pmm.Counted, Kernel.CoreAt;
    k.Handy();
    r, owned' := Null, owned;
    var page := op.page;
    if 0 <= page < PAGES {
      match op {
        case Map(_, rw, user) =>
          r, owned' := RunMap(k, page, rw, user, owned, depth);
        case Unmap(_) =>
          owned' := RunUnmap(k, page, owned);
      }
    }
    k.Handy();
  }

  /** Frames are conserved, so counting them and the absent heap pages tells whether the page got one of its own. */
  method RunMap(k: Kernel, page: int, rw: bool, user: bool, owned: set<int>, depth: nat)
    returns (r: Result, owned': set<int>)
    requires k.Valid() && Tracks(k.Now(), owned) && 0 <= page < PAGES
    modifies k, k.heap, k.vmm, k.vmm.pmm, k.vmm.pmm.bitmap
    ensures k.Valid() && Tracks(k.Now(), owned')
    ensures Stepped(Map(page, rw, user), old(k.Now()), k.Now(), r, depth)
  {
    hide Walk, Access, Backed, Missing, Calm, PageOutcome, Tracks, Pmm.Valid, Pmm.Counted, Kernel.CoreAt;
    ghost var x := k.Now();
    k.Handy();
    var before := CountMissing(k);
    before := before + k.vmm.pmm.used;
    r := k.AllocatePage(page, 0, rw, user, depth);
    k.Handy();
    var after := CountMissing(k);
    after := after + k.vmm.pmm.used;
    owned' := if after > before then owned + {page} else owned;
    TracksMap(x, k.Now(), page, r, depth, owned);
  }

  lemma TracksMap(x: Snap, y: Snap, page: int, r: Result, depth: nat, owned: set<int>)
    requires Shaped(x.sp) && Shaped(y.sp) && 0 <= page < PAGES && 0 <= x.curr && Tracks(x, owned)
    requires Calm(x, y, page) && PageOutcome(x, y, page, 0, r, depth)
    ensures var before := |x.taken| + Missing(x.sp, HEAP_PAGE, WINDOW_PAGE);
      var after := |y.taken| + Missing(y.sp, HEAP_PAGE, WINDOW_PAGE);
      Tracks(y, if after > before then owned + {page} else owned)
  {
    hide Walk, Missing, LiveKept, SameUsers, TablesKept, PageBasic, PageExact, Beyond, Starved;
  }

  method RunUnmap(k: Kernel, page: int, owned: set<int>) returns (owned': set<int>)
    requires k.Valid() && Tracks(k.Now(), owned) && 0 <= page < PAGES
    modifies k.vmm`sp, k.vmm`owner, k.vmm`holder, k.vmm.pmm, k.vmm.pmm.bitmap
    ensures k.Valid() && Tracks(k.Now(), owned') && Shaped(k.vmm.sp)
    ensures Shaped(old(k.vmm.sp))
    ensures if Releasable(old(k.Now()), page) then PageFreed(old(k.Now()), k.Now(), page, true)
      else k.Now() == old(k.Now())
  {
    hide Walk, Backed, Coherent, Homed, Window, WellFormed, HoldsNoTable, Pmm.Valid, Pmm.Counted, Kernel.CoreAt;
    owned' := owned;
    ghost var x := k.Now();
    k.Handy();
    k.Inner();
    WindowOwned(k.vmm.sp, k.vmm.owner, k.vmm.holder, k.heapEnd / PAGE_SIZE, page);
    var mine := if InWindow(page) then Walk(k.vmm.sp, page).Some? else page in owned;
    var table := HoldsTable(k, page);
    if mine && !table && !(HEAP_PAGE <= page < k.heapEnd / PAGE_SIZE) {
      OwnedInBitmap(k.vmm.sp, k.vmm.owner, k.vmm.holder, page, 32 * k.vmm.pmm.bitmap.Length);
      k.FreePage(page, true);
      k.Handy();
      owned' := owned - {page};
    }
  }

  /** In the heap window the mapped pages are the owned ones. */
  lemma WindowOwned(s: Space, owner: map<int, int>, holder: map<int, int>, end: int, page: int)
    requires Shaped(s) && Backed(s, owner, holder) && Window(s, owner, HEAP_PAGE, end) && 0 <= page < PAGES
    ensures InWindow(page) ==> (page in owner <==> Walk(s, page).Some?)
    ensures page in owner ==> Walk(s, page).Some?
  {
  }

  lemma OwnedInBitmap(s: Space, owner: map<int, int>, holder: map<int, int>, page: int, n: int)
    requires Shaped(s) && Backed(s, owner, holder) && page in owner && forall fr :: fr in holder ==> 0 <= fr < n
    ensures InBitmap(s, page, n)
  {
    assert owner[page] in holder;
  }
}
