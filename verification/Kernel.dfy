/**
  malloc, ksbrk and allocate_page together. Growing the heap maps pages, mapping a page may need a
  page table, and a page table is allocated from the heap that is being grown.
 */
module KernelMemory {
  import opened Basics
  import opened Memory
  import opened Blocks
  import opened Tags
  import opened HeapSteps
  import opened KernelHeap
  import opened Paging
  import opened VirtualMemory
  import opened KernelState

  class Kernel {
    const vmm: Vmm
    const heap: Heap
    var heapCurr: int
    var heapEnd: int
    ghost var home: map<int, int>  // directory index of a page table in the heap -> its block

    /** Everything but what `head` and `tail` say, with the blocks tiling the heap up to `limit`. */
    ghost predicate CoreAt(limit: int)
      reads this, heap, vmm, vmm.pmm, vmm.pmm.bitmap
    {
      && vmm.Valid() && vmm.sp.paging
      && heap.Ok(limit) && |heap.mem| == UINT32
      && heap.start == HEAP_START
      && heap.start <= limit <= heapCurr <= heapEnd && heap.start < heapEnd
      && heapEnd % PAGE_SIZE == 0 && heapEnd <= WINDOW_PAGE * PAGE_SIZE
      && Window(vmm.sp, vmm.owner, HEAP_PAGE, heapEnd / PAGE_SIZE)
      && Homed(vmm.sp, vmm.owner, heap.b, heap.f, HEAP_START, home)
    }

    ghost predicate ValidAt(limit: int)
      reads this, heap, vmm, vmm.pmm, vmm.pmm.bitmap
    {
      CoreAt(limit) && Ends(heap.b, heap.start, limit, heap.head, heap.tail)
    }

    ghost predicate Valid()
      reads this, heap, vmm, vmm.pmm, vmm.pmm.bitmap
    {
      ValidAt(heapCurr)
    }

    ghost function Now(): Snap
      reads this, heap, vmm, vmm.pmm
    {
      Snap(heap.mem, heap.b, heap.f, vmm.sp, vmm.owner, home, heapCurr, heapEnd, vmm.pmm.taken, vmm.pmm.maxBlocks,
        heap.tail)
    }

    constructor (vmm: Vmm, memory: seq<byte>)
      requires vmm.Valid() && vmm.sp.paging && |memory| == UINT32
      requires forall pg :: KERN_PAGE <= pg < KERN_PAGE + 3 * ENTRIES ==> pg in vmm.owner
      requires forall pg :: KERN_PAGE + ENTRIES <= pg < WINDOW_PAGE && Walk(vmm.sp, pg).Some? ==> pg in vmm.owner
      requires forall d :: 0 <= d < ENTRIES && vmm.sp.tables[d].present ==>
        KERN_BASE <= vmm.sp.refs[d] < KERN_BASE + 0x40_0000
      ensures Valid() && this.vmm == vmm && fresh(heap) && heap.b == map[] && heap.f == {} && heapCurr == HEAP_START
      ensures heapEnd == HEAP_START + 0x80_0000
    {
      this.vmm := vmm;
      heap := new Heap(KERN_BASE + 0x40_0000, memory);
      heapCurr := KERN_BASE + 0x40_0000;
      heapEnd := KERN_BASE + 0xc0_0000;
      home := map[];
    }

    /** kmalloc_int with align set: over-allocate by a page and round the address up inside the block. */
    method KmallocA(sz: int, depth: nat) returns (r: Result, ghost a: int)
      requires Valid() && 0 < sz && sz + PAGE_SIZE < UINT32
      modifies this, heap, vmm, vmm.pmm, vmm.pmm.bitmap
      ensures Valid() && Keeps(old(Now()), Now(), {}) && Quiet(old(Now()), Now(), NOWHERE) && !r.Null?
      ensures r.Ok? ==> NewBlock(old(Now()), Now(), a, sz + PAGE_SIZE)
      ensures r.Ok? ==>
        a in heap.b && r.addr % PAGE_SIZE == 0 && a + HEADER <= r.addr && r.addr + sz <= a + HEADER + heap.b[a]
      // It is the page boundary behind the payload's first byte, even if that lies on one.
      ensures r.Ok? ==> a + HEADER < r.addr <= a + HEADER + PAGE_SIZE
      ensures !r.Ok? ==> SameUsers(old(Now()), Now())
      ensures MallocOutcome(old(Now()), Now(), sz + PAGE_SIZE, r, depth)
      ensures Short(old(Now()), sz + PAGE_SIZE) ==> unchanged(heap)
      decreases depth, 7
    {
      hide Keeps, NewBlock, SameUsers, Quiet, Walk, Coherent, Backed, Window, Homed, WellFormed, MallocOutcome, Short,
        FrameAllocator.Pmm.Valid;
      r := Malloc(sz + PAGE_SIZE, depth);
      a := 0;
      if r.Ok? {
        a := r.addr - HEADER;
        NewSize(old(Now()), Now(), a, sz + PAGE_SIZE);
        MallocAt(old(Now()), Now(), sz + PAGE_SIZE, r, Ok(AlignAfter(r.addr)), depth);
        r := Ok(AlignAfter(r.addr));
      }
    }

    method Malloc(size: int, depth: nat) returns (r: Result)
      requires Valid() && 0 <= size < UINT32
      modifies this, heap, vmm, vmm.pmm, vmm.pmm.bitmap
      ensures Valid() && Keeps(old(Now()), Now(), {}) && Quiet(old(Now()), Now(), NOWHERE)
      ensures r.Null? <==> size == 0
      ensures r.Ok? ==> NewBlock(old(Now()), Now(), r.addr - HEADER, size)
      ensures !r.Ok? ==> SameUsers(old(Now()), Now())
      // When it fails, and when it never returns.
      ensures 0 < size ==> MallocOutcome(old(Now()), Now(), size, r, depth)
      ensures depth > 0 && Serves(old(Now()), size) ==> r.Ok?
      ensures 0 < size && Short(old(Now()), size) ==> unchanged(heap)
      // A request that fits is served from the smallest free block that holds it; only others move the boundary.
      ensures 0 < size <= MAX_SIZE && Fits(old(Now()), RoundUp(size)) ==>
                && r.Ok? && r.addr - HEADER in old(heap.f) && r.addr - HEADER in old(heap.b)
                && old(heap.b)[r.addr - HEADER] >= RoundUp(size)
                && forall x :: x in old(heap.f) && x in old(heap.b) && old(heap.b)[x] >= RoundUp(size) ==>
                  old(heap.b)[r.addr - HEADER] <= old(heap.b)[x]
      ensures r.Ok? && !Fits(old(Now()), RoundUp(size)) ==>
                && r.addr - HEADER >= old(heapCurr) && heapCurr == r.addr - HEADER + RoundUp(size) + OVERHEAD
                && (Covered(old(Now()), RoundUp(size) + OVERHEAD) ==>
                      r.addr - HEADER == old(heapCurr) && heap.f == old(heap.f) &&
                        heap.b == old(heap.b)[old(heapCurr) := RoundUp(size)])
      decreases depth, 6
    {
      hide Keeps, NewBlock, SameUsers, Quiet, Walk, Coherent, Backed, Window, Homed, WellFormed, UserLive, LiveKept,
        LiveSet, MallocOutcome, Covered, Roomy, Serves, FrameAllocator.Pmm.Valid;
      NowCalm();
      if depth > 0 && Serves(Now(), size) {
        ServesSome(Now(), size);
      }
      if size == 0 {
        return Null;
      }
      if size > MAX_SIZE {
        MallocWraps(Now(), size, depth);
        return Wraps;
      }
      var best := heap.BestFit(RoundUp(size), heapCurr);
      if best != 0 {
        TakeFree(best, size);
        r := Ok(best + HEADER);
        MallocFits(old(Now()), Now(), best, size, r, depth);
      } else {
        r := Extend(size, depth);
        KeptMax(old(Now()), Now());
        if depth > 0 && Serves(old(Now()), size) {
          MallocServes(old(Now()), Now(), size, r, depth);
        }
      }
    }

    method TakeFree(best: int, size: int)
      requires Valid() && 0 < size && best in heap.f && best in heap.b && heap.b[best] >= RoundUp(size)
      modifies heap
      ensures Valid() && Keeps(old(Now()), Now(), {}) && Quiet(old(Now()), Now(), NOWHERE)
      ensures NewBlock(old(Now()), Now(), best, size)
    {
      hide Keeps, NewBlock, Walk, Coherent, Backed, Window, Homed, WellFormed, LiveKept, LiveSet,
        FrameAllocator.Pmm.Valid;
      ghost var x := Now();
      heap.TakeBest(best, RoundUp(size), heapCurr);
      HeapStep(x, Now(), vmm.sp, vmm.owner, heap.start);
      BlockAdded(x, Now(), vmm.sp, vmm.owner, heap.start, best, size);
    }

    method Extend(size: int, depth: nat) returns (r: Result)
      requires Valid() && 0 < size <= MAX_SIZE && !Fits(Now(), RoundUp(size))
      modifies this, heap, vmm, vmm.pmm, vmm.pmm.bitmap
      ensures Valid() && Keeps(old(Now()), Now(), {}) && Quiet(old(Now()), Now(), NOWHERE) && !r.Null?
      ensures r.Ok? ==> NewBlock(old(Now()), Now(), r.addr - HEADER, size)
      ensures r.Ok? ==> r.addr - HEADER >= old(heapCurr) && heapCurr == r.addr - HEADER + RoundUp(size) + OVERHEAD
      ensures !r.Ok? ==> SameUsers(old(Now()), Now())
      ensures MallocOutcome(old(Now()), Now(), size, r, depth)
      ensures Short(old(Now()), size) ==> unchanged(heap)
      ensures Covered(old(Now()), RoundUp(size) + OVERHEAD) && r.Ok? ==>
                r.addr - HEADER == old(heapCurr) && heap.f == old(heap.f) &&
                  heap.b == old(heap.b)[old(heapCurr) := RoundUp(size)]
      decreases depth, 6, 0
    {
      hide Keeps, NewBlock, SameUsers, Quiet, Walk, Coherent, Backed, Window, Homed, WellFormed, UserLive, LiveKept,
        LiveSet, Fits, Covered, Roomy, Stuck, MallocOutcome, Short, BrkOutcome, Extended, FrameAllocator.Pmm.Valid,
        FrameAllocator.Pmm.Counted;
      ghost var x := Now();
      ghost var fl, first := heap.fl, heap.freelist;
      r := Ksbrk(RoundUp(size) + OVERHEAD, depth);
      ghost var y, moved := Now(), r;
      CalmParts(x, y, NOWHERE);
      if r.Ok? {
        var ret := r.addr;
        PastHeap(x.mem, x.b, x.f, fl, first, HEAP_START, x.curr, ret);
        heap.Place(ret, RoundUp(size));
        HeapStep(y, Now(), vmm.sp, vmm.owner, heap.start);
        KeepsTrans(x, y, Now(), {});
        BlockAdded(y, Now(), vmm.sp, vmm.owner, heap.start, ret, size);
        AddedLater(x, y, Now(), ret, size);
        SameMap(x, y, Now());
        r := Ok(ret + HEADER);
      }
      MallocGrows(x, y, Now(), size, moved, r, depth);
      MallocShort(x, Now(), size, r, depth);
    }

    method MoveTo(boundary: int, end: int, ghost x: Snap)
      requires Valid() && Calm(x, Now(), NOWHERE)
      requires heapCurr < boundary <= end <= WINDOW_PAGE * PAGE_SIZE && heapEnd <= end && end % PAGE_SIZE == 0
      requires forall pg :: heapEnd / PAGE_SIZE <= pg < end / PAGE_SIZE ==> pg in vmm.owner
      modifies `heapCurr, `heapEnd
      ensures ValidAt(old(heapCurr)) && heapCurr == boundary && heapEnd == end
      ensures Calm(x, Now(), NOWHERE)
    {
      hide Keeps, SameUsers, Quiet, Calm, Walk, Coherent, Backed, Window, Homed, WellFormed, UserLive,
        FrameAllocator.Pmm.Valid;
      Widened(vmm.sp, vmm.owner, HEAP_PAGE, heapEnd / PAGE_SIZE, end / PAGE_SIZE);
      ghost var z := Now();
      heapEnd := end;
      heapCurr := boundary;
      MovedBoundary(x, z, Now());
    }

    /**
      ksbrk for a positive size: moves the boundary by `n` and returns where it was. When mapping
      pages allocated page tables from the heap, the boundary has moved already and everything
      starts again behind the new tables.
     */
    method Ksbrk(n: int, depth: nat) returns (r: Result)
      requires Valid() && 0 < n <= UINT32
      modifies this, heap, vmm, vmm.pmm, vmm.pmm.bitmap
      ensures Calm(old(Now()), Now(), NOWHERE) && !r.Null?
      ensures r.Ok? ==> ValidAt(r.addr) && heapCurr == r.addr + n && r.addr >= old(heapCurr)
      ensures !r.Ok? ==> Valid()
      ensures BrkOutcome(old(Now()), Now(), n, r, depth)
      ensures Covered(old(Now()), n) || !Roomy(old(Now())) ==> unchanged(heap)
      ensures Covered(old(Now()), n) && r.Ok? ==> r.addr == old(heapCurr)
      decreases depth, 5
    {
      hide Keeps, SameUsers, Quiet, Calm, Walk, Coherent, Backed, Window, Homed, WellFormed, UserLive, Fits, Covered,
        Roomy, Stuck, Ends, Absent, BrkOutcome, MapOutcome, Again, FrameAllocator.Pmm.Valid,
        FrameAllocator.Pmm.Counted, Heap.Ok;
      ghost var x := Now();
      NowCalm();
      WrapsJust(heapCurr, n);
      if NewBoundary(heapCurr, n % UINT32) != heapCurr + n {
        BrkWraps(x, n, depth);
        return Wraps;
      }
      AgainFirst(x, n);
      var done := false;
      r := Ok(0);
      while !done
        invariant Shaped(vmm.sp)
        invariant done ==>
          Calm(x, Now(), NOWHERE) && !r.Null? && BrkOutcome(x, Now(), n, r, depth) &&
            x.curr <= heapCurr - if r.Ok? then n else 0
        invariant done ==> if r.Ok? then ValidAt(r.addr) && heapCurr == r.addr + n else Valid()
        invariant done && Covered(x, n) && r.Ok? ==> r.addr == x.curr
        invariant !done ==>
          Valid() && Calm(x, Now(), NOWHERE) && Again(x, Now(), n) && heapCurr + n < UINT32 && x.curr <= heapCurr
        invariant Covered(x, n) || !Roomy(x) ==> unchanged(heap) && (!done ==> Now() == x)
        decreases if done then 0 else 1, |Absent(vmm.sp)|
      {
        done, r := TryBrk(n, x, depth);
      }
    }

    /** From restart_sbrk on: one attempt to move the boundary. */
    method TryBrk(n: int, ghost x: Snap, depth: nat) returns (done: bool, r: Result)
      requires Valid() && 0 < n <= UINT32 && heapCurr + n < UINT32
      requires Calm(x, Now(), NOWHERE) && Again(x, Now(), n) && HEAP_START <= x.curr <= heapCurr && x.curr <= x.end
      requires x.end % PAGE_SIZE == 0
      requires Shaped(x.sp) && x.end <= WINDOW_PAGE * PAGE_SIZE && x.curr + n < UINT32
      requires Covered(x, n) || !Roomy(x) ==> Now() == x
      modifies this, heap, vmm, vmm.pmm, vmm.pmm.bitmap
      ensures Calm(x, Now(), NOWHERE) && Shaped(vmm.sp)
      ensures done ==> !r.Null? && BrkOutcome(x, Now(), n, r, depth)
      ensures done ==>
        if r.Ok? then ValidAt(r.addr) && heapCurr == r.addr + n && r.addr == old(heapCurr)
        else Valid() && x.curr <= heapCurr
      ensures !done ==>
        Valid() && Again(x, Now(), n) && heapCurr + n < UINT32 && x.curr <= heapCurr &&
          |Absent(vmm.sp)| < |Absent(old(vmm.sp))|
      ensures !done ==> Roomy(x) && !Covered(x, n)
      ensures Covered(old(Now()), n) || !Roomy(old(Now())) ==> unchanged(heap)
      decreases depth, 5, 1
    {
      hide Keeps, SameUsers, Quiet, Calm, Walk, Coherent, Backed, Window, Homed, WellFormed, UserLive, Fits, Covered,
        Roomy, Stuck, Ends, Absent, BrkOutcome, MapOutcome, Again, KernelsOwn, FrameAllocator.Pmm.Valid,
        FrameAllocator.Pmm.Counted, Heap.Ok, CoreAt;
      ghost var y := Now();
      Handy();
      var was := heapCurr;
      WrapsJust(heapCurr, n);
      var boundary := NewBoundary(heapCurr, n % UINT32);
      if boundary <= heapEnd {
        MoveTo(boundary, heapEnd, x);
        BrkInside(x, y, Now(), n, Ok(was), depth);
        done, r := true, Ok(was);
      } else if boundary > HEAP_MAX {
        BrkPast(x, y, n, depth);
        done, r := true, NoWindow;
      } else {
        done, r := MapBrk(n, boundary, x, depth);
      }
    }

    /** The new boundary lies past the mapped heap: map the pages in between, and start again if that moved it. */
    method MapBrk(n: int, boundary: int, ghost x: Snap, depth: nat) returns (done: bool, r: Result)
      requires Valid() && 0 < n <= UINT32 && heapCurr + n < UINT32
      requires Calm(x, Now(), NOWHERE) && Again(x, Now(), n) && HEAP_START <= x.curr <= heapCurr && x.curr <= x.end
      requires x.end % PAGE_SIZE == 0
      requires Shaped(x.sp) && x.end <= WINDOW_PAGE * PAGE_SIZE && x.curr + n < UINT32
      requires Covered(x, n) || !Roomy(x) ==> Now() == x
      requires boundary == heapCurr + n && heapEnd < boundary <= HEAP_MAX
      modifies this, heap, vmm, vmm.pmm, vmm.pmm.bitmap
      ensures Calm(x, Now(), NOWHERE) && Shaped(vmm.sp)
      ensures done ==> !r.Null? && BrkOutcome(x, Now(), n, r, depth)
      ensures done ==>
        if r.Ok? then ValidAt(r.addr) && heapCurr == r.addr + n && r.addr == old(heapCurr)
        else Valid() && x.curr <= heapCurr
      ensures !done ==>
        Valid() && Again(x, Now(), n) && heapCurr + n < UINT32 && x.curr <= heapCurr &&
          |Absent(vmm.sp)| < |Absent(old(vmm.sp))|
      ensures !done ==> Roomy(x) && !Covered(x, n)
      ensures Covered(old(Now()), n) || !Roomy(old(Now())) ==> unchanged(heap)
      decreases depth, 5, 0
    {
      hide Keeps, SameUsers, Quiet, Calm, Walk, Coherent, Backed, Window, Homed, WellFormed, UserLive, Fits, Covered,
        Roomy, Stuck, Ends, Absent, BrkOutcome, MapOutcome, Again, KernelsOwn, FrameAllocator.Pmm.Valid,
        FrameAllocator.Pmm.Counted, Heap.Ok, CoreAt;
      ghost var y := Now();
      Handy();
      var was := heapCurr;
      var runner;
      r, runner := MapPages(boundary, depth);
      Handy();
      CalmMoves(y, Now(), NOWHERE);
      CalmTrans(x, y, Now(), NOWHERE);
      CoveredIs(y, n);
      if !r.Ok? {
        BrkFails(x, y, Now(), n, r, depth);
        return true, r;
      }
      if was == heapCurr {
        ghost var z := Now();
        SameEnd(y, z, boundary, r, depth);
        MoveTo(boundary, runner, x);
        BrkMapped(x, y, z, Now(), n, r, Ok(was), depth);
        return true, Ok(was);
      }
      Restarts(x, y, Now(), n, r, depth);
      return false, r;
    }

    lemma NowCalm()
      requires Valid()
      ensures Calm(Now(), Now(), NOWHERE) && Keeps(Now(), Now(), {}) && SameUsers(Now(), Now())
      ensures Quiet(Now(), Now(), NOWHERE)
    {
      HeapTags(heap.mem, heap.b, heap.f, heap.fl, heap.freelist, heap.start, heapCurr);
      CalmSelf(Now());
    }

    /** Enters a table that lies in the new block `a`, which becomes its home. */
    method TakeTable(ghost x: Snap, page: int, table: int, ghost a: int, rw: bool, user: bool)
      requires Valid() && Keeps(x, Now(), {}) && Quiet(x, Now(), NOWHERE) && NewBlock(x, Now(), a, TABLE_REQUEST)
      requires 0 <= page < PAGES && !HasTable(vmm.sp, page)
      requires table % PAGE_SIZE == 0 && a in heap.b && a + HEADER <= table
      requires table + PAGE_SIZE <= a + HEADER + heap.b[a]
      modifies `home, vmm`sp
      ensures Valid() && TableCalm(x, Now(), page) && HasTable(vmm.sp, page)
      ensures forall pg :: 0 <= pg < PAGES ==> Walk(vmm.sp, pg) == Walk(old(vmm.sp), pg)
      ensures PageRights(old(vmm.sp), vmm.sp, page, Rights(rw, user))
    {
      hide Word, Walk, Flags, WellFormed, LiveKept, UserLive, LiveSet, Stable, Quiet, FrameAllocator.Pmm.Valid,
        FrameAllocator.Pmm.Counted;
      ghost var y := Now();
      HeapTags(heap.mem, heap.b, heap.f, heap.fl, heap.freelist, heap.start, heapCurr);
      var d := DirIndex(page);
      assert heap.start <= a && End(heap.b, a) <= heapCurr;
      FreshFrame(vmm.sp, vmm.owner, vmm.holder, heap.b, heap.f, heap.start, home, d, table, a);
      InstallHomed(vmm.sp, vmm.owner, heap.b, heap.f, HEAP_START, home, d, table, vmm.owner[table / PAGE_SIZE], rw,
        user, a);
      Adopted(x, heap.b, heap.f, home, d, a);
      hide Coherent, Backed, Homed, FreshTable, NewBlock;
      vmm.InstallTable(d, table, rw, user);
      home := home[d := a];
      InstallKeeps(x, y, Now(), page);
    }

    /** The first half of allocate_page: a missing page table comes from the heap. */
    method EnsureTable(page: int, rw: bool, user: bool, depth: nat) returns (st: Result)
      requires Valid() && 0 <= page < PAGES
      modifies this, heap, vmm, vmm.pmm, vmm.pmm.bitmap
      ensures Valid() && TableCalm(old(Now()), Now(), page)
      ensures PageRights(old(vmm.sp), vmm.sp, page, Rights(rw, user))
      ensures TableOutcome(old(Now()), Now(), page, st, depth)
      ensures old(HasTable(vmm.sp, page)) || !Roomy(old(Now())) ==> unchanged(heap)
      ensures !old(HasTable(vmm.sp, page)) && HEAP_PAGE <= page ==> heapEnd / PAGE_SIZE <= page
      decreases depth, 1
    {
      hide Keeps, NewBlock, SameUsers, Quiet, Calm, TableCalm, PageRights, Walk, Coherent, Backed, Window, Homed,
        WellFormed, UserLive, Fits, Covered, Roomy, Stuck, Short, MallocOutcome, TableOutcome,
        FrameAllocator.Pmm.Valid, FrameAllocator.Pmm.Counted;
      ghost var x, rights := Now(), Rights(rw, user);
      NowCalm();
      CalmTable(x, x, page);
      SameRights(x.sp, page, rights);
      TableBit(vmm.sp, DirIndex(page));
      TableOutcomeSelf(x, page, depth);
      st := Ok(page);
      if vmm.sp.refs[DirIndex(page)] == 0 {
        if HEAP_PAGE <= page {
          Untabled(vmm.sp, vmm.owner, vmm.holder, HEAP_PAGE, heapEnd / PAGE_SIZE, page);
        }
        if depth == 0 {
          return Deep;
        }
        var table;
        ghost var a;
        table, a := KmallocA(PAGE_SIZE, depth - 1);
        ghost var y := Now();
        CalmParts(x, y, NOWHERE);
        TableShort(x, y, table, depth - 1);
        NoTableYet(x.sp, y.sp, page, rights);
        if HEAP_PAGE <= page {
          Untabled(vmm.sp, vmm.owner, vmm.holder, HEAP_PAGE, heapEnd / PAGE_SIZE, page);
        }
        if !table.Ok? {
          CalmTable(x, y, page);
          TableRefused(x, y, page, table, depth);
          return table;
        }
        MallocAt(x, y, TABLE_REQUEST, table, Ok(0), depth - 1);
        TakeTable(x, page, table.addr, a, rw, user);
        PageRightsThen(x.sp, y.sp, vmm.sp, page, rights);
        TableGranted(x, y, Now(), page, st, depth);
      }
    }

    /**
      The second half: a missing frame comes from the frame allocator. For a page of the heap window
      there has to be one.
     */
    method EnsureFrame(page: int, frame: int, rw: bool, user: bool) returns (st: Result)
      requires Valid() && 0 <= page < PAGES && frame >= 0 && HasTable(vmm.sp, page)
      requires frame != 0 ==> !InWindow(page)
      modifies vmm, vmm.pmm, vmm.pmm.bitmap
      ensures Valid() && Calm(old(Now()), Now(), page) && Frozen(old(Now()), Now())
      ensures PageRights(old(vmm.sp), vmm.sp, page, Rights(rw, user))
      ensures st.Ok? || st.NoFrames?
      ensures st.Ok? ==>
                && PageAllocated(old(vmm.sp), old(vmm.owner), old(vmm.pmm.taken), vmm.sp, vmm.owner, vmm.pmm.taken,
                  page, frame,
                                 old(vmm.pmm.used) == vmm.pmm.maxBlocks)
                && Walk(vmm.sp, page).Some? && (InWindow(page) ==> page in vmm.owner)
                && (InWindow(page) && Walk(old(vmm.sp), page).None? ==> old(vmm.pmm.used) != vmm.pmm.maxBlocks)
      ensures st.NoFrames? ==>
                Now() == old(Now()) && InWindow(page) && Walk(old(vmm.sp), page).None? &&
                  vmm.pmm.used == vmm.pmm.maxBlocks
    {
      hide Keeps, SameUsers, Quiet, Calm, PageRights, Granted, RightsKept, Walk, Coherent, Backed, Window, Homed,
        WellFormed, UserLive, PageAllocated, FrameAllocator.Pmm.Valid;
      ghost var x, holder, full := Now(), vmm.holder, vmm.pmm.used == vmm.pmm.maxBlocks;
      FrameAllocator.Pigeonhole(vmm.pmm.taken, vmm.pmm.maxBlocks);
      if frame == 0 && InWindow(page) && Walk(vmm.sp, page).None? && vmm.pmm.maxBlocks - vmm.pmm.used <= 0 {
        NowCalm();
        CalmLess(x, x, page);
        SameRights(x.sp, page, Rights(rw, user));
        return NoFrames;
      }
      st := Ok(page);
      HeapTags(heap.mem, heap.b, heap.f, heap.fl, heap.freelist, heap.start, heapCurr);
      vmm.MapEntry(page, frame, rw, user);
      MapKept(x.sp, x.owner, x.taken, vmm.sp, vmm.owner, vmm.pmm.taken, page, frame, full, heap.b, heap.f,
        heapEnd / PAGE_SIZE, home);
      GrantedPage(x.sp, vmm.sp, page, page, page + 1, Rights(rw, user));
      GrantedKept(x.sp, vmm.sp, page, Rights(rw, user));
      MapCalm(x, Now(), holder, page, frame, full);
    }

    method AllocatePage(page: int, frame: int, rw: bool, user: bool, depth: nat) returns (st: Result)
      requires Valid() && 0 <= page < PAGES && frame >= 0
      requires frame != 0 ==> !InWindow(page)
      modifies this, heap, vmm, vmm.pmm, vmm.pmm.bitmap
      ensures Valid() && Calm(old(Now()), Now(), page)
      ensures PageOutcome(old(Now()), Now(), page, frame, st, depth)
      // A new page gets the rights asked for, less those its table, if it had one, does not grant.
      ensures PageRights(old(vmm.sp), vmm.sp, page, Rights(rw, user))
      ensures st.Ok? && Walk(old(vmm.sp), page).None? ==>
        && Flags(vmm.sp, page) == Some(Rights(rw, user))
        && var had, dir := HasTable(old(vmm.sp), page), DirRights(old(vmm.sp), DirIndex(page));
        && (!had ==> DirRights(vmm.sp, DirIndex(page)) == Rights(rw, user))
        && Access(vmm.sp, page) == Some(Rights(rw && (had ==> dir.write), user && (had ==> dir.user)))
      // Every page that was there before keeps its rights.
      ensures forall pg :: 0 <= pg < PAGES && Walk(old(vmm.sp), pg).Some? ==>
        Access(vmm.sp, pg) == Access(old(vmm.sp), pg)
      ensures st.Ok? && InWindow(page) ==> page in vmm.owner
      ensures old(HasTable(vmm.sp, page)) || !Roomy(old(Now())) ==> unchanged(heap)
      ensures !old(HasTable(vmm.sp, page)) && HEAP_PAGE <= page ==> heapEnd / PAGE_SIZE <= page
      decreases depth, 2
    {
      hide Keeps, SameUsers, Quiet, Calm, TableCalm, PageRights, Access, Flags, Walk, Coherent, Backed, Window, Homed,
        WellFormed, UserLive, Roomy, PageAllocated, TableOutcome, PageOutcome, FrameAllocator.Pmm.Valid, Heap.Ok;
      ghost var x, rights := Now(), Rights(rw, user);
      st := EnsureTable(page, rw, user, depth);
      TableGives(x, Now(), page, st, depth);
      TableCalmMoves(x, Now(), page);
      ghost var y, holder := Now(), vmm.holder;
      if st.Ok? {
        FrameAllocator.Pigeonhole(vmm.pmm.taken, vmm.pmm.maxBlocks);
        ghost var t := st;
        st := EnsureFrame(page, frame, rw, user);
        TableCalmTrans(x, y, Now(), page);
        PageRightsThen(x.sp, y.sp, vmm.sp, page, rights);
        OwnerWalks(vmm.sp, vmm.owner, vmm.holder, page);
        PageFromFrame(x, y, Now(), holder, page, frame, t, st, depth);
      } else {
        PageFromTable(x, y, page, frame, st, depth);
      }
      if st.Ok? && Walk(x.sp, page).None? {
        PagePresent(x, Now(), page, frame, st, depth);
        PageAccess(x.sp, vmm.sp, page, rights);
        PageFlags(x.sp, vmm.sp, page, rights);
      }
      CalmAccess(x, Now(), page);
    }

    /** One round of ksbrk's loop. */
    method MapNext(page: int, ghost from: int, ghost hi: int, depth: nat) returns (st: Result)
      requires Valid() && HEAP_PAGE < from <= page < hi <= WINDOW_PAGE && from <= heapEnd / PAGE_SIZE
      requires HasTable(vmm.sp, page - 1) && Tabled(vmm.sp, from, page)
      modifies this, heap, vmm, vmm.pmm, vmm.pmm.bitmap
      ensures Valid() && Calm(old(Now()), Now(), NOWHERE)
      ensures PageOutcome(old(Now()), Now(), page, 0, st, depth)
      ensures old(HasTable(vmm.sp, page)) || !Roomy(old(Now())) ==> unchanged(heap)
      ensures st.Ok? ==> page in vmm.owner && HasTable(vmm.sp, page) && Tabled(vmm.sp, from, page + 1)
      ensures st.Ok? && (old(Tabled(vmm.sp, heapEnd / PAGE_SIZE, hi)) || Roomy(old(Now()))) ==>
        Tabled(vmm.sp, heapEnd / PAGE_SIZE, hi) || Roomy(Now())
      ensures st.Ok? && (heapCurr != old(heapCurr) || Roomy(old(Now()))) ==> Roomy(Now())
      ensures st.Ok? && heapCurr != old(heapCurr) ==> |Absent(vmm.sp)| < |Absent(old(vmm.sp))| && Roomy(old(Now()))
      ensures |Absent(vmm.sp)| <= |Absent(old(vmm.sp))|
      ensures HasTable(vmm.sp, page) && !old(HasTable(vmm.sp, page)) ==> |Absent(vmm.sp)| < |Absent(old(vmm.sp))|
      ensures !old(HasTable(vmm.sp, page)) ==> old(heapEnd) / PAGE_SIZE <= page
      decreases depth, 3
    {
      hide Keeps, SameUsers, Quiet, Calm, Walk, Coherent, Backed, Window, Homed, WellFormed, UserLive, Tabled, Absent,
        Roomy, Covered, Fits, PageOutcome, Frozen, FrameAllocator.Pmm.Valid, FrameAllocator.Pmm.Counted, Heap.Ok;
      ghost var x := Now();
      if !HasTable(vmm.sp, page) {
        Untabled(vmm.sp, vmm.owner, vmm.holder, HEAP_PAGE, heapEnd / PAGE_SIZE, page);
      }
      st := AllocatePage(page, 0, true, false, depth);
      WindowCalm(x, Now(), page);
      CalmMoves(x, Now(), page);
      PageGives(x, Now(), page, st, depth);
      KeptTables(x, Now(), DirIndex(page));
      if st.Ok? {
        TabledGrows(x, Now(), from, page);
        OneMoreTabled(vmm.sp, from, page);
        if !HasTable(x.sp, page) {
          NewTableCovers(x.sp, vmm.sp, from, page, heapEnd / PAGE_SIZE, PagesTo(heapCurr + TABLE_REQUEST + OVERHEAD));
          NowRoomy(Now());
        } else {
          SameTabled(x.sp, vmm.sp, heapEnd / PAGE_SIZE, hi);
          FrozenRoomy(x, Now());
        }
      }
    }

    /** ksbrk's loop: maps every page from the old heap_end up to the new boundary. */
    method MapPages(nb: int, depth: nat) returns (st: Result, runner: int)
      requires Valid() && heapEnd < nb <= HEAP_MAX
      modifies this, heap, vmm, vmm.pmm, vmm.pmm.bitmap
      ensures Valid() && Calm(old(Now()), Now(), NOWHERE)
      ensures MapOutcome(old(Now()), Now(), nb, st, depth)
      ensures st.Ok? ==>
        runner == PagesTo(nb) * PAGE_SIZE && forall pg :: old(heapEnd) / PAGE_SIZE <= pg < PagesTo(nb) ==>
          pg in vmm.owner
      ensures KernelsOwn(old(vmm.sp), vmm.sp)
      ensures old(Tabled(vmm.sp, heapEnd / PAGE_SIZE, PagesTo(nb))) || !Roomy(old(Now())) ==> unchanged(heap)
      decreases depth, 4
    {
      hide Keeps, SameUsers, Quiet, Calm, Walk, Coherent, Backed, Window, Homed, WellFormed, UserLive, Tabled, Absent,
        Roomy, Covered, Fits, PageOutcome, MapOutcome, Frozen, Extended, OnTheWay, KernelsOwn,
        FrameAllocator.Pmm.Valid,
        FrameAllocator.Pmm.Counted, Heap.Ok;
      ghost var x, from, hi := Now(), heapEnd / PAGE_SIZE, PagesTo(nb);
      NowCalm();
      LastTabled(vmm.sp, vmm.owner, vmm.holder, HEAP_PAGE, from);
      NothingTabled(vmm.sp, from);
      ghost var p := FirstStop(x, hi);
      WayStarts(x, hi, p);
      runner := heapEnd;
      ghost var page := from;
      st := Ok(0);
      while runner < nb
        invariant runner == page * PAGE_SIZE && from <= page <= hi && st.Ok?
        invariant Valid() && Calm(x, Now(), NOWHERE)
        invariant HasTable(vmm.sp, page - 1) && Tabled(vmm.sp, from, page)
        invariant forall pg :: from <= pg < page ==> pg in vmm.owner
        invariant OnTheWay(x, Now(), hi, page, p)
        invariant Tabled(x.sp, from, hi) || !Roomy(x) ==> unchanged(heap)
        invariant x.end <= heapEnd && x.curr <= heapCurr
      {
        ghost var y := Now();
        MaxFrames();
        st := MapNext(runner / PAGE_SIZE, from, hi, depth);
        CalmMoves(y, Now(), NOWHERE);
        CalmTrans(x, y, Now(), NOWHERE);
        KeptOwners(y, Now(), from, page);
        KeptTables(y, Now(), 0);
        WayTables(x, y, hi, page, p);
        if !st.Ok? {
          WayFails(x, y, Now(), nb, page, p, st, depth);
          NewAreKernels(x, Now());
          return;
        }
        WayGoesOn(x, y, Now(), hi, page, p, st, depth);
        runner := runner + PAGE_SIZE;
        page := page + 1;
      }
      MaxFrames();
      WayEnds(x, Now(), nb, p, st, depth);
      NewAreKernels(x, Now());
    }

    lemma MaxFrames()
      requires Valid()
      ensures |vmm.pmm.taken| <= vmm.pmm.maxBlocks
    {
      FrameAllocator.Pigeonhole(vmm.pmm.taken, vmm.pmm.maxBlocks);
    }

    /**
      free_page, with the heap on. Everything is in order afterwards exactly when a frame was released
      just if it came from the allocator, and the page neither held a page table nor was part of the
      heap.
     */
    method FreePage(page: int, free: bool)
      requires Valid() && 0 <= page < PAGES && (free ==> InBitmap(vmm.sp, page, 32 * vmm.pmm.bitmap.Length))
      modifies vmm`sp, vmm`owner, vmm`holder, vmm.pmm, vmm.pmm.bitmap
      ensures PageFreed(old(Now()), Now(), page, free)
      ensures Valid() <==>
        Walk(old(vmm.sp), page).None?
        || ((free <==> page in old(vmm.owner)) && HoldsNoTable(old(vmm.sp), page) &&
          !(HEAP_PAGE <= page < heapEnd / PAGE_SIZE))
    {
      hide Word, WellFormed, Walk, Coherent, Backed, Window, Homed, HoldsNoTable, FrameAllocator.Pmm.Valid,
        FrameAllocator.Pmm.Counted, Ends, Heap.Ok;
      ghost var x, holder := Now(), vmm.holder;
      vmm.FreePage(page, free);
      if Walk(x.sp, page).None? || HoldsNoTable(x.sp, page) {
        FreedKept(x, Now(), holder, page, free);
      }
    }

    method Free(ptr: int)
      requires Valid() && ptr - HEADER in UserLive(heap.b, heap.f, home)
      modifies heap
      ensures Valid() && Keeps(old(Now()), Now(), {ptr - HEADER})
      ensures UserLive(heap.b, heap.f, home) == old(UserLive(heap.b, heap.f, home)) - {ptr - HEADER}
    {
      hide Word, Keeps, Resized, Walk, Coherent, Backed, Window, Homed, WellFormed, LiveKept, LiveSet, UserLive,
        NotHome, Tagged, Separate, Carried, Same;
      ghost var x := Now();
      UserBlock(x, ptr - HEADER);
      heap.Free(ptr, heapCurr);
      HeapChange(x, Now(), vmm.sp, vmm.owner, heap.start, ptr - HEADER, ptr - HEADER);
    }

    /** A block grows over the free block behind it. */
    method GrowNext(curr: int, next: int, size: int)
      requires Valid() && curr in UserLive(heap.b, heap.f, home) && curr in heap.b && End(heap.b, curr) == next
      requires next in heap.f && next in heap.b
      requires 0 < size <= heap.b[curr] + OVERHEAD + heap.b[next]
      modifies heap
      ensures Valid() && Resized(old(Now()), Now(), curr, curr, size)
      ensures heap.b == old((heap.b - {next})[curr := heap.b[curr] + OVERHEAD + heap.b[next]])
      ensures heap.f == old(heap.f) - {next}
    {
      hide Word, Keeps, Resized, Walk, Coherent, Backed, Window, Homed, WellFormed, LiveKept, LiveSet, UserLive,
        NotHome, Tagged, Separate, Carried, Same;
      ghost var x := Now();
      UserBlock(x, curr);
      BlockFacts(heap.mem, heap.b, heap.f, heap.fl, heap.freelist, heap.start, heapCurr, curr);
      BlockFacts(heap.mem, heap.b, heap.f, heap.fl, heap.freelist, heap.start, heapCurr, next);
      heap.GrowIntoNext(curr, next, heapCurr);
      HeapChange(x, Now(), vmm.sp, vmm.owner, heap.start, curr, curr);
      Grown(x, Now(), curr, size);
    }

    /** A block moves down into the free block before it and takes over both. */
    method GrowPrev(prev: int, curr: int, size: int)
      requires Valid() && curr in UserLive(heap.b, heap.f, home) && curr in heap.b && prev in heap.f && prev in heap.b
      requires End(heap.b, prev) == curr
      requires 0 < size <= heap.b[curr] + OVERHEAD + heap.b[prev]
      modifies heap
      ensures Valid() && Resized(old(Now()), Now(), curr, prev, size)
      ensures heap.b == old((heap.b - {curr})[prev := heap.b[curr] + OVERHEAD + heap.b[prev]])
      ensures heap.f == old(heap.f) - {prev}
    {
      hide Word, Keeps, Resized, Walk, Coherent, Backed, Window, Homed, WellFormed, LiveKept, LiveSet, UserLive,
        NotHome, Tagged, Separate, Carried, Same;
      ghost var x := Now();
      UserBlock(x, curr);
      BlockFacts(heap.mem, heap.b, heap.f, heap.fl, heap.freelist, heap.start, heapCurr, curr);
      BlockFacts(heap.mem, heap.b, heap.f, heap.fl, heap.freelist, heap.start, heapCurr, prev);
      heap.GrowIntoPrev(prev, curr, heapCurr);
      HeapChange(x, Now(), vmm.sp, vmm.owner, heap.start, curr, prev);
      CarriedOver(x.mem, heap.mem, curr + HEADER, prev + HEADER, x.b[curr]);
      Moved(x, Now(), curr, prev, size);
    }

    /** A block gives up its end, to the free block behind it or as a new free block. */
    method Shrink(curr: int, next: int, size: int)
      requires Valid() && curr in UserLive(heap.b, heap.f, home) && curr in heap.b
      requires if End(heap.b, curr) == heapCurr then next == 0 else next == End(heap.b, curr) && next in heap.b
      requires 0 < size && RoundUp(size) <= heap.b[curr] - 32
      modifies heap
      ensures CoreAt(heapCurr) && Resized(old(Now()), Now(), curr, curr, size)
      ensures Reshaped(old(Now()), Now(), curr, curr, size)
      ensures Valid() <==> old(heap.tail) != curr
    {
      hide Word, Keeps, Resized, Walk, Coherent, Backed, Window, Homed, WellFormed, LiveKept, LiveSet, UserLive,
        NotHome, Tagged, Separate, Carried, Same;
      ghost var x := Now();
      UserBlock(x, curr);
      BlockFacts(heap.mem, heap.b, heap.f, heap.fl, heap.freelist, heap.start, heapCurr, curr);
      NextFacts(heap.mem, heap.b, heap.f, heap.fl, heap.freelist, heap.start, heapCurr, curr, next, heap.head,
        heap.tail);
      if next != 0 && heap.IsFree(next) {
        heap.ShrinkIntoNext(curr, next, RoundUp(size), heapCurr);
      } else {
        heap.ShrinkAlone(curr, RoundUp(size), heapCurr);
      }
      HeapChange(x, Now(), vmm.sp, vmm.owner, heap.start, curr, curr);
      Grown(x, Now(), curr, size);
    }

    /** memcpy to a new block, then free the old one. */
    method MoveOver(ghost x: Snap, ptr: int, newplace: int, size: int)
      requires Valid() && ptr - HEADER in UserLive(x.b, x.f, x.home) && Keeps(x, Now(), {})
      requires NewBlock(x, Now(), newplace - HEADER, size)
      requires ptr - HEADER in x.b && 0 < x.b[ptr - HEADER] < size
      modifies heap
      ensures Valid() && Resized(x, Now(), ptr - HEADER, newplace - HEADER, size)
      ensures newplace - HEADER in heap.b && newplace - HEADER in old(heap.b)
      ensures heap.b[newplace - HEADER] == old(heap.b[newplace - HEADER])
    {
      hide Word, Keeps, NewBlock, Resized, Walk, Coherent, Backed, Window, Homed, WellFormed, LiveKept, LiveSet,
        UserLive, NotHome, Tagged, Separate, Carried, Same;
      ghost var y, a, c := Now(), ptr - HEADER, newplace - HEADER;
      UserBlock(x, a);
      StillLive(x, y, a, c, size);
      BlockFacts(heap.mem, heap.b, heap.f, heap.fl, heap.freelist, heap.start, heapCurr, a);
      BlockFacts(heap.mem, heap.b, heap.f, heap.fl, heap.freelist, heap.start, heapCurr, c);
      ApartBlocks(heap.b, a, c);
      heap.CopyForward(newplace, ptr, RealSize(Word(heap.mem, ptr - HEADER)));
      Widen(y.mem, heap.mem, newplace, newplace + y.b[a], newplace + y.b[c]);
      OwnerWrites(y.mem, heap.mem, heap.b, heap.f, heap.fl, heap.freelist, heap.start, heapCurr, c);
      ghost var z := Now();
      HeapChange(y, z, vmm.sp, vmm.owner, heap.start, c, c);
      CarriedOver(y.mem, z.mem, ptr, newplace, y.b[a]);
      Free(ptr);
      MovedOver(x, y, z, Now(), a, c, size);
    }

    /**
      On every path the caller's data survive as far as both sizes allow and all other blocks are
      untouched. The heap is left valid exactly when the last block was not cut in two: `tail` then
      still names the front part.
     */
    method Realloc(ptr: int, size: int, depth: nat) returns (r: Result)
      requires Valid() && 0 <= size < UINT32 && (ptr == 0 || ptr - HEADER in UserLive(heap.b, heap.f, home))
      modifies this, heap, vmm, vmm.pmm, vmm.pmm.bitmap
      ensures CoreAt(heapCurr) && (Valid() <==> !CutsTail(old(Now()), ptr, size)) && Quiet(old(Now()), Now(), NOWHERE)
      ensures r.Null? <==> size == 0
      ensures ptr == 0 && r.Ok? ==> Keeps(old(Now()), Now(), {}) && NewBlock(old(Now()), Now(), r.addr - HEADER, size)
      ensures ptr != 0 && size == 0 ==>
                && Keeps(old(Now()), Now(), {ptr - HEADER})
                && UserLive(heap.b, heap.f, home) == old(UserLive(heap.b, heap.f, home)) - {ptr - HEADER}
      ensures ptr != 0 && size > 0 && r.Ok? ==>
        && Resized(old(Now()), Now(), ptr - HEADER, r.addr - HEADER, size)
        && Reshaped(old(Now()), Now(), ptr - HEADER, r.addr - HEADER, size)
      ensures size > 0 && !r.Ok? ==> Keeps(old(Now()), Now(), {}) && SameUsers(old(Now()), Now())
      ensures ptr == 0 && size > 0 ==> MallocOutcome(old(Now()), Now(), size, r, depth)
      ensures ptr != 0 && size > 0 ==> ReallocOutcome(old(Now()), Now(), ptr, size, r, depth)
      decreases depth, 10
    {
      hide Word, Keeps, NewBlock, SameUsers, Quiet, Resized, Reshaped, Walk, Coherent, Backed, Window, Homed,
        WellFormed, UserLive, Tagged, Separate, MallocOutcome, ReallocOutcome, FrameAllocator.Pmm.Valid;
      NowCalm();
      if ptr == 0 {
        r := Malloc(size, depth);
        return;
      }
      if size == 0 {
        UserBlock(Now(), ptr - HEADER);
        ghost var x := Now();
        Free(ptr);
        SameMap(x, x, Now());
        return Null;
      }
      r := Resize(ptr, size, depth);
    }

    method Resize(ptr: int, size: int, depth: nat) returns (r: Result)
      requires Valid() && 0 < size < UINT32 && ptr - HEADER in UserLive(heap.b, heap.f, home) && ptr != 0
      modifies this, heap, vmm, vmm.pmm, vmm.pmm.bitmap
      ensures CoreAt(heapCurr) && (Valid() <==> !CutsTail(old(Now()), ptr, size)) && Quiet(old(Now()), Now(), NOWHERE)
      ensures !r.Null? && (r.Ok? ==> Resized(old(Now()), Now(), ptr - HEADER, r.addr - HEADER, size))
      ensures r.Ok? ==> Reshaped(old(Now()), Now(), ptr - HEADER, r.addr - HEADER, size)
      ensures !r.Ok? ==> Keeps(old(Now()), Now(), {}) && SameUsers(old(Now()), Now())
      ensures ReallocOutcome(old(Now()), Now(), ptr, size, r, depth)
      decreases depth, 9
    {
      hide Word, Keeps, NewBlock, SameUsers, Quiet, Resized, Reshaped, Walk, Coherent, Backed, Window, Homed,
        WellFormed, UserLive, Tagged, Separate, ReallocOutcome, Moves, FrameAllocator.Pmm.Valid;
      ghost var x := Now();
      var curr := ptr - HEADER;
      UserBlock(x, curr);
      NowCalm();
      var next := heap.GetNext(curr, heapCurr);
      var prev := heap.GetPrev(curr, heapCurr);
      BlockFacts(heap.mem, heap.b, heap.f, heap.fl, heap.freelist, heap.start, heapCurr, curr);
      Neighbours(heap.mem, heap.b, heap.f, heap.fl, heap.freelist, heap.start, heapCurr, curr, prev, next);
      if size > MAX_SIZE {
        ReallocDone(x, x, ptr, size, Wraps, depth);
        return Wraps;
      }
      var have := Word(heap.mem, curr);
      if have < size {
        r := Grow(ptr, size, next, prev, depth);
      } else {
        NotMoves(x, curr, size, 0);
        r := Ok(ptr);
        if have == size || RealSize(have) + OVERHEAD - (RoundUp(size) + OVERHEAD) < 8 + OVERHEAD {
          Unmoved(x, curr, size);
          Uncut(x, curr, size);
        } else {
          Shrink(curr, next, size);
          SameMap(x, x, Now());
        }
        ReallocDone(x, Now(), ptr, size, r, depth);
      }
    }

    /** The blocks before and behind, or NULL. */
    ghost predicate Beside(curr: int, prev: int, next: int)
      reads this, heap
    {
      && curr in heap.b
      && (if curr == heap.start then prev == 0 else prev in heap.b && End(heap.b, prev) == curr)
      && (if End(heap.b, curr) == heapCurr then next == 0 else next == End(heap.b, curr) && next in heap.b)
    }

    method Grow(ptr: int, size: int, next: int, prev: int, depth: nat) returns (r: Result)
      requires Valid() && 0 < size <= MAX_SIZE && ptr - HEADER in UserLive(heap.b, heap.f, home)
      requires Beside(ptr - HEADER, prev, next) && 0 < heap.b[ptr - HEADER] < size
      modifies this, heap, vmm, vmm.pmm, vmm.pmm.bitmap
      ensures Valid() && Quiet(old(Now()), Now(), NOWHERE)
      ensures !r.Null? && (r.Ok? ==> Resized(old(Now()), Now(), ptr - HEADER, r.addr - HEADER, size))
      ensures r.Ok? ==> Reshaped(old(Now()), Now(), ptr - HEADER, r.addr - HEADER, size)
      ensures !r.Ok? ==> Keeps(old(Now()), Now(), {}) && SameUsers(old(Now()), Now())
      ensures ReallocOutcome(old(Now()), Now(), ptr, size, r, depth)
      decreases depth, 8
    {
      hide Word, Keeps, NewBlock, SameUsers, Quiet, Resized, Reshaped, Walk, Coherent, Backed, Window, Homed,
        WellFormed, UserLive, Tagged, Separate, ReallocOutcome, Moves, MallocOutcome, Short,
        FrameAllocator.Pmm.Valid;
      ghost var x := Now();
      var curr := ptr - HEADER;
      UserBlock(x, curr);
      NowCalm();
      BlockFacts(heap.mem, heap.b, heap.f, heap.fl, heap.freelist, heap.start, heapCurr, curr);
      Neighbours(heap.mem, heap.b, heap.f, heap.fl, heap.freelist, heap.start, heapCurr, curr, prev, next);
      EdgeBlocks(heap.mem, heap.b, heap.f, heap.fl, heap.freelist, heap.start, heapCurr, curr);
      if prev != 0 {
        BlockFacts(heap.mem, heap.b, heap.f, heap.fl, heap.freelist, heap.start, heapCurr, prev);
      }
      var have := RealSize(Word(heap.mem, curr));
      if heap.tail != curr && heap.IsFree(next) && have + OVERHEAD + RealSize(Word(heap.mem, next)) >= RoundUp(size) {
        NotMoves(x, curr, size, next);
        GrowNext(curr, next, size);
        ReshapedNext(x, Now(), curr, next, size);
        SameMap(x, x, Now());
        r := Ok(ptr);
        ReallocDone(x, Now(), ptr, size, r, depth);
      } else if heap.head != curr && heap.IsFree(prev) && have + OVERHEAD + RealSize(Word(heap.mem,
        prev)) >= RoundUp(size) {
        NotMoves(x, curr, size, prev);
        GrowPrev(prev, curr, size);
        ReshapedPrev(x, Now(), curr, prev, size, next);
        SameMap(x, x, Now());
        r := Ok(prev + HEADER);
        ReallocDone(x, Now(), ptr, size, r, depth);
      } else {
        MovesIf(x, curr, size, next, prev);
        r := Relocate(ptr, size, depth);
      }
    }

    /** The block has to move: malloc, copy and free. */
    method Relocate(ptr: int, size: int, depth: nat) returns (r: Result)
      requires Valid() && 0 < size <= MAX_SIZE && ptr - HEADER in UserLive(heap.b, heap.f, home)
      requires ptr - HEADER in heap.b && 0 < heap.b[ptr - HEADER] < size && Moves(Now(), ptr, size)
      modifies this, heap, vmm, vmm.pmm, vmm.pmm.bitmap
      ensures Valid() && Quiet(old(Now()), Now(), NOWHERE)
      ensures !r.Null? && (r.Ok? ==> Resized(old(Now()), Now(), ptr - HEADER, r.addr - HEADER, size))
      ensures r.Ok? ==> Reshaped(old(Now()), Now(), ptr - HEADER, r.addr - HEADER, size)
      ensures !r.Ok? ==> Keeps(old(Now()), Now(), {}) && SameUsers(old(Now()), Now())
      ensures ReallocOutcome(old(Now()), Now(), ptr, size, r, depth)
      decreases depth, 7
    {
      hide Word, Keeps, NewBlock, SameUsers, Quiet, Resized, Reshaped, Walk, Coherent, Backed, Window, Homed,
        WellFormed, UserLive, Tagged, Separate, ReallocOutcome, Moves, MallocOutcome, Short, Ends, Heap.Ok,
        FrameAllocator.Pmm.Valid;
      ghost var x := Now();
      r := Malloc(size, depth);
      ghost var y := Now();
      if r.Ok? {
        MoveOver(x, ptr, r.addr, size);
        ReshapedByMove(x, y, Now(), ptr - HEADER, r.addr - HEADER, size);
        SameMap(x, y, Now());
      }
      ReallocMoved(x, y, Now(), ptr, size, r, depth);
    }

    /** The owner of a block writes a byte of it. */
    method Poke(ptr: int, offset: int, v: byte)
      requires Valid() && ptr - HEADER in UserLive(heap.b, heap.f, home) && ptr - HEADER in heap.b
      requires 0 <= offset < heap.b[ptr - HEADER]
      modifies heap
      ensures Valid() && Keeps(old(Now()), Now(), {ptr - HEADER}) && heap.b == old(heap.b) && heap.f == old(heap.f)
      ensures 0 <= ptr && ptr + offset < |old(heap.mem)| && heap.mem == old(heap.mem)[ptr + offset := v]
    {
      hide Word, Keeps, Walk, Coherent, Backed, Window, Homed, WellFormed, LiveKept, LiveSet, UserLive, NotHome,
        Tagged, Separate;
      ghost var x := Now();
      UserBlock(x, ptr - HEADER);
      BlockFacts(heap.mem, heap.b, heap.f, heap.fl, heap.freelist, heap.start, heapCurr, ptr - HEADER);
      heap.mem := heap.mem[ptr + offset := v];
      OwnerWrites(x.mem, heap.mem, heap.b, heap.f, heap.fl, heap.freelist, heap.start, heapCurr, ptr - HEADER);
      HeapChange(x, Now(), vmm.sp, vmm.owner, heap.start, ptr - HEADER, ptr - HEADER);
    }

    /** What a caller can check before malloc or realloc: the call would never return. */
    method WouldHang(size: int) returns (hangs: bool)
      requires Valid() && 0 <= size < UINT32
      ensures hangs <==> Hangs(Now(), size)
    {
      hide Word, Walk, Coherent, Backed, Window, Homed, WellFormed, Tabled, FrameAllocator.Pmm.Valid;
      if size == 0 || size > MAX_SIZE {
        return false;
      }
      var n, m := RoundUp(size) + OVERHEAD, TABLE_REQUEST + OVERHEAD;
      var best := heap.BestFit(RoundUp(size), heapCurr);
      if best != 0 {
        return false;
      }
      best := heap.BestFit(TABLE_REQUEST, heapCurr);
      if best != 0 || heapCurr + n > HEAP_MAX || heapCurr + m > HEAP_MAX {
        return false;
      }
      var lo := heapEnd / PAGE_SIZE;
      var limit := PagesTo(heapCurr + if n < m then n else m);
      var page, missing := lo, 0;
      NothingTabled(vmm.sp, lo);
      while page < limit && vmm.sp.tables[DirIndex(page)].present
        invariant lo <= page && (page <= limit || page == lo) && missing == Missing(vmm.sp, lo, page)
        invariant Tabled(vmm.sp, lo, page)
      {
        MissingMore(vmm.sp, lo, page);
        OneMoreTabled(vmm.sp, lo, page);
        if Walk(vmm.sp, page).None? {
          missing := missing + 1;
        }
        page := page + 1;
      }
      HangsHere(Now(), size, page, limit);
      hangs := page < limit && vmm.pmm.used + missing <= vmm.pmm.maxBlocks;
    }

    /** What a caller can check before realloc: the request would cut the last block. */
    method WouldCutTail(ptr: int, size: int) returns (cut: bool)
      requires Valid() && 0 <= size && ptr - HEADER in UserLive(heap.b, heap.f, home)
      ensures cut <==> CutsTail(Now(), ptr, size)
    {
      hide Word, Walk, Coherent, Backed, Window, Homed, WellFormed, UserLive, FrameAllocator.Pmm.Valid;
      UserBlock(Now(), ptr - HEADER);
      BlockFacts(heap.mem, heap.b, heap.f, heap.fl, heap.freelist, heap.start, heapCurr, ptr - HEADER);
      var have := Word(heap.mem, ptr - HEADER);
      cut := size > 0 && ptr - HEADER == heap.tail && have > size && have - RoundUp(size) >= 8 + OVERHEAD;
    }

    /** In every valid state virt2phys answers as the processor translates. */
    lemma TranslationsAgree(limit: int, va: int)
      requires ValidAt(limit) && 0 <= va < PAGES * PAGE_SIZE
      ensures forall d :: 0 <= d < ENTRIES ==> 0 <= vmm.sp.refs[d] < PAGES * PAGE_SIZE
      ensures Virt2Phys(vmm.sp, va) == HardTranslate(vmm.sp, va)
    {
      hide Walk, Backed, WellFormed, Window, Homed;
      SoftEqualsHard(vmm.sp, va);
    }

    /** Facts of a valid state that callers use most. */
    lemma Handy()
      requires Valid()
      ensures Shaped(vmm.sp) && HEAP_START <= heapCurr <= heapEnd <= WINDOW_PAGE * PAGE_SIZE
      ensures heapEnd % PAGE_SIZE == 0 && HEAP_START < heapEnd
      ensures |vmm.pmm.taken| <= vmm.pmm.maxBlocks && vmm.pmm.used == |vmm.pmm.taken| && vmm.sp.paging
      ensures Tagged(heap.mem, heap.b, heap.f) && Backed(vmm.sp, vmm.owner, vmm.holder)
    {
      hide Walk, Coherent, Backed, Window, Homed, FrameAllocator.Pmm.Valid;
      HeapTags(heap.mem, heap.b, heap.f, heap.fl, heap.freelist, heap.start, heapCurr);
      MaxFrames();
    }

    lemma NowSound()
      requires Valid()
      ensures Sound(Now())
    {
      hide Walk, Coherent, Backed, Window, Homed, WellFormed, Ends, FrameAllocator.Pmm.Valid;
      MaxFrames();
    }

    /** How page tables, owners and heap lie in a valid state. */
    lemma Inner()
      requires Valid()
      ensures Shaped(vmm.sp) && Backed(vmm.sp, vmm.owner, vmm.holder)
      ensures Homed(vmm.sp, vmm.owner, heap.b, heap.f, HEAP_START, home)
      ensures Window(vmm.sp, vmm.owner, HEAP_PAGE, heapEnd / PAGE_SIZE)
      ensures forall a :: a in heap.b ==> HEAP_START <= a && End(heap.b, a) <= WINDOW_PAGE * PAGE_SIZE
      ensures forall pg :: pg in vmm.owner ==> 0 <= pg < PAGES && Walk(vmm.sp, pg).Some?
      ensures forall fr: int :: fr in vmm.pmm.taken <==> fr in vmm.holder
      ensures 0 < 32 * vmm.pmm.bitmap.Length && forall fr :: fr in vmm.holder ==> 0 <= fr < 32 * vmm.pmm.bitmap.Length
    {
      hide Walk, Coherent, Homed, Word;
      HeapTags(heap.mem, heap.b, heap.f, heap.fl, heap.freelist, heap.start, heapCurr);
      assert HEAP_PAGE in vmm.owner;
      forall fr | fr in vmm.holder
        ensures 0 <= fr < 32 * vmm.pmm.bitmap.Length
      {
        assert fr in vmm.pmm.taken;
      }
      assert vmm.owner[HEAP_PAGE] in vmm.holder;
    }

    lemma EmptyHeap()
      requires Valid() && heap.b == map[]
      ensures heap.f == {} && heapCurr == HEAP_START
    {
      hide Word, Tagged, Linked, HasNext, HasPrev, Walk, Coherent, Backed, Window, Homed, FrameAllocator.Pmm.Valid;
      FreeAreBlocks(heap.b, heap.f);
    }

    /** The only block of the heap is its last. */
    lemma OnlyBlock(a: int, size: int)
      requires Valid() && heap.b == map[a := size]
      ensures heap.tail == a
    {
      hide Word, Tagged, Linked, HasPrev, Walk, Coherent, Backed, Window, Homed, FrameAllocator.Pmm.Valid;
      assert a in heap.b;
    }

    lemma CoreShaped()
      requires CoreAt(heapCurr)
      ensures Shaped(vmm.sp)
    {
    }

    lemma NotNull(a: int)
      requires Valid() && a in heap.b
      ensures 0 < a
    {
      HeapTags(heap.mem, heap.b, heap.f, heap.fl, heap.freelist, heap.start, heapCurr);
    }

    /** Every byte of the heap is mapped. */
    lemma HeapIsMapped(limit: int, va: int)
      requires ValidAt(limit) && heap.start <= va < heapCurr
      ensures HardTranslate(vmm.sp, va).Some?
    {
      assert va / PAGE_SIZE in vmm.owner;
    }

    lemma BlockInMemory(x: Snap, a: int, size: int)
      requires Valid() && NewBlock(x, Now(), a, size)
      ensures 0 <= a && a + HEADER + size <= |heap.mem|
    {
      HeapTags(heap.mem, heap.b, heap.f, heap.fl, heap.freelist, heap.start, heapCurr);
    }

    lemma ResizedInMemory(x: Snap, a: int, c: int, size: int)
      requires CoreAt(heapCurr) && Resized(x, Now(), a, c, size)
      ensures 0 <= c && c + HEADER + size <= |heap.mem|
    {
      HeapTags(heap.mem, heap.b, heap.f, heap.fl, heap.freelist, heap.start, heapCurr);
    }
  }
}
