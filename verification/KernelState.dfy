/** The state of the memory system as one value, and how one state relates to a later one. */
module KernelState {
  import opened Basics
  import opened Memory
  import opened Blocks
  import opened Tags
  import opened HeapSteps
  import opened KernelHeap
  import opened Paging
  import opened VirtualMemory

  const HEAP_START := 0xc040_0000  // KHEAP_START
  const HEAP_PAGE := 0xc_0400      // its page, the first one of the heap window
  const WINDOW_PAGE := 0xd_0000    // the first page past the heap window
  const HEAP_MAX := 0xcfff_ffff    // KHEAP_MAX_ADDRESS
  const TABLE_REQUEST := 8192      // what kmalloc_a asks of malloc for one page table
  const MAX_SIZE := 0xffff_fff0    // larger requests wrap when they are rounded up

  /**
    What a request comes to: an address or NULL; or the point where the C code goes on with a bad
    pointer (NoWindow), a bad frame (NoFrames) or a sum that wrapped (Wraps); or Deep, when more
    requests for page tables would be nested than the caller allows for.
   */
  datatype Result = Ok(addr: int) | Null | NoWindow | NoFrames | Wraps | Deep

  function RoundUp(size: int): (r: int)
    requires size >= 0
    ensures r % 16 == 0 && size <= r < size + 16
  {
    (size + 15) / 16 * 16
  }

  /** In 32 bits the rounded size is at least the size exactly up to 0xfffffff0; above, it wraps to 0. */
  lemma RoundUpWraps(size: int)
    requires 0 <= size < UINT32
    ensures (size + 15) % UINT32 / 16 * 16 >= size <==> size <= 0xffff_fff0
    ensures size > 0xffff_fff0 ==> (size + 15) % UINT32 / 16 * 16 == 0
  {
  }

  /** The boundary ksbrk computes for a size given as a 32-bit word: its argument is signed. */
  function NewBoundary(curr: int, n: int): int
    requires 0 <= n < UINT32
  {
    if n < 0x8000_0000 then (curr + n) % UINT32
    else
      var moved := (curr - (n - UINT32)) % UINT32;
      if moved < HEAP_START + 0x40_0000 then HEAP_START + 0x40_0000 else moved
  }

  /** It is the one asked for exactly when the sum does not wrap. */
  lemma BoundaryExact(curr: int, n: int)
    requires HEAP_START <= curr < UINT32 && 0 <= n < UINT32
    ensures NewBoundary(curr, n) == curr + n <==> curr + n < UINT32
  {
  }

  lemma WrapsJust(curr: int, n: int)
    requires HEAP_START <= curr < UINT32 && 0 < n <= UINT32
    ensures NewBoundary(curr, n % UINT32) == curr + n <==> curr + n < UINT32
  {
    if n < UINT32 {
      BoundaryExact(curr, n);
    }
  }

  /** The larger of a request and the request for a page table it may entail. */
  function Worst(n: int): int
  {
    if n < TABLE_REQUEST + OVERHEAD then TABLE_REQUEST + OVERHEAD else n
  }

  /** Pages from 0 up to and including the one that holds `addr - 1`. */
  function PagesTo(addr: int): (p: int)
    requires addr >= 0
    ensures p * PAGE_SIZE >= addr && (p - 1) * PAGE_SIZE < addr
  {
    (addr + PAGE_SIZE - 1) / PAGE_SIZE
  }

  /** Every page in [lo, hi) has a page table. */
  ghost predicate Tabled(s: Space, lo: int, hi: int)
    requires Shaped(s)
  {
    forall pg {:trigger HasTable(s, pg)} :: lo <= pg < hi && 0 <= pg < PAGES ==> HasTable(s, pg)
  }

  /** The heap's pages [lo, end) are backed by the frame allocator, and so is whatever else is mapped in the window. */
  ghost predicate Window(s: Space, owner: map<int, int>, lo: int, end: int)
    requires Shaped(s)
  {
    && (forall pg :: lo <= pg < end ==> pg in owner)
    && (forall pg :: 0 <= lo <= pg < WINDOW_PAGE && Walk(s, pg).Some? ==> pg in owner)
  }

  /** The page at `table` lies inside the payload of block `a`. */
  ghost predicate Holds(b: BlockMap, a: int, table: int)
  {
    a in b && a + HEADER <= table && table + PAGE_SIZE <= a + HEADER + b[a]
  }

  /** Every page table is in a page of the frame allocator; those in the heap lie in live blocks named by `home`. */
  ghost predicate Homed(s: Space, owner: map<int, int>, b: BlockMap, f: set<int>, start: int, home: map<int, int>)
    requires Shaped(s)
  {
    && (forall d :: 0 <= d < ENTRIES && s.tables[d].present ==>
          s.refs[d] / PAGE_SIZE in owner && (s.refs[d] >= start ==> d in home && Holds(b, home[d], s.refs[d])))
    && (forall d :: d in home ==> 0 <= d < ENTRIES && s.tables[d].present && home[d] in b && home[d] !in f)
  }

  /** Block `a` holds no page table. */
  ghost predicate NotHome(home: map<int, int>, a: int)
  {
    forall d :: d in home ==> home[d] != a
  }

  /** The blocks a caller of malloc owns: live ones that hold no page table. */
  ghost function UserLive(b: BlockMap, f: set<int>, home: map<int, int>): set<int>
  {
    set c | c in b && c !in f && NotHome(home, c)
  }

  // ---- How one state of the memory system relates to a later one ----

  datatype Snap = Snap(mem: seq<byte>, b: BlockMap, f: set<int>, sp: Space, owner: map<int, int>, home: map<int,
    int>, curr: int, end: int,
                       taken: set<nat>, max: int, tail: int)

  /** A state of the memory system that is in order, as Kernel.Valid says of the objects themselves. */
  ghost predicate Sound(x: Snap)
  {
    && Coherent(x.sp) && x.sp.paging && |x.mem| == UINT32
    && HEAP_START <= x.curr <= x.end <= WINDOW_PAGE * PAGE_SIZE && x.end % PAGE_SIZE == 0 && HEAP_START < x.end
    && Window(x.sp, x.owner, HEAP_PAGE, x.end / PAGE_SIZE) && Homed(x.sp, x.owner, x.b, x.f, HEAP_START, x.home)
    && (exists holder :: Backed(x.sp, x.owner, holder) && forall fr: int :: fr in x.taken <==> fr in holder)
    && |x.taken| <= x.max
    && (exists fl, first :: WellFormed(x.mem, x.b, x.f, fl, first, HEAP_START, x.curr))
    && (exists head :: Ends(x.b, HEAP_START, x.curr, head, x.tail))
  }

  /** Pages that are mapped stay mapped where they are, to the frames they own. */
  ghost predicate Stable(s: Space, owner: map<int, int>, s': Space, owner': map<int, int>)
    requires Shaped(s) && Shaped(s')
  {
    && (forall pg :: pg in owner ==> pg in owner' && owner'[pg] == owner[pg])
    && (forall pg :: 0 <= pg < PAGES && Walk(s, pg).Some? ==> Walk(s', pg) == Walk(s, pg))
  }

  /** Page tables stay where they are, and new ones lie in the heap. */
  ghost predicate TablesKept(s: Space, s': Space)
    requires Shaped(s) && Shaped(s')
  {
    forall d :: 0 <= d < ENTRIES ==>
      if s.tables[d].present then s'.tables[d].present && s'.refs[d] == s.refs[d]
      else s'.tables[d].present ==> s'.refs[d] >= HEAP_START
  }

  /**
    Live blocks outside `gone` keep their bytes, page tables, pages and their frames are never lost
    and the heap never shrinks.
   */
  ghost predicate Keeps(x: Snap, y: Snap, gone: set<int>)
  {
    && LiveKept(x.mem, x.b, x.f, y.mem, y.b, y.f, gone)
    && Shaped(x.sp) && Shaped(y.sp)
    && TablesKept(x.sp, y.sp)
    && Stable(x.sp, x.owner, y.sp, y.owner)
    && x.curr <= y.curr && x.end <= y.end
    && x.taken <= y.taken && x.max == y.max
  }

  const NOWHERE := -1

  predicate InWindow(page: int)
  {
    HEAP_PAGE <= page < WINDOW_PAGE
  }

  /**
    Pages and page tables that were there keep their rights. New ones are the kernel's own and of the
    heap window, except perhaps `page` and its table.
   */
  ghost predicate RightsKept(s: Space, s': Space, page: int)
    requires Shaped(s) && Shaped(s')
  {
    && (forall pg :: 0 <= pg < PAGES && Flags(s', pg) != Flags(s, pg) ==>
          Flags(s, pg).None? && (pg != page ==> InWindow(pg) && Flags(s', pg) == Some(KERNEL)))
    && (forall d :: 0 <= d < ENTRIES && s'.tables[d] != s.tables[d] ==>
          && !s.tables[d].present && s'.tables[d].present
          && (d != DirIndex(page) ==> InWindow(ENTRIES * d) && DirRights(s', d) == KERNEL))
  }

  /** The heap's pages and page tables are writable and closed to user mode. */
  ghost predicate HeapRights(s: Space)
    requires Shaped(s)
  {
    && (forall pg :: InWindow(pg) && Flags(s, pg).Some? ==> Flags(s, pg) == Some(KERNEL))
    && (forall d :: 0 <= d < ENTRIES && InWindow(ENTRIES * d) && s.tables[d].present ==> DirRights(s, d) == KERNEL)
  }

  /** So is every page of the heap window to the processor. */
  lemma HeapAccess(s: Space, page: int)
    requires Shaped(s) && HeapRights(s) && InWindow(page)
    ensures Walk(s, page).Some? ==> Access(s, page) == Some(KERNEL)
  {
    assert InWindow(ENTRIES * DirIndex(page));
  }

  /** A page of the window keeps this if it is mapped with the kernel's rights; any other page does. */
  lemma HeapRightsKept(s: Space, s': Space, page: int)
    requires Shaped(s) && Shaped(s') && HeapRights(s) && RightsKept(s, s', page)
    requires InWindow(page) ==> PageRights(s, s', page, KERNEL)
    ensures HeapRights(s')
  {
    hide Flags;
  }

  /** Pages that were mapped keep the access they gave. */
  lemma AccessKept(s: Space, s': Space, page: int)
    requires Shaped(s) && Shaped(s') && RightsKept(s, s', page)
    ensures forall pg :: 0 <= pg < PAGES && Walk(s, pg).Some? ==> Access(s', pg) == Access(s, pg)
  {
    forall pg | 0 <= pg < PAGES && Walk(s, pg).Some?
      ensures Access(s', pg) == Access(s, pg)
    {
      PresentTable(s, pg);
      assert Flags(s', pg) == Flags(s, pg);
    }
  }

  lemma GrantedKept(s: Space, s': Space, page: int, r: Rights)
    requires Shaped(s) && Shaped(s') && 0 <= page < PAGES && Granted(s, s', page, page + 1, r)
    ensures RightsKept(s, s', page)
  {
    hide Flags;
  }

  lemma CalmAccess(x: Snap, y: Snap, page: int)
    requires Calm(x, y, page)
    ensures Shaped(x.sp) && Shaped(y.sp)
    ensures forall pg :: 0 <= pg < PAGES && Walk(x.sp, pg).Some? ==> Access(y.sp, pg) == Access(x.sp, pg)
  {
    AccessKept(x.sp, y.sp, page);
  }

  /** What was mapped anew, pages and page tables alike, is the heap's, writable and closed to user mode. */
  ghost predicate KernelsOwn(s: Space, s': Space)
    requires Shaped(s) && Shaped(s')
  {
    && (forall pg :: 0 <= pg < PAGES && Walk(s, pg).None? && Walk(s', pg).Some? ==>
          InWindow(pg) && Flags(s', pg) == Some(KERNEL))
    && (forall d :: 0 <= d < ENTRIES && !s.tables[d].present && s'.tables[d].present ==>
          InWindow(ENTRIES * d) && DirRights(s', d) == KERNEL)
  }

  lemma NewAreKernels(x: Snap, y: Snap)
    requires Calm(x, y, NOWHERE)
    ensures Shaped(x.sp) && Shaped(y.sp) && KernelsOwn(x.sp, y.sp)
  {
    hide Keeps, SameUsers, Walk;
    assert forall pg :: 0 <= pg < PAGES && Flags(x.sp, pg).None? && Flags(y.sp, pg).Some? ==>
      InWindow(pg) && Flags(y.sp, pg) == Some(KERNEL);
    hide Flags;
  }

  lemma RightsLess(s: Space, s': Space, page: int)
    requires Shaped(s) && Shaped(s') && RightsKept(s, s', NOWHERE)
    ensures RightsKept(s, s', page)
  {
    hide Flags;
  }

  lemma RightsTrans(s: Space, s1: Space, s2: Space, page: int)
    requires Shaped(s) && Shaped(s1) && Shaped(s2) && RightsKept(s, s1, page) && RightsKept(s1, s2, page)
    ensures RightsKept(s, s2, page)
  {
    hide Flags;
  }

  /** Outside the heap window nothing is mapped or unmapped, except perhaps `page`. */
  ghost predicate Still(x: Snap, y: Snap, page: int)
  {
    && Shaped(x.sp) && Shaped(y.sp)
    && (forall pg :: 0 <= pg < PAGES && pg != page && !InWindow(pg) ==> Walk(y.sp, pg) == Walk(x.sp, pg))
    && (forall pg :: 0 <= pg < PAGES && pg != page && !InWindow(pg) ==> (pg in y.owner <==> pg in x.owner))
  }

  ghost predicate Quiet(x: Snap, y: Snap, page: int)
  {
    Still(x, y, page) && RightsKept(x.sp, y.sp, page)
  }

  /** What the kernel does for itself: nothing of the callers' changes, and outside the heap at most `page`. */
  ghost predicate Calm(x: Snap, y: Snap, page: int)
  {
    Keeps(x, y, {}) && SameUsers(x, y) && Quiet(x, y, page)
  }

  /** No page is mapped outside the heap window, but `page` may have got a table. */
  ghost predicate TableCalm(x: Snap, y: Snap, page: int)
  {
    Keeps(x, y, {}) && SameUsers(x, y) && Still(x, y, NOWHERE) && RightsKept(x.sp, y.sp, page)
  }

  /** The heap, its boundaries and the page directory are as they were. */
  ghost predicate Frozen(x: Snap, y: Snap)
  {
    && y.mem == x.mem && y.b == x.b && y.f == x.f && y.home == x.home && y.curr == x.curr && y.end == x.end &&
      y.tail == x.tail
    && y.sp.tables == x.sp.tables && y.sp.refs == x.sp.refs && y.sp.paging == x.sp.paging && y.max == x.max
  }

  /** Exactly the pages in [lo, hi) are mapped in addition. */
  ghost predicate Extended(s: Space, s': Space, lo: int, hi: int)
    requires Shaped(s) && Shaped(s')
  {
    forall pg :: 0 <= pg < PAGES ==> (Walk(s', pg).Some? <==> Walk(s, pg).Some? || lo <= pg < hi)
  }

  ghost predicate SameUsers(x: Snap, y: Snap)
  {
    UserLive(x.b, x.f, x.home) == UserLive(y.b, y.f, y.home)
  }

  /** Block `a` is new, holds `size` bytes and at most 31 more, and is the only change to what callers own. */
  ghost predicate NewBlock(x: Snap, y: Snap, a: int, size: int)
  {
    && a in y.b && a !in y.f && (a !in x.b || a in x.f) && NotHome(y.home, a)
    && size <= y.b[a] < size + 32
    && UserLive(y.b, y.f, y.home) == UserLive(x.b, x.f, x.home) + {a}
  }

  lemma CalmParts(x: Snap, y: Snap, page: int)
    ensures Calm(x, y, page) <==> Keeps(x, y, {}) && SameUsers(x, y) && Quiet(x, y, page)
  {
  }

  lemma SameMap(x: Snap, y: Snap, z: Snap)
    requires Quiet(x, y, NOWHERE) && z.sp == y.sp && z.owner == y.owner
    ensures Quiet(x, z, NOWHERE)
  {
    hide Walk;
  }

  lemma KeepsSelf(x: Snap)
    requires Shaped(x.sp) && Tagged(x.mem, x.b, x.f)
    ensures Keeps(x, x, {}) && SameUsers(x, x)
  {
    hide Word;
  }

  lemma KeepsTrans(x: Snap, y: Snap, z: Snap, gone: set<int>)
    requires Keeps(x, y, {}) && Keeps(y, z, gone)
    ensures Keeps(x, z, gone)
  {
    LiveKeptTrans(x.mem, x.b, x.f, y.mem, y.b, y.f, z.mem, z.b, z.f, {}, gone);
    assert {} + gone == gone;
    hide LiveKept, Walk;
  }

  lemma CalmSelf(x: Snap)
    requires Shaped(x.sp) && Tagged(x.mem, x.b, x.f)
    ensures Calm(x, x, NOWHERE)
  {
    KeepsSelf(x);
  }

  lemma CalmTrans(x: Snap, y: Snap, z: Snap, page: int)
    requires Calm(x, y, NOWHERE) && Calm(y, z, page)
    ensures Calm(x, z, page)
  {
    KeepsTrans(x, y, z, {});
    SameTrans(x, y, z);
    QuietTrans(x, y, z, page);
    hide Keeps, SameUsers, Quiet;
  }

  lemma QuietTrans(x: Snap, y: Snap, z: Snap, page: int)
    requires Quiet(x, y, NOWHERE) && Quiet(y, z, page)
    ensures Quiet(x, z, page)
  {
    RightsLess(x.sp, y.sp, page);
    RightsTrans(x.sp, y.sp, z.sp, page);
    hide Walk, RightsKept;
  }

  lemma WindowCalm(x: Snap, y: Snap, page: int)
    requires Calm(x, y, page) && InWindow(page) && PageRights(x.sp, y.sp, page, KERNEL)
    ensures Calm(x, y, NOWHERE)
  {
    hide Keeps, SameUsers, Walk, Flags;
  }

  /** Page tables stay in their blocks while those blocks stay live. */
  lemma HomedKept(s: Space, owner: map<int, int>, b: BlockMap, f: set<int>, m: seq<byte>, b': BlockMap, f': set<int>,
                  m': seq<byte>,
                  start: int, home: map<int, int>, gone: set<int>)
    requires Shaped(s) && Homed(s, owner, b, f, start, home) && LiveKept(m, b, f, m', b', f', gone)
    requires (forall d :: d in home ==> home[d] !in gone)
    ensures Homed(s, owner, b', f', start, home)
  {
    forall d | d in home
      ensures home[d] in b' && home[d] !in f' && b'[home[d]] == b[home[d]]
    {
      var a := home[d];
      assert a in b && a !in f && a !in gone;
    }
  }

  /** A page inside a live block that holds no page table shares no frame with any page table. */
  lemma FreshFrame(s: Space, owner: map<int, int>, holder: map<int, int>, b: BlockMap, f: set<int>, start: int,
                   home: map<int, int>,
                   d: int, table: int, a: int)
    requires Coherent(s) && s.paging && Backed(s, owner, holder) && Separate(b) && Homed(s, owner, b, f, start, home)
    requires 0 <= d < ENTRIES && !s.tables[d].present
    requires Holds(b, a, table) && NotHome(home, a) && 0 < start <= table && start % PAGE_SIZE == 0
    requires table % PAGE_SIZE == 0
    requires table / PAGE_SIZE in owner
    ensures 0 <= table < PAGES * PAGE_SIZE
    ensures FrameOf(s, table / PAGE_SIZE) == Some(owner[table / PAGE_SIZE])
    ensures FreshTable(s, d, table, owner[table / PAGE_SIZE])
  {
    forall e | 0 <= e < ENTRIES && s.tables[e].present
      ensures s.tables[e].frame != owner[table / PAGE_SIZE]
    {
      OtherPage(s, owner, b, f, start, home, e, table, a);
      assert CoherentAt(s, e);
      assert Walk(s, s.refs[e] / PAGE_SIZE) == Some(owner[s.refs[e] / PAGE_SIZE]);
    }
  }

  lemma OtherPage(s: Space, owner: map<int, int>, b: BlockMap, f: set<int>, start: int, home: map<int, int>, e: int,
                  table: int, a: int)
    requires Coherent(s) && Separate(b) && Homed(s, owner, b, f, start, home) && 0 <= e < ENTRIES && s.tables[e].present
    requires Holds(b, a, table) && NotHome(home, a) && start <= table && start % PAGE_SIZE == 0
    requires table % PAGE_SIZE == 0
    ensures s.refs[e] / PAGE_SIZE in owner && s.refs[e] / PAGE_SIZE != table / PAGE_SIZE
  {
    assert CoherentAt(s, e);
    if s.refs[e] >= start {
      assert home[e] != a;
    }
  }

  lemma InstallHomed(s: Space, owner: map<int, int>, b: BlockMap, f: set<int>, start: int, home: map<int, int>,
                     d: int, table: int, frame: int, rw: bool, user: bool, a: int)
    requires Shaped(s) && Homed(s, owner, b, f, start, home) && 0 <= d < ENTRIES
    requires Holds(b, a, table) && a !in f && table / PAGE_SIZE in owner
    ensures Homed(Install(s, d, table, frame, rw, user), owner, b, f, start, home[d := a])
  {
  }

  /** A block that becomes a page table's home leaves the callers' blocks. */
  lemma Adopted(x: Snap, b: BlockMap, f: set<int>, home: map<int, int>, d: int, a: int)
    requires d !in home && (a !in x.b || a in x.f)
    requires UserLive(b, f, home) == UserLive(x.b, x.f, x.home) + {a}
    ensures UserLive(b, f, home[d := a]) == UserLive(x.b, x.f, x.home)
  {
    var h := home[d := a];
    assert h[d] == a;
    forall c | c in b && c !in f && c != a
      ensures NotHome(h, c) <==> NotHome(home, c)
    {
      if !NotHome(home, c) {
        var e :| e in home && home[e] == c;
        assert h[e] == c;
      }
    }
  }

  /** A page without a table lies beyond the mapped heap. */
  lemma Untabled(s: Space, owner: map<int, int>, holder: map<int, int>, lo: int, end: int, page: int)
    requires Shaped(s) && Backed(s, owner, holder) && Window(s, owner, lo, end)
    requires lo <= page && 0 <= page < PAGES && !HasTable(s, page)
    ensures end <= page
  {
    assert page < end ==> page in owner;
  }

  lemma TableBit(s: Space, d: int)
    requires Coherent(s) && 0 <= d < ENTRIES
    ensures s.refs[d] != 0 <==> s.tables[d].present
  {
    assert CoherentAt(s, d);
  }

  /** Mapping a page adds owners only, and in the window every mapped page has one. */
  lemma MapKept(s: Space, owner: map<int, int>, t: set<nat>, s': Space, owner': map<int, int>, t': set<nat>,
                page: int, frame: int, full: bool,
                b: BlockMap, f: set<int>, end: int, home: map<int, int>)
    requires Shaped(s) && Shaped(s') && 0 <= page < PAGES
    requires PageAllocated(s, owner, t, s', owner', t', page, frame, full)
    requires InWindow(page) ==> frame == 0 && (Walk(s, page).None? ==> !full)
    requires s'.tables == s.tables && s'.refs == s.refs
    requires Window(s, owner, HEAP_PAGE, end) && Homed(s, owner, b, f, HEAP_START, home)
    ensures Window(s', owner', HEAP_PAGE, end) && Homed(s', owner', b, f, HEAP_START, home)
    ensures Walk(s', page).Some? && (InWindow(page) ==> page in owner')
  {
    hide Walk;
  }

  lemma MapCalm(x: Snap, y: Snap, holder: map<int, int>, page: int, frame: int, full: bool)
    requires Shaped(x.sp) && Shaped(y.sp) && 0 <= page < PAGES && Tagged(x.mem, x.b, x.f)
    requires Backed(x.sp, x.owner, holder)
    requires PageAllocated(x.sp, x.owner, x.taken, y.sp, y.owner, y.taken, page, frame, full)
    requires y == x.(sp := y.sp, owner := y.owner, taken := y.taken) && y.sp.tables == x.sp.tables
    requires y.sp.refs == x.sp.refs && RightsKept(x.sp, y.sp, page)
    ensures Calm(x, y, page)
  {
    hide Walk, Word, RightsKept;
    KeepsSelf(x);
    hide LiveKept, Tagged;
    if Walk(x.sp, page).None? {
      assert page !in x.owner;
    }
    assert Stable(x.sp, x.owner, y.sp, y.owner);
    assert Quiet(x, y, page);
  }

  /** A page that was absent gets the frame asked for, or the lowest free one, or 0 when there is none left. */
  ghost predicate Placed(x: Snap, y: Snap, page: int, frame: int)
    requires Shaped(x.sp) && Shaped(y.sp) && 0 <= page < PAGES
  {
    if Walk(x.sp, page).Some? then Walk(y.sp, page) == Walk(x.sp, page)
    else if InWindow(page) then page in y.owner && Walk(y.sp, page) == Some(y.owner[page])
    else if frame != 0 then Walk(y.sp, page) == Some(frame) && page !in y.owner
    else if page in y.owner then
      && y.owner[page] >= 0 && Walk(y.sp, page) == Some(y.owner[page])
      && y.owner[page] !in x.taken && forall k: nat :: k < y.owner[page] ==> k in y.taken
    else Walk(y.sp, page) == Some(0) && |y.taken| == y.max
  }

  lemma PlacedLater(x: Snap, y: Snap, z: Snap, holder: map<int, int>, page: int, frame: int)
    requires TableCalm(x, y, page) && Shaped(z.sp) && Backed(y.sp, y.owner, holder)
    requires 0 <= page < PAGES && z.max == y.max
    requires PageAllocated(y.sp, y.owner, y.taken, z.sp, z.owner, z.taken, page, frame, |y.taken| == y.max)
    requires InWindow(page) ==> page in z.owner && Walk(z.sp, page) == Some(z.owner[page])
    ensures Placed(x, z, page, frame)
  {
    hide Walk, LiveKept, SameUsers;
  }

  /** free_page. */
  ghost predicate PageFreed(x: Snap, y: Snap, page: int, free: bool)
    requires Shaped(x.sp) && 0 <= page < PAGES
  {
    && Shaped(y.sp) && y == x.(sp := y.sp, owner := y.owner, taken := y.taken)
    && y.sp.tables == x.sp.tables && y.sp.refs == x.sp.refs && y.sp.paging == x.sp.paging
    && (forall pg :: 0 <= pg < PAGES ==> Walk(y.sp, pg) == if pg == page then None else Walk(x.sp, pg))
    && (forall pg :: 0 <= pg < PAGES ==> Flags(y.sp, pg) == if pg == page then None else Flags(x.sp, pg))
    && var gone := free && Walk(x.sp, page).Some?;
    && y.owner == (if gone then x.owner - {page} else x.owner)
    && y.taken == (if gone then x.taken - {Walk(x.sp, page).value} else x.taken)
  }

  /** After unmapping, the heap and the tables are in order if the page was part of neither. */
  lemma FreedKept(x: Snap, y: Snap, holder: map<int, int>, page: int, free: bool)
    requires Shaped(x.sp) && 0 <= page < PAGES && PageFreed(x, y, page, free) && Backed(x.sp, x.owner, holder)
    requires Window(x.sp, x.owner, HEAP_PAGE, x.end / PAGE_SIZE) && Homed(x.sp, x.owner, x.b, x.f, HEAP_START, x.home)
    requires Walk(x.sp, page).None? || HoldsNoTable(x.sp, page)
    ensures Homed(y.sp, y.owner, x.b, x.f, HEAP_START, x.home)
    ensures Walk(x.sp, page).None? || (free <==> page in x.owner) ==>
      (Window(y.sp, y.owner, HEAP_PAGE, x.end / PAGE_SIZE) <==>
       Walk(x.sp, page).None? || !(HEAP_PAGE <= page < x.end / PAGE_SIZE))
  {
    hide Walk;
    if Walk(x.sp, page).None? {
      assert page !in x.owner;
    } else if HEAP_PAGE <= page < x.end / PAGE_SIZE {
      assert page in x.owner;
    }
  }

  // ---- When malloc can be served, and when it never returns ----

  /** Some free block holds `size` bytes. */
  ghost predicate Fits(x: Snap, size: int)
  {
    exists a :: a in x.f && a in x.b && x.b[a] >= size
  }

  /** Moving the boundary by `n` needs no new page table. */
  ghost predicate Covered(x: Snap, n: int)
    requires Shaped(x.sp)
  {
    0 <= x.curr + n && Tabled(x.sp, x.end / PAGE_SIZE, PagesTo(x.curr + n))
  }

  /** One page table can be allocated without needing another one first. */
  ghost predicate Roomy(x: Snap)
    requires Shaped(x.sp)
  {
    Fits(x, TABLE_REQUEST) || Covered(x, TABLE_REQUEST + OVERHEAD)
  }

  /** How many pages in [lo, hi) are absent. */
  ghost function Missing(s: Space, lo: int, hi: int): nat
    requires Shaped(s) && 0 <= lo && hi <= PAGES
    decreases hi - lo
  {
    if lo >= hi then 0 else (if Walk(s, lo).None? then 1 else 0) + Missing(s, lo + 1, hi)
  }

  /**
    No page table can be had: no free block holds one, and the page `p` that growing the heap for one
    would reach lacks a table itself, with frames enough to get there.
   */
  ghost predicate Wedged(x: Snap, p: int)
    requires Shaped(x.sp)
  {
    && !Fits(x, TABLE_REQUEST)
    && 0 <= x.curr && x.curr + TABLE_REQUEST + OVERHEAD <= HEAP_MAX
    && 0 <= x.end / PAGE_SIZE <= p < PAGES && p < PagesTo(x.curr + TABLE_REQUEST + OVERHEAD)
    && Tabled(x.sp, x.end / PAGE_SIZE, p) && !HasTable(x.sp, p)
    && |x.taken| + Missing(x.sp, x.end / PAGE_SIZE, p) <= x.max
  }

  /** Growing the heap by `n` needs such a page table. */
  ghost predicate Stuck(x: Snap, n: int)
    requires Shaped(x.sp)
  {
    0 <= x.curr + n <= HEAP_MAX && exists p :: Wedged(x, p) && p < PagesTo(x.curr + n)
  }

  /** A request for one more page table never returns. */
  ghost predicate TableStuck(x: Snap)
    requires Shaped(x.sp)
  {
    exists p :: Wedged(x, p)
  }

  lemma WedgedNotRoomy(x: Snap, p: int)
    requires Shaped(x.sp) && Wedged(x, p)
    ensures !Roomy(x)
    ensures forall n :: x.curr + n >= 0 && p < PagesTo(x.curr + n) ==> !Covered(x, n)
  {
    forall n | x.curr + n >= 0 && p < PagesTo(x.curr + n)
      ensures !Covered(x, n)
    {
      NotTabled(x.sp, x.end / PAGE_SIZE, PagesTo(x.curr + n), p);
    }
  }

  /** A page table request is stuck exactly as growing by its size is. */
  lemma TableStuckIs(x: Snap)
    requires Shaped(x.sp)
    ensures TableStuck(x) <==> Stuck(x, TABLE_REQUEST + OVERHEAD)
    ensures TableStuck(x) ==> !Roomy(x)
  {
    hide Fits, Tabled, Missing;
    if TableStuck(x) {
      var p :| Wedged(x, p);
      WedgedNotRoomy(x, p);
    }
  }

  lemma StuckFacts(x: Snap, n: int)
    requires Shaped(x.sp) && Stuck(x, n)
    ensures !Roomy(x) && !Covered(x, n) && TableStuck(x)
  {
    var p :| Wedged(x, p) && p < PagesTo(x.curr + n);
    WedgedNotRoomy(x, p);
  }

  lemma {:induction false} MissingMore(s: Space, lo: int, page: int)
    requires Shaped(s) && 0 <= lo <= page < PAGES
    ensures Missing(s, lo, page + 1) == Missing(s, lo, page) + if Walk(s, page).None? then 1 else 0
    decreases page - lo
  {
    hide Walk;
    if lo < page {
      MissingMore(s, lo + 1, page);
    }
  }

  /** Where the first missing table is decides whether malloc returns. */
  lemma HangsHere(x: Snap, size: int, page: int, limit: int)
    requires Shaped(x.sp) && 0 < size <= MAX_SIZE && 0 <= x.curr && 0 <= x.end && !Fits(x, RoundUp(size))
    requires !Fits(x, TABLE_REQUEST)
    requires var n, m := RoundUp(size) + OVERHEAD, TABLE_REQUEST + OVERHEAD;
      x.curr + n <= HEAP_MAX && x.curr + m <= HEAP_MAX && limit == PagesTo(x.curr + if n < m then n else m)
    requires x.end / PAGE_SIZE <= page <= PAGES && Tabled(x.sp, x.end / PAGE_SIZE, page)
    requires page >= limit || (page < PAGES && !HasTable(x.sp, page))
    ensures Hangs(x, size) <==> page < limit && |x.taken| + Missing(x.sp, x.end / PAGE_SIZE, page) <= x.max
  {
    hide Fits, Missing;
    var n := RoundUp(size) + OVERHEAD;
    forall q | Wedged(x, q) && q < PagesTo(x.curr + n)
      ensures page < limit && q == page
    {
      assert q >= page;
      WedgedIsFirst(x, page, q);
    }
    if page < limit && |x.taken| + Missing(x.sp, x.end / PAGE_SIZE, page) <= x.max {
      assert Wedged(x, page);
    }
  }

  lemma {:induction false} MissingSame(s: Space, s': Space, lo: int, hi: int)
    requires Shaped(s) && Shaped(s') && 0 <= lo && hi <= PAGES
    requires forall pg :: lo <= pg < hi ==> Walk(s', pg) == Walk(s, pg)
    ensures Missing(s', lo, hi) == Missing(s, lo, hi)
    decreases hi - lo
  {
    hide Walk;
    if lo < hi {
      MissingSame(s, s', lo + 1, hi);
    }
  }

  /** The first page in [lo, hi) without a table. */
  lemma {:induction false} FirstUntabled(s: Space, lo: int, hi: int) returns (p: int)
    requires Shaped(s) && 0 <= lo && !Tabled(s, lo, hi)
    ensures lo <= p < hi && p < PAGES && Tabled(s, lo, p) && !HasTable(s, p)
    decreases hi - lo
  {
    if HasTable(s, lo) {
      assert !Tabled(s, lo + 1, hi);
      p := FirstUntabled(s, lo + 1, hi);
    } else {
      p := lo;
    }
  }

  /** Without room for a page table, the first page that lacks one is in reach of a request for a table. */
  lemma ShortOfTable(x: Snap, hi: int) returns (p: int)
    requires Shaped(x.sp) && 0 <= x.curr && 0 <= x.end && !Roomy(x) && !Tabled(x.sp, x.end / PAGE_SIZE, hi)
    ensures x.end / PAGE_SIZE <= p < hi && p < PAGES && p < PagesTo(x.curr + TABLE_REQUEST + OVERHEAD)
    ensures Tabled(x.sp, x.end / PAGE_SIZE, p) && !HasTable(x.sp, p) && !Fits(x, TABLE_REQUEST)
  {
    hide Fits;
    var lo := x.end / PAGE_SIZE;
    p := FirstUntabled(x.sp, lo, hi);
    var q := FirstUntabled(x.sp, lo, PagesTo(x.curr + TABLE_REQUEST + OVERHEAD));
    if q < p {
      TabledAt(x.sp, lo, p, q);
    } else if p < q {
      TabledAt(x.sp, lo, q, p);
    }
  }

  /**
    On the way from the end of the heap to page `p`: tables exist, frames are taken as needed, nothing
    else happens.
   */
  ghost predicate Waiting(x: Snap, y: Snap, page: int, p: int)
  {
    && Shaped(x.sp) && Shaped(y.sp) && Frozen(x, y) && 0 <= x.end / PAGE_SIZE <= page <= p < PAGES
    && |y.taken| + Missing(y.sp, page, p) == |x.taken| + Missing(x.sp, x.end / PAGE_SIZE, p)
    && forall pg :: x.end / PAGE_SIZE <= pg < page ==> Walk(y.sp, pg).Some?
  }

  lemma WaitingStep(x: Snap, y: Snap, z: Snap, page: int, p: int, full: bool)
    requires Waiting(x, y, page, p) && page < p && Shaped(z.sp)
    requires PageAllocated(y.sp, y.owner, y.taken, z.sp, z.owner, z.taken, page, 0, full)
    requires (Walk(y.sp, page).None? ==> !full)
    requires Frozen(y, z)
    ensures Waiting(x, z, page + 1, p)
  {
    hide Walk;
    MissingSame(y.sp, z.sp, page + 1, p);
    if Walk(y.sp, page).None? {
      assert |z.taken| == |y.taken| + 1;
    }
  }

  lemma WaitingFrames(x: Snap, y: Snap, page: int, p: int)
    requires Waiting(x, y, page, p) && page < p && Walk(y.sp, page).None?
    requires |x.taken| + Missing(x.sp, x.end / PAGE_SIZE, p) <= x.max
    ensures |y.taken| < y.max
  {
  }

  lemma {:induction false} NoneMissing(s: Space, lo: int, hi: int)
    requires Shaped(s) && 0 <= lo && hi <= PAGES && forall pg :: lo <= pg < hi ==> Walk(s, pg).Some?
    ensures Missing(s, lo, hi) == 0
    decreases hi - lo
  {
    if lo < hi {
      NoneMissing(s, lo + 1, hi);
    }
  }

  /** At page `p` itself the state is wedged just if it was at the start. */
  lemma WaitingEnd(x: Snap, y: Snap, p: int)
    requires Waiting(x, y, p, p) && 0 <= x.curr && |y.taken| <= y.max
    requires p < PagesTo(x.curr + TABLE_REQUEST + OVERHEAD) && Tabled(x.sp, x.end / PAGE_SIZE, p)
    requires !HasTable(x.sp, p) && !Fits(x, TABLE_REQUEST)
    ensures TableStuck(y) <==> x.curr + TABLE_REQUEST + OVERHEAD <= HEAP_MAX
    ensures Wedged(x, p) <==> x.curr + TABLE_REQUEST + OVERHEAD <= HEAP_MAX
  {
    hide Walk;
    NoneMissing(y.sp, x.end / PAGE_SIZE, p);
    SameTabled(x.sp, y.sp, x.end / PAGE_SIZE, p);
    assert !Fits(y, TABLE_REQUEST) && !HasTable(y.sp, p);
    if x.curr + TABLE_REQUEST + OVERHEAD <= HEAP_MAX {
      assert Wedged(y, p);
    }
  }

  /** Room for a page table depends on the heap and the directory only. */
  lemma FrozenRoomy(x: Snap, y: Snap)
    requires Shaped(x.sp) && Shaped(y.sp) && Frozen(x, y)
    ensures Roomy(x) <==> Roomy(y)
    ensures forall n :: Covered(x, n) <==> Covered(y, n)
  {
    forall n
      ensures Covered(x, n) <==> Covered(y, n)
    {
      if x.curr + n >= 0 {
        SameTabled(x.sp, y.sp, x.end / PAGE_SIZE, PagesTo(x.curr + n));
      }
    }
  }

  /** A wedged page before `hi` is the first page without a table. */
  lemma WedgedIsFirst(x: Snap, p: int, q: int)
    requires Shaped(x.sp) && Wedged(x, q) && x.end / PAGE_SIZE <= p < PAGES && Tabled(x.sp, x.end / PAGE_SIZE, p)
    requires !HasTable(x.sp, p)
    ensures p == q
  {
  }

  /** The pages a request for `size` bytes may map: none if a free block holds it, else those up to the new boundary. */
  ghost function Reach(x: Snap, size: int): int
    requires 0 <= size && 0 <= x.curr
  {
    if Fits(x, RoundUp(size)) then x.end / PAGE_SIZE else PagesTo(x.curr + RoundUp(size) + OVERHEAD)
  }

  lemma ExtendedNone(s: Space, lo: int, hi: int)
    requires Shaped(s) && hi <= lo
    ensures Extended(s, s, lo, hi)
  {
  }

  lemma ExtendedSame(s: Space, s1: Space, s2: Space, lo: int, hi: int)
    requires Shaped(s) && Shaped(s1) && Shaped(s2) && Extended(s, s1, lo, hi)
    requires forall pg :: 0 <= pg < PAGES ==> Walk(s2, pg) == Walk(s1, pg)
    ensures Extended(s, s2, lo, hi)
  {
    hide Walk;
  }

  lemma ExtendedMore(x: Snap, y: Snap, z: Snap, lo: int, page: int, full: bool)
    requires Shaped(x.sp) && Shaped(y.sp) && Shaped(z.sp) && Extended(x.sp, y.sp, lo, page) && 0 <= lo <= page < PAGES
    requires PageAllocated(y.sp, y.owner, y.taken, z.sp, z.owner, z.taken, page, 0, full)
    ensures Extended(x.sp, z.sp, lo, page + 1)
  {
    hide Walk;
  }

  // ---- Page tables still missing ----

  /** The page tables of the heap window that are still missing. */
  ghost function Absent(s: Space): set<int>
    requires Shaped(s)
  {
    set d | HEAP_PAGE / ENTRIES <= d < WINDOW_PAGE / ENTRIES && !s.tables[d].present
  }

  lemma FewerAbsent(s: Space, s': Space, d: int)
    requires Shaped(s) && Shaped(s') && (forall e :: 0 <= e < ENTRIES && s.tables[e].present ==> s'.tables[e].present)
    ensures |Absent(s')| <= |Absent(s)|
    ensures HEAP_PAGE / ENTRIES <= d < WINDOW_PAGE / ENTRIES && !s.tables[d].present && s'.tables[d].present ==>
      |Absent(s')| < |Absent(s)|
  {
    var a, a' := Absent(s), Absent(s');
    assert a' <= a;
    Smaller(a', a);
    if HEAP_PAGE / ENTRIES <= d < WINDOW_PAGE / ENTRIES && !s.tables[d].present && s'.tables[d].present {
      assert a' <= a - {d};
      Smaller(a', a - {d});
    }
  }

  lemma Smaller(x: set<int>, y: set<int>)
    requires x <= y
    ensures |x| <= |y|
  {
    assert |y| == |x| + |y - x| by { assert y == x + (y - x); }
  }

  /** The page before the end of the mapped heap has a table. */
  lemma LastTabled(s: Space, owner: map<int, int>, holder: map<int, int>, lo: int, end: int)
    requires Shaped(s) && Backed(s, owner, holder) && Window(s, owner, lo, end) && 0 <= lo < end <= PAGES
    ensures HasTable(s, end - 1)
  {
    assert end - 1 in owner;
  }

  /** A table for the first page that lacks one covers the next two as well. */
  lemma NewTableCovers(s: Space, s': Space, from: int, page: int, lo: int, hi: int)
    requires Shaped(s) && Shaped(s') && 0 < page < PAGES && from <= lo <= page && hi <= page + 3
    requires HasTable(s, page - 1) && !HasTable(s, page) && HasTable(s', page)
    requires Tabled(s', from, page)
    ensures Tabled(s', lo, hi)
  {
    forall pg {:trigger HasTable(s', pg)} | lo <= pg < hi && 0 <= pg < PAGES
      ensures HasTable(s', pg)
    {
      if pg >= page {
        assert DirIndex(pg) == DirIndex(page);
      }
    }
  }

  // ---- How the heap grows ----

  const TABLE_SPACE := TABLE_REQUEST + OVERHEAD  // what one page table takes of the heap

  /** Frames are conserved: each one taken maps a page of the heap window, except for `extra` of them. */
  ghost predicate Balanced(x: Snap, y: Snap, extra: int)
    requires Shaped(x.sp) && Shaped(y.sp)
  {
    |y.taken| + Missing(y.sp, HEAP_PAGE, WINDOW_PAGE) == |x.taken| + Missing(x.sp, HEAP_PAGE, WINDOW_PAGE) + extra
  }

  /** Pages of the window from `addr` on are as they were. */
  ghost predicate Beyond(x: Snap, y: Snap, addr: int)
    requires Shaped(x.sp) && Shaped(y.sp)
  {
    forall pg :: InWindow(pg) && pg * PAGE_SIZE >= addr ==> Walk(y.sp, pg) == Walk(x.sp, pg)
  }

  /** All frames are taken, and a page of the window below `addr` is absent. */
  ghost predicate Starved(y: Snap, addr: int)
    requires Shaped(y.sp)
  {
    |y.taken| == y.max && exists pg :: InWindow(pg) && pg * PAGE_SIZE < addr && Walk(y.sp, pg).None?
  }

  /**
    The boundary moved by `moved`, and further by no more than the page tables added take; pages were
    mapped below `reach` only, and if that failed for want of a frame there was none left.
   */
  ghost predicate Growth(x: Snap, y: Snap, moved: int, reach: int, r: Result)
    requires Shaped(x.sp) && Shaped(y.sp)
  {
    && Balanced(x, y, 0) && Beyond(x, y, reach)
    && y.curr - moved <= x.curr + TABLE_SPACE * (|Absent(x.sp)| - |Absent(y.sp)|)
    && (r.NoFrames? ==> Starved(y, reach))
  }

  lemma GrowthSame(x: Snap, y: Snap, moved: int, reach: int, r: Result)
    requires Shaped(x.sp) && y.sp == x.sp && y.taken == x.taken && y.curr == x.curr && 0 <= moved && !r.NoFrames?
    ensures Growth(x, y, moved, reach, r)
  {
  }

  lemma GrowthWider(x: Snap, y: Snap, z: Snap, moved: int, reach: int, r: Result, n: int, reach': int, r': Result)
    requires Shaped(x.sp) && Shaped(y.sp) && Growth(x, y, moved, reach, r) && reach <= reach'
    requires (r'.NoFrames? ==> r.NoFrames?)
    requires z.sp == y.sp && z.taken == y.taken && z.max == y.max && z.curr <= y.curr + n
    ensures Growth(x, z, moved + n, reach', r')
  {
    hide Walk, Missing, Absent;
  }

  lemma GrowthThen(x: Snap, y: Snap, z: Snap, reach: int, r: Result, moved: int, reach': int, r': Result)
    requires Shaped(x.sp) && Shaped(y.sp) && Shaped(z.sp) && Growth(x, y, 0, reach, r)
    requires Growth(y, z, moved, reach', r') && reach <= reach'
    ensures Growth(x, z, moved, reach', r')
  {
    hide Walk, Missing, Absent;
  }

  lemma {:induction false} MissingSplit(s: Space, lo: int, mid: int, hi: int)
    requires Shaped(s) && 0 <= lo <= mid <= hi <= PAGES
    ensures Missing(s, lo, hi) == Missing(s, lo, mid) + Missing(s, mid, hi)
    decreases mid - lo
  {
    hide Walk;
    if lo < mid {
      MissingSplit(s, lo + 1, mid, hi);
    }
  }

  /** Mapping one absent page leaves one fewer. */
  lemma MissingOne(s: Space, s': Space, lo: int, hi: int, page: int)
    requires Shaped(s) && Shaped(s') && 0 <= lo <= page < hi <= PAGES && Walk(s, page).None? && Walk(s', page).Some?
    requires forall pg :: lo <= pg < hi && pg != page ==> Walk(s', pg) == Walk(s, pg)
    ensures Missing(s, lo, hi) == Missing(s', lo, hi) + 1
  {
    hide Walk;
    MissingSplit(s, lo, page, hi);
    MissingSplit(s', lo, page, hi);
    MissingSame(s, s', lo, page);
    MissingSame(s, s', page + 1, hi);
  }

  /** An absent page is counted. */
  lemma MissingSome(s: Space, lo: int, hi: int, page: int)
    requires Shaped(s) && 0 <= lo <= page < hi <= PAGES && Walk(s, page).None?
    ensures Missing(s, lo, hi) >= 1
  {
    hide Walk;
    MissingSplit(s, lo, page, hi);
  }

  /** Mapping a page conserves frames. */
  lemma BalancedPage(x: Snap, y: Snap, holder: map<int, int>, page: int, frame: int, full: bool)
    requires Shaped(x.sp) && Shaped(y.sp) && 0 <= page < PAGES && Backed(x.sp, x.owner, holder)
    requires PageAllocated(x.sp, x.owner, x.taken, y.sp, y.owner, y.taken, page, frame, full)
    requires InWindow(page) ==> frame == 0 && (Walk(x.sp, page).None? ==> !full)
    ensures Balanced(x, y, if !InWindow(page) && page in y.owner && page !in x.owner then 1 else 0)
  {
    hide Walk, Missing;
    if Walk(x.sp, page).None? {
      assert page !in x.owner;
      if InWindow(page) {
        MissingOne(x.sp, y.sp, HEAP_PAGE, WINDOW_PAGE, page);
      } else {
        MissingSame(x.sp, y.sp, HEAP_PAGE, WINDOW_PAGE);
      }
      if page in y.owner {
        assert |y.taken| == |x.taken| + 1;
      }
    } else {
      MissingSame(x.sp, y.sp, HEAP_PAGE, WINDOW_PAGE);
    }
  }

  /** The frames that moving the boundary by `n` takes when no page table is missing. */
  ghost function FramesFor(x: Snap, n: int): nat
    requires Shaped(x.sp)
  {
    if 0 <= x.end / PAGE_SIZE && 0 <= x.curr + n <= WINDOW_PAGE * PAGE_SIZE
    then Missing(x.sp, x.end / PAGE_SIZE, PagesTo(x.curr + n)) else 0
  }

  /** The boundary can be moved by `n`: it stays in what is mapped, or in the window with frames enough. */
  ghost predicate CanGrow(x: Snap, n: int)
    requires Shaped(x.sp)
  {
    x.curr + n <= x.end || (x.curr + n <= HEAP_MAX && |x.taken| + FramesFor(x, n) <= x.max)
  }

  /** A page table can be had: from a free block, or by growing the heap without another page table. */
  ghost predicate TableServes(x: Snap)
    requires Shaped(x.sp)
  {
    Fits(x, TABLE_REQUEST) || (Covered(x, TABLE_SPACE) && CanGrow(x, TABLE_SPACE))
  }

  /** The frames that a request for a page table takes. */
  ghost function TableFrames(x: Snap): nat
    requires Shaped(x.sp)
  {
    if Fits(x, TABLE_REQUEST) then 0 else FramesFor(x, TABLE_SPACE)
  }

  /** Growing by `n` succeeds even if every page table missing in the window has to be allocated on the way. */
  ghost predicate Plenty(x: Snap, n: int)
    requires Shaped(x.sp)
  {
    var top := x.curr + Worst(n) + TABLE_SPACE * |Absent(x.sp)|;
    && HEAP_START <= top <= HEAP_MAX
    && |x.taken| + Missing(x.sp, HEAP_PAGE, PagesTo(top)) <= x.max
  }

  /** Frames run out before the first page without a table is reached. */
  ghost predicate Exhausted(x: Snap, hi: int)
    requires Shaped(x.sp) && 0 <= x.curr
  {
    exists p :: Stop(x, hi, p) && |x.taken| + Missing(x.sp, x.end / PAGE_SIZE, p) > x.max
  }

  lemma StopIsOne(x: Snap, hi: int, p: int, hi': int, q: int)
    requires Shaped(x.sp) && 0 <= x.curr && Stop(x, hi, p) && Stop(x, hi', q)
    ensures p == q
  {
  }

  /** With plenty, neither the window nor the frames run out. */
  lemma PlentyLasts(x: Snap, y: Snap, n: int, r: Result)
    requires Shaped(x.sp) && Shaped(y.sp) && Plenty(x, n) && 0 < n && HEAP_START <= y.curr && y.max == x.max
    requires Growth(x, y, 0, y.curr + Worst(n), r)
    ensures y.curr + Worst(n) <= HEAP_MAX && !r.NoFrames?
  {
    hide Absent, Walk, Missing;
    var top := x.curr + Worst(n) + TABLE_SPACE * |Absent(x.sp)|;
    var hi := PagesTo(top);
    assert y.curr + Worst(n) <= top;
    if r.NoFrames? {
      var pg :| InWindow(pg) && pg * PAGE_SIZE < y.curr + Worst(n) && Walk(y.sp, pg).None?;
      MissingSome(y.sp, HEAP_PAGE, hi, pg);
      MissingSplit(x.sp, HEAP_PAGE, hi, WINDOW_PAGE);
      MissingSplit(y.sp, HEAP_PAGE, hi, WINDOW_PAGE);
      MissingSame(x.sp, y.sp, hi, WINDOW_PAGE);
    }
  }

  function Higher(a: int, b: int): int
  {
    if a < b then b else a
  }

  // ---- What requests come to ----

  /** Exactly the pages in [lo, hi) are mapped in addition, and perhaps `page`. */
  ghost predicate ExtendedBut(s: Space, s': Space, lo: int, hi: int, page: int)
    requires Shaped(s) && Shaped(s')
  {
    forall pg :: 0 <= pg < PAGES && pg != page ==> (Walk(s', pg).Some? <==> Walk(s, pg).Some? || lo <= pg < hi)
  }

  /** ksbrk(n), from state `x` to `y`. */
  ghost predicate BrkOutcome(x: Snap, y: Snap, n: int, r: Result, depth: nat)
    requires Shaped(x.sp) && Shaped(y.sp)
  {
    && BrkBasic(x, y, n, r, depth) && BrkExact(x, y, n, r)
    && Growth(x, y, if r.Ok? then n else 0, y.curr + Worst(n), r)
  }

  ghost predicate BrkBasic(x: Snap, y: Snap, n: int, r: Result, depth: nat)
    requires Shaped(x.sp) && Shaped(y.sp)
  {
    && (r.Wraps? <==> x.curr + n >= UINT32)
    && (r.NoWindow? ==> y.curr + Worst(n) > HEAP_MAX)
    && (x.curr + n <= x.end ==> r.Ok? && y.end == x.end)
    // It does not return just in a stuck state; else one nested request for a page table is enough.
    && (Stuck(x, n) ==> r.Deep?)
    && (r.Deep? ==> Stuck(x, n) || (depth == 0 && (Roomy(x) || n < TABLE_SPACE)))
    && (Covered(x, n) ==>
          && !r.Deep? && y.sp.tables == x.sp.tables && y.home == x.home
          && (r.Ok? ==> Extended(x.sp, y.sp, x.end / PAGE_SIZE, PagesTo(x.curr + n))))
    && (!Covered(x, n) && !Roomy(x) ==> !r.Ok? && Frozen(x, y))
    && (y.curr == x.curr ==> y.end == x.end)
  }

  /** Without page tables to allocate, the state before decides; it is left alone on failure. */
  ghost predicate BrkExact(x: Snap, y: Snap, n: int, r: Result)
    requires Shaped(x.sp) && Shaped(y.sp)
  {
    && (Covered(x, n) ==>
          && (r.Ok? <==> CanGrow(x, n))
          && (r.NoWindow? <==> x.end < x.curr + n && HEAP_MAX < x.curr + n < UINT32)
          && (r.Ok? ==> |y.taken| == |x.taken| + FramesFor(x, n))
          && (!r.Ok? ==> Frozen(x, y)))
    && (!Covered(x, n) && !Roomy(x) && 0 <= x.curr ==>
          (r.NoFrames? <==> 0 <= x.curr + n <= HEAP_MAX && Exhausted(x, PagesTo(x.curr + n))))
  }

  /** ksbrk's mapping loop up to the boundary `nb`. */
  ghost predicate MapOutcome(x: Snap, y: Snap, nb: int, r: Result, depth: nat)
    requires Shaped(x.sp) && Shaped(y.sp) && 0 <= nb <= HEAP_MAX && 0 <= x.end && 0 <= x.curr
  {
    MapBasic(x, y, nb, r, depth) && MapExact(x, y, nb, r) && Growth(x, y, 0, Higher(nb, y.curr + TABLE_SPACE), r)
  }

  ghost predicate MapBasic(x: Snap, y: Snap, nb: int, r: Result, depth: nat)
    requires Shaped(x.sp) && Shaped(y.sp) && 0 <= nb
  {
    var from, hi := x.end / PAGE_SIZE, PagesTo(nb);
    && (r.Ok? || r.NoWindow? || r.NoFrames? || r.Deep?)
    && (r.NoWindow? ==> y.curr + TABLE_SPACE > HEAP_MAX)
    && (Tabled(x.sp, from, hi) ==>
          && !r.NoWindow? && !r.Deep? && Frozen(x, y) && (r.Ok? ==> Extended(x.sp, y.sp, from, hi)))
    && (r.Ok? && y.curr != x.curr ==> |Absent(y.sp)| < |Absent(x.sp)| && Roomy(y) && Roomy(x))
    && (!Tabled(x.sp, from, hi) && !Roomy(x) ==> !r.Ok? && Frozen(x, y))
    && ((exists p :: Wedged(x, p) && p < hi) ==> r.Deep?)
    && (r.Deep? ==>
          (exists p :: Wedged(x, p) && p < hi) || (depth == 0 && (Roomy(x) || nb < x.curr + TABLE_SPACE)))
    && (y.curr == x.curr ==> y.end == x.end)
  }

  ghost predicate MapExact(x: Snap, y: Snap, nb: int, r: Result)
    requires Shaped(x.sp) && Shaped(y.sp) && 0 <= nb <= HEAP_MAX && 0 <= x.end && 0 <= x.curr
  {
    var from, hi := x.end / PAGE_SIZE, PagesTo(nb);
    && (Tabled(x.sp, from, hi) ==>
          && (r.Ok? <==> |x.taken| + Missing(x.sp, from, hi) <= x.max)
          && (r.Ok? ==> |y.taken| == |x.taken| + Missing(x.sp, from, hi)))
    && (!Tabled(x.sp, from, hi) && !Roomy(x) ==> (r.NoFrames? <==> Exhausted(x, hi)))
  }

  /** No free block holds `size` bytes, and growing the heap for them is not possible for want of a page table. */
  ghost predicate Short(x: Snap, size: int)
    requires Shaped(x.sp) && 0 <= size
  {
    !Fits(x, RoundUp(size)) && !Covered(x, RoundUp(size) + OVERHEAD) && !Roomy(x)
  }

  /** malloc(size) never returns. */
  ghost predicate Hangs(x: Snap, size: int)
    requires Shaped(x.sp) && 0 <= size
  {
    0 < size <= MAX_SIZE && !Fits(x, RoundUp(size)) && Stuck(x, RoundUp(size) + OVERHEAD)
  }

  /** malloc(size) for a positive size, from state `x` to `y`. */
  ghost predicate MallocOutcome(x: Snap, y: Snap, size: int, r: Result, depth: nat)
    requires Shaped(x.sp) && Shaped(y.sp) && 0 <= size && 0 <= x.curr
  {
    var fits, n := Fits(x, RoundUp(size)), RoundUp(size) + OVERHEAD;
    && (r.Wraps? <==> size > MAX_SIZE || (!fits && x.curr + n >= UINT32))
    && (r.NoWindow? ==> !fits && y.curr + Worst(n) > HEAP_MAX)
    && (r.NoFrames? ==> !fits)
    && Growth(x, y, if r.Ok? && !fits then n else 0, y.curr + Worst(n), r)
    && (size <= MAX_SIZE && (fits || x.curr + n <= x.end) ==> r.Ok? && y.end == x.end)
    // It does not return just in a stuck state; else one nested request for a page table is enough.
    && (Hangs(x, size) ==> r.Deep?)
    && (r.Deep? ==> Hangs(x, size) || (depth == 0 && !fits && (Roomy(x) || n < TABLE_REQUEST + OVERHEAD)))
    && (fits ==> y.curr == x.curr)
    && (fits || Covered(x, n) ==>
          && !r.Deep? && y.sp.tables == x.sp.tables && y.home == x.home
          && (r.Ok? ==> Extended(x.sp, y.sp, x.end / PAGE_SIZE, Reach(x, size))))
    // Without page tables to allocate, the state before decides; it is left alone on failure.
    && (size <= MAX_SIZE && !fits && Covered(x, n) ==>
          && (r.Ok? <==> CanGrow(x, n))
          && (r.NoWindow? <==> x.end < x.curr + n && HEAP_MAX < x.curr + n < UINT32)
          && (r.Ok? ==> |y.taken| == |x.taken| + FramesFor(x, n))
          && (!r.Ok? ==> Frozen(x, y)))
    && (fits && r.Ok? ==> y.taken == x.taken)
    && (size <= MAX_SIZE && Short(x, size) ==>
          !r.Ok? && Frozen(x, y) && (r.NoFrames? <==> x.curr + n <= HEAP_MAX && Exhausted(x, PagesTo(x.curr + n))))
    && (y.curr == x.curr ==> y.end == x.end)
  }

  /** The first half of allocate_page. */
  ghost predicate TableOutcome(x: Snap, y: Snap, page: int, r: Result, depth: nat)
    requires Shaped(x.sp) && Shaped(y.sp) && 0 <= page < PAGES && 0 <= x.curr
  {
    if HasTable(x.sp, page) then r.Ok? && y == x
    else
      && (r.Ok? || r.NoWindow? || r.NoFrames? || r.Deep?)
      && (r.Ok? <==> depth > 0 && TableServes(x))
      && (r.Ok? ==>
            && HasTable(y.sp, page) && Extended(x.sp, y.sp, x.end / PAGE_SIZE, Reach(x, TABLE_REQUEST))
            && |y.taken| == |x.taken| + TableFrames(x) && y.curr <= x.curr + TABLE_SPACE)
      && (!r.Ok? ==> Frozen(x, y))
      && Balanced(x, y, 0) && Beyond(x, y, y.curr + TABLE_SPACE)
      && (r.NoWindow? ==> y.curr + TABLE_SPACE > HEAP_MAX)
      && (r.NoFrames? ==> Starved(y, y.curr + TABLE_SPACE) && (!Roomy(x) ==> Exhausted(x,
        PagesTo(x.curr + TABLE_SPACE))))
      && (TableStuck(x) ==> r.Deep?) && (r.Deep? ==> TableStuck(x) || depth == 0)
      && (y.curr == x.curr ==> y.end == x.end)
  }

  /** allocate_page. */
  ghost predicate PageOutcome(x: Snap, y: Snap, page: int, frame: int, r: Result, depth: nat)
    requires Shaped(x.sp) && Shaped(y.sp) && 0 <= page < PAGES && 0 <= x.curr
  {
    PageBasic(x, y, page, frame, r, depth) && PageExact(x, y, page, r, depth) && PageGrowth(x, y, page, r)
  }

  ghost predicate PageBasic(x: Snap, y: Snap, page: int, frame: int, r: Result, depth: nat)
    requires Shaped(x.sp) && Shaped(y.sp) && 0 <= page < PAGES && 0 <= x.curr
  {
    && (r.Ok? || r.NoWindow? || r.NoFrames? || r.Deep?)
    && (r.Ok? ==> HasTable(y.sp, page) && Placed(x, y, page, frame) && Walk(y.sp, page).Some?)
    && (y.curr == x.curr ==> y.end == x.end)
    && if HasTable(x.sp, page) then
         && !r.NoWindow? && !r.Deep? && Frozen(x, y)
         && (r.Ok? ==> PageAllocated(x.sp, x.owner, x.taken, y.sp, y.owner, y.taken, page, frame, |x.taken| == x.max))
         && (r.NoFrames? ==> y == x)
       else
         && (r.Ok? ==> ExtendedBut(x.sp, y.sp, x.end / PAGE_SIZE, Reach(x, TABLE_REQUEST), page))
         && (r.NoWindow? ==> y.curr + TABLE_SPACE > HEAP_MAX)
         && (TableStuck(x) ==> r.Deep?) && (r.Deep? ==> TableStuck(x) || depth == 0)
         && (!Roomy(x) ==> !r.Ok? && Frozen(x, y))
  }

  /** The state before decides whether the page can be mapped. */
  ghost predicate PageExact(x: Snap, y: Snap, page: int, r: Result, depth: nat)
    requires Shaped(x.sp) && Shaped(y.sp) && 0 <= page < PAGES && 0 <= x.curr
  {
    if HasTable(x.sp, page) then r.NoFrames? <==> InWindow(page) && Walk(x.sp, page).None? && |x.taken| == x.max
    else
      && (r.Ok? <==> depth > 0 && TableServes(x) && (InWindow(page) ==> |x.taken| + TableFrames(x) < x.max))
      && (r.NoFrames? && !Roomy(x) ==> Exhausted(x, PagesTo(x.curr + TABLE_SPACE)))
  }

  /** Frames are conserved, and the heap grows by one page table at most. */
  ghost predicate PageGrowth(x: Snap, y: Snap, page: int, r: Result)
    requires Shaped(x.sp) && Shaped(y.sp) && 0 <= page < PAGES
  {
    && Balanced(x, y, if !InWindow(page) && page in y.owner && page !in x.owner then 1 else 0)
    && Beyond(x, y, PageReach(y, page)) && (r.NoFrames? ==> Starved(y, PageReach(y, page)))
    && y.curr <= x.curr + (if HasTable(y.sp, page) && !HasTable(x.sp, page) then TABLE_SPACE else 0)
  }

  function PageReach(y: Snap, page: int): int
  {
    Higher(if InWindow(page) then (page + 1) * PAGE_SIZE else 0, y.curr + TABLE_SPACE)
  }

  /** realloc cuts the last block in two. */
  ghost predicate CutsTail(x: Snap, ptr: int, size: int)
  {
    ptr != 0 && size > 0 && ptr - HEADER in x.b && ptr - HEADER == x.tail
    && x.b[ptr - HEADER] > size && x.b[ptr - HEADER] - RoundUp(size) >= 8 + OVERHEAD
  }

  /** realloc has to find another place: the block is too small, and so it is together with either free neighbour. */
  ghost predicate Moves(x: Snap, ptr: int, size: int)
    requires 0 <= size
  {
    var a := ptr - HEADER;
    && a in x.b && x.b[a] < size
    && !(End(x.b, a) in x.f && End(x.b, a) in x.b && x.b[a] + OVERHEAD + x.b[End(x.b, a)] >= RoundUp(size))
    && !(exists c :: c in x.f && c in x.b && End(x.b, c) == a && x.b[a] + OVERHEAD + x.b[c] >= RoundUp(size))
  }

  /**
    realloc of a live block to a positive size: refused only where malloc would be, and only if the
    block has to move.
   */
  ghost predicate ReallocOutcome(x: Snap, y: Snap, ptr: int, size: int, r: Result, depth: nat)
    requires Shaped(x.sp) && Shaped(y.sp) && 0 <= size && 0 <= x.curr
  {
    && !r.Null?
    && (size > MAX_SIZE ==> r.Wraps?)
    && (size <= MAX_SIZE && !Moves(x, ptr, size) ==> r.Ok?)
    && (size <= MAX_SIZE && Moves(x, ptr, size) ==> if r.Ok? then !Hangs(x, size) else MallocOutcome(x, y, size, r,
      depth))
  }

  // ---- How outcomes follow from each other ----

  lemma BrkWraps(x: Snap, n: int, depth: nat)
    requires Shaped(x.sp) && HEAP_START <= x.curr <= x.end <= WINDOW_PAGE * PAGE_SIZE && 0 < n <= UINT32
    requires x.curr + n >= UINT32
    ensures BrkOutcome(x, x, n, Wraps, depth)
  {
    hide Wedged, Tabled, Fits, Exhausted, Missing;
    GrowthSame(x, x, 0, x.curr + Worst(n), Wraps);
  }

  /**
    ksbrk(n) was called in state `x`, and is at its start in state `y`: for the first time, or after a
    page table took the boundary along.
   */
  ghost predicate Again(x: Snap, y: Snap, n: int)
  {
    && Shaped(x.sp) && Shaped(y.sp) && Growth(x, y, 0, y.curr + Worst(n), Null)
    && (y == x || (&& Roomy(x) && !Covered(x, n) && x.curr < y.curr && x.end < x.curr + n && x.curr + n <= HEAP_MAX
                   && (Covered(y, n) || Roomy(y))))
  }

  lemma AgainFirst(x: Snap, n: int)
    requires Shaped(x.sp)
    ensures Again(x, x, n)
  {
    GrowthSame(x, x, 0, x.curr + Worst(n), Null);
  }

  lemma CoveredIs(x: Snap, n: int)
    requires Shaped(x.sp) && 0 <= x.curr + n
    ensures Covered(x, n) <==> Tabled(x.sp, x.end / PAGE_SIZE, PagesTo(x.curr + n))
  {
  }

  lemma SameEnd(x: Snap, y: Snap, nb: int, r: Result, depth: nat)
    requires Shaped(x.sp) && Shaped(y.sp) && 0 <= nb <= HEAP_MAX && 0 <= x.end && 0 <= x.curr
    requires MapOutcome(x, y, nb, r, depth) && y.curr == x.curr
    ensures y.end == x.end
  {
  }

  /** Pages were mapped, and a page table among them: ksbrk starts again. */
  lemma Restarts(x: Snap, y: Snap, z: Snap, n: int, r: Result, depth: nat)
    requires Again(x, y, n) && Shaped(z.sp) && 0 < n && 0 <= x.curr && y.end < y.curr + n <= HEAP_MAX && 0 <= y.curr
    requires 0 <= y.end
    requires MapOutcome(y, z, y.curr + n, r, depth) && r.Ok? && y.curr < z.curr
    ensures Again(x, z, n) && Roomy(x) && !Covered(x, n) && |Absent(z.sp)| < |Absent(y.sp)| && x.curr + n <= HEAP_MAX
  {
    hide Wedged, Fits, Tabled, Absent, Extended, Growth, Missing, Exhausted;
    GrowsOn(x, y, z, n, r);
  }

  lemma GrowsOn(x: Snap, y: Snap, z: Snap, n: int, r: Result)
    requires Shaped(x.sp) && Shaped(y.sp) && Shaped(z.sp) && 0 < n && y.curr <= z.curr
    requires Growth(x, y, 0, y.curr + Worst(n), Null) && Growth(y, z, 0, Higher(y.curr + n, z.curr + TABLE_SPACE), r)
    ensures Growth(x, z, 0, z.curr + Worst(n), r)
    ensures r.Ok? ==> Growth(x, z, 0, z.curr + Worst(n), Null)
  {
    hide Growth;
    GrowthWider(y, z, z, 0, Higher(y.curr + n, z.curr + TABLE_SPACE), r, 0, z.curr + Worst(n), r);
    GrowthThen(x, y, z, y.curr + Worst(n), Null, 0, z.curr + Worst(n), r);
    if r.Ok? {
      GrowthWider(x, z, z, 0, z.curr + Worst(n), r, 0, z.curr + Worst(n), Null);
    }
  }

  /** The boundary is still inside what is mapped. */
  lemma BrkInside(x: Snap, y: Snap, z: Snap, n: int, r: Result, depth: nat)
    requires Shaped(x.sp) && Shaped(y.sp) && 0 < n && 0 <= x.curr <= x.end && x.end % PAGE_SIZE == 0
    requires y.end <= WINDOW_PAGE * PAGE_SIZE
    requires r.Ok? && y.curr + n <= y.end && z == y.(curr := y.curr + n) && x.curr <= y.curr
    requires Again(x, y, n) && x.curr + n < UINT32
    ensures BrkOutcome(x, z, n, r, depth)
  {
    hide Wedged, Fits, Walk, Growth, Absent, Exhausted, Extended;
    GrowthWider(x, y, z, 0, y.curr + Worst(n), Null, n, z.curr + Worst(n), r);
    if Stuck(x, n) {
      StuckFacts(x, n);
    }
    if y == x {
      assert PagesTo(x.curr + n) <= x.end / PAGE_SIZE;
      ExtendedNone(x.sp, x.end / PAGE_SIZE, PagesTo(x.curr + n));
      assert Covered(x, n) && FramesFor(x, n) == 0;
    } else {
      hide Covered, FramesFor;
    }
  }

  /** The boundary is past the heap window. */
  lemma BrkPast(x: Snap, y: Snap, n: int, depth: nat)
    requires Shaped(x.sp) && Shaped(y.sp) && 0 < n && 0 <= x.curr <= x.end <= WINDOW_PAGE * PAGE_SIZE
    requires y.curr + n > HEAP_MAX && x.curr + n < UINT32 && y.curr + n > y.end
    requires Again(x, y, n)
    ensures BrkOutcome(x, y, n, NoWindow, depth)
  {
    hide Wedged, Fits, Covered, Growth, Absent, Exhausted, FramesFor, Extended;
    GrowthWider(x, y, y, 0, y.curr + Worst(n), Null, 0, y.curr + Worst(n), NoWindow);
    if Stuck(x, n) {
      StuckFacts(x, n);
    }
  }

  lemma BrkFails(x: Snap, y: Snap, z: Snap, n: int, r: Result, depth: nat)
    requires Shaped(x.sp) && Shaped(y.sp) && Shaped(z.sp) && 0 < n && 0 <= x.curr && 0 <= y.curr
    requires 0 <= y.end < y.curr + n <= HEAP_MAX
    requires MapOutcome(y, z, y.curr + n, r, depth) && !r.Ok? && y.curr <= z.curr
    requires Again(x, y, n)
    ensures !r.Null?
    ensures BrkOutcome(x, z, n, r, depth)
  {
    hide Wedged, Fits, Tabled, Absent, Growth, Exhausted, Missing, Extended;
    GrowsOn(x, y, z, n, r);
    BrkFailsBasic(x, y, z, n, r, depth);
    if y == x {
      CoveredIs(x, n);
    }
    hide BrkBasic, Covered;
  }

  lemma BrkFailsBasic(x: Snap, y: Snap, z: Snap, n: int, r: Result, depth: nat)
    requires Shaped(x.sp) && Shaped(y.sp) && Shaped(z.sp) && 0 < n && 0 <= x.curr && 0 <= y.curr
    requires y.end < y.curr + n <= HEAP_MAX
    requires MapBasic(y, z, y.curr + n, r, depth) && !r.Ok? && y.curr <= z.curr
    requires Again(x, y, n)
    ensures BrkBasic(x, z, n, r, depth)
  {
    hide Wedged, Fits, Tabled, Absent, Growth, Extended;
    if Stuck(x, n) {
      StuckFacts(x, n);
    }
    if y != x && r.Deep? && exists p :: Wedged(y, p) && p < PagesTo(y.curr + n) {
      StuckFacts(y, n);
    }
  }

  /** All pages up to the boundary are mapped, and the boundary was not moved by anyone else. */
  lemma BrkMapped(x: Snap, y: Snap, z: Snap, w: Snap, n: int, m: Result, r: Result, depth: nat)
    requires Shaped(x.sp) && Shaped(y.sp) && Shaped(z.sp) && 0 < n && 0 <= x.curr && 0 <= y.curr
    requires 0 <= y.end < y.curr + n <= HEAP_MAX
    requires MapOutcome(y, z, y.curr + n, m, depth) && m.Ok? && z.curr == y.curr && r.Ok? && x.curr <= y.curr
    requires w == z.(curr := z.curr + n, end := w.end)
    requires Again(x, y, n)
    ensures BrkOutcome(x, w, n, r, depth)
  {
    hide Wedged, Fits, Tabled, Absent, Extended, Growth, Exhausted, Missing;
    GrowsOn(x, y, z, n, m);
    GrowthWider(x, z, w, 0, z.curr + Worst(n), m, n, w.curr + Worst(n), r);
    if Stuck(x, n) {
      StuckFacts(x, n);
    }
    if y == x {
      CoveredIs(x, n);
    }
  }

  lemma MallocWraps(x: Snap, size: int, depth: nat)
    requires Shaped(x.sp) && MAX_SIZE < size < UINT32 && 0 <= x.curr
    ensures MallocOutcome(x, x, size, Wraps, depth)
  {
    hide Fits, Covered, Wedged;
  }

  lemma MallocFits(x: Snap, y: Snap, a: int, size: int, r: Result, depth: nat)
    requires Shaped(x.sp) && 0 < size <= MAX_SIZE && 0 <= x.curr && a in x.f && a in x.b && x.b[a] >= RoundUp(size)
    requires r.Ok? && y == x.(mem := y.mem, b := y.b, f := y.f, tail := y.tail)
    ensures MallocOutcome(x, y, size, r, depth)
  {
    hide Covered, Wedged, Walk;
    assert Fits(x, RoundUp(size));
    ExtendedNone(x.sp, x.end / PAGE_SIZE, x.end / PAGE_SIZE);
  }

  lemma MallocGrows(x: Snap, y: Snap, z: Snap, size: int, moved: Result, r: Result, depth: nat)
    requires Shaped(x.sp) && Shaped(y.sp) && 0 < size <= MAX_SIZE && 0 <= x.curr && !Fits(x, RoundUp(size))
    requires BrkOutcome(x, y, RoundUp(size) + OVERHEAD, moved, depth)
    requires if moved.Ok? then r.Ok? && z == y.(mem := z.mem, b := z.b, f := z.f, tail := z.tail)
             else r == moved && z == y && !r.Null?
    requires moved.Ok? ==> y.curr > x.curr
    ensures MallocOutcome(x, z, size, r, depth)
  {
    hide Fits, Covered, Roomy, Stuck, Extended;
  }

  /**
    malloc(size) is served: a free block holds it, or the heap can be grown, for which the frames and
    the window are counted exactly if no page table is missing and generously otherwise.
   */
  ghost predicate Serves(x: Snap, size: int)
    requires Shaped(x.sp)
  {
    && 0 < size <= MAX_SIZE
    && var n := RoundUp(size) + OVERHEAD;
    || Fits(x, RoundUp(size))
    || (if Covered(x, n) then CanGrow(x, n) else Roomy(x) && Plenty(x, n))
  }

  /** Growing by `n` succeeds with plenty, page tables on the way included. */
  lemma BrkPlenty(x: Snap, y: Snap, n: int, r: Result, depth: nat)
    requires Shaped(x.sp) && Shaped(y.sp) && BrkOutcome(x, y, n, r, depth) && !r.Null? && 0 < n && depth > 0
    requires HEAP_START <= y.curr && y.max == x.max && Roomy(x) && Plenty(x, n)
    ensures r.Ok?
  {
    hide Growth, BrkExact, Fits, Covered, Extended, Missing, Absent, Exhausted;
    if !r.Ok? {
      PlentyLasts(x, y, n, r);
      if Stuck(x, n) {
        StuckFacts(x, n);
      }
    }
  }

  lemma ServesSome(x: Snap, size: int)
    requires Shaped(x.sp) && Serves(x, size)
    ensures 0 < size <= MAX_SIZE
  {
  }

  lemma MallocServes(x: Snap, y: Snap, size: int, r: Result, depth: nat)
    requires Shaped(x.sp) && Shaped(y.sp) && 0 < size && 0 <= x.curr && MallocOutcome(x, y, size, r, depth)
    requires !r.Null? && depth > 0
    requires HEAP_START <= y.curr && y.max == x.max && Serves(x, size)
    ensures r.Ok?
  {
    hide Growth, Fits, Covered, Extended, Missing, Absent, Exhausted, CanGrow;
    var n := RoundUp(size) + OVERHEAD;
    if !r.Ok? && !Fits(x, RoundUp(size)) && !Covered(x, n) {
      PlentyLasts(x, y, n, r);
      if Stuck(x, n) {
        StuckFacts(x, n);
      }
    }
  }

  lemma MallocShort(x: Snap, y: Snap, size: int, r: Result, depth: nat)
    requires Shaped(x.sp) && Shaped(y.sp) && 0 <= size && 0 <= x.curr && MallocOutcome(x, y, size, r, depth)
    ensures Short(x, size) ==> !r.Ok? && !Roomy(x)
  {
    hide Fits, Covered, Roomy, Stuck, Extended;
  }

  lemma MallocAt(x: Snap, y: Snap, size: int, r: Result, r': Result, depth: nat)
    requires Shaped(x.sp) && Shaped(y.sp) && 0 <= size && 0 <= x.curr && MallocOutcome(x, y, size, r, depth) && r.Ok?
    requires r'.Ok?
    ensures MallocOutcome(x, y, size, r', depth)
  {
    hide Fits, Covered, Roomy, Stuck, Extended;
  }

  lemma TableOutcomeSelf(x: Snap, page: int, depth: nat)
    requires Shaped(x.sp) && 0 <= page < PAGES && 0 <= x.curr
    ensures HasTable(x.sp, page) ==> TableOutcome(x, x, page, Ok(page), depth)
    ensures !HasTable(x.sp, page) && depth == 0 ==> TableOutcome(x, x, page, Deep, depth)
  {
  }

  lemma TableRefused(x: Snap, y: Snap, page: int, r: Result, depth: nat)
    requires Shaped(x.sp) && Shaped(y.sp) && 0 <= page < PAGES && 0 <= x.curr <= WINDOW_PAGE * PAGE_SIZE && depth > 0
    requires !HasTable(x.sp, page)
    requires MallocOutcome(x, y, TABLE_REQUEST, r, depth - 1) && !r.Ok? && !r.Null?
    ensures TableOutcome(x, y, page, r, depth)
  {
    hide Fits, Covered, Wedged, Extended, Missing, Absent, Walk, CanGrow, Exhausted;
    TableServed(x);
    TableStuckIs(x);
  }

  lemma TableGranted(x: Snap, y: Snap, z: Snap, page: int, r: Result, depth: nat)
    requires Shaped(x.sp) && Shaped(y.sp) && Shaped(z.sp) && 0 <= page < PAGES && 0 <= x.curr && depth > 0
    requires !HasTable(x.sp, page)
    requires MallocOutcome(x, y, TABLE_REQUEST, Ok(0), depth - 1) && r.Ok? && HasTable(z.sp, page)
    requires z.curr == y.curr && z.end == y.end && z.taken == y.taken
    requires forall pg :: 0 <= pg < PAGES ==> Walk(z.sp, pg) == Walk(y.sp, pg)
    ensures TableOutcome(x, z, page, r, depth)
  {
    hide Fits, Covered, Wedged, Walk, Missing, Absent, Exhausted, CanGrow;
    TableServed(x);
    TableStuckIs(x);
    ExtendedSame(x.sp, y.sp, z.sp, x.end / PAGE_SIZE, Reach(x, TABLE_REQUEST));
    MissingSame(y.sp, z.sp, HEAP_PAGE, WINDOW_PAGE);
    AbsentSame(x.sp, y.sp);
  }

  lemma AbsentSame(s: Space, s': Space)
    requires Shaped(s) && Shaped(s')
    ensures s'.tables == s.tables ==> Absent(s') == Absent(s)
  {
  }

  lemma PageFromTable(x: Snap, y: Snap, page: int, frame: int, r: Result, depth: nat)
    requires Shaped(x.sp) && Shaped(y.sp) && 0 <= page < PAGES && 0 <= x.curr && TableOutcome(x, y, page, r, depth)
    requires !r.Ok?
    requires TableCalm(x, y, page)
    ensures PageOutcome(x, y, page, frame, r, depth)
  {
    hide Roomy, TableStuck, Extended, Keeps, SameUsers, Walk, Missing, TableServes, Exhausted;
  }

  lemma PageFromFrame(x: Snap, y: Snap, z: Snap, holder: map<int, int>, page: int, frame: int, t: Result, r: Result,
                      depth: nat)
    requires Shaped(x.sp) && Shaped(y.sp) && Shaped(z.sp) && 0 <= page < PAGES && 0 <= x.curr && 0 <= x.end
    requires TableOutcome(x, y, page, t, depth) && t.Ok? && TableCalm(x, y, page) && Backed(y.sp, y.owner, holder)
    requires HasTable(y.sp, page)
    requires Frozen(y, z) && (r.Ok? || r.NoFrames?) && |y.taken| <= y.max
    requires r.Ok? ==> PageAllocated(y.sp, y.owner, y.taken, z.sp, z.owner, z.taken, page, frame, |y.taken| == y.max)
    requires r.Ok? ==>
      Walk(z.sp, page).Some? && (InWindow(page) ==> page in z.owner && Walk(z.sp, page) == Some(z.owner[page]))
    requires InWindow(page) ==> frame == 0
    requires r.Ok? && InWindow(page) && Walk(y.sp, page).None? ==> |y.taken| != y.max
    requires r.NoFrames? ==> z == y && InWindow(page) && Walk(y.sp, page).None? && |y.taken| == y.max
    requires InWindow(page) && !HasTable(x.sp, page) ==> x.end / PAGE_SIZE <= page
    ensures PageOutcome(x, z, page, frame, r, depth)
  {
    hide Roomy, TableStuck, Walk, Fits, Keeps, SameUsers, Missing, Exhausted, TableServes, PageGrowth, PageExact,
      Reach, TableFrames;
    TableCalmMoves(x, y, page);
    if r.Ok? {
      PlacedLater(x, y, z, holder, page, frame);
    }
    FrameExact(x, y, page, t, r, depth);
    assert PageExact(x, z, page, r, depth) by { ExactLater(x, y, z, page, r, depth); }
    FrameGrowth(x, y, z, holder, page, frame, r);
    assert PageBasic(x, z, page, frame, r, depth) by {
      if !HasTable(x.sp, page) {
        BasicLater(x, y, z, page, frame, t, r, depth);
      }
    }
  }

  lemma BasicLater(x: Snap, y: Snap, z: Snap, page: int, frame: int, t: Result, r: Result, depth: nat)
    requires Shaped(x.sp) && Shaped(y.sp) && Shaped(z.sp) && 0 <= page < PAGES && 0 <= x.curr && !HasTable(x.sp, page)
    requires TableOutcome(x, y, page, t, depth) && t.Ok? && Frozen(y, z)
    requires r.Ok? ==> PageAllocated(y.sp, y.owner, y.taken, z.sp, z.owner, z.taken, page, frame, |y.taken| == y.max)
    requires r.Ok? || r.NoFrames?
    ensures r.Ok? ==> ExtendedBut(x.sp, z.sp, x.end / PAGE_SIZE, Reach(x, TABLE_REQUEST), page)
    ensures !TableStuck(x) && Roomy(x) && (z.curr == x.curr ==> z.end == x.end)
  {
    hide Walk, Fits, Missing, Exhausted, Balanced, Beyond, Reach, TableFrames, CanGrow;
    TableStuckIs(x);
  }

  /** Whether there is a frame is decided by the state before, too. */
  lemma FrameExact(x: Snap, y: Snap, page: int, t: Result, r: Result, depth: nat)
    requires Shaped(x.sp) && Shaped(y.sp) && 0 <= page < PAGES && 0 <= x.curr && 0 <= x.end
    requires TableOutcome(x, y, page, t, depth) && t.Ok? && (r.Ok? || r.NoFrames?) && |y.taken| <= y.max
    requires y.max == x.max
    requires r.Ok? && InWindow(page) && Walk(y.sp, page).None? ==> |y.taken| != y.max
    requires r.NoFrames? ==> InWindow(page) && Walk(y.sp, page).None? && |y.taken| == y.max
    requires InWindow(page) && !HasTable(x.sp, page) ==> x.end / PAGE_SIZE <= page
    ensures PageExact(x, y, page, r, depth)
  {
    hide Fits, Missing, Exhausted, Balanced, Beyond, TableFrames;
    if !HasTable(x.sp, page) {
      TableServed(x);
      assert Walk(x.sp, page).None?;
      hide Walk, CanGrow;
      assert InWindow(page) ==> Walk(y.sp, page).None?;
    }
  }

  lemma ExactLater(x: Snap, y: Snap, z: Snap, page: int, r: Result, depth: nat)
    requires Shaped(x.sp) && Shaped(y.sp) && Shaped(z.sp) && 0 <= page < PAGES && 0 <= x.curr
    requires PageExact(x, y, page, r, depth)
    ensures PageExact(x, z, page, r, depth)
  {
  }

  lemma FrameGrowth(x: Snap, y: Snap, z: Snap, holder: map<int, int>, page: int, frame: int, r: Result)
    requires Shaped(x.sp) && Shaped(y.sp) && Shaped(z.sp) && 0 <= page < PAGES
    requires TableCalm(x, y, page) && Backed(y.sp, y.owner, holder) && Frozen(y, z) && HasTable(y.sp, page)
    requires Balanced(x, y, 0) && Beyond(x, y, y.curr + TABLE_SPACE)
    requires y.curr <= x.curr + if HasTable(x.sp, page) then 0 else TABLE_SPACE
    requires r.Ok? ==> PageAllocated(y.sp, y.owner, y.taken, z.sp, z.owner, z.taken, page, frame, |y.taken| == y.max)
    requires r.Ok? && InWindow(page) ==> frame == 0 && (Walk(y.sp, page).None? ==> |y.taken| != y.max)
    requires r.Ok? || r.NoFrames?
    requires r.NoFrames? ==> z == y && InWindow(page) && Walk(y.sp, page).None? && |y.taken| == y.max
    ensures PageGrowth(x, z, page, r)
  {
    hide Walk, Missing, Keeps, SameUsers;
    if r.Ok? {
      BalancedPage(y, z, holder, page, frame, |y.taken| == y.max);
    }
  }

  // ---- ksbrk's loop ----

  /** Whether the loop can get past every missing table. */
  ghost predicate Good(x: Snap, hi: int)
    requires Shaped(x.sp)
  {
    Tabled(x.sp, x.end / PAGE_SIZE, hi) || Roomy(x)
  }

  /** The page where the loop has to stop for want of a page table, if there is one. */
  lemma FirstStop(x: Snap, hi: int) returns (p: int)
    requires Shaped(x.sp) && 0 <= x.curr && 0 <= x.end
    ensures !Good(x, hi) ==> Stop(x, hi, p)
  {
    p := 0;
    if !Good(x, hi) {
      p := ShortOfTable(x, hi);
    }
  }

  ghost predicate Stop(x: Snap, hi: int, p: int)
    requires Shaped(x.sp) && 0 <= x.curr
  {
    && 0 <= x.end / PAGE_SIZE <= p < hi && p < PAGES && p < PagesTo(x.curr + TABLE_REQUEST + OVERHEAD)
    && Tabled(x.sp, x.end / PAGE_SIZE, p) && !HasTable(x.sp, p) && !Fits(x, TABLE_REQUEST)
  }

  /** What holds in the loop before `page`, having started in `x`. */
  ghost predicate OnTheWay(x: Snap, y: Snap, hi: int, page: int, p: int)
  {
    && Shaped(x.sp) && Shaped(y.sp) && 0 <= x.curr
    && (Good(x, hi) ==> Tabled(y.sp, y.end / PAGE_SIZE, hi) || Roomy(y))
    && (Tabled(x.sp, x.end / PAGE_SIZE, hi) ==>
          Frozen(x, y) && Extended(x.sp, y.sp, x.end / PAGE_SIZE, page) && Waiting(x, y, page, hi))
    && (!Good(x, hi) ==> Stop(x, hi, p) && Waiting(x, y, page, p))
    && (y.curr == x.curr ==> y.end == x.end)
    && (y.curr != x.curr ==> |Absent(y.sp)| < |Absent(x.sp)| && Roomy(y) && Roomy(x))
    && |Absent(y.sp)| <= |Absent(x.sp)|
    && Growth(x, y, 0, Higher(hi * PAGE_SIZE, y.curr + TABLE_SPACE), Null)
  }

  lemma WayStarts(x: Snap, hi: int, p: int)
    requires Shaped(x.sp) && 0 <= x.curr && 0 <= x.end && x.end / PAGE_SIZE <= hi < PAGES
    requires (!Good(x, hi) ==> Stop(x, hi, p))
    ensures OnTheWay(x, x, hi, x.end / PAGE_SIZE, p)
  {
    hide Tabled, Roomy, Fits, Absent, Walk;
    ExtendedNone(x.sp, x.end / PAGE_SIZE, x.end / PAGE_SIZE);
    GrowthSame(x, x, 0, Higher(hi * PAGE_SIZE, x.curr + TABLE_SPACE), Null);
    hide Growth;
  }

  /** With every table in place, or before the stop, the page in hand has one. */
  lemma WayTables(x: Snap, y: Snap, hi: int, page: int, p: int)
    requires OnTheWay(x, y, hi, page, p) && 0 <= x.end / PAGE_SIZE <= page < hi <= PAGES
    ensures Tabled(x.sp, x.end / PAGE_SIZE, hi) ==> HasTable(y.sp, page)
    ensures !Good(x, hi) ==> page <= p && (HasTable(y.sp, page) <==> page < p) && !Roomy(y)
  {
    hide Fits, Absent, Walk, Missing;
    if Tabled(x.sp, x.end / PAGE_SIZE, hi) {
      TabledAt(x.sp, x.end / PAGE_SIZE, hi, page);
    } else if !Roomy(x) {
      FrozenRoomy(x, y);
      if page < p {
        TabledAt(x.sp, x.end / PAGE_SIZE, p, page);
      }
    }
  }

  lemma WayGoesOn(x: Snap, y: Snap, z: Snap, hi: int, page: int, p: int, r: Result, depth: nat)
    requires OnTheWay(x, y, hi, page, p) && 0 <= x.end / PAGE_SIZE <= page < hi <= WINDOW_PAGE && HEAP_PAGE <= page
    requires Shaped(z.sp) && 0 <= y.curr
    requires PageOutcome(y, z, page, 0, r, depth) && r.Ok?
    requires Tabled(x.sp, x.end / PAGE_SIZE, hi) ==> HasTable(y.sp, page)
    requires !Good(x, hi) ==> page <= p && (HasTable(y.sp, page) <==> page < p) && !Roomy(y)
    requires Tabled(y.sp, y.end / PAGE_SIZE, hi) || Roomy(y) ==> Tabled(z.sp, z.end / PAGE_SIZE, hi) || Roomy(z)
    requires z.curr != y.curr || Roomy(y) ==> Roomy(z)
    requires z.curr != y.curr ==> |Absent(z.sp)| < |Absent(y.sp)| && Roomy(y)
    requires HasTable(z.sp, page) && !HasTable(y.sp, page) ==> |Absent(z.sp)| < |Absent(y.sp)|
    requires |Absent(z.sp)| <= |Absent(y.sp)| && x.curr <= y.curr <= z.curr
    ensures OnTheWay(x, z, hi, page + 1, p)
  {
    hide Fits, Absent, Walk, Missing, Tabled, Roomy, Stop, Placed, PageAllocated, Growth, PageGrowth;
    StepGrowth(y, z, hi, page, r);
    GrowthThen(x, y, z, Higher(hi * PAGE_SIZE, y.curr + TABLE_SPACE), Null, 0, Higher(hi * PAGE_SIZE,
      z.curr + TABLE_SPACE), Null);
    if Tabled(x.sp, x.end / PAGE_SIZE, hi) {
      ExtendedMore(x, y, z, x.end / PAGE_SIZE, page, |y.taken| == y.max);
      WaitingStep(x, y, z, page, hi, |y.taken| == y.max);
    } else if !Good(x, hi) {
      if page < p {
        WaitingStep(x, y, z, page, p, |y.taken| == y.max);
      }
    }
    hide Extended, Waiting;
    if y.curr != z.curr && y.curr == x.curr {
      WayRoom(x, y, hi, page, p);
    }
  }

  /** One page of the window more, and the page table it may have needed. */
  lemma StepGrowth(y: Snap, z: Snap, hi: int, page: int, r: Result)
    requires Shaped(y.sp) && Shaped(z.sp) && HEAP_PAGE <= page < hi <= WINDOW_PAGE && PageGrowth(y, z, page, r)
    requires |Absent(z.sp)| <= |Absent(y.sp)|
    requires HasTable(z.sp, page) && !HasTable(y.sp, page) ==> |Absent(z.sp)| < |Absent(y.sp)|
    ensures Growth(y, z, 0, Higher(hi * PAGE_SIZE, z.curr + TABLE_SPACE), r)
    ensures r.Ok? ==> Growth(y, z, 0, Higher(hi * PAGE_SIZE, z.curr + TABLE_SPACE), Null)
  {
    hide Walk, Missing, Absent;
    assert PageReach(z, page) <= Higher(hi * PAGE_SIZE, z.curr + TABLE_SPACE);
  }

  /** A table was allocated from where the loop started: there was room for it. */
  lemma WayRoom(x: Snap, y: Snap, hi: int, page: int, p: int)
    requires OnTheWay(x, y, hi, page, p) && y.curr == x.curr && Roomy(y)
    ensures Roomy(x)
  {
    hide Fits, Absent, Walk, Missing, Tabled, Extended, Stop;
    if !Roomy(x) {
      FrozenRoomy(x, y);
    }
  }

  lemma WayFails(x: Snap, y: Snap, z: Snap, nb: int, page: int, p: int, r: Result, depth: nat)
    requires 0 <= nb <= HEAP_MAX && OnTheWay(x, y, PagesTo(nb), page, p)
    requires 0 <= x.end / PAGE_SIZE <= page < PagesTo(nb) <= WINDOW_PAGE
    requires HEAP_PAGE <= page && 0 <= x.end
    requires Shaped(z.sp) && 0 <= y.curr && PageOutcome(y, z, page, 0, r, depth) && !r.Ok? && |y.taken| <= y.max
    requires Tabled(x.sp, x.end / PAGE_SIZE, PagesTo(nb)) ==> HasTable(y.sp, page)
    requires !Good(x, PagesTo(nb)) ==> page <= p && (HasTable(y.sp, page) <==> page < p) && !Roomy(y)
    requires !HasTable(y.sp, page) ==> y.end / PAGE_SIZE <= page
    requires HasTable(z.sp, page) && !HasTable(y.sp, page) ==> |Absent(z.sp)| < |Absent(y.sp)|
    requires |Absent(z.sp)| <= |Absent(y.sp)| && x.curr <= y.curr <= z.curr
    ensures MapOutcome(x, z, nb, r, depth)
  {
    hide Fits, Absent, Missing, Placed, PageAllocated, Extended, ExtendedBut, Growth, PageGrowth, Exhausted, MapBasic,
      MapExact;
    var hi := PagesTo(nb);
    StepGrowth(y, z, hi, page, r);
    GrowthThen(x, y, z, Higher(hi * PAGE_SIZE, y.curr + TABLE_SPACE), Null, 0, Higher(hi * PAGE_SIZE,
      z.curr + TABLE_SPACE), r);
    ReachRounds(x, z, nb, z.curr + TABLE_SPACE, r);
    WayFailsBasic(x, y, z, nb, page, p, r, depth);
    WayFailsExact(x, y, z, nb, page, p, r, depth);
  }

  /** Up to the end of the last page, and up to the boundary, are the same pages. */
  lemma ReachRounds(x: Snap, y: Snap, nb: int, addr: int, r: Result)
    requires Shaped(x.sp) && Shaped(y.sp) && 0 <= nb && Growth(x, y, 0, Higher(PagesTo(nb) * PAGE_SIZE, addr), r)
    ensures Growth(x, y, 0, Higher(nb, addr), r)
  {
    hide Walk, Missing, Absent;
    var hi := PagesTo(nb);
    assert forall pg: int {:trigger InWindow(pg)} :: pg * PAGE_SIZE >= nb ==> pg * PAGE_SIZE >= hi * PAGE_SIZE;
  }

  lemma WayFailsBasic(x: Snap, y: Snap, z: Snap, nb: int, page: int, p: int, r: Result, depth: nat)
    requires 0 <= nb <= HEAP_MAX && OnTheWay(x, y, PagesTo(nb), page, p)
    requires 0 <= x.end / PAGE_SIZE <= page < PagesTo(nb) <= WINDOW_PAGE
    requires Shaped(z.sp) && 0 <= y.curr && PageBasic(y, z, page, 0, r, depth) && PageExact(y, z, page, r, depth)
    requires !r.Ok? && |y.taken| <= y.max
    requires Tabled(x.sp, x.end / PAGE_SIZE, PagesTo(nb)) ==> HasTable(y.sp, page)
    requires !Good(x, PagesTo(nb)) ==> page <= p && (HasTable(y.sp, page) <==> page < p) && !Roomy(y)
    requires !HasTable(y.sp, page) ==> y.end / PAGE_SIZE <= page
    requires x.curr <= y.curr <= z.curr
    ensures MapBasic(x, z, nb, r, depth)
  {
    hide Fits, Absent, Missing, Placed, PageAllocated, Extended, ExtendedBut, Growth, Exhausted, TableServes;
    var hi := PagesTo(nb);
    if Good(x, hi) {
      NoWedge(x, hi);
      if TableStuck(y) {
        TableStuckIs(y);
      }
    } else if page < p {
      forall q | Wedged(x, q) && q < hi
        ensures false
      {
        WedgedIsFirst(x, p, q);
        WaitingFrames(x, y, page, p);
      }
    } else {
      WaitingEnd(x, y, p);
      forall q | Wedged(x, q) && q < hi
        ensures q == p
      {
        WedgedIsFirst(x, p, q);
      }
    }
  }

  lemma WayFailsExact(x: Snap, y: Snap, z: Snap, nb: int, page: int, p: int, r: Result, depth: nat)
    requires 0 <= nb <= HEAP_MAX && OnTheWay(x, y, PagesTo(nb), page, p)
    requires 0 <= x.end / PAGE_SIZE <= page < PagesTo(nb) <= WINDOW_PAGE
    requires Shaped(z.sp) && 0 <= y.curr && PageBasic(y, z, page, 0, r, depth) && PageExact(y, z, page, r, depth)
    requires !r.Ok? && |y.taken| <= y.max
    requires Tabled(x.sp, x.end / PAGE_SIZE, PagesTo(nb)) ==> HasTable(y.sp, page)
    requires !Good(x, PagesTo(nb)) ==> page <= p && (HasTable(y.sp, page) <==> page < p) && !Roomy(y)
    requires 0 <= x.end
    ensures MapExact(x, z, nb, r)
  {
    hide Fits, Absent, Placed, PageAllocated, Extended, ExtendedBut, Growth, TableServes, Tabled, Walk, TableStuck;
    var hi := PagesTo(nb);
    if Tabled(x.sp, x.end / PAGE_SIZE, hi) {
      assert Missing(y.sp, page, hi) >= 1;
    } else if !Roomy(x) {
      StopShort(x, y, hi, page, p, r);
    }
  }

  lemma StopShort(x: Snap, y: Snap, hi: int, page: int, p: int, r: Result)
    requires Shaped(x.sp) && Shaped(y.sp) && 0 <= x.curr && Stop(x, hi, p) && Waiting(x, y, page, p)
    requires |y.taken| <= y.max
    requires page < p ==> r.NoFrames? && Walk(y.sp, page).None? && |y.taken| == y.max
    requires page == p && r.NoFrames? ==> Exhausted(y, PagesTo(y.curr + TABLE_SPACE))
    ensures r.NoFrames? <==> Exhausted(x, hi)
  {
    hide Walk, Fits;
    if page < p {
      assert Missing(y.sp, page, p) >= 1;
    } else {
      NoneMissing(y.sp, x.end / PAGE_SIZE, p);
      if r.NoFrames? {
        var q :| Stop(y, PagesTo(y.curr + TABLE_SPACE), q) && |y.taken| + Missing(y.sp, y.end / PAGE_SIZE, q) > y.max;
        StopMoves(x, y, hi, p, q);
      }
      if Exhausted(x, hi) {
        var q :| Stop(x, hi, q) && |x.taken| + Missing(x.sp, x.end / PAGE_SIZE, q) > x.max;
        StopIsOne(x, hi, p, hi, q);
      }
    }
  }

  lemma StopMoves(x: Snap, y: Snap, hi: int, p: int, q: int)
    requires Shaped(x.sp) && Shaped(y.sp) && Frozen(x, y) && 0 <= x.curr && Stop(x, hi, p)
    requires Stop(y, PagesTo(y.curr + TABLE_SPACE), q)
    ensures p == q
  {
    SameTabled(x.sp, y.sp, x.end / PAGE_SIZE, p);
    SameTabled(x.sp, y.sp, x.end / PAGE_SIZE, q);
    hide Fits;
    assert !HasTable(y.sp, p) && !HasTable(x.sp, q);
  }

  lemma NoWedge(x: Snap, hi: int)
    requires Shaped(x.sp) && Good(x, hi)
    ensures !exists p :: Wedged(x, p) && p < hi
  {
    hide Fits, Missing;
    forall p | Wedged(x, p)
      ensures p >= hi
    {
      WedgedNotRoomy(x, p);
      if p < hi {
        NotTabled(x.sp, x.end / PAGE_SIZE, hi, p);
      }
    }
  }

  lemma WayEnds(x: Snap, y: Snap, nb: int, p: int, r: Result, depth: nat)
    requires 0 <= nb <= HEAP_MAX && 0 <= x.end && OnTheWay(x, y, PagesTo(nb), PagesTo(nb), p) && r.Ok?
    requires |y.taken| <= y.max
    ensures MapOutcome(x, y, nb, r, depth)
  {
    hide Fits, Absent, Extended, Wedged, Growth, Walk, Exhausted;
    NoWedge(x, PagesTo(nb));
    ReachRounds(x, y, nb, y.curr + TABLE_SPACE, Null);
    GrowthWider(x, y, y, 0, Higher(nb, y.curr + TABLE_SPACE), Null, 0, Higher(nb, y.curr + TABLE_SPACE), r);
  }

  // ---- Small facts for the methods ----

  lemma CalmMoves(x: Snap, y: Snap, page: int)
    requires Calm(x, y, page)
    ensures Keeps(x, y, {}) && x.curr <= y.curr && x.end <= y.end && y.max == x.max
  {
  }

  lemma TableCalmMoves(x: Snap, y: Snap, page: int)
    requires TableCalm(x, y, page)
    ensures Calm(x, y, page) && Keeps(x, y, {}) && x.curr <= y.curr && x.end <= y.end && y.max == x.max
  {
    hide LiveKept, SameUsers, Walk, RightsKept;
  }

  lemma CalmTable(x: Snap, y: Snap, page: int)
    requires Calm(x, y, NOWHERE)
    ensures TableCalm(x, y, page)
  {
    RightsLess(x.sp, y.sp, page);
    hide Keeps, SameUsers, Still, RightsKept;
  }

  lemma TableCalmTrans(x: Snap, y: Snap, z: Snap, page: int)
    requires TableCalm(x, y, page) && Calm(y, z, page)
    ensures Calm(x, z, page)
  {
    KeepsTrans(x, y, z, {});
    SameTrans(x, y, z);
    RightsTrans(x.sp, y.sp, z.sp, page);
    hide Keeps, SameUsers, RightsKept, Walk;
  }

  lemma KeptMax(x: Snap, y: Snap)
    requires Keeps(x, y, {})
    ensures y.max == x.max && x.curr <= y.curr
  {
  }

  lemma CalmLess(x: Snap, y: Snap, page: int)
    requires Calm(x, y, NOWHERE)
    ensures Calm(x, y, page)
  {
    hide Keeps, SameUsers, Walk;
  }

  /** Entering a page table maps nothing. */
  lemma InstallKeeps(x: Snap, y: Snap, z: Snap, page: int)
    requires Keeps(x, y, {}) && Quiet(x, y, NOWHERE) && SameUsers(x, z) && Shaped(z.sp) && 0 <= page < PAGES
    requires z == y.(sp := z.sp, home := z.home)
    requires TablesKept(y.sp, z.sp)
    requires forall pg :: 0 <= pg < PAGES ==> Walk(z.sp, pg) == Walk(y.sp, pg) && Flags(z.sp, pg) == Flags(y.sp, pg)
    requires !HasTable(y.sp, page) && HasTable(z.sp, page)
    requires forall d :: 0 <= d < ENTRIES && d != DirIndex(page) ==> z.sp.tables[d] == y.sp.tables[d]
    ensures TableCalm(x, z, page)
  {
    hide LiveKept, Walk, Flags, SameUsers;
    RightsLess(x.sp, y.sp, page);
    assert RightsKept(y.sp, z.sp, page);
    RightsTrans(x.sp, y.sp, z.sp, page);
    hide RightsKept;
  }

  lemma TableShort(x: Snap, y: Snap, r: Result, depth: nat)
    requires Shaped(x.sp) && Shaped(y.sp) && 0 <= x.curr && MallocOutcome(x, y, TABLE_REQUEST, r, depth)
    ensures !Roomy(x) ==> Short(x, TABLE_REQUEST)
    ensures y.sp.tables == x.sp.tables
  {
    hide Fits, Covered, Stuck, Extended;
    TableServed(x);
  }

  lemma TableGives(x: Snap, y: Snap, page: int, r: Result, depth: nat)
    requires Shaped(x.sp) && Shaped(y.sp) && 0 <= page < PAGES && 0 <= x.curr && TableOutcome(x, y, page, r, depth)
    ensures r.Ok? ==> HasTable(y.sp, page)
  {
  }

  lemma OwnerWalks(s: Space, owner: map<int, int>, holder: map<int, int>, page: int)
    requires Shaped(s) && Backed(s, owner, holder)
    ensures page in owner ==> 0 <= page < PAGES && Walk(s, page) == Some(owner[page])
  {
  }

  lemma PageGives(x: Snap, y: Snap, page: int, r: Result, depth: nat)
    requires Shaped(x.sp) && Shaped(y.sp) && 0 <= page < PAGES && 0 <= x.curr && PageOutcome(x, y, page, 0, r, depth)
    ensures r.Ok? ==> HasTable(y.sp, page) && (HasTable(x.sp, page) || Roomy(x))
    ensures HasTable(x.sp, page) ==> Frozen(x, y) && y.curr == x.curr && y.end == x.end && y.sp.tables == x.sp.tables
  {
    hide Fits, Covered, Placed, PageAllocated, ExtendedBut, TableStuck;
  }

  lemma PagePresent(x: Snap, y: Snap, page: int, frame: int, r: Result, depth: nat)
    requires Shaped(x.sp) && Shaped(y.sp) && 0 <= page < PAGES && 0 <= x.curr
    requires PageOutcome(x, y, page, frame, r, depth) && r.Ok?
    ensures Walk(y.sp, page).Some?
  {
    hide Walk, PageExact, PageGrowth;
  }

  lemma NowRoomy(x: Snap)
    requires Shaped(x.sp) && 0 <= x.curr && Tabled(x.sp, x.end / PAGE_SIZE, PagesTo(x.curr + TABLE_REQUEST + OVERHEAD))
    ensures Roomy(x)
  {
  }

  lemma Unmoved(x: Snap, a: int, size: int)
    requires Keeps(x, x, {}) && a in UserLive(x.b, x.f, x.home) && a in x.b && 0 < size <= x.b[a]
    ensures Resized(x, x, a, a, size)
  {
    assert UserLive(x.b, x.f, x.home) - {a} + {a} == UserLive(x.b, x.f, x.home);
    assert Same(x.mem, x.mem, a + HEADER, a + HEADER + x.b[a]);
  }

  /** What a caller may know of one of its blocks. */
  lemma UserBlock(x: Snap, a: int)
    requires a in UserLive(x.b, x.f, x.home)
    ensures a in x.b && a !in x.f && NotHome(x.home, a)
  {
  }

  /** The first `n` bytes at `from` in `m` are at `to` in `m'`. */
  ghost predicate Carried(m: seq<byte>, from: int, m': seq<byte>, to: int, n: int)
  {
    && 0 <= n && 0 <= from && 0 <= to && from + n <= |m| && to + n <= |m'|
    && m'[to..to + n] == m[from..from + n]
  }

  lemma SameCarried(m: seq<byte>, m': seq<byte>, a: int, n: int)
    requires Same(m, m', a, a + n) && n >= 0
    ensures Carried(m, a, m', a, n)
  {
  }

  lemma CarriedPart(m: seq<byte>, from: int, m': seq<byte>, to: int, n: int, k: int)
    requires Carried(m, from, m', to, n) && 0 <= k <= n
    ensures Carried(m, from, m', to, k)
  {
    Front(m', to, n, k);
    Front(m, from, n, k);
  }

  lemma Front(m: seq<byte>, a: int, n: int, k: int)
    requires 0 <= a && 0 <= k <= n && a + n <= |m|
    ensures m[a..a + n][..k] == m[a..a + k]
  {
    var s, t := m[a..a + n][..k], m[a..a + k];
    assert |s| == |t| && forall i :: 0 <= i < k ==> s[i] == m[a + i] && t[i] == m[a + i];
  }

  /**
    Block `a` became block `c` of at least `size` bytes: it carries the contents as far as both
    sizes allow, and no other block changed.
   */
  ghost predicate Resized(x: Snap, y: Snap, a: int, c: int, size: int)
  {
    && Keeps(x, y, {a})
    && UserLive(y.b, y.f, y.home) == UserLive(x.b, x.f, x.home) - {a} + {c}
    && a in x.b && c in y.b && c !in y.f && y.b[c] >= size && (c == a || c !in x.b || c in x.f)
    && Carried(x.mem, a + HEADER, y.mem, c + HEADER, if x.b[a] < size then x.b[a] else size)
  }

  /** The free block behind `a` and it hold `size` bytes together. */
  ghost predicate NextSuffices(x: Snap, a: int, size: int)
    requires a in x.b && 0 <= size
  {
    var e := End(x.b, a);
    e in x.f && e in x.b && x.b[a] + OVERHEAD + x.b[e] >= RoundUp(size)
  }

  /**
    The blocks after realloc has made `c` of `a`, as the state before tells them. A block that is large
    enough gives up its end if that is 24 bytes at least: what is cut off, together with a free block
    behind it, is one free block. A block that is too small takes over a whole free neighbour, the one
    behind it first. A block that moves gets less than 32 bytes more than it asked for.
   */
  ghost predicate Reshaped(x: Snap, y: Snap, a: int, c: int, size: int)
    requires 0 <= size
  {
    && a in x.b
    && var n, e := RoundUp(size), End(x.b, a);
    if x.b[a] >= size then
      && c == a
      && if x.b[a] - n < 8 + OVERHEAD then y.b == x.b && y.f == x.f
         else
           var cut := a + OVERHEAD + n;
           && a in y.b && y.b[a] == n && cut in y.f && cut in y.b
           && if e in x.f && e in x.b then
                && End(y.b, cut) == End(x.b, e)
                && y.b == (x.b - {e})[a := n][cut := y.b[cut]] && y.f == x.f - {e} + {cut}
              else End(y.b, cut) == e && y.b == x.b[a := n][cut := y.b[cut]] && y.f == x.f + {cut}
    else if NextSuffices(x, a, size) then
      c == a && y.b == (x.b - {e})[a := x.b[a] + OVERHEAD + x.b[e]] && y.f == x.f - {e}
    else if c in x.b && End(x.b, c) == a && c in x.f && x.b[a] + OVERHEAD + x.b[c] >= n then
      y.b == (x.b - {a})[c := x.b[a] + OVERHEAD + x.b[c]] && y.f == x.f - {c}
    else Moves(x, a + HEADER, size) && c in y.b && size <= y.b[c] < size + 32
  }

  /** A block that was resized where it is. */
  lemma Grown(x: Snap, y: Snap, a: int, size: int)
    requires Keeps(x, y, {a}) && UserLive(y.b, y.f, y.home) == UserLive(x.b, x.f, x.home) - {a} + {a}
    requires a in x.b && a in y.b && a !in y.f && 0 < size <= y.b[a] && 0 < x.b[a]
    requires Same(x.mem, y.mem, a + HEADER, a + HEADER + if x.b[a] < y.b[a] then x.b[a] else y.b[a])
    ensures Resized(x, y, a, a, size)
  {
    hide Keeps, UserLive;
    SameCarried(x.mem, y.mem, a + HEADER, if x.b[a] < size then x.b[a] else size);
  }

  lemma MovesIf(x: Snap, a: int, size: int, next: int, prev: int)
    requires 0 < size && a in x.b && x.b[a] < size && Separate(x.b)
    requires prev == 0 || (prev in x.b && End(x.b, prev) == a)
    requires prev == 0 ==> forall c :: c in x.b ==> End(x.b, c) != a
    requires next == 0 || (next == End(x.b, a) && next in x.b)
    requires next == 0 ==> End(x.b, a) !in x.b
    requires next != 0 && next in x.f ==> x.b[a] + OVERHEAD + x.b[next] < RoundUp(size)
    requires prev != 0 && prev in x.f ==> x.b[a] + OVERHEAD + x.b[prev] < RoundUp(size)
    ensures Moves(x, a + HEADER, size)
  {
    forall c | c in x.f && c in x.b && End(x.b, c) == a
      ensures x.b[a] + OVERHEAD + x.b[c] < RoundUp(size)
    {
      if prev != 0 {
        assert c <= prev && prev <= c;
      }
    }
  }

  lemma NotMoves(x: Snap, a: int, size: int, c: int)
    requires 0 < size && a in x.b && Separate(x.b)
    requires x.b[a] >= size || (c in x.f && c in x.b && (c == End(x.b, a) || End(x.b, c) == a) &&
      x.b[a] + OVERHEAD + x.b[c] >= RoundUp(size))
    ensures !Moves(x, a + HEADER, size)
  {
  }

  lemma ReshapedNext(x: Snap, y: Snap, a: int, next: int, size: int)
    requires 0 < size && a in x.b && x.b[a] < size && next == End(x.b, a) && next in x.f && next in x.b
    requires x.b[a] + OVERHEAD + x.b[next] >= RoundUp(size)
    requires y.b == (x.b - {next})[a := x.b[a] + OVERHEAD + x.b[next]] && y.f == x.f - {next}
    ensures Reshaped(x, y, a, a, size)
  {
  }

  /** The predecessor is taken over only if the successor does not suffice. */
  lemma ReshapedPrev(x: Snap, y: Snap, a: int, prev: int, size: int, next: int)
    requires 0 < size && a in x.b && x.b[a] < size && prev in x.f && prev in x.b && End(x.b, prev) == a
    requires x.b[a] + OVERHEAD + x.b[prev] >= RoundUp(size)
    requires if next == 0 then End(x.b, a) !in x.b else next == End(x.b, a) && next in x.b
    requires next != 0 && next in x.f ==> x.b[a] + OVERHEAD + x.b[next] < RoundUp(size)
    requires y.b == (x.b - {a})[prev := x.b[a] + OVERHEAD + x.b[prev]] && y.f == x.f - {prev}
    ensures Reshaped(x, y, a, prev, size)
  {
  }

  lemma Uncut(x: Snap, a: int, size: int)
    requires 0 < size && a in x.b && x.b[a] >= size && x.b[a] - RoundUp(size) < 8 + OVERHEAD
    ensures Reshaped(x, x, a, a, size)
  {
  }

  /** A block that moved is no block next to the old one that would have sufficed. */
  lemma ReshapedByMove(x: Snap, y: Snap, z: Snap, a: int, c: int, size: int)
    requires 0 < size && a in x.b && x.b[a] < size && Moves(x, a + HEADER, size) && NewBlock(x, y, c, size)
    requires c in z.b && z.b[c] == y.b[c]
    ensures Reshaped(x, z, a, c, size)
  {
  }

  lemma ReallocDone(x: Snap, y: Snap, ptr: int, size: int, r: Result, depth: nat)
    requires Shaped(x.sp) && Shaped(y.sp) && 0 < size && 0 <= x.curr
    requires (size > MAX_SIZE && r.Wraps?) || (size <= MAX_SIZE && r.Ok? && !Moves(x, ptr, size))
    ensures ReallocOutcome(x, y, ptr, size, r, depth)
  {
  }

  lemma ReallocMoved(x: Snap, y: Snap, z: Snap, ptr: int, size: int, r: Result, depth: nat)
    requires Shaped(x.sp) && Shaped(y.sp) && Shaped(z.sp) && 0 < size <= MAX_SIZE && 0 <= x.curr && Moves(x, ptr, size)
    requires MallocOutcome(x, y, size, r, depth) && !r.Null? && (!r.Ok? ==> z == y)
    ensures ReallocOutcome(x, z, ptr, size, r, depth)
  {
    hide Fits, Stuck, Covered, Roomy, Extended, Moves;
  }

  /** A block whose contents moved to another one. */
  lemma Moved(x: Snap, y: Snap, a: int, c: int, size: int)
    requires Keeps(x, y, {a}) && UserLive(y.b, y.f, y.home) == UserLive(x.b, x.f, x.home) - {a} + {c}
    requires a in x.b && c in y.b && c !in y.f && 0 < size <= y.b[c] && 0 < x.b[a]
    requires Carried(x.mem, a + HEADER, y.mem, c + HEADER, x.b[a]) && (c !in x.b || c in x.f)
    ensures Resized(x, y, a, c, size)
  {
    hide Keeps, UserLive, Carried;
    CarriedPart(x.mem, a + HEADER, y.mem, c + HEADER, x.b[a], if x.b[a] < size then x.b[a] else size);
  }

  lemma NextFacts(m: seq<byte>, b: BlockMap, f: set<int>, fl: seq<int>, first: int, start: int, limit: int, a: int,
                  next: int, head: int, tail: int)
    requires WellFormed(m, b, f, fl, first, start, limit) && Ends(b, start, limit, head, tail) && a in b
    requires if End(b, a) == limit then next == 0 else next == End(b, a) && next in b
    ensures next == 0 || (0 < next <= |m| - 4 && (FreeFlag(Word(m, next)) <==> next in f))
    ensures next == 0 || next !in f ==> End(b, a) !in f
    ensures next != 0 ==> tail != a
  {
    hide Word, HasNext, HasPrev, Linked;
    if next != 0 {
      TagParts(b[next], next in f);
    }
  }

  lemma StillLive(x: Snap, y: Snap, a: int, c: int, size: int)
    requires Keeps(x, y, {}) && NewBlock(x, y, c, size) && a in UserLive(x.b, x.f, x.home)
    ensures a in x.b && a in y.b && a !in y.f && y.b[a] == x.b[a] && Same(x.mem, y.mem, a + HEADER, a + HEADER + x.b[a])
    ensures a != c && c in y.b && c !in y.f && y.b[c] >= size && NotHome(y.home, c) && a in UserLive(y.b, y.f, y.home)
  {
  }

  lemma ApartBlocks(b: BlockMap, a: int, c: int)
    requires Separate(b) && a in b && c in b && a != c
    ensures c + HEADER <= a + HEADER || a + HEADER + b[a] <= c + HEADER
  {
  }

  lemma Widen(m: seq<byte>, m': seq<byte>, lo: int, hi: int, hi': int)
    requires Within(m, m', lo, hi) && hi <= hi'
    ensures Within(m, m', lo, hi')
  {
  }

  lemma MovedOver(x: Snap, y: Snap, z: Snap, w: Snap, a: int, c: int, size: int)
    requires Keeps(x, y, {}) && Keeps(y, z, {c}) && Keeps(z, w, {a}) && NewBlock(x, y, c, size) && 0 < size
    requires a in UserLive(x.b, x.f, x.home) && a in x.b && 0 < x.b[a] < size && z.b == y.b && z.f == y.f
    requires UserLive(z.b, z.f, z.home) == UserLive(y.b, y.f, y.home) - {c} + {c}
    requires UserLive(w.b, w.f, w.home) == UserLive(z.b, z.f, z.home) - {a}
    requires Carried(y.mem, a + HEADER, z.mem, c + HEADER, x.b[a])
    ensures Resized(x, w, a, c, size) && c in w.b && c in y.b && w.b[c] == y.b[c]
  {
    StillLive(x, y, a, c, size);
    LiveKeptTrans(x.mem, x.b, x.f, y.mem, y.b, y.f, z.mem, z.b, z.f, {}, {c});
    LiveKeptTrans(x.mem, x.b, x.f, z.mem, z.b, z.f, w.mem, w.b, w.f, {} + {c}, {a});
    LiveKeptLess(x.mem, x.b, x.f, w.mem, w.b, w.f, {} + {c} + {a}, {a});
    assert Keeps(x, w, {a}) by { hide LiveKept, NewBlock; }
    hide Keeps;
    assert c in w.b && c !in w.f && w.b[c] == z.b[c] && Same(z.mem, w.mem, c + HEADER, c + HEADER + z.b[c]) by {
      KeptBlock(z, w, a, c);
    }
    SameCarried(x.mem, y.mem, a + HEADER, x.b[a]);
    assert UserLive(w.b, w.f, w.home) == UserLive(x.b, x.f, x.home) - {a} + {c};
    assert w.mem[c + HEADER..c + HEADER + x.b[a]] == z.mem[c + HEADER..c + HEADER + x.b[a]];
    hide UserLive, NewBlock;
    Moved(x, w, a, c, size);
  }

  lemma CarriedOver(m: seq<byte>, m': seq<byte>, from: int, to: int, n: int)
    requires 0 <= n && 0 <= from && 0 <= to && from + n <= |m| && to + n <= |m'| && m'[to..to + n] == m[from..from + n]
    ensures Carried(m, from, m', to, n)
  {
  }

  lemma KeptBlock(z: Snap, w: Snap, a: int, c: int)
    requires Keeps(z, w, {a}) && c in z.b && c !in z.f && c != a
    ensures c in w.b && c !in w.f && w.b[c] == z.b[c] && Same(z.mem, w.mem, c + HEADER, c + HEADER + z.b[c])
  {
  }

  /** A heap operation that gives up the caller's block `gone`, or turns it into another one. */
  lemma HeapChange(x: Snap, y: Snap, s: Space, owner: map<int, int>, start: int, gone: int, to: int)
    requires Shaped(s) && x.sp == s && x.owner == owner && Homed(s, owner, x.b, x.f, start, x.home)
    requires LiveKept(x.mem, x.b, x.f, y.mem, y.b, y.f, {gone}) && NotHome(x.home, gone)
    requires y == x.(mem := y.mem, b := y.b, f := y.f, tail := y.tail)
    ensures Keeps(x, y, {gone}) && Homed(s, owner, y.b, y.f, start, y.home)
    ensures LiveSet(y.b, y.f) == LiveSet(x.b, x.f) - {gone} ==>
              UserLive(y.b, y.f, y.home) == UserLive(x.b, x.f, x.home) - {gone}
    ensures LiveSet(y.b, y.f) == LiveSet(x.b, x.f) - {gone} + {to} && (to == gone || to !in x.b || to in x.f) ==>
              UserLive(y.b, y.f, y.home) == UserLive(x.b, x.f, x.home) - {gone} + {to}
    ensures LiveSet(y.b, y.f) == LiveSet(x.b, x.f) && gone in x.b && gone !in x.f ==>
              UserLive(y.b, y.f, y.home) == UserLive(x.b, x.f, x.home) - {gone} + {gone}
  {
    HomedKept(s, owner, x.b, x.f, x.mem, y.b, y.f, y.mem, start, x.home, {gone});
    assert forall c :: c in LiveSet(y.b, y.f) <==> c in y.b && c !in y.f;
    assert forall c :: c in LiveSet(x.b, x.f) <==> c in x.b && c !in x.f;
  }

  lemma MovedBoundary(x: Snap, y: Snap, z: Snap)
    requires Calm(x, y, NOWHERE) && z == y.(curr := z.curr, end := z.end) && y.curr <= z.curr && y.end <= z.end
    ensures Calm(x, z, NOWHERE)
  {
    hide LiveKept, Walk;
  }

  lemma Widened(s: Space, owner: map<int, int>, lo: int, end: int, end': int)
    requires Shaped(s) && Window(s, owner, lo, end) && forall pg :: end <= pg < end' ==> pg in owner
    ensures Window(s, owner, lo, end')
  {
    hide Walk;
  }

  /** A heap operation that only adds to the live blocks keeps everything else. */
  lemma HeapStep(x: Snap, y: Snap, s: Space, owner: map<int, int>, start: int)
    requires Shaped(s) && x.sp == s && x.owner == owner && Homed(s, owner, x.b, x.f, start, x.home)
    requires LiveKept(x.mem, x.b, x.f, y.mem, y.b, y.f, {})
    requires y == x.(mem := y.mem, b := y.b, f := y.f, tail := y.tail)
    ensures Keeps(x, y, {}) && Homed(s, owner, y.b, y.f, start, y.home)
  {
    HomedKept(s, owner, x.b, x.f, x.mem, y.b, y.f, y.mem, start, x.home, {});
  }

  lemma BlockAdded(x: Snap, y: Snap, s: Space, owner: map<int, int>, start: int, a: int, size: int)
    requires Shaped(s) && Homed(s, owner, x.b, x.f, start, x.home)
    requires y.home == x.home && a in y.b && a !in y.f && (a !in x.b || a in x.f) && size <= y.b[a] < size + 32
    requires LiveSet(y.b, y.f) == LiveSet(x.b, x.f) + {a}
    ensures NewBlock(x, y, a, size)
  {
    assert forall c :: c in LiveSet(y.b, y.f) <==> c in y.b && c !in y.f;
    assert forall c :: c in LiveSet(x.b, x.f) <==> c in x.b && c !in x.f;
  }

  lemma AddedLater(x: Snap, y: Snap, z: Snap, a: int, size: int)
    requires SameUsers(x, y) && NewBlock(y, z, a, size) && (a !in x.b || a in x.f)
    ensures NewBlock(x, z, a, size)
  {
  }

  lemma NothingTabled(s: Space, from: int)
    requires Shaped(s)
    ensures Tabled(s, from, from)
  {
  }

  lemma TabledAt(s: Space, lo: int, hi: int, page: int)
    requires Shaped(s) && Tabled(s, lo, hi) && lo <= page < hi && 0 <= page < PAGES
    ensures HasTable(s, page)
  {
  }

  lemma NotTabled(s: Space, lo: int, hi: int, page: int)
    requires Shaped(s) && lo <= page < hi && 0 <= page < PAGES && !HasTable(s, page)
    ensures !Tabled(s, lo, hi)
  {
  }

  lemma OneMoreTabled(s: Space, from: int, page: int)
    requires Shaped(s) && Tabled(s, from, page) && 0 <= page < PAGES && HasTable(s, page)
    ensures Tabled(s, from, page + 1)
  {
  }

  lemma SameTabled(s: Space, s': Space, lo: int, hi: int)
    requires Shaped(s) && Shaped(s') && s'.tables == s.tables
    ensures Tabled(s', lo, hi) <==> Tabled(s, lo, hi)
  {
    if Tabled(s, lo, hi) {
      forall pg {:trigger HasTable(s', pg)} | lo <= pg < hi && 0 <= pg < PAGES
        ensures HasTable(s', pg)
      {
        assert HasTable(s, pg);
      }
    }
    if Tabled(s', lo, hi) {
      forall pg {:trigger HasTable(s, pg)} | lo <= pg < hi && 0 <= pg < PAGES
        ensures HasTable(s, pg)
      {
        assert HasTable(s', pg);
      }
    }
  }

  lemma KeptTables(x: Snap, y: Snap, d: int)
    requires Keeps(x, y, {}) && 0 <= d < ENTRIES
    ensures |Absent(y.sp)| <= |Absent(x.sp)| && x.curr <= y.curr && x.end <= y.end
    ensures HEAP_PAGE / ENTRIES <= d < WINDOW_PAGE / ENTRIES && !x.sp.tables[d].present && y.sp.tables[d].present ==>
      |Absent(y.sp)| < |Absent(x.sp)|
  {
    hide LiveKept;
    FewerAbsent(x.sp, y.sp, d);
  }

  lemma KeptOwners(x: Snap, y: Snap, lo: int, hi: int)
    requires Keeps(x, y, {}) && forall pg :: lo <= pg < hi ==> pg in x.owner
    ensures (forall pg :: lo <= pg < hi ==> pg in y.owner) && x.curr <= y.curr && x.end <= y.end
  {
    hide LiveKept;
  }

  lemma TabledGrows(x: Snap, y: Snap, lo: int, hi: int)
    requires Keeps(x, y, {}) && Tabled(x.sp, lo, hi)
    ensures Tabled(y.sp, lo, hi)
  {
    hide LiveKept;
    forall pg {:trigger HasTable(y.sp, pg)} | lo <= pg < hi && 0 <= pg < PAGES
      ensures HasTable(y.sp, pg)
    {
      assert HasTable(x.sp, pg);
    }
  }

  lemma SameTrans(x: Snap, y: Snap, z: Snap)
    requires SameUsers(x, y) && SameUsers(y, z)
    ensures SameUsers(x, z)
  {
  }

  lemma HeapTags(m: seq<byte>, b: BlockMap, f: set<int>, fl: seq<int>, first: int, start: int, limit: int)
    requires WellFormed(m, b, f, fl, first, start, limit)
    ensures Tagged(m, b, f) && Separate(b) && forall a :: a in b ==> 0 < start <= a && End(b, a) <= limit <= |m|
  {
  }

  lemma TableServed(x: Snap)
    requires Shaped(x.sp)
    ensures Covered(x, RoundUp(TABLE_REQUEST) + OVERHEAD) <==> Covered(x, TABLE_REQUEST + OVERHEAD)
    ensures Fits(x, RoundUp(TABLE_REQUEST)) <==> Fits(x, TABLE_REQUEST)
  {
    assert RoundUp(TABLE_REQUEST) == TABLE_REQUEST;
  }

  lemma NewSize(x: Snap, y: Snap, a: int, size: int)
    requires NewBlock(x, y, a, size)
    ensures a in y.b && y.b[a] >= size
  {
  }
}
