/** Runs of the whole memory system: heap and page operations in any order. */
module KernelRun {
  import opened Basics
  import opened Memory
  import opened Paging
  import opened VirtualMemory
  import opened KernelState
  import opened KernelMemory
  import HeapRun
  import PageRun

  datatype Op = Heap(request: HeapRun.Op) | Page(mapping: PageRun.Op)

  /** The kernel's lookup is the processor's walk at every address. */
  ghost predicate Translates(x: Snap)
  {
    && Shaped(x.sp) && (forall d :: 0 <= d < ENTRIES ==> 0 <= x.sp.refs[d] < PAGES * PAGE_SIZE)
    && forall va :: 0 <= va < PAGES * PAGE_SIZE ==> Virt2Phys(x.sp, va) == HardTranslate(x.sp, va)
  }

  /** What holds at every moment. */
  ghost predicate Ordered(m: HeapRun.Moment)
  {
    HeapRun.Consistent(m) && PageRun.Exclusive(m.x) && Translates(m.x)
  }

  /** One operation: on the callers' store, or on a page without touching the store. */
  ghost predicate Stepped(op: Op, m: HeapRun.Moment, m': HeapRun.Moment, r: Result, depth: nat)
  {
    match op
    case Heap(o) => HeapRun.Allowed(o, m, m')
    case Page(o) => m'.held == m.held && m'.store == m.store && PageRun.Stepped(o, m.x, m'.x, r, depth)
  }

  ghost predicate Explains(trace: seq<HeapRun.Moment>, ops: seq<Op>, rs: seq<Result>, start: Snap, depth: nat)
  {
    && |trace| == |ops| + 1 && |rs| == |ops| && trace[0] == HeapRun.Moment([], map[], start)
    && (forall i :: 0 <= i < |trace| ==> Ordered(trace[i]))
    && (forall i :: 0 <= i < |ops| ==> Stepped(ops[i], trace[i], trace[i + 1], rs[i], depth))
  }

  lemma ExplainsMore(trace: seq<HeapRun.Moment>, ops: seq<Op>, rs: seq<Result>, start: Snap, depth: nat, op: Op,
                     r: Result,
                     m: HeapRun.Moment)
    requires Explains(trace, ops, rs, start, depth) && Stepped(op, trace[|ops|], m, r, depth) && Ordered(m)
    ensures Explains(trace + [m], ops + [op], rs + [r], start, depth)
  {
    hide Stepped, Ordered;
    var trace', ops', rs' := trace + [m], ops + [op], rs + [r];
    forall i | 0 <= i < |ops'|
      ensures Stepped(ops'[i], trace'[i], trace'[i + 1], rs'[i], depth)
    {
      if i < |ops| {
        assert trace'[i] == trace[i] && trace'[i + 1] == trace[i + 1];
      }
    }
  }

  lemma SoundTranslates(x: Snap)
    requires Sound(x)
    ensures Translates(x)
  {
    hide Walk, Window, Homed, Virt2Phys, HardTranslate;
    assert x.sp.paging && Coherent(x.sp);
    SoftEqualsHard(x.sp, 0);
    forall va | 0 <= va < PAGES * PAGE_SIZE
      ensures Virt2Phys(x.sp, va) == HardTranslate(x.sp, va)
    {
      SoftEqualsHard(x.sp, va);
    }
  }

  // ---- Access rights over a run ----

  /** The page table entry is open to user mode. */
  ghost predicate Open(x: Snap, page: int)
    requires Shaped(x.sp) && 0 <= page < PAGES
  {
    Flags(x.sp, page).Some? && Flags(x.sp, page).value.user
  }

  /** The operation asks for the page to be mapped for user mode. */
  predicate Asks(op: Op, page: int)
  {
    op.Page? && op.mapping.Map? && op.mapping.page == page && op.mapping.user
  }

  /** Pages of the heap window are mapped as ksbrk maps them. */
  predicate AsKernel(op: Op)
  {
    op.Page? && op.mapping.Map? && InWindow(op.mapping.page) ==> op.mapping.rw && !op.mapping.user
  }

  /** One step opens no page to user mode but the one it is asked to, and leaves the heap the kernel's. */
  lemma StepRights(op: Op, m: HeapRun.Moment, m': HeapRun.Moment, r: Result, depth: nat)
    requires Stepped(op, m, m', r, depth) && Shaped(m.x.sp) && Shaped(m'.x.sp)
    ensures forall pg :: 0 <= pg < PAGES && Open(m'.x, pg) ==> Open(m.x, pg) || Asks(op, pg)
    ensures HeapRights(m.x.sp) && AsKernel(op) ==> HeapRights(m'.x.sp)
  {
    hide Walk, Flags, Keeps, Still, SameUsers, HeapRights, PageOutcome, PageRun.Releasable, HeapRun.Consistent,
      HeapRun.Acts, HeapRun.Denied, HeapRun.Idle;
    match op
    case Heap(o) =>
      HeapStepRights(o, m, m');
    case Page(o) =>
      if 0 <= o.page < PAGES && o.Map? {
        if HeapRights(m.x.sp) && AsKernel(op) {
          HeapRightsKept(m.x.sp, m'.x.sp, o.page);
        }
      } else if HeapRights(m.x.sp) {
        FreedRights(m.x.sp, m'.x.sp);
      }
  }

  lemma HeapStepRights(op: HeapRun.Op, m: HeapRun.Moment, m': HeapRun.Moment)
    requires HeapRun.Allowed(op, m, m') && Shaped(m.x.sp) && Shaped(m'.x.sp)
    ensures forall pg :: 0 <= pg < PAGES && Open(m'.x, pg) ==> Open(m.x, pg)
    ensures HeapRights(m.x.sp) ==> HeapRights(m'.x.sp)
  {
    hide Walk, Flags, Keeps, Still, HeapRights, HeapRun.Consistent, HeapRun.Acts, HeapRun.Denied, HeapRun.Idle;
    if !HeapRun.Idle(op, m) && HeapRights(m.x.sp) {
      HeapRightsKept(m.x.sp, m'.x.sp, NOWHERE);
    }
  }

  lemma FreedRights(s: Space, s': Space)
    requires Shaped(s) && Shaped(s') && s'.tables == s.tables && HeapRights(s)
    requires forall pg :: 0 <= pg < PAGES ==> Flags(s', pg).None? || Flags(s', pg) == Flags(s, pg)
    ensures HeapRights(s')
  {
    hide Flags;
  }

  /**
    At every moment: a page is open to user mode only if it was at the start or has been asked for as
    such, and the heap is writable and closed to user mode if it was at the start.
   */
  ghost predicate Guarded(trace: seq<HeapRun.Moment>, ops: seq<Op>, i: nat)
    requires i < |trace| && i <= |ops| && Shaped(trace[0].x.sp) && Shaped(trace[i].x.sp)
  {
    && (forall pg :: 0 <= pg < PAGES && Open(trace[i].x, pg) ==>
          Open(trace[0].x, pg) || exists j :: 0 <= j < i && Asks(ops[j], pg))
    && (HeapRights(trace[0].x.sp) && (forall j :: 0 <= j < i ==> AsKernel(ops[j])) ==> HeapRights(trace[i].x.sp))
  }

  lemma {:induction false} RunRights(trace: seq<HeapRun.Moment>, ops: seq<Op>, rs: seq<Result>, start: Snap,
                                     depth: nat, i: nat)
    requires Explains(trace, ops, rs, start, depth) && i <= |ops|
    ensures Shaped(trace[0].x.sp) && Shaped(trace[i].x.sp) && Guarded(trace, ops, i)
  {
    hide Stepped, Open, HeapRights, HeapRun.Consistent, PageRun.Exclusive;
    assert Ordered(trace[0]) && Ordered(trace[i]);
    if i > 0 {
      RunRights(trace, ops, rs, start, depth, i - 1);
      assert Stepped(ops[i - 1], trace[i - 1], trace[i - 1 + 1], rs[i - 1], depth);
      StepRights(ops[i - 1], trace[i - 1], trace[i], rs[i - 1], depth);
    }
  }

  /** Heap operations change no ownership outside the heap window. */
  lemma TracksHeap(op: HeapRun.Op, m: HeapRun.Moment, m': HeapRun.Moment, owned: set<int>)
    requires HeapRun.Allowed(op, m, m') && PageRun.Tracks(m.x, owned)
    ensures PageRun.Tracks(m'.x, owned)
  {
    hide Walk, Keeps, HeapRun.Consistent, HeapRun.Acts, HeapRun.Denied, HeapRun.Idle;
  }

  /** Page operations leave the store alone. */
  lemma StoreKept(op: PageRun.Op, m: HeapRun.Moment, m': HeapRun.Moment, r: Result, depth: nat)
    requires HeapRun.Consistent(m) && m'.held == m.held && m'.store == m.store && Sound(m'.x) && HEAP_START <= m'.x.curr
    requires PageRun.Stepped(op, m.x, m'.x, r, depth)
    ensures HeapRun.Consistent(m')
  {
    hide Walk, Sound, HeapRun.Listed, PageOutcome, Quiet, Keeps, SameUsers, PageRun.Releasable;
    if 0 <= op.page < PAGES && op.Map? {
      hide HeapRun.Represents;
      HeapRun.KeepRefines(m.x, m'.x, m.store);
    } else {
      SameStore(m.x, m'.x, m.store);
    }
  }

  lemma SameStore(x: Snap, y: Snap, store: HeapRun.Store)
    requires HeapRun.Represents(x, store) && y.mem == x.mem && y.b == x.b && y.f == x.f && y.home == x.home
    ensures HeapRun.Represents(y, store)
  {
    hide UserLive;
    forall p | p in store
      ensures HeapRun.StoredAt(y, store, p)
    {
      assert HeapRun.StoredAt(x, store, p);
    }
  }

  /**
    Any run of malloc, free, realloc, writes, allocate_page and free_page: at every moment the memory
    system is in order, memory represents the callers' store, distinct owned pages have distinct
    frames, the frames taken are exactly theirs, and virt2phys is the processor's walk.
   */
  method Run(k: Kernel, ops: seq<Op>, owned: set<int>, depth: nat)
    returns (held: seq<HeapRun.Held>, rs: seq<Result>, owned': set<int>, ghost trace: seq<HeapRun.Moment>)
    requires k.Valid() && UserLive(k.heap.b, k.heap.f, k.home) == {} && depth > 0 && PageRun.Tracks(k.Now(), owned)
    modifies k, k.heap, k.vmm, k.vmm.pmm, k.vmm.pmm.bitmap
    ensures k.Valid() && Explains(trace, ops, rs, old(k.Now()), depth)
    ensures trace[|ops|].held == held && trace[|ops|].x == k.Now() && PageRun.Tracks(k.Now(), owned')
    ensures forall i :: 0 <= i < |trace| ==> Shaped(trace[i].x.sp)
    ensures forall i {:trigger trace[i]} :: 0 <= i < |trace| ==> Guarded(trace, ops, i)
  {
    hide Guarded, Stepped, Ordered, HeapRun.Consistent, PageRun.Tracks, Sound, Kernel.Valid;
    ghost var store: HeapRun.Store := map[];
    held, rs, owned' := [], [], owned;
    k.Handy();
    k.NowSound();
    HeapRun.StartsEmpty(k.Now());
    NowOrdered(k, held, store);
    trace := [HeapRun.Moment(held, store, k.Now())];
    for i := 0 to |ops|
      invariant k.Valid() && HeapRun.Consistent(HeapRun.Moment(held, store, k.Now())) && PageRun.Tracks(k.Now(), owned')
      invariant Explains(trace, ops[..i], rs, old(k.Now()), depth) && trace[i] == HeapRun.Moment(held, store, k.Now())
    {
      var r;
      held, store, r, owned' := RunOne(k, ops[i], held, store, owned', depth);
      NowOrdered(k, held, store);
      ExplainsMore(trace, ops[..i], rs, old(k.Now()), depth, ops[i], r, HeapRun.Moment(held, store, k.Now()));
      assert ops[..i] + [ops[i]] == ops[..i + 1];
      rs, trace := rs + [r], trace + [HeapRun.Moment(held, store, k.Now())];
    }
    assert ops[..|ops|] == ops;
    forall i | 0 <= i < |trace|
      ensures Shaped(trace[0].x.sp) && Shaped(trace[i].x.sp) && Guarded(trace, ops, i)
    {
      RunRights(trace, ops, rs, trace[0].x, depth, i);
    }
  }

  lemma NowOrdered(k: Kernel, held: seq<HeapRun.Held>, store: HeapRun.Store)
    requires k.Valid() && HeapRun.Consistent(HeapRun.Moment(held, store, k.Now()))
    ensures Ordered(HeapRun.Moment(held, store, k.Now()))
  {
    hide HeapRun.Consistent, Translates, PageRun.Exclusive, Kernel.Valid, Sound;
    k.Handy();
    k.Inner();
    k.NowSound();
    PageRun.OwnersAreExclusive(k.Now(), k.vmm.holder);
    SoundTranslates(k.Now());
  }

  method RunOne(k: Kernel, op: Op, held: seq<HeapRun.Held>, ghost store: HeapRun.Store, owned: set<int>, depth: nat)
    returns (held': seq<HeapRun.Held>, ghost store': HeapRun.Store, r: Result, owned': set<int>)
    requires k.Valid() && HeapRun.Consistent(HeapRun.Moment(held, store, k.Now())) && PageRun.Tracks(k.Now(), owned)
    requires depth > 0
    modifies k, k.heap, k.vmm, k.vmm.pmm, k.vmm.pmm.bitmap
    ensures k.Valid() && HeapRun.Consistent(HeapRun.Moment(held', store', k.Now())) && PageRun.Tracks(k.Now(), owned')
    ensures Stepped(op, HeapRun.Moment(held, store, old(k.Now())), HeapRun.Moment(held', store', k.Now()), r, depth)
  {
    hide HeapRun.Consistent, HeapRun.Allowed, PageRun.Stepped, PageRun.Tracks, Sound, Kernel.Valid;
    ghost var m := HeapRun.Moment(held, store, k.Now());
    held', store', r, owned' := held, store, Null, owned;
    match op {
      case Heap(o) =>
        held', store' := HeapRun.RunOne(k, o, held, store, depth);
        TracksHeap(o, m, HeapRun.Moment(held', store', k.Now()), owned);
      case Page(o) =>
        r, owned' := PageRun.RunOne(k, o, owned, depth);
        k.Handy();
        k.NowSound();
        StoreKept(o, m, HeapRun.Moment(held, store, k.Now()), r, depth);
    }
  }
}
