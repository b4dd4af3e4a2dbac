/** Whole runs of the allocator against the simplest store: a map from pointers to the bytes behind them. */
module HeapRun {
  import opened Basics
  import opened Memory
  import opened Blocks
  import opened Tags
  import opened HeapSteps
  import opened KernelHeap
  import opened Paging
  import opened VirtualMemory
  import opened KernelState
  import opened KernelMemory
  import FrameAllocator

  type Store = map<int, seq<byte>>

  /** The callers' pointers are the keys of `store`, and memory holds its bytes behind each of them. */
  ghost predicate Represents(x: Snap, store: Store)
  {
    && (forall p :: p in store <==> p - HEADER in UserLive(x.b, x.f, x.home))
    && (forall p :: p in store ==> StoredAt(x, store, p))
  }

  ghost predicate StoredAt(x: Snap, store: Store, p: int)
    requires p in store
  {
    && p - HEADER in x.b && 0 <= p && |store[p]| <= x.b[p - HEADER] && p + |store[p]| <= |x.mem|
    && x.mem[p..p + |store[p]|] == store[p]
  }

  /** Blocks that are kept keep what is stored in them. */
  lemma StillStored(x: Snap, y: Snap, store: Store, gone: set<int>, p: int)
    requires Represents(x, store) && p in store && Keeps(x, y, gone) && p - HEADER !in gone
    ensures StoredAt(y, store, p)
  {
    var a := p - HEADER;
    assert a in UserLive(x.b, x.f, x.home) && StoredAt(x, store, p);
    KeptPart(x, y, gone, a);
    assert y.mem[p..p + |store[p]|] == x.mem[p..p + |store[p]|];
  }

  lemma KeptPart(x: Snap, y: Snap, gone: set<int>, a: int)
    requires Keeps(x, y, gone) && a in UserLive(x.b, x.f, x.home) && a !in gone
    ensures a in x.b && a in y.b && y.b[a] == x.b[a] && Same(x.mem, y.mem, a + HEADER, a + HEADER + x.b[a])
  {
  }

  /** A new block is a new pointer; everything stored stays. */
  lemma MallocRefines(x: Snap, y: Snap, store: Store, p: int, size: int)
    requires Represents(x, store) && Keeps(x, y, {}) && NewBlock(x, y, p - HEADER, size)
    requires 0 <= p && 0 <= size && p + size <= |y.mem|
    ensures p !in store && Represents(y, store[p := y.mem[p..p + size]])
  {
    hide Keeps, StoredAt, UserLive;
    var store' := store[p := y.mem[p..p + size]];
    NewIsUnused(x, y, p - HEADER, size);
    forall q | q in store'
      ensures StoredAt(y, store', q)
    {
      if q != p {
        StillStored(x, y, store, {}, q);
        StoredElsewhere(y, store, store', q);
      } else {
        StoredNow(y, store', p, size);
      }
    }
  }

  lemma NewIsUnused(x: Snap, y: Snap, a: int, size: int)
    requires NewBlock(x, y, a, size)
    ensures a !in UserLive(x.b, x.f, x.home)
  {
  }

  lemma StoredElsewhere(y: Snap, store: Store, store': Store, q: int)
    requires q in store && q in store' && store'[q] == store[q] && StoredAt(y, store, q)
    ensures StoredAt(y, store', q)
  {
  }

  lemma StoredNow(y: Snap, store: Store, p: int, size: int)
    requires p - HEADER in y.b && size <= y.b[p - HEADER] && 0 <= p && 0 <= size && p + size <= |y.mem|
    requires p in store && store[p] == y.mem[p..p + size]
    ensures StoredAt(y, store, p)
  {
  }

  lemma FreeRefines(x: Snap, y: Snap, store: Store, p: int)
    requires Represents(x, store) && Keeps(x, y, {p - HEADER})
    requires UserLive(y.b, y.f, y.home) == UserLive(x.b, x.f, x.home) - {p - HEADER}
    ensures Represents(y, store - {p})
  {
    hide Keeps, StoredAt, UserLive;
    var store' := store - {p};
    forall q | q in store'
      ensures StoredAt(y, store', q)
    {
      StillStored(x, y, store, {p - HEADER}, q);
      StoredElsewhere(y, store, store', q);
    }
  }

  /** realloc moves what is stored to the new pointer, cut or extended to the new size. */
  lemma ReallocRefines(x: Snap, y: Snap, store: Store, p: int, q: int, size: int)
    requires Represents(x, store) && p in store && Resized(x, y, p - HEADER, q - HEADER, size)
    requires 0 <= q && 0 <= size && q + size <= |y.mem|
    ensures Represents(y, (store - {p})[q := y.mem[q..q + size]])
    ensures forall i :: 0 <= i < |store[p]| && i < size ==> y.mem[q..q + size][i] == store[p][i]
  {
    hide Keeps, StoredAt, Carried, UserLive;
    var store' := (store - {p})[q := y.mem[q..q + size]];
    forall r | r in store'
      ensures StoredAt(y, store', r)
    {
      if r != q {
        StillStored(x, y, store, {p - HEADER}, r);
        StoredElsewhere(y, store, store', r);
      } else {
        StoredNow(y, store', q, size);
      }
    }
    assert StoredAt(x, store, p);
    CarriedBytes(x, y, store, p, q, size);
  }

  lemma CarriedBytes(x: Snap, y: Snap, store: Store, p: int, q: int, size: int)
    requires p in store && StoredAt(x, store, p) && 0 <= q && 0 <= size && q + size <= |y.mem|
    requires Carried(x.mem, p, y.mem, q, if x.b[p - HEADER] < size then x.b[p - HEADER] else size)
    ensures forall i :: 0 <= i < |store[p]| && i < size ==> y.mem[q..q + size][i] == store[p][i]
  {
    forall i | 0 <= i < |store[p]| && i < size
      ensures y.mem[q..q + size][i] == store[p][i]
    {
      var n := if x.b[p - HEADER] < size then x.b[p - HEADER] else size;
      assert y.mem[q + i] == y.mem[q..q + n][i] == x.mem[p..p + n][i] == x.mem[p + i];
      assert store[p][i] == x.mem[p..p + |store[p]|][i] == x.mem[p + i];
    }
  }

  /** No two callers' blocks share a byte, and none holds a byte of any header or trailer. */
  lemma PayloadsApart(m: seq<byte>, b: BlockMap, f: set<int>, fl: seq<int>, first: int, start: int, limit: int,
                      a: int, c: int, i: int)
    requires WellFormed(m, b, f, fl, first, start, limit) && a in b && c in b
    requires a + HEADER <= i < a + HEADER + b[a]
    ensures !(c <= i < c + HEADER) && !(c + HEADER + b[c] <= i < End(b, c))
    ensures a != c ==> !(c + HEADER <= i < c + HEADER + b[c])
  {
    hide Word, Linked, Tagged, HasNext, HasPrev;
  }

  // ---- A driver for arbitrary runs ----

  datatype Op =
    | Alloc(size: int)
    | Release(index: nat)
    | Resize(index: nat, size: int)
    | Write(index: nat, offset: int, value: byte)

  /** A pointer a caller holds and the size it asked for. */
  datatype Held = Held(ptr: int, size: int)

  /** The caller's list and the store name the same pointers and sizes. */
  ghost predicate Listed(held: seq<Held>, store: Store)
  {
    && (forall i :: 0 <= i < |held| ==> held[i].ptr in store && |store[held[i].ptr]| == held[i].size)
    && (forall i, j :: 0 <= i < j < |held| ==> held[i].ptr != held[j].ptr)
    && (forall p :: p in store ==> exists i :: 0 <= i < |held| && held[i].ptr == p)
  }

  function Poked(bytes: seq<byte>, offset: int, v: byte): seq<byte>
    requires 0 <= offset < |bytes|
  {
    bytes[offset := v]
  }

  /** What callers see at one moment, and the state of the memory system then. */
  datatype Moment = Moment(held: seq<Held>, store: Store, x: Snap)

  ghost predicate Consistent(m: Moment)
  {
    Listed(m.held, m.store) && Represents(m.x, m.store) && Sound(m.x) && Shaped(m.x.sp) && HEAP_START <= m.x.curr
  }

  /** The four operations on the store itself, without a heap. */
  ghost predicate Acts(op: Op, m: Moment, m': Moment)
    requires Listed(m.held, m.store)
  {
    match op
    case Alloc(size) =>
      && |m'.held| == |m.held| + 1 && m'.held[..|m.held|] == m.held
      && var h := m'.held[|m.held|];
      h.size == size && h.ptr !in m.store && h.ptr in m'.store && |m'.store[h.ptr]| == size &&
        m'.store == m.store[h.ptr := m'.store[h.ptr]]
    case Release(i) =>
      && i < |m.held| && m'.held == m.held[..i] + m.held[i + 1..] && m'.store == m.store - {m.held[i].ptr}
    case Resize(i, size) =>
      && i < |m.held|
      && if size == 0 then m'.held == m.held[..i] + m.held[i + 1..] && m'.store == m.store - {m.held[i].ptr}
         else
           && |m'.held| == |m.held|
           && var p, h := m.held[i].ptr, m'.held[|m.held| - 1];
           && m'.held == m.held[..i] + m.held[i + 1..] + [h]
           && h.size == size && h.ptr !in m.store - {p} && h.ptr in m'.store && |m'.store[h.ptr]| == size
           && m'.store == (m.store - {p})[h.ptr := m'.store[h.ptr]]
           && forall k :: 0 <= k < |m.store[p]| && k < size ==> m'.store[h.ptr][k] == m.store[p][k]
    case Write(i, offset, value) =>
      && i < |m.held| && 0 <= offset < m.held[i].size && m'.held == m.held
      && m'.store == m.store[m.held[i].ptr := Poked(m.store[m.held[i].ptr], offset, value)]
  }

  /**
    Why memory was not to be had. The request wraps in 32 bits; or no free block holds it, and: without
    page tables to allocate, the window or the frames do not suffice, as the state before shows; with
    page tables, there is no room for one, or there was not plenty of window and frames and one of
    the two ran out on the way, in state `y`.
   */
  ghost predicate Denied(x: Snap, y: Snap, size: int)
    requires Shaped(x.sp) && Shaped(y.sp)
  {
    && 0 < size && !Serves(x, size)
    && (|| size > MAX_SIZE
        || (var n := RoundUp(size) + OVERHEAD;
            Covered(x, n) || !Roomy(x) || y.curr + Worst(n) > HEAP_MAX || Starved(y, y.curr + Worst(n))))
  }

  /** The operation names nothing to act on, or would cut the last block. */
  ghost predicate Idle(op: Op, m: Moment)
  {
    match op
    case Alloc(size) => size <= 0 || size >= UINT32
    case Release(i) => i >= |m.held|
    case Resize(i, size) => i >= |m.held| || size < 0 || size >= UINT32 || CutsTail(m.x, m.held[i].ptr, size)
    case Write(i, offset, _) => i >= |m.held| || !(0 <= offset < m.held[i].size)
  }

  /** The one block an operation may give up. */
  function Gone(op: Op, m: Moment): set<int>
  {
    match op
    case Alloc(_) => {}
    case _ => if op.index < |m.held| then {m.held[op.index].ptr - HEADER} else {}
  }

  /** One operation: it acts on the store, unless it is idle or, for a request that needs memory, memory was denied. */
  ghost predicate Allowed(op: Op, m: Moment, m': Moment)
  {
    && Consistent(m) && Consistent(m')
    && if Idle(op, m) then m' == m
       else
         && Keeps(m.x, m'.x, Gone(op, m)) && Quiet(m.x, m'.x, NOWHERE)
         && (|| Acts(op, m, m')
             || (&& (op.Alloc? || (op.Resize? && (op.size > MAX_SIZE || Moves(m.x, m.held[op.index].ptr, op.size))))
                 && Denied(m.x, m'.x, op.size) && m'.held == m.held && m'.store == m.store && Keeps(m.x, m'.x, {})))
         && (op.Alloc? && m'.held != m.held ==> NewBlock(m.x, m'.x, m'.held[|m'.held| - 1].ptr - HEADER, op.size))
         && (op.Resize? && op.size > 0 ==>
               || ((op.size > MAX_SIZE || Moves(m.x, m.held[op.index].ptr, op.size))
                   && Denied(m.x, m'.x, op.size) && m'.held == m.held)
               || (m'.held != []
                   && Reshaped(m.x, m'.x, m.held[op.index].ptr - HEADER, m'.held[|m'.held| - 1].ptr - HEADER, op.size)))
  }

  /** Starting from nothing, each operation leads from one moment to the next. */
  ghost predicate Explains(trace: seq<Moment>, ops: seq<Op>, start: Snap)
  {
    && |trace| == |ops| + 1 && trace[0] == Moment([], map[], start)
    && forall i :: 0 <= i < |ops| ==> Allowed(ops[i], trace[i], trace[i + 1])
  }

  lemma ExplainsMore(trace: seq<Moment>, ops: seq<Op>, start: Snap, op: Op, m: Moment)
    requires Explains(trace, ops, start) && Allowed(op, trace[|ops|], m)
    ensures Explains(trace + [m], ops + [op], start)
  {
    hide Allowed;
    var trace', ops' := trace + [m], ops + [op];
    forall i | 0 <= i < |ops'|
      ensures Allowed(ops'[i], trace'[i], trace'[i + 1])
    {
      if i < |ops| {
        assert trace'[i] == trace[i] && trace'[i + 1] == trace[i + 1];
      }
    }
  }

  lemma KeepsMore(x: Snap, y: Snap, gone: set<int>)
    requires Keeps(x, y, {})
    ensures Keeps(x, y, gone)
  {
    hide Stable, TablesKept, Walk;
  }

  lemma Stays(op: Op, m: Moment)
    requires Consistent(m) && Idle(op, m)
    ensures Allowed(op, m, m)
  {
    hide Consistent, Acts, Denied;
  }

  lemma QuietSame(x: Snap, y: Snap)
    requires Shaped(x.sp) && y.sp == x.sp && y.owner == x.owner
    ensures Quiet(x, y, NOWHERE)
  {
  }

  lemma DeniedBy(x: Snap, y: Snap, size: int, r: Result, depth: nat)
    requires Shaped(x.sp) && Shaped(y.sp) && 0 < size < UINT32 && depth > 0 && HEAP_START <= x.curr && Keeps(x, y, {})
    requires MallocOutcome(x, y, size, r, depth) && !r.Ok? && !r.Null?
    ensures Denied(x, y, size)
  {
    hide Keeps, Fits, Stuck, Covered, Roomy, Extended, Serves, Missing, Absent, Walk, CanGrow, Exhausted;
    KeptMax(x, y);
    if Serves(x, size) {
      MallocServes(x, y, size, r, depth);
    }
    if Stuck(x, RoundUp(size) + OVERHEAD) {
      StuckFacts(x, RoundUp(size) + OVERHEAD);
    }
  }

  lemma DeniedAlloc(m: Moment, m': Moment, size: int, r: Result, depth: nat)
    requires Quiet(m.x, m'.x, NOWHERE)
    requires Consistent(m) && 0 < size < UINT32 && depth > 0 && Sound(m'.x) && Shaped(m'.x.sp)
    requires HEAP_START <= m'.x.curr
    requires MallocOutcome(m.x, m'.x, size, r, depth) && !r.Ok? && !r.Null? && Keeps(m.x, m'.x, {})
    requires SameUsers(m.x, m'.x)
    requires m'.held == m.held && m'.store == m.store
    ensures Allowed(Alloc(size), m, m')
  {
    hide Quiet, Sound, Acts, Listed, Represents, Keeps, SameUsers;
    KeepRefines(m.x, m'.x, m.store);
    DeniedBy(m.x, m'.x, size, r, depth);
    hide Denied;
  }

  lemma DeniedResize(m: Moment, m': Moment, i: nat, size: int, r: Result, depth: nat)
    requires Quiet(m.x, m'.x, NOWHERE)
    requires Consistent(m) && 0 < size < UINT32 && depth > 0 && i < |m.held| && Sound(m'.x) && Shaped(m'.x.sp)
    requires HEAP_START <= m'.x.curr
    requires !CutsTail(m.x, m.held[i].ptr, size)
    requires ReallocOutcome(m.x, m'.x, m.held[i].ptr, size, r, depth) && !r.Ok? && Keeps(m.x, m'.x, {})
    requires SameUsers(m.x, m'.x)
    requires m'.held == m.held && m'.store == m.store
    ensures Allowed(Resize(i, size), m, m') && Consistent(m')
  {
    hide Quiet, Sound, Acts, Listed, Represents, Keeps, SameUsers, Moves, CutsTail, MallocOutcome;
    KeepRefines(m.x, m'.x, m.store);
    KeepsMore(m.x, m'.x, {m.held[i].ptr - HEADER});
    if size <= MAX_SIZE {
      DeniedBy(m.x, m'.x, size, r, depth);
    } else {
      assert !Serves(m.x, size);
    }
    hide Denied;
  }

  lemma ActedAlloc(m: Moment, m': Moment, p: int, size: int)
    requires Quiet(m.x, m'.x, NOWHERE)
    requires Consistent(m) && 0 < size < UINT32 && Keeps(m.x, m'.x, {}) && NewBlock(m.x, m'.x, p - HEADER, size)
    requires 0 <= p && p + size <= |m'.x.mem| && Sound(m'.x) && Shaped(m'.x.sp) && HEAP_START <= m'.x.curr
    requires m'.held == m.held + [Held(p, size)] && m'.store == m.store[p := m'.x.mem[p..p + size]]
    ensures Allowed(Alloc(size), m, m')
  {
    hide Quiet, Sound, Listed, Represents, Keeps, NewBlock, Denied;
    MallocRefines(m.x, m'.x, m.store, p, size);
    ListAppend(m.held, m.store, p, m'.x.mem[p..p + size]);
  }

  lemma ActedRelease(op: Op, m: Moment, m': Moment)
    requires Quiet(m.x, m'.x, NOWHERE)
    requires Consistent(m) && (op.Release? || (op.Resize? && op.size == 0)) && op.index < |m.held| && Sound(m'.x)
    requires Shaped(m'.x.sp) && HEAP_START <= m'.x.curr
    requires Keeps(m.x, m'.x, {m.held[op.index].ptr - HEADER})
    requires UserLive(m'.x.b, m'.x.f, m'.x.home) == UserLive(m.x.b, m.x.f, m.x.home) - {m.held[op.index].ptr - HEADER}
    requires m'.held == m.held[..op.index] + m.held[op.index + 1..] && m'.store == m.store - {m.held[op.index].ptr}
    ensures Allowed(op, m, m') && Consistent(m')
  {
    hide Quiet, Sound, Listed, Represents, Keeps, Denied, UserLive;
    FreeRefines(m.x, m'.x, m.store, m.held[op.index].ptr);
    ListRemove(m.held, m.store, op.index);
  }

  lemma ActedResize(m: Moment, m': Moment, i: nat, q: int, size: int)
    requires Quiet(m.x, m'.x, NOWHERE)
    requires Consistent(m) && 0 < size < UINT32 && i < |m.held| && Sound(m'.x) && Shaped(m'.x.sp)
    requires HEAP_START <= m'.x.curr && !CutsTail(m.x, m.held[i].ptr, size)
    requires Resized(m.x, m'.x, m.held[i].ptr - HEADER, q - HEADER, size) && 0 <= q && q + size <= |m'.x.mem|
    requires Reshaped(m.x, m'.x, m.held[i].ptr - HEADER, q - HEADER, size)
    requires m'.held == m.held[..i] + m.held[i + 1..] + [Held(q, size)]
    requires m'.store == (m.store - {m.held[i].ptr})[q := m'.x.mem[q..q + size]]
    ensures Allowed(Resize(i, size), m, m') && Consistent(m')
  {
    hide Quiet, Sound, Represents, Listed, Keeps, UserLive, Carried, Denied, CutsTail, Reshaped;
    var p, bytes := m.held[i].ptr, m'.x.mem[q..q + size];
    ListedAt(m.held, m.store, i);
    ReallocRefines(m.x, m'.x, m.store, p, q, size);
    ListRemove(m.held, m.store, i);
    NewPointer(m.x, m'.x, m.store, p, q, size);
    ListAppend(m.held[..i] + m.held[i + 1..], m.store - {p}, q, bytes);
  }

  lemma ActedWrite(m: Moment, m': Moment, i: nat, offset: int, value: byte)
    requires Quiet(m.x, m'.x, NOWHERE)
    requires Consistent(m) && i < |m.held| && 0 <= offset < m.held[i].size && m.held[i].ptr in m.store
    requires Keeps(m.x, m'.x, {m.held[i].ptr - HEADER}) && m'.x.b == m.x.b && m'.x.f == m.x.f && m'.x.home == m.x.home
    requires 0 <= m.held[i].ptr && m.held[i].ptr + offset < |m.x.mem|
    requires m'.x.mem == m.x.mem[m.held[i].ptr + offset := value]
    requires Sound(m'.x) && Shaped(m'.x.sp) && HEAP_START <= m'.x.curr && m'.held == m.held
    requires offset < |m.store[m.held[i].ptr]|
    requires m'.store == m.store[m.held[i].ptr := Poked(m.store[m.held[i].ptr], offset, value)]
    ensures Allowed(Write(i, offset, value), m, m')
  {
    hide Quiet, Sound, Represents, Keeps, Denied;
    WriteRefines(m.x, m'.x, m.store, m.held[i].ptr, offset, value);
    ListPoke(m.held, m.store, i, offset, value);
  }

  lemma ListPoke(held: seq<Held>, store: Store, i: nat, offset: int, value: byte)
    requires Listed(held, store) && i < |held| && held[i].ptr in store && 0 <= offset < |store[held[i].ptr]|
    ensures Listed(held, store[held[i].ptr := Poked(store[held[i].ptr], offset, value)])
  {
  }

  lemma KeepRefines(x: Snap, y: Snap, store: Store)
    requires Represents(x, store) && Keeps(x, y, {}) && SameUsers(x, y)
    ensures Represents(y, store)
  {
    forall q | q in store
      ensures StoredAt(y, store, q)
    {
      StillStored(x, y, store, {}, q);
    }
    hide Keeps, StoredAt;
  }

  lemma WriteRefines(x: Snap, y: Snap, store: Store, p: int, offset: int, v: byte)
    requires Represents(x, store) && p in store && 0 <= offset < |store[p]|
    requires Keeps(x, y, {p - HEADER}) && y.b == x.b && y.f == x.f && y.home == x.home
    requires 0 <= p && p + offset < |x.mem| && y.mem == x.mem[p + offset := v]
    ensures Represents(y, store[p := Poked(store[p], offset, v)])
  {
    var store' := store[p := Poked(store[p], offset, v)];
    assert StoredAt(x, store, p);
    forall q | q in store'
      ensures StoredAt(y, store', q)
    {
      if q != p {
        StillStored(x, y, store, {p - HEADER}, q);
      } else {
        assert y.mem[p..p + |store[p]|] == x.mem[p..p + |store[p]|][offset := v];
      }
    }
    hide Keeps, StoredAt;
  }

  lemma ListAppend(held: seq<Held>, store: Store, p: int, bytes: seq<byte>)
    requires Listed(held, store) && p !in store
    ensures Listed(held + [Held(p, |bytes|)], store[p := bytes])
  {
    var held', store' := held + [Held(p, |bytes|)], store[p := bytes];
    forall q | q in store'
      ensures exists i :: 0 <= i < |held'| && held'[i].ptr == q
    {
      if q == p {
        assert held'[|held|].ptr == q;
      } else {
        var i :| 0 <= i < |held| && held[i].ptr == q;
        assert held'[i].ptr == q;
      }
    }
  }

  lemma ListRemove(held: seq<Held>, store: Store, k: int)
    requires Listed(held, store) && 0 <= k < |held|
    ensures Listed(held[..k] + held[k + 1..], store - {held[k].ptr})
  {
    var held', store' := held[..k] + held[k + 1..], store - {held[k].ptr};
    forall q | q in store'
      ensures exists i :: 0 <= i < |held'| && held'[i].ptr == q
    {
      var i :| 0 <= i < |held| && held[i].ptr == q;
      assert held'[if i < k then i else i - 1].ptr == q;
    }
  }

  /**
    Any run behaves as the store alone would, except that memory may be denied, for one of the
    reasons that `Denied` lists. Only a resize that would cut the last block is not passed on.
   */
  method Run(k: Kernel, ops: seq<Op>, depth: nat) returns (held: seq<Held>, ghost trace: seq<Moment>)
    requires k.Valid() && UserLive(k.heap.b, k.heap.f, k.home) == {} && depth > 0
    modifies k, k.heap, k.vmm, k.vmm.pmm, k.vmm.pmm.bitmap
    ensures Explains(trace, ops, old(k.Now())) && k.Valid() && trace[|ops|].held == held && trace[|ops|].x == k.Now()
  {
    hide Sound, Consistent, Allowed, Kernel.Valid;
    ghost var store: Store := map[];
    held := [];
    trace := [Moment(held, store, k.Now())];
    k.Handy();
    k.NowSound();
    StartsEmpty(k.Now());
    for i := 0 to |ops|
      invariant k.Valid() && Consistent(Moment(held, store, k.Now()))
      invariant Explains(trace, ops[..i], old(k.Now())) && trace[i] == Moment(held, store, k.Now())
    {
      held, store := RunOne(k, ops[i], held, store, depth);
      ExplainsMore(trace, ops[..i], old(k.Now()), ops[i], Moment(held, store, k.Now()));
      assert ops[..i] + [ops[i]] == ops[..i + 1];
      trace := trace + [Moment(held, store, k.Now())];
    }
    assert ops[..|ops|] == ops;
  }

  lemma StartsEmpty(x: Snap)
    requires UserLive(x.b, x.f, x.home) == {} && Sound(x) && Shaped(x.sp) && HEAP_START <= x.curr
    ensures Consistent(Moment([], map[], x))
  {
    NothingListed();
    NothingStored(x);
  }

  method RunOne(k: Kernel, op: Op, held: seq<Held>, ghost store: Store, depth: nat)
    returns (held': seq<Held>, ghost store': Store)
    requires k.Valid() && Consistent(Moment(held, store, k.Now())) && depth > 0
    modifies k, k.heap, k.vmm, k.vmm.pmm, k.vmm.pmm.bitmap
    ensures k.Valid() && Consistent(Moment(held', store', k.Now()))
    ensures Allowed(op, Moment(held, store, old(k.Now())), Moment(held', store', k.Now()))
  {
    hide Consistent, Acts, Denied, Keeps, NewBlock, Kernel.Valid, CutsTail;
    held', store' := held, store;
    ghost var m := Moment(held, store, k.Now());
    match op {
      case Alloc(size) =>
        if 0 < size < UINT32 {
          held', store' := RunAlloc(k, size, held, store, depth);
        } else {
          Stays(op, m);
        }
      case Release(index) =>
        if index < |held| {
          held', store' := RunRelease(k, index, held, store);
        } else {
          Stays(op, m);
        }
      case Resize(index, size) =>
        if index < |held| && 0 <= size < UINT32 {
          held', store' := RunResize(k, index, size, held, store, depth);
        } else {
          Stays(op, m);
        }
      case Write(index, offset, value) =>
        if index < |held| && 0 <= offset < held[index].size {
          store' := RunWrite(k, index, offset, value, held, store);
        } else {
          Stays(op, m);
        }
    }
  }

  lemma NothingListed()
    ensures Listed([], map[])
  {
  }

  lemma NothingStored(x: Snap)
    requires UserLive(x.b, x.f, x.home) == {}
    ensures Represents(x, map[])
  {
  }

  lemma StoredFacts(x: Snap, store: Store, p: int)
    requires Represents(x, store) && p in store
    ensures p - HEADER in UserLive(x.b, x.f, x.home) && p - HEADER in x.b && 0 <= p && |store[p]| <= x.b[p - HEADER]
  {
    assert StoredAt(x, store, p);
  }

  method RunAlloc(k: Kernel, size: int, held: seq<Held>, ghost store: Store, depth: nat)
    returns (held': seq<Held>, ghost store': Store)
    requires k.Valid() && Consistent(Moment(held, store, k.Now())) && 0 < size < UINT32 && depth > 0
    modifies k, k.heap, k.vmm, k.vmm.pmm, k.vmm.pmm.bitmap
    ensures k.Valid() && Consistent(Moment(held', store', k.Now()))
    ensures Allowed(Alloc(size), Moment(held, store, old(k.Now())), Moment(held', store', k.Now()))
  {
    hide Sound, Represents, Listed, UserLive, Keeps, NewBlock, SameUsers, Quiet, Acts, Denied, MallocOutcome, Short,
      Kernel.Valid;
    held', store' := held, store;
    ghost var m := Moment(held, store, k.Now());
    k.Handy();
    k.NowSound();
    var r := k.Malloc(size, depth);
    k.Handy();
    k.NowSound();
    if r.Ok? {
      k.BlockInMemory(m.x, r.addr - HEADER, size);
      held', store' := held + [Held(r.addr, size)], store[r.addr := k.heap.mem[r.addr..r.addr + size]];
      ActedAlloc(m, Moment(held', store', k.Now()), r.addr, size);
    } else {
      DeniedAlloc(m, Moment(held', store', k.Now()), size, r, depth);
    }
  }

  method RunRelease(k: Kernel, index: nat, held: seq<Held>, ghost store: Store)
    returns (held': seq<Held>, ghost store': Store)
    requires k.Valid() && Consistent(Moment(held, store, k.Now())) && index < |held|
    modifies k, k.heap, k.vmm, k.vmm.pmm, k.vmm.pmm.bitmap
    ensures k.Valid() && Consistent(Moment(held', store', k.Now()))
    ensures Allowed(Release(index), Moment(held, store, old(k.Now())), Moment(held', store', k.Now()))
  {
    hide Quiet, Sound, Represents, Listed, UserLive, Keeps, Acts, Denied, Kernel.Valid;
    ghost var m := Moment(held, store, k.Now());
    ListedAt(held, store, index);
    StoredFacts(m.x, store, held[index].ptr);
    k.Free(held[index].ptr);
    QuietSame(m.x, k.Now());
    k.Handy();
    k.NowSound();
    held', store' := held[..index] + held[index + 1..], store - {held[index].ptr};
    ActedRelease(Release(index), m, Moment(held', store', k.Now()));
  }

  lemma ListedAt(held: seq<Held>, store: Store, index: nat)
    requires Listed(held, store) && index < |held|
    ensures held[index].ptr in store && |store[held[index].ptr]| == held[index].size
  {
  }

  method RunResize(k: Kernel, index: nat, size: int, held: seq<Held>, ghost store: Store, depth: nat)
    returns (held': seq<Held>, ghost store': Store)
    requires k.Valid() && Consistent(Moment(held, store, k.Now())) && index < |held| && 0 <= size < UINT32 && depth > 0
    modifies k, k.heap, k.vmm, k.vmm.pmm, k.vmm.pmm.bitmap
    ensures k.Valid() && Consistent(Moment(held', store', k.Now()))
    ensures Allowed(Resize(index, size), Moment(held, store, old(k.Now())), Moment(held', store', k.Now()))
  {
    hide Sound, Represents, Listed, UserLive, Keeps, Resized, Reshaped, SameUsers, Quiet, Acts, Denied,
      MallocOutcome, ReallocOutcome, CutsTail, Allowed, Kernel.CoreAt;
    held', store' := held, store;
    ghost var m := Moment(held, store, k.Now());
    ListedAt(held, store, index);
    var p := held[index].ptr;
    StoredFacts(m.x, store, p);
    k.NotNull(p - HEADER);
    var cut := k.WouldCutTail(p, size);
    if cut {
      Stays(Resize(index, size), m);
      return;
    }
    k.Handy();
    k.NowSound();
    var r := k.Realloc(p, size, depth);
    k.Handy();
    k.NowSound();
    if size == 0 {
      held', store' := held[..index] + held[index + 1..], store - {p};
      ActedRelease(Resize(index, 0), m, Moment(held', store', k.Now()));
    } else if r.Ok? {
      k.ResizedInMemory(m.x, p - HEADER, r.addr - HEADER, size);
      held' := held[..index] + held[index + 1..] + [Held(r.addr, size)];
      store' := (store - {p})[r.addr := k.heap.mem[r.addr..r.addr + size]];
      ActedResize(m, Moment(held', store', k.Now()), index, r.addr, size);
    } else {
      DeniedResize(m, Moment(held', store', k.Now()), index, size, r, depth);
    }
  }

  /** The pointer realloc returns is the old one or one nobody held. */
  lemma NewPointer(x: Snap, y: Snap, store: Store, p: int, q: int, size: int)
    requires Represents(x, store) && p in store && Resized(x, y, p - HEADER, q - HEADER, size)
    ensures q !in store - {p}
  {
    hide Keeps, StoredAt, Carried;
  }

  method RunWrite(k: Kernel, index: nat, offset: int, value: byte, held: seq<Held>, ghost store: Store)
    returns (ghost store': Store)
    requires k.Valid() && Consistent(Moment(held, store, k.Now())) && index < |held| && 0 <= offset < held[index].size
    modifies k.heap
    ensures k.Valid() && Consistent(Moment(held, store', k.Now()))
    ensures Allowed(Write(index, offset, value), Moment(held, store, old(k.Now())), Moment(held, store', k.Now()))
  {
    hide Quiet, Sound, Represents, Listed, UserLive, Keeps, Acts, Denied, Kernel.Valid;
    ghost var m, p := Moment(held, store, k.Now()), held[index].ptr;
    ListedAt(held, store, index);
    StoredFacts(m.x, store, p);
    k.Poke(held[index].ptr, offset, value);
    QuietSame(m.x, k.Now());
    k.Handy();
    k.NowSound();
    store' := store[p := Poked(store[p], offset, value)];
    ActedWrite(m, Moment(held, store', k.Now()), index, offset, value);
  }

  /**
    On an empty heap, malloc(64) followed by realloc to 16 leaves `tail` on a block that is not the
    last; `y` is the state between the two calls.
   */
  method CutTheLastBlock(k: Kernel) returns (p: int, q: int, ghost y: Snap)
    requires k.Valid() && k.heap.b == map[] && k.heapCurr + 112 <= k.heapEnd
    modifies k, k.heap, k.vmm, k.vmm.pmm, k.vmm.pmm.bitmap
    ensures Sound(y) && Keeps(old(k.Now()), y, {}) && NewBlock(old(k.Now()), y, p - HEADER, 64) && CutsTail(y, p, 16)
    ensures Resized(y, k.Now(), p - HEADER, q - HEADER, 16) && !k.Valid()
  {
    hide Keeps, Quiet, Sound, NewBlock, Resized, MallocOutcome, Short, ReallocOutcome, Serves, Covered, Fits,
      Kernel.Valid, Kernel.CoreAt, UserLive;
    ghost var x := k.Now();
    k.Handy();
    InsideCovered(x, 80);
    k.EmptyHeap();
    NothingFits(x, 64);
    var r := k.Malloc(64, 0);
    y := k.Now();
    k.Handy();
    k.NowSound();
    ServedInside(x, y, 64, r, 0);
    p := r.addr;
    k.OnlyBlock(x.curr, 64);
    NewIsUsers(x, y, p - HEADER, 64);
    r := k.Realloc(p, 16, 0);
    k.CoreShaped();
    ShrinksInPlace(y, k.Now(), p, r);
    q := r.addr;
  }

  /** Inside what is mapped the boundary moves without page tables. */
  lemma InsideCovered(x: Snap, n: int)
    requires Shaped(x.sp) && 0 <= n && 0 <= x.curr && x.curr + n <= x.end && x.end % PAGE_SIZE == 0
    ensures Covered(x, n)
  {
    assert PagesTo(x.curr + n) <= x.end / PAGE_SIZE;
  }

  /** The boundary is close to the end of the mapped heap, and the next page has no table. */
  lemma WedgedAfter(x: Snap)
    requires Shaped(x.sp) && x.f == {} && x.curr == HEAP_START + 0x7f_e010 && x.end == HEAP_START + 0x80_0000
    requires |x.taken| <= x.max
    requires !x.sp.tables[771].present
    ensures Hangs(x, TABLE_REQUEST)
  {
    var p := x.end / PAGE_SIZE;
    assert p == 0xc_0c00 && DirIndex(p) == 771;
    assert Missing(x.sp, p, p) == 0;
    NothingTabled(x.sp, p);
    assert Wedged(x, p);
  }

  lemma NothingFits(x: Snap, size: int)
    requires x.f == {}
    ensures !Fits(x, size)
  {
  }

  lemma NewIsUsers(x: Snap, y: Snap, a: int, size: int)
    requires NewBlock(x, y, a, size)
    ensures a in UserLive(y.b, y.f, y.home) && a in y.b && y.b[a] >= size
  {
  }

  lemma ShrinksInPlace(x: Snap, y: Snap, p: int, r: Result)
    requires Shaped(x.sp) && Shaped(y.sp) && 0 <= x.curr && ReallocOutcome(x, y, p, 16, r, 0) && CutsTail(x, p, 16)
    ensures r.Ok?
  {
    hide MallocOutcome;
  }

  lemma HangIsDeep(x: Snap, y: Snap, size: int, r: Result, depth: nat)
    requires Shaped(x.sp) && Shaped(y.sp) && 0 <= size && 0 <= x.curr && MallocOutcome(x, y, size, r, depth)
    requires Hangs(x, size)
    ensures r.Deep?
  {
    hide Fits, Stuck, Covered, Roomy, Extended;
  }

  lemma ServedInside(x: Snap, y: Snap, size: int, r: Result, depth: nat)
    requires Shaped(x.sp) && Shaped(y.sp) && 0 < size <= MAX_SIZE && 0 <= x.curr && MallocOutcome(x, y, size, r, depth)
    requires x.curr + RoundUp(size) + OVERHEAD <= x.end && Covered(x, RoundUp(size) + OVERHEAD)
    ensures r.Ok? && y.end == x.end && y.sp.tables == x.sp.tables
  {
    hide Fits, Stuck, Covered, Roomy, Extended;
  }

  /**
    From power-on, one malloc that leaves less than a page table's worth of the first 8 MiB makes the
    next malloc of a page nest requests for page tables as deep as one likes: it never returns. `boot`
    and `mid` are the states before the two calls.
   */
  method HangAfterBoot(blocks: nat, bitmapEnd: int, memory: seq<byte>, depth: nat)
    returns (k: Kernel, p: int, r: Result, ghost boot: Snap, ghost mid: Snap)
    requires 3 * ENTRIES <= blocks <= 0x10_0000 && blocks % 32 == 0 && |memory| == UINT32
    requires KERN_BASE <= bitmapEnd && AlignAfter(bitmapEnd) + 6 * PAGE_SIZE <= KERN_BASE + 0x40_0000
    ensures k.Valid() && Sound(boot) && Booted(boot, blocks)
    ensures Sound(mid) && Keeps(boot, mid, {}) && NewBlock(boot, mid, p - HEADER, 0x7f_e000)
    ensures Hangs(mid, TABLE_REQUEST) && MallocOutcome(mid, k.Now(), TABLE_REQUEST, r, depth) && r.Deep?
  {
    hide Keeps, Walk, Quiet, NewBlock, Kernel.CoreAt, Kernel.Valid, MallocOutcome, Short, Hangs, Fits, Covered, Sound,
      Serves;
    k := Boot(blocks, bitmapEnd, memory);
    boot := k.Now();
    k.Handy();
    k.NowSound();
    InsideCovered(boot, 0x7f_e010);
    NothingFits(boot, 0x7f_e000);
    r := k.Malloc(0x7f_e000, depth);
    mid := k.Now();
    k.Handy();
    k.NowSound();
    ServedInside(boot, mid, 0x7f_e000, r, depth);
    p := r.addr;
    WedgedAfter(mid);
    r := k.Malloc(TABLE_REQUEST, depth);
    k.Handy();
    HangIsDeep(mid, k.Now(), TABLE_REQUEST, r, depth);
  }

  /** The state after the three init calls. */
  ghost predicate Booted(x: Snap, blocks: int)
  {
    && Shaped(x.sp) && x.b == map[] && x.f == {} && x.curr == HEAP_START && x.end == HEAP_START + 0x80_0000 &&
      x.max == blocks
    && (forall va :: KERN_BASE <= va < KERN_BASE + 0xc0_0000 ==> HardTranslate(x.sp, va) == Some(va - KERN_BASE))
    && (forall d :: 0 <= d < ENTRIES ==> (x.sp.tables[d].present <==> d == 0 || 768 <= d < 771))
    // To the processor the heap is writable and the rest is not, and user mode reaches nothing.
    && (forall pg :: 0 <= pg < PAGES && Walk(x.sp, pg).Some? ==>
          Access(x.sp, pg) == Flags(x.sp, pg) == Some(BootRights(pg)))
    && HeapRights(x.sp)
  }

  /** The memory system as kernel_main brings it up. */
  method Boot(blocks: nat, bitmapEnd: int, memory: seq<byte>) returns (k: Kernel)
    requires 3 * ENTRIES <= blocks <= 0x10_0000 && blocks % 32 == 0 && |memory| == UINT32
    requires KERN_BASE <= bitmapEnd && AlignAfter(bitmapEnd) + 6 * PAGE_SIZE <= KERN_BASE + 0x40_0000
    ensures k.Valid() && UserLive(k.heap.b, k.heap.f, k.home) == {} && k.vmm.sp.paging && Booted(k.Now(), blocks)
    ensures fresh(k) && fresh(k.heap) && fresh(k.vmm) && fresh(k.vmm.pmm) && fresh(k.vmm.pmm.bitmap)
  {
    hide Coherent, Backed, Walk, Flags, Access, DirRights, HardTranslate, Virt2Phys, HeapRights;
    var pmm := new FrameAllocator.Pmm(blocks);
    var vmm := new Vmm(pmm, bitmapEnd);
    ghost var before := vmm.sp;
    vmm.Init();
    k := new Kernel(vmm, memory);
    BootTranslates(before, vmm.sp);
    BootHeap(vmm.sp);
  }

  /** What virt2phys answers before paging is the boot rule. */
  lemma BootTranslates(s: Space, s': Space)
    requires Shaped(s) && Shaped(s') && !s.paging && forall d :: 0 <= d < ENTRIES ==> 0 <= s.refs[d] < PAGES * PAGE_SIZE
    requires forall va :: KERN_BASE <= va < KERN_BASE + 0xc0_0000 ==> HardTranslate(s', va) == Virt2Phys(s, va)
    ensures forall va :: KERN_BASE <= va < KERN_BASE + 0xc0_0000 ==> HardTranslate(s', va) == Some(va - KERN_BASE)
  {
    hide HardTranslate;
  }

  lemma BootHeap(s: Space)
    requires Shaped(s) && forall d :: 0 <= d < ENTRIES ==> (s.tables[d].present <==> d == 0 || 768 <= d < 771)
    requires forall pg :: 0 <= pg < PAGES && Walk(s, pg).Some? ==> Flags(s, pg) == Some(BootRights(pg))
    requires forall pg :: KERN_PAGE + 3 * ENTRIES <= pg < PAGES ==> Walk(s, pg) == None
    requires forall d :: 769 <= d < 771 ==> DirRights(s, d) == KERNEL
    ensures HeapRights(s)
  {
    hide Walk, Flags;
  }
}
