/** The kernel heap: boundary-tag blocks in memory, with a best-fit freelist. */
module KernelHeap {
  import opened Basics
  import opened Memory
  import opened Blocks
  import opened Tags
  import opened HeapSteps

  /** `head` and `tail` are the first and the last block, or NULL in an empty heap. */
  ghost predicate Ends(b: BlockMap, start: int, limit: int, head: int, tail: int)
  {
    && head == (if start < limit then start else 0)
    && (if start < limit then tail in b && End(b, tail) == limit else tail == 0)
  }

  lemma Entry(m: seq<byte>, fl: seq<int>, first: int)
    requires Linked(m, fl, first)
    ensures first == After(fl, -1)
  {
  }

  lemma NodeLinks(m: seq<byte>, fl: seq<int>, first: int, k: int)
    requires Linked(m, fl, first) && 0 <= k < |fl|
    ensures Spaced(fl, |m|) && 0 < fl[k] <= |m| - OVERHEAD
    ensures Word(m, fl[k] + PREV) == Before(fl, k) && 0 <= Before(fl, k) <= |m| - OVERHEAD
    ensures Word(m, fl[k] + NEXT) == After(fl, k) && 0 <= After(fl, k) <= |m| - OVERHEAD
    ensures Before(fl, k) == 0 <==> k == 0
  {
    hide Word;
    assert LinkedAt(m, fl, k);
  }

  /** What a walk over the freelist reads at its i-th node. */
  lemma FreeNode(m: seq<byte>, b: BlockMap, f: set<int>, fl: seq<int>, first: int, start: int, limit: int, i: int)
    requires WellFormed(m, b, f, fl, first, start, limit) && 0 <= i < |fl|
    ensures fl[i] in f && fl[i] in b && 0 < fl[i] <= |m| - OVERHEAD
    ensures Word(m, fl[i]) == b[fl[i]] + 1 && b[fl[i]] % 16 == 0
    ensures Word(m, fl[i] + NEXT) == After(fl, i)
  {
    hide Word;
    assert fl[i] in fl && LinkedAt(m, fl, i);
  }

  ghost function LiveSet(b: BlockMap, f: set<int>): set<int>
  {
    set c | c in b && c !in f
  }

  /** What the heap records about one block, and about the block after it. */
  lemma BlockFacts(m: seq<byte>, b: BlockMap, f: set<int>, fl: seq<int>, first: int, start: int, limit: int, a: int)
    requires WellFormed(m, b, f, fl, first, start, limit) && a in b
    ensures Separate(b) && Tagged(m, b, f) && 0 < start <= a && End(b, a) <= limit <= |m| <= UINT32
    ensures Linked(m, fl, first) && forall x :: x in fl <==> x in f
    ensures Word(m, a) == Tag(b[a], a in f) && RealSize(Word(m, a)) == b[a] && (FreeFlag(Word(m, a)) <==> a in f)
    ensures b[a] >= 16 && b[a] % 16 == 0
    ensures a in f ==> End(b, a) !in f
    ensures End(b, a) in b ==>
      && 0 <= End(b, a) && RealSize(Word(m, End(b, a))) == b[End(b, a)]
      && (FreeFlag(Word(m, End(b, a))) <==> End(b, a) in f)
  {
    hide Word, HasNext, HasPrev;
    TagParts(b[a], a in f);
    if a in f {
      assert Lonely(b, f, a);
    }
    if End(b, a) in b {
      TagParts(b[End(b, a)], End(b, a) in f);
    }
  }

  lemma TakeLive(b: BlockMap, f: set<int>, a: int)
    requires a in b
    ensures LiveSet(b, f - {a}) == LiveSet(b, f) + {a}
  {
  }

  lemma SplitLive(b: BlockMap, f: set<int>, a: int, size: int)
    requires a in b && Separate(b) && 16 <= size <= b[a] - 32 && size % 16 == 0
    ensures LiveSet(Split(b, a, size), f - {a} + {a + OVERHEAD + size}) == LiveSet(b, f) + {a}
  {
    SplitSeparates(b, a, size);
  }

  /** Cutting the last block moves `tail` to the remainder; cutting another one leaves it. */
  lemma SplitEnds(b: BlockMap, start: int, limit: int, head: int, tail: int, a: int, size: int)
    requires Ends(b, start, limit, head, tail) && a in b && a < End(b, a) <= limit && Separate(b) && start <= a
    requires 16 <= size <= b[a] - 32 && size % 16 == 0
    ensures var n, b' := a + OVERHEAD + size, Split(b, a, size);
      forall t :: Ends(b', start, limit, head, t) <==> t == if a == tail then n else tail
  {
    SplitSeparates(b, a, size);
  }

  /** Merging the last two blocks moves `tail` back to the first of them. */
  lemma MergeEnds(b: BlockMap, start: int, limit: int, head: int, tail: int, a: int)
    requires Ends(b, start, limit, head, tail) && a in b && End(b, a) in b && End(b, a) < limit && Separate(b)
    requires start <= a
    ensures Ends(Merge(b, a), start, limit, head, if tail == End(b, a) then a else tail)
  {
  }

  lemma MergeLive(b: BlockMap, f: set<int>, a: int)
    requires Separate(b) && a in b && End(b, a) in b
    ensures a !in f && End(b, a) in f ==> LiveSet(Merge(b, a), f - {End(b, a)}) == LiveSet(b, f)
    ensures a !in f && End(b, a) in f ==> LiveSet(Merge(b, a), f - {End(b, a)} + {a}) == LiveSet(b, f) - {a}
    ensures a in f && End(b, a) !in f ==> LiveSet(Merge(b, a), f) == LiveSet(b, f) - {End(b, a)}
    ensures a in f && End(b, a) !in f ==> LiveSet(Merge(b, a), f - {a}) == LiveSet(b, f) - {End(b, a)} + {a}
  {
  }

  lemma MergeBothLive(b: BlockMap, f: set<int>, p: int)
    requires Separate(b) && p in f && p in b && End(b, p) in b && End(b, p) !in f
    requires End(b, End(b, p)) in b && End(b, End(b, p)) in f
    ensures p < End(b, p) < End(b, End(b, p))
    ensures LiveSet(MergeBoth(b, p), f - {End(b, End(b, p))}) == LiveSet(b, f) - {End(b, p)}
  {
  }

  lemma MergeBothEnds(b: BlockMap, start: int, limit: int, head: int, tail: int, p: int)
    requires Ends(b, start, limit, head, tail) && Separate(b) && start <= p && p in b && End(b, p) in b
    requires p < End(b, p) < End(b, End(b, p)) < limit && End(b, End(b, p)) in b
    ensures Ends(MergeBoth(b, p), start, limit, head, if tail == End(b, End(b, p)) then p else tail)
  {
    MergeEnds(b, start, limit, head, tail, p);
    MergeSeparates(b, p);
    MergeEnds(Merge(b, p), start, limit, head, tail, p);
  }

  lemma MoreLinks(m: seq<byte>, m': seq<byte>, fl: seq<int>, nodes: seq<int>)
    requires OnlyLinks(m, m', fl) && forall x :: x in fl ==> x in nodes
    ensures OnlyLinks(m, m', nodes)
  {
  }

  lemma LiveHas(b: BlockMap, f: set<int>, a: int)
    requires a in b && a !in f
    ensures LiveSet(b, f) + {a} == LiveSet(b, f)
  {
  }

  lemma ShiftLive(b: BlockMap, f: set<int>, a: int, size: int)
    requires Separate(b) && a in b && a !in f && End(b, a) in b && End(b, a) in f
    requires 16 <= size <= b[a] - 32 && size % 16 == 0
    ensures LiveSet(Split(Merge(b, a), a, size), f - {End(b, a)} + {a + OVERHEAD + size}) == LiveSet(b, f)
  {
    MergeLive(b, f, a);
    MergeSeparates(b, a);
    SplitLive(Merge(b, a), f - {End(b, a)}, a, size);
  }

  lemma ShiftEnds(b: BlockMap, start: int, limit: int, head: int, tail: int, a: int, size: int)
    requires Ends(b, start, limit, head, tail) && Separate(b) && start <= a && a in b && End(b, a) in b
    requires End(b, a) < End(b, End(b, a)) <= limit && 16 <= size <= b[a] - 32 && size % 16 == 0
    ensures var tail' := if tail == End(b, a) then a + OVERHEAD + size else tail;
      Ends(Split(Merge(b, a), a, size), start, limit, head, tail')
  {
    MergeEnds(b, start, limit, head, tail, a);
    MergeSeparates(b, a);
    SplitEnds(Merge(b, a), start, limit, head, if tail == End(b, a) then a else tail, a, size);
  }

  /** Reading the neighbours' free flags tells which of them are free blocks. */
  lemma Neighbours(m: seq<byte>, b: BlockMap, f: set<int>, fl: seq<int>, first: int, start: int, limit: int, a: int,
                   prev: int, next: int)
    requires WellFormed(m, b, f, fl, first, start, limit) && a in b
    requires if a == start then prev == 0 else prev in b && End(b, prev) == a
    requires if End(b, a) == limit then next == 0 else next == End(b, a) && next in b
    ensures prev == 0 || (0 < prev <= |m| - 4 && (FreeFlag(Word(m, prev)) <==> prev in f))
    ensures next == 0 || (0 < next <= |m| - 4 && (FreeFlag(Word(m, next)) <==> next in f))
    ensures prev == 0 || prev !in f ==> forall p :: p in f ==> p in b && End(b, p) != a
    ensures next == 0 || next !in f ==> End(b, a) !in f
  {
    hide Word, HasNext, HasPrev, Linked;
    if prev != 0 {
      TagParts(b[prev], prev in f);
    }
    if next != 0 {
      TagParts(b[next], next in f);
    }
  }

  /** Nothing ends where the heap starts, and nothing starts where it ends. */
  lemma EdgeBlocks(m: seq<byte>, b: BlockMap, f: set<int>, fl: seq<int>, first: int, start: int, limit: int, a: int)
    requires WellFormed(m, b, f, fl, first, start, limit) && a in b
    ensures a == start ==> forall c :: c in b ==> End(b, c) != a
    ensures End(b, a) == limit ==> End(b, a) !in b
    ensures 0 !in b
  {
    hide Word, Linked, Tagged, Coalesced, HasNext, HasPrev;
  }

  lemma SameBytes(m: seq<byte>, m': seq<byte>, lo: int, hi: int)
    requires Same(m, m', lo, hi) && 0 <= lo <= hi <= |m| == |m'|
    ensures m'[lo..hi] == m[lo..hi]
  {
  }

  lemma PrevWasFree(m: seq<byte>, b: BlockMap, f: set<int>, m': seq<byte>, b': BlockMap, f': set<int>, curr: int,
                    prev: int)
    requires LiveKept(m, b, f, m', b', f', {curr} + {prev}) && prev in f
    ensures LiveKept(m, b, f, m', b', f', {curr})
  {
    LiveKeptLess(m, b, f, m', b', f', {curr} + {prev}, {curr});
  }

  /** Although the size word carries the free bit, comparing it decides the fit. */
  lemma FitsWord(w: int, have: int, size: int)
    requires w == have + 1 && have % 16 == 0 && size % 16 == 0
    ensures w >= RealSize(size) && FreeFlag(w) <==> have >= size
  {
    TagParts(have, true);
    TagParts(size, false);
  }

  /** Nothing starts at the end of the heap or behind it. */
  lemma PastHeap(m: seq<byte>, b: BlockMap, f: set<int>, fl: seq<int>, first: int, start: int, limit: int, a: int)
    requires WellFormed(m, b, f, fl, first, start, limit) && limit <= a
    ensures a !in b
  {
    hide Word, Linked, Tagged, Coalesced, HasNext, HasPrev;
  }

  class Heap {
    const start: int  // heap_start
    var mem: seq<byte>
    var head: int
    var tail: int
    var freelist: int

    // The blocks, the free ones among them, and the freelist in order.
    ghost var b: BlockMap
    ghost var f: set<int>
    ghost var fl: seq<int>

    ghost predicate Ok(limit: int)
      reads this
    {
      WellFormed(mem, b, f, fl, freelist, start, limit)
    }

    ghost predicate Valid(limit: int)
      reads this
    {
      Ok(limit) && Ends(b, start, limit, head, tail)
    }

    constructor (start: int, memory: seq<byte>)
      requires 0 < start <= |memory| <= UINT32
      ensures Valid(start) && this.start == start && mem == memory && b == map[] && f == {}
    {
      this.start, mem := start, memory;
      head, tail, freelist := 0, 0, 0;
      b, f, fl := map[], {}, [];
    }

    method GetPrev(n: int, ghost limit: int) returns (r: int)
      requires Valid(limit) && n in b
      ensures if n == start then r == 0 else r in b && End(b, r) == n
    {
      hide Word, Linked, Coalesced;
      if n == head {
        return 0;
      }
      assert HasPrev(b, start, n);
      ghost var p :| p in b && End(b, p) == n;
      var size := RealSize(Word(mem, n - TRAILER));
      r := n - OVERHEAD - size;
      TagParts(b[p], p in f);
    }

    method GetNext(n: int, ghost limit: int) returns (r: int)
      requires Valid(limit) && n in b
      ensures if End(b, n) == limit then r == 0 else r == End(b, n) && r in b
    {
      hide Word, Linked, Coalesced;
      if n == tail {
        return 0;
      }
      assert HasNext(b, limit, n);
      TagParts(b[n], n in f);
      r := n + OVERHEAD + RealSize(Word(mem, n));
    }

    /** isFree: NULL is not free. */
    predicate IsFree(n: int)
      requires n == 0 || 0 <= n <= |mem| - 4
      reads this
    {
      n != 0 && FreeFlag(Word(mem, n))
    }

    predicate DoesItFit(n: int, size: int)
      requires 0 <= n <= |mem| - 4
      reads this
    {
      Word(mem, n) >= RealSize(size) && IsFree(n)
    }

    /** Every block before place `k` of the free list that holds `size` bytes is larger than the one there. */
    ghost predicate FitsBefore(k: int, size: int)
      requires 0 <= k < |fl| && fl[k] in b
      reads this
    {
      forall j :: 0 <= j < k ==> fl[j] in b && (b[fl[j]] >= size ==> b[fl[j]] > b[fl[k]])
    }

    /** The smallest free block that fits, although the words compared carry the free flag. */
    method BestFit(size: int, ghost limit: int) returns (best: int)
      requires Ok(limit) && size >= 0 && size % 16 == 0
      ensures best == 0 ==> forall x :: x in f ==> x in b && b[x] < size
      ensures best != 0 ==>
                && best in f && best in b && b[best] >= size
                && forall x :: x in f ==> x in b && (b[x] >= size ==> b[best] <= b[x])
      // Of several that fit as well it is the first in the list.
      ensures best != 0 ==> exists k :: 0 <= k < |fl| && fl[k] == best && FitsBefore(k, size)
    {
      hide Word, Tiled, Linked, Tagged, Coalesced, RealSize, FreeFlag;
      var curr := freelist;
      best := 0;
      ghost var i, k := 0, 0;
      assert freelist == After(fl, -1) by { Entry(mem, fl, freelist); }
      while curr != 0
        invariant 0 <= i <= |fl| && curr == After(fl, i - 1)
        invariant best == 0 ==> forall j :: 0 <= j < i ==> fl[j] in b && b[fl[j]] < size
        invariant best != 0 ==>
            && k < i && fl[k] == best && best in b && b[best] >= size && FitsBefore(k, size)
            && forall j :: 0 <= j < i ==> fl[j] in b && (b[fl[j]] >= size ==> b[best] <= b[fl[j]])
        decreases |fl| - i
      {
        FreeNode(mem, b, f, fl, freelist, start, limit, i);
        FitsWord(Word(mem, curr), b[curr], size);
        if best != 0 {
          FreeNode(mem, b, f, fl, freelist, start, limit, k);
        }
        if DoesItFit(curr, size) {
          if best == 0 || Word(mem, curr) < Word(mem, best) {
            best := curr;
            k := i;
          }
        }
        curr := Word(mem, curr + NEXT);
        i := i + 1;
      }
      if i < |fl| {
        FreeNode(mem, b, f, fl, freelist, start, limit, i);
      }
      forall x | x in f
        ensures exists j :: 0 <= j < |fl| && fl[j] == x
      {
        assert x in fl;
      }
    }

    method RemoveNode(x: int)
      requires Linked(mem, fl, freelist) && x in fl && |mem| <= UINT32
      modifies `mem, `freelist, `fl
      ensures |mem| == |old(mem)| && Linked(mem, fl, freelist) && OnlyLinks(old(mem), mem, old(fl))
      ensures forall y :: y in fl <==> y in old(fl) && y != x
    {
      hide Word, Linked, OnlyLinks, Without, Spaced, Before, After;
      ghost var m, k :| m == mem && 0 <= k < |fl| && fl[k] == x;
      NodeLinks(m, fl, freelist, k);
      UnlinkRemoves(m, fl, freelist, k);
      WithoutMembers(fl, |m|, k);
      var p, n := Word(mem, x + PREV), Word(mem, x + NEXT);
      if p != 0 {
        mem := Put(mem, p + NEXT, n);
        if n != 0 {
          mem := Put(mem, n + PREV, p);
        }
      } else {
        freelist := n;
        if freelist != 0 {
          mem := Put(mem, freelist + PREV, 0);
        }
      }
      assert mem == Unlink(m, fl, k);
      fl := Without(fl, k);
    }

    method AddNode(x: int)
      requires Linked(mem, fl, freelist) && 0 < x <= |mem| - OVERHEAD && |mem| <= UINT32
      requires forall y :: y in fl ==> y + OVERHEAD <= x || x + OVERHEAD <= y
      modifies `mem, `freelist, `fl
      ensures |mem| == |old(mem)| && Linked(mem, fl, freelist) && OnlyLinks(old(mem), mem, [x] + old(fl))
      ensures fl == [x] + old(fl)
    {
      hide Word, OnlyLinks;
      PushInserts(mem, fl, freelist, x);
      mem := Put(mem, x + NEXT, freelist);
      if freelist != 0 {
        mem := Put(mem, freelist + PREV, x);
      }
      freelist := x;
      mem := Put(mem, freelist + PREV, 0);
      fl := [x] + fl;
    }

    /** malloc, first branch: hand out `best`, giving back what is left over when that is worth a block. */
    method TakeBest(best: int, size: int, ghost limit: int)
      requires Valid(limit) && best in f && best in b
      requires 16 <= size <= b[best] && size % 16 == 0
      modifies this
      ensures |mem| == |old(mem)|
      ensures Valid(limit)
      ensures best in b && best !in f && size <= b[best] <= size + 16
      ensures LiveKept(old(mem), old(b), old(f), mem, b, f, {})
      ensures LiveSet(b, f) == old(LiveSet(b, f)) + {best}
    {
      hide Word, WellFormed, LiveKept, LiveSet, Linked, Tagged, Separate;
      BlockFacts(mem, b, f, fl, freelist, start, limit, best);
      var next := GetNext(best, limit);
      var chunk := RealSize(Word(mem, best)) + OVERHEAD;
      var rest := chunk - (size + OVERHEAD);
      if rest < 8 + OVERHEAD {
        TakeAll(best, limit);
      } else {
        if next != 0 {
          BlockFacts(mem, b, f, fl, freelist, start, limit, next);
        }
        if best != tail && IsFree(next) {
          assert false;  // two free neighbours
        }
        TakePart(best, size, limit);
      }
    }

    method TakeAll(best: int, ghost limit: int)
      requires Valid(limit) && best in f && best in b
      modifies this
      ensures |mem| == |old(mem)|
      ensures Valid(limit) && b == old(b) && f == old(f) - {best}
      ensures LiveKept(old(mem), old(b), old(f), mem, b, f, {})
      ensures LiveSet(b, f) == old(LiveSet(b, f)) + {best}
    {
      hide Word, WellFormed, Staged, Confined, OnlyLinks, Linked, LiveKept, Tagged, Separate, LiveSet, Same, Stamp,
        Tag, RealSize;
      BlockFacts(mem, b, f, fl, freelist, start, limit, best);
      TakeWhole(mem, b, f, fl, freelist, start, limit, best);
      TakeLive(b, f, best);
      mem := Stamp(mem, best, RealSize(Word(mem, best)), false);
      f := f - {best};
      ghost var m1 := mem;
      RemoveNode(best);
      Finish(m1, mem, b, f, old(fl), old(freelist), old(fl), fl, freelist, start, limit);
      KeepLive(old(mem), m1, mem, old(b), old(f), b, f, old(fl), best, End(b, best), best);
      LiveKeptLess(old(mem), old(b), old(f), mem, b, f, {best}, {});
    }

    method TakePart(best: int, size: int, ghost limit: int)
      requires Valid(limit) && best in f && best in b
      requires 16 <= size <= b[best] - 32 && size % 16 == 0
      modifies this
      ensures |mem| == |old(mem)|
      ensures Valid(limit) && best in b && best !in f && b[best] == size
      ensures LiveKept(old(mem), old(b), old(f), mem, b, f, {})
      ensures LiveSet(b, f) == old(LiveSet(b, f)) + {best}
    {
      hide Word, WellFormed, Staged, Confined, OnlyLinks, Linked, LiveKept, Tagged, Separate, LiveSet, Same, Stamp,
        Tag, RealSize;
      BlockFacts(mem, b, f, fl, freelist, start, limit, best);
      CutOff(mem, b, f, fl, freelist, start, limit, best, size);
      CutOffConfined(mem, b, f, fl, freelist, start, limit, best, size);
      SplitLive(b, f, best, size);
      SplitEnds(b, start, limit, head, tail, best, size);
      var n, rest := best + OVERHEAD + size, RealSize(Word(mem, best)) - size;
      ghost var nodes := [n] + fl;
      assert best in fl && best in nodes && best != n;
      mem := Stamp(mem, best, size, false);
      mem := Stamp(mem, n, rest - OVERHEAD, true);
      if best == tail {
        tail := n;
      }
      b, f := Split(b, best, size), f - {best} + {n};
      ghost var m1 := mem;
      AddNode(n);
      ghost var m2 := mem;
      RemoveNode(best);
      TwoLinks(m1, m2, mem, nodes);
      Finish(m1, mem, b, f, old(fl), old(freelist), nodes, fl, freelist, start, limit);
      KeepLive(old(mem), m1, mem, old(b), old(f), b, f, nodes, best, End(old(b), best), best);
      LiveKeptLess(old(mem), old(b), old(f), mem, b, f, {best}, {});
    }

    /** Returns a block to the heap, merged with whichever neighbours are free. */
    method Free(ptr: int, ghost limit: int)
      requires Valid(limit) && ptr - HEADER in b && ptr - HEADER !in f
      modifies this
      ensures |mem| == |old(mem)|
      ensures Valid(limit)
      ensures LiveKept(old(mem), old(b), old(f), mem, b, f, {ptr - HEADER})
      ensures LiveSet(b, f) == old(LiveSet(b, f)) - {ptr - HEADER}
    {
      hide Word, WellFormed, LiveKept, LiveSet;
      var curr := ptr - HEADER;
      var prev := GetPrev(curr, limit);
      var next := GetNext(curr, limit);
      Neighbours(mem, b, f, fl, freelist, start, limit, curr, prev, next);
      if IsFree(prev) && IsFree(next) {
        FreeBoth(prev, curr, next, limit);
      } else if IsFree(prev) {
        FreeIntoPrev(prev, curr, limit);
      } else if IsFree(next) {
        FreeWithNext(curr, next, limit);
      } else {
        FreeAlone(curr, limit);
      }
    }

    method FreeBoth(prev: int, curr: int, next: int, ghost limit: int)
      requires Valid(limit) && prev in f && prev in b && End(b, prev) == curr && curr in b && curr !in f
      requires End(b, curr) == next && next in f
      modifies this
      ensures |mem| == |old(mem)|
      ensures Valid(limit)
      ensures LiveKept(old(mem), old(b), old(f), mem, b, f, {curr})
      ensures LiveSet(b, f) == old(LiveSet(b, f)) - {curr}
    {
      hide Word, WellFormed, Staged, Confined, OnlyLinks, Linked, LiveKept, Tagged, Separate, LiveSet, Same, Stamp,
        Tag, RealSize;
      ReleaseBoth(mem, b, f, fl, freelist, start, limit, prev);
      ReleaseBothConfined(mem, b, f, fl, freelist, start, limit, prev);
      BlockFacts(mem, b, f, fl, freelist, start, limit, prev);
      BlockFacts(mem, b, f, fl, freelist, start, limit, curr);
      BlockFacts(mem, b, f, fl, freelist, start, limit, next);
      MergeBothLive(b, f, prev);
      MergeBothEnds(b, start, limit, head, tail, prev);
      var size := RealSize(Word(mem, prev)) + 2 * OVERHEAD + RealSize(Word(mem, curr)) + RealSize(Word(mem, next));
      mem := Stamp(mem, prev, size, true);
      if tail == next {
        tail := prev;
      }
      b, f := MergeBoth(b, prev), f - {next};
      ghost var m1 := mem;
      RemoveNode(next);
      Finish(m1, mem, b, f, old(fl), old(freelist), old(fl), fl, freelist, start, limit);
      KeepLive(old(mem), m1, mem, old(b), old(f), b, f, old(fl), prev, End(old(b), next), curr);
    }

    method FreeIntoPrev(prev: int, curr: int, ghost limit: int)
      requires Valid(limit) && prev in f && prev in b && End(b, prev) == curr && curr in b && curr !in f
      requires End(b, curr) !in f
      modifies this
      ensures |mem| == |old(mem)|
      ensures Valid(limit)
      ensures LiveKept(old(mem), old(b), old(f), mem, b, f, {curr})
      ensures LiveSet(b, f) == old(LiveSet(b, f)) - {curr}
    {
      hide Word, WellFormed, Staged, Confined, Linked, LiveKept, Tagged, Separate, LiveSet, Same, Stamp, Tag, RealSize;
      AbsorbedByPrev(mem, b, f, fl, freelist, start, limit, prev, true);
      AbsorbedByPrevConfined(mem, b, f, fl, freelist, start, limit, prev, true);
      BlockFacts(mem, b, f, fl, freelist, start, limit, prev);
      BlockFacts(mem, b, f, fl, freelist, start, limit, curr);
      MergeLive(b, f, prev);
      MergeEnds(b, start, limit, head, tail, prev);
      mem := Stamp(mem, prev, RealSize(Word(mem, prev)) + OVERHEAD + RealSize(Word(mem, curr)), true);
      if tail == curr {
        tail := prev;
      }
      b := Merge(b, prev);
      Finish(mem, mem, b, f, fl, freelist, fl, fl, freelist, start, limit);
      KeepLive(old(mem), mem, mem, old(b), f, b, f, fl, prev, End(old(b), curr), curr);
    }

    method FreeWithNext(curr: int, next: int, ghost limit: int)
      requires Valid(limit) && curr in b && curr !in f && End(b, curr) == next && next in f
      requires forall p :: p in f ==> p in b && End(b, p) != curr
      modifies this
      ensures |mem| == |old(mem)|
      ensures Valid(limit)
      ensures LiveKept(old(mem), old(b), old(f), mem, b, f, {curr})
      ensures LiveSet(b, f) == old(LiveSet(b, f)) - {curr}
    {
      hide Word, WellFormed, Staged, Confined, OnlyLinks, Linked, LiveKept, Tagged, Separate, LiveSet, Same, Stamp,
        Tag, RealSize;
      AbsorbNext(mem, b, f, fl, freelist, start, limit, curr, true);
      AbsorbNextConfined(mem, b, f, fl, freelist, start, limit, curr, true);
      BlockFacts(mem, b, f, fl, freelist, start, limit, curr);
      BlockFacts(mem, b, f, fl, freelist, start, limit, next);
      MergeLive(b, f, curr);
      MergeEnds(b, start, limit, head, tail, curr);
      ghost var nodes := [curr] + fl;
      mem := Stamp(mem, curr, RealSize(Word(mem, curr)) + OVERHEAD + RealSize(Word(mem, next)), true);
      if tail == next {
        tail := curr;
      }
      b, f := Merge(b, curr), f - {next} + {curr};
      ghost var m1 := mem;
      RemoveNode(next);
      ghost var m2 := mem;
      MoreLinks(m1, m2, old(fl), nodes);
      AddNode(curr);
      MoreLinks(m2, mem, fl, nodes);
      TwoLinks(m1, m2, mem, nodes);
      Finish(m1, mem, b, f, old(fl), old(freelist), nodes, fl, freelist, start, limit);
      KeepLive(old(mem), m1, mem, old(b), old(f), b, f, nodes, curr, End(old(b), next), curr);
    }

    method FreeAlone(curr: int, ghost limit: int)
      requires Valid(limit) && curr in b && curr !in f && End(b, curr) !in f
      requires forall p :: p in f ==> p in b && End(b, p) != curr
      modifies this
      ensures |mem| == |old(mem)|
      ensures Valid(limit)
      ensures LiveKept(old(mem), old(b), old(f), mem, b, f, {curr})
      ensures LiveSet(b, f) == old(LiveSet(b, f)) - {curr}
    {
      hide Word, WellFormed, Staged, Confined, OnlyLinks, Linked, LiveKept, Tagged, Separate;
      ReleaseAlone(mem, b, f, fl, freelist, start, limit, curr);
      ReleaseAloneConfined(mem, b, f, fl, freelist, start, limit, curr);
      BlockFacts(mem, b, f, fl, freelist, start, limit, curr);
      ghost var nodes := [curr] + fl;
      mem := Stamp(mem, curr, RealSize(Word(mem, curr)), true);
      f := f + {curr};
      ghost var m1 := mem;
      AddNode(curr);
      Finish(m1, mem, b, f, old(fl), old(freelist), nodes, fl, freelist, start, limit);
      KeepLive(old(mem), m1, mem, old(b), old(f), b, f, nodes, curr, End(b, curr), curr);
    }

    /** malloc, second branch: a new block at the old end of the heap. */
    method Place(ret: int, size: int)
      requires Valid(ret) && size >= 16 && size % 16 == 0 && ret + OVERHEAD + size <= |mem|
      modifies this
      ensures |mem| == |old(mem)|
      ensures Valid(ret + OVERHEAD + size) && ret !in old(b) && b == old(b)[ret := size] && f == old(f) && ret !in f
      ensures LiveKept(old(mem), old(b), old(f), mem, b, f, {})
      ensures LiveSet(b, f) == old(LiveSet(b, f)) + {ret}
    {
      hide Word, WellFormed, LiveKept;
      Append(mem, b, f, fl, freelist, start, ret, size);
      AppendKeepsLive(mem, b, f, fl, freelist, start, ret, size);
      if head == 0 {
        head := ret;
      }
      tail := ret;
      mem := Stamp(mem, ret, size, false);
      b := b[ret := size];
    }

    /** memcpy: bytes move one by one from the lowest address up. */
    method CopyForward(dst: int, src: int, n: int)
      requires 0 <= dst && 0 <= src && 0 <= n && dst + n <= |mem| && src + n <= |mem|
      requires dst <= src || src + n <= dst
      modifies `mem
      ensures Within(old(mem), mem, dst, dst + n)
      ensures mem[dst..dst + n] == old(mem)[src..src + n]
    {
      var i := 0;
      while i < n
        invariant 0 <= i <= n && |mem| == |old(mem)|
        invariant forall k :: 0 <= k < |mem| && (k < dst || dst + i <= k) ==> mem[k] == old(mem)[k]
        invariant mem[dst..dst + i] == old(mem)[src..src + i]
      {
        ghost var m := mem;
        mem := mem[dst + i := mem[src + i]];
        assert mem[dst..dst + i + 1] == m[dst..dst + i] + [m[src + i]];
        assert old(mem)[src..src + i + 1] == old(mem)[src..src + i] + [m[src + i]];
        i := i + 1;
      }
    }

    method GrowIntoNext(curr: int, next: int, ghost limit: int)
      requires Valid(limit) && curr in b && curr !in f && End(b, curr) == next && next in f
      modifies this
      ensures |mem| == |old(mem)|
      ensures Valid(limit) && curr in b && curr !in f && next in old(b) && b[curr] == old(b[curr] + OVERHEAD + b[next])
      ensures b == (old(b) - {next})[curr := b[curr]] && f == old(f) - {next}
      ensures Same(old(mem), mem, curr + HEADER, curr + HEADER + old(b[curr]))
      ensures LiveKept(old(mem), old(b), old(f), mem, b, f, {curr})
      ensures LiveSet(b, f) == old(LiveSet(b, f))
    {
      hide Word, WellFormed, Staged, Confined, OnlyLinks, Linked, LiveKept, Tagged, LiveSet, Separate, Same, Stamp,
        Tag, RealSize;
      AbsorbNext(mem, b, f, fl, freelist, start, limit, curr, false);
      AbsorbNextConfined(mem, b, f, fl, freelist, start, limit, curr, false);
      LinksOutside(mem, b, f, fl, freelist, start, limit, curr);
      BlockFacts(mem, b, f, fl, freelist, start, limit, curr);
      BlockFacts(mem, b, f, fl, freelist, start, limit, next);
      MergeLive(b, f, curr);
      MergeEnds(b, start, limit, head, tail, curr);
      ghost var nodes := [curr] + fl;
      mem := Stamp(mem, curr, RealSize(Word(mem, curr)) + OVERHEAD + RealSize(Word(mem, next)), false);
      if tail == next {
        tail := curr;
      }
      b, f := Merge(b, curr), f - {next};
      ghost var m1 := mem;
      RemoveNode(next);
      RangeKept(old(mem), m1, mem, old(fl), curr + HEADER, curr + HEADER + old(b[curr]));
      MoreLinks(m1, mem, old(fl), nodes);
      Finish(m1, mem, b, f, old(fl), old(freelist), nodes, fl, freelist, start, limit);
      KeepLive(old(mem), m1, mem, old(b), old(f), b, f, nodes, curr, End(old(b), next), curr);
    }

    method GrowIntoPrev(prev: int, curr: int, ghost limit: int)
      requires Valid(limit) && prev in f && prev in b && End(b, prev) == curr && curr in b && curr !in f
      modifies this
      ensures |mem| == |old(mem)|
      ensures Valid(limit) && prev in b && prev !in f && b[prev] == old(b[prev] + OVERHEAD + b[curr])
      ensures b == (old(b) - {curr})[prev := b[prev]] && f == old(f) - {prev}
      ensures 0 <= prev && 0 <= curr && prev + HEADER + old(b[curr]) <= |mem| == |old(mem)|
      ensures curr + HEADER + old(b[curr]) <= |mem|
      ensures 0 <= old(b[curr])
      ensures mem[prev + HEADER..prev + HEADER + old(b[curr])] == old(mem)[curr + HEADER..curr + HEADER + old(b[curr])]
      ensures LiveKept(old(mem), old(b), old(f), mem, b, f, {curr})
      ensures LiveSet(b, f) == old(LiveSet(b, f)) - {curr} + {prev}
    {
      hide Word, WellFormed, LiveKept, Tagged, LiveSet, Separate, Linked, Same, RealSize;
      BlockFacts(mem, b, f, fl, freelist, start, limit, prev);
      BlockFacts(mem, b, f, fl, freelist, start, limit, curr);
      var size := RealSize(Word(mem, curr));
      ghost var lo, hi := curr + HEADER, curr + HEADER + size;
      ghost var m0, b0, f0 := mem, b, f;
      JoinPrev(prev, curr, size, limit);
      ghost var m2 := mem;
      CopyForward(prev + HEADER, curr + HEADER, size);
      SameBytes(m0, m2, lo, hi);
      OwnerWrites(m2, mem, b, f, fl, freelist, start, limit, prev);
      LiveKeptTrans(m0, b0, f0, m2, b, f, mem, b, f, {curr}, {prev});
      PrevWasFree(m0, b0, f0, mem, b, f, curr, prev);
    }

    /** The predecessor takes over the block, which still lies where it was. */
    method JoinPrev(prev: int, curr: int, size: int, ghost limit: int)
      requires Valid(limit) && prev in f && prev in b && End(b, prev) == curr && curr in b && curr !in f
      requires size == b[curr]
      modifies this
      ensures |mem| == |old(mem)|
      ensures Valid(limit) && prev in b && prev !in f && b[prev] == old(b[prev] + OVERHEAD + b[curr])
      ensures b == (old(b) - {curr})[prev := b[prev]] && f == old(f) - {prev}
      ensures Same(old(mem), mem, curr + HEADER, curr + HEADER + size)
      ensures LiveKept(old(mem), old(b), old(f), mem, b, f, {curr})
      ensures LiveSet(b, f) == old(LiveSet(b, f)) - {curr} + {prev}
    {
      hide Word, WellFormed, Staged, Confined, OnlyLinks, Linked, LiveKept, Tagged, LiveSet, Separate, Same, Stamp,
        Tag, RealSize;
      AbsorbedByPrev(mem, b, f, fl, freelist, start, limit, prev, false);
      AbsorbedByPrevConfined(mem, b, f, fl, freelist, start, limit, prev, false);
      LinksOutside(mem, b, f, fl, freelist, start, limit, curr);
      BlockFacts(mem, b, f, fl, freelist, start, limit, prev);
      BlockFacts(mem, b, f, fl, freelist, start, limit, curr);
      MergeLive(b, f, prev);
      MergeEnds(b, start, limit, head, tail, prev);
      mem := Stamp(mem, prev, size + OVERHEAD + RealSize(Word(mem, prev)), false);
      if tail == curr {
        tail := prev;
      }
      b, f := Merge(b, prev), f - {prev};
      ghost var m1 := mem;
      RemoveNode(prev);
      RangeKept(old(mem), m1, mem, old(fl), curr + HEADER, curr + HEADER + size);
      Finish(m1, mem, b, f, old(fl), old(freelist), old(fl), fl, freelist, start, limit);
      KeepLive(old(mem), m1, mem, old(b), old(f), b, f, old(fl), prev, End(old(b), curr), curr);
    }

    /** The end of a live block goes to the free block behind it. */
    method ShrinkIntoNext(curr: int, next: int, size: int, ghost limit: int)
      requires Valid(limit) && curr in b && curr !in f && End(b, curr) == next && next in f
      requires 16 <= size <= b[curr] - 32 && size % 16 == 0
      modifies this
      ensures |mem| == |old(mem)|
      ensures Valid(limit) && curr in b && curr !in f && b[curr] == size && next in old(b)
      ensures var n := curr + OVERHEAD + size;
        b == (old(b) - {next})[curr := size][n := old(End(b, next)) - n - OVERHEAD] && f == old(f) - {next} + {n}
      ensures Same(old(mem), mem, curr + HEADER, curr + HEADER + size)
      ensures LiveKept(old(mem), old(b), old(f), mem, b, f, {curr})
      ensures LiveSet(b, f) == old(LiveSet(b, f))
    {
      hide Word, WellFormed, Staged, Confined, OnlyLinks, Linked, LiveKept, Tagged, LiveSet, Separate, Same, Stamp,
        Tag, RealSize;
      Shift(mem, b, f, fl, freelist, start, limit, curr, size);
      ShiftConfined(mem, b, f, fl, freelist, start, limit, curr, size);
      LinksOutside(mem, b, f, fl, freelist, start, limit, curr);
      BlockFacts(mem, b, f, fl, freelist, start, limit, curr);
      BlockFacts(mem, b, f, fl, freelist, start, limit, next);
      ShiftLive(b, f, curr, size);
      ShiftEnds(b, start, limit, head, tail, curr, size);
      var n, rest := curr + OVERHEAD + size, RealSize(Word(mem, curr)) - size;
      var nextSize := RealSize(Word(mem, next));
      ghost var nodes := [n] + fl;
      mem := Stamp(mem, curr, size, false);
      mem := Stamp(mem, n, rest + nextSize, true);
      b, f := Split(Merge(b, curr), curr, size), f - {next} + {n};
      ghost var m1 := mem;
      RemoveNode(next);
      ghost var m2 := mem;
      MoreLinks(m1, m2, old(fl), nodes);
      if tail == next {
        tail := n;
      }
      AddNode(n);
      MoreLinks(m2, mem, fl, nodes);
      TwoLinks(m1, m2, mem, nodes);
      RangeKept(old(mem), m1, mem, nodes, curr + HEADER, curr + HEADER + size);
      Finish(m1, mem, b, f, old(fl), old(freelist), nodes, fl, freelist, start, limit);
      KeepLive(old(mem), m1, mem, old(b), old(f), b, f, nodes, curr, End(old(b), next), curr);
    }

    /**
      The end of a live block becomes a free block of its own. `tail` is not updated here, so the
      heap is left valid exactly when the block was not the last one.
     */
    method ShrinkAlone(curr: int, size: int, ghost limit: int)
      requires Valid(limit) && curr in b && curr !in f && End(b, curr) !in f
      requires 16 <= size <= b[curr] - 32 && size % 16 == 0
      modifies this
      ensures |mem| == |old(mem)|
      ensures Ok(limit) && (Valid(limit) <==> old(tail) != curr)
      ensures curr in b && curr !in f && b[curr] == size
      ensures var n := curr + OVERHEAD + size;
        b == old(b)[curr := size][n := old(End(b, curr)) - n - OVERHEAD] && f == old(f) + {n}
      ensures Same(old(mem), mem, curr + HEADER, curr + HEADER + size)
      ensures LiveKept(old(mem), old(b), old(f), mem, b, f, {curr})
      ensures LiveSet(b, f) == old(LiveSet(b, f))
    {
      hide Word, WellFormed, Staged, Confined, OnlyLinks, Linked, LiveKept, Tagged, LiveSet, Separate, Same, Stamp,
        Tag, RealSize;
      CutOff(mem, b, f, fl, freelist, start, limit, curr, size);
      CutOffConfined(mem, b, f, fl, freelist, start, limit, curr, size);
      LinksOutside(mem, b, f, fl, freelist, start, limit, curr);
      BlockFacts(mem, b, f, fl, freelist, start, limit, curr);
      SplitLive(b, f, curr, size);
      LiveHas(b, f, curr);
      SplitEnds(b, start, limit, head, tail, curr, size);
      var n, rest := curr + OVERHEAD + size, RealSize(Word(mem, curr)) - size;
      ghost var nodes := [n] + fl;
      mem := Stamp(mem, curr, size, false);
      mem := Stamp(mem, n, rest - OVERHEAD, true);
      b, f := Split(b, curr, size), f - {curr} + {n};
      ghost var m1 := mem;
      AddNode(n);
      RangeKept(old(mem), m1, mem, nodes, curr + HEADER, curr + HEADER + size);
      Finish(m1, mem, b, f, old(fl), old(freelist), nodes, fl, freelist, start, limit);
      KeepLive(old(mem), m1, mem, old(b), old(f), b, f, nodes, curr, End(old(b), curr), curr);
    }
  }
}
