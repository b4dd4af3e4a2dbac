/** How splitting, merging and flag changes act on the free blocks and on live payloads. */
module HeapSteps {
  import opened Basics
  import opened Memory
  import opened Blocks
  import opened Tags

  // ---- No two free neighbours ----

  /** A live block may become free when neither neighbour is. */
  lemma ReleaseCoalesced(b: BlockMap, f: set<int>, a: int)
    requires Separate(b) && Coalesced(b, f) && a in b && a !in f
    requires End(b, a) !in f && forall p :: p in f ==> End(b, p) != a
    ensures Coalesced(b, f + {a})
  {
    forall c {:trigger Lonely(b, f + {a}, c)} | c in f + {a}
      ensures Lonely(b, f + {a}, c)
    {
      assert c != a ==> Lonely(b, f, c);
    }
  }

  lemma TakeCoalesced(b: BlockMap, f: set<int>, a: int)
    requires Coalesced(b, f)
    ensures Coalesced(b, f - {a})
  {
    forall c {:trigger Lonely(b, f - {a}, c)} | c in f - {a}
      ensures Lonely(b, f - {a}, c)
    {
      assert Lonely(b, f, c);
    }
  }

  /** Merging a block with its free successor, `a` itself being live. */
  lemma MergeCoalesced(b: BlockMap, f: set<int>, a: int)
    requires Separate(b) && Coalesced(b, f) && a in b && a !in f && End(b, a) in f
    ensures Coalesced(Merge(b, a), f - {End(b, a)})
    ensures End(b, End(b, a)) !in f
  {
    var n, b' := End(b, a), Merge(b, a);
    assert Lonely(b, f, n);
    forall c {:trigger Lonely(b', f - {n}, c)} | c in f - {n}
      ensures c in b' && Lonely(b', f - {n}, c)
    {
      assert Lonely(b, f, c);
    }
  }

  /** Merging a free block with its live successor, the result staying free. */
  lemma AbsorbCoalesced(b: BlockMap, f: set<int>, p: int)
    requires Separate(b) && Coalesced(b, f) && p in f && End(b, p) in b
    requires End(b, End(b, p)) !in f
    ensures Coalesced(Merge(b, p), f)
  {
    var n, b' := End(b, p), Merge(b, p);
    assert Lonely(b, f, p);
    forall c {:trigger Lonely(b', f, c)} | c in f
      ensures c in b' && Lonely(b', f, c)
    {
      assert Lonely(b, f, c);
    }
  }

  /** Splitting a block whose successor is not free; the remainder becomes free, `a` is live. */
  lemma SplitCoalesced(b: BlockMap, f: set<int>, a: int, size: int)
    requires Separate(b) && Coalesced(b, f) && a in b && End(b, a) !in f
    requires 16 <= size <= b[a] - 32 && size % 16 == 0
    ensures Coalesced(Split(b, a, size), f - {a} + {a + OVERHEAD + size})
  {
    var n, b', f' := a + OVERHEAD + size, Split(b, a, size), f - {a} + {a + OVERHEAD + size};
    forall c {:trigger Lonely(b', f', c)} | c in f'
      ensures c in b' && Lonely(b', f', c)
    {
      if c != n {
        assert Lonely(b, f, c) && (c < a ==> End(b, c) <= a) && (c > a ==> c >= End(b, a));
      }
    }
  }

  // ---- Live payloads ----

  ghost predicate Same(m: seq<byte>, m': seq<byte>, lo: int, hi: int)
  {
    0 <= lo && hi <= |m| && |m| == |m'| && forall i {:trigger m'[i]} :: lo <= i < hi ==> m'[i] == m[i]
  }

  /** `m'` differs from `m` only inside [lo, hi) and in link fields of `fl` nodes. */
  ghost predicate OnlyWithin(m: seq<byte>, m': seq<byte>, lo: int, hi: int, fl: seq<int>)
  {
    |m| == |m'| && forall i {:trigger m'[i]} :: 0 <= i < |m| && (i < lo || hi <= i) && !InLinks(fl, i) ==> m'[i] == m[i]
  }

  /** Every live block except those in `gone` is still live, with the same size and the same bytes. */
  ghost predicate LiveKept(m: seq<byte>, b: BlockMap, f: set<int>, m': seq<byte>, b': BlockMap, f': set<int>,
                           gone: set<int>)
  {
    forall c :: c in b && c !in f && c !in gone ==>
      c in b' && c !in f' && b'[c] == b[c] && Same(m, m', c + HEADER, c + HEADER + b[c])
  }

  // ---- Whole steps ----

  /** Everything the heap promises about the bytes in [start, limit). */
  ghost predicate WellFormed(m: seq<byte>, b: BlockMap, f: set<int>, fl: seq<int>, first: int, start: int, limit: int)
  {
    && 0 < start && limit <= |m| <= UINT32
    && Tiled(b, start, limit)
    && Coalesced(b, f)
    && Tagged(m, b, f)
    && Linked(m, fl, first)
    && (forall x :: x in fl <==> x in f)
  }

  /** The new tags are in place and the freelist, still the old one, can be updated without touching them. */
  ghost predicate Staged(m: seq<byte>, b: BlockMap, f: set<int>, fl: seq<int>, first: int, nodes: seq<int>,
                         start: int, limit: int)
  {
    && 0 < start && limit <= |m| <= UINT32
    && Tiled(b, start, limit)
    && Coalesced(b, f)
    && Tagged(m, b, f)
    && Linked(m, fl, first)
    && TagsClear(nodes, b)
  }

  lemma Finish(m: seq<byte>, m': seq<byte>, b: BlockMap, f: set<int>, fl: seq<int>, first: int, nodes: seq<int>,
               fl': seq<int>, first': int, start: int, limit: int)
    requires Staged(m, b, f, fl, first, nodes, start, limit) && OnlyLinks(m, m', nodes)
    requires Linked(m', fl', first') && forall x :: x in fl' <==> x in f
    ensures WellFormed(m', b, f, fl', first', start, limit)
  {
    hide Word;
    LinksKeepTags(m, m', nodes, b, f);
  }

  /**
    Between the old heap and the staged one only bytes of [lo, hi) changed, and no live block but
    `gone` is in there.
   */
  ghost predicate Confined(m: seq<byte>, b: BlockMap, f: set<int>, m': seq<byte>, b': BlockMap, f': set<int>,
                           nodes: seq<int>, lo: int, hi: int, gone: int)
  {
    && OnlyWithin(m, m', lo, hi, [])
    && (forall x :: x in nodes ==> (x in f && x in b) || (lo <= x + 4 && x + 12 <= hi))
    && (forall c :: c in b && c !in f && c != gone ==>
          c in b' && c !in f' && b'[c] == b[c] && (End(b, c) <= lo || hi <= c))
  }

  lemma KeepLive(m: seq<byte>, m1: seq<byte>, m': seq<byte>, b: BlockMap, f: set<int>, b': BlockMap, f': set<int>,
                 nodes: seq<int>, lo: int, hi: int, gone: int)
    requires Separate(b) && Tagged(m, b, f)
    requires Confined(m, b, f, m1, b', f', nodes, lo, hi, gone) && OnlyLinks(m1, m', nodes)
    ensures LiveKept(m, b, f, m', b', f', {gone})
  {
    hide Word;
    forall c | c in b && c !in f && c != gone
      ensures Same(m, m', c + HEADER, c + HEADER + b[c])
    {
      forall i | c + HEADER <= i < c + HEADER + b[c]
        ensures !InLinks(nodes, i) && !InLinks([], i)
      {
      }
    }
  }

  lemma TwoLinks(m: seq<byte>, m1: seq<byte>, m2: seq<byte>, nodes: seq<int>)
    requires OnlyLinks(m, m1, nodes) && OnlyLinks(m1, m2, nodes)
    ensures OnlyLinks(m, m2, nodes)
  {
  }

  /** malloc takes a free block whole. */
  lemma TakeWhole(m: seq<byte>, b: BlockMap, f: set<int>, fl: seq<int>, first: int, start: int, limit: int, a: int)
    requires WellFormed(m, b, f, fl, first, start, limit) && a in f
    ensures a in b && 0 <= a && 0 <= b[a] && End(b, a) <= |m|
    ensures var m' := Stamp(m, a, b[a], false);
      && Linked(m', fl, first) && Staged(m', b, f - {a}, fl, first, fl, start, limit)
      && Confined(m, b, f, m', b, f - {a}, fl, a, End(b, a), a)
  {
    hide Word, HasNext, HasPrev, LinkedAt, Confined, ClearOfLinks, TagsClear;
    assert forall x :: x in fl ==> x in b;
    hide Linked;
    TakeCoalesced(b, f, a);
    BlocksClear(fl, b);
    ClearAt(fl, b, a);
    StampTags(m, b, f, b, f - {a}, a);
    StampKeepsLinks(m, fl, first, a, b[a], false);
    TakeConfined(m, b, f, fl, a);
  }

  lemma TakeConfined(m: seq<byte>, b: BlockMap, f: set<int>, fl: seq<int>, a: int)
    requires Separate(b) && Tagged(m, b, f) && a in b && a in f && |m| <= UINT32 && (forall x :: x in fl <==> x in f)
    requires forall x :: x in f ==> x in b
    ensures 0 <= a && 0 <= b[a] && End(b, a) <= |m|
    ensures Confined(m, b, f, Stamp(m, a, b[a], false), b, f - {a}, fl, a, End(b, a), a)
  {
    hide Word;
  }

  lemma CutOffTags(m: seq<byte>, b: BlockMap, f: set<int>, a: int, size: int)
    requires Separate(b) && Tagged(m, b, f) && a in b && 0 <= a && End(b, a) <= |m| <= UINT32
    requires 16 <= size <= b[a] - 32 && size % 16 == 0
    ensures var n := a + OVERHEAD + size;
      Tagged(Stamp(Stamp(m, a, size, false), n, b[a] - size - OVERHEAD, true), Split(b, a, size), f - {a} + {n})
  {
    hide Word, Tagged;
    var n, b1, b' := a + OVERHEAD + size, b[a := size], Split(b, a, size);
    SplitSeparates(b, a, size);
    StampTags(m, b, f, b1, f - {a}, a);
    StampTags(Stamp(m, a, size, false), b1, f - {a}, b', f - {a} + {n}, n);
  }

  lemma CutOffLinks(m: seq<byte>, b: BlockMap, fl: seq<int>, first: int, a: int, size: int)
    requires Separate(b) && Linked(m, fl, first) && (forall x :: x in fl ==> x in b)
    requires a in b && 0 <= a && End(b, a) <= |m| <= UINT32 && 16 <= size <= b[a] - 32 && size % 16 == 0
    ensures var n := a + OVERHEAD + size;
      && Linked(Stamp(Stamp(m, a, size, false), n, b[a] - size - OVERHEAD, true), fl, first)
      && TagsClear([n] + fl, Split(b, a, size))
  {
    hide Word, Linked, TagsClear, ClearOfLinks;
    var n, b' := a + OVERHEAD + size, Split(b, a, size);
    SplitSeparates(b, a, size);
    SplitClear(fl, b, a, size);
    ClearAt(fl, b', a);
    ClearAt(fl, b', n);
    BlocksClear([n], b');
    BothClear(n, fl, b');
    StampKeepsLinks(m, fl, first, a, size, false);
    StampKeepsLinks(Stamp(m, a, size, false), fl, first, n, b'[n], true);
  }

  /**
    A block is cut down to `size` and the remainder becomes a free block: malloc does it to a free
    block it hands out, realloc to a live one it shrinks.
   */
  lemma CutOff(m: seq<byte>, b: BlockMap, f: set<int>, fl: seq<int>, first: int, start: int, limit: int, a: int,
               size: int)
    requires WellFormed(m, b, f, fl, first, start, limit) && a in b && End(b, a) !in f
    requires 16 <= size <= b[a] - 32 && size % 16 == 0
    ensures 0 <= a && End(b, a) <= |m|
    ensures var n, f' := a + OVERHEAD + size, f - {a} + {a + OVERHEAD + size};
      var m' := Stamp(Stamp(m, a, size, false), n, b[a] - size - OVERHEAD, true);
      && Linked(m', fl, first) && Staged(m', Split(b, a, size), f', fl, first, [n] + fl, start, limit)
  {
    assert forall x :: x in fl ==> x in b;
    hide Word, Tagged, Linked, Coalesced, TagsClear, HasNext, HasPrev;
    SplitTiles(b, start, limit, a, size);
    SplitCoalesced(b, f, a, size);
    CutOffTags(m, b, f, a, size);
    CutOffLinks(m, b, fl, first, a, size);
  }

  lemma CutOffConfined(m: seq<byte>, b: BlockMap, f: set<int>, fl: seq<int>, first: int, start: int, limit: int,
                       a: int, size: int)
    requires WellFormed(m, b, f, fl, first, start, limit) && a in b
    requires 16 <= size <= b[a] - 32
    ensures 0 <= a && End(b, a) <= |m|
    ensures var n, f' := a + OVERHEAD + size, f - {a} + {a + OVERHEAD + size};
      var m' := Stamp(Stamp(m, a, size, false), n, b[a] - size - OVERHEAD, true);
      && n !in b && (forall y :: y in fl ==> y + OVERHEAD <= n || n + OVERHEAD <= y)
      && Confined(m, b, f, m', Split(b, a, size), f', [n] + fl, a, End(b, a), a)
  {
    hide Word, Tagged, Linked, HasNext, HasPrev;
  }

  lemma ClearAt(fl: seq<int>, b: BlockMap, a: int)
    requires TagsClear(fl, b) && a in b
    ensures ClearOfLinks(fl, a) && ClearOfLinks(fl, a + HEADER + b[a])
  {
  }

  lemma ClearOfBoth(n: int, fl: seq<int>, p: int)
    requires ClearOfLinks([n], p) && ClearOfLinks(fl, p)
    ensures ClearOfLinks([n] + fl, p)
  {
    assert n in [n];
  }

  lemma BothClear(n: int, fl: seq<int>, b: BlockMap)
    requires TagsClear([n], b) && TagsClear(fl, b)
    ensures TagsClear([n] + fl, b)
  {
    hide ClearOfLinks;
    forall a | a in b
      ensures ClearOfLinks([n] + fl, a) && ClearOfLinks([n] + fl, a + HEADER + b[a])
    {
      ClearOfBoth(n, fl, a);
      ClearOfBoth(n, fl, a + HEADER + b[a]);
    }
  }

  /** A live block becomes free; neither neighbour is free. */
  lemma ReleaseAlone(m: seq<byte>, b: BlockMap, f: set<int>, fl: seq<int>, first: int, start: int, limit: int, a: int)
    requires WellFormed(m, b, f, fl, first, start, limit) && a in b && a !in f
    requires End(b, a) !in f && forall p :: p in f ==> p in b && End(b, p) != a
    ensures 0 < a && 0 <= b[a] && End(b, a) <= |m|
    ensures var m' := Stamp(m, a, b[a], true);
      Linked(m', fl, first) && Staged(m', b, f + {a}, fl, first, [a] + fl, start, limit)
  {
    assert forall x :: x in fl ==> x in b;
    hide Word, Tagged, Linked, Coalesced, TagsClear, ClearOfLinks, HasNext, HasPrev;
    ReleaseCoalesced(b, f, a);
    BlocksClear(fl, b);
    BlocksClear([a] + fl, b);
    ClearAt(fl, b, a);
    StampTags(m, b, f, b, f + {a}, a);
    StampKeepsLinks(m, fl, first, a, b[a], true);
  }

  lemma ReleaseAloneConfined(m: seq<byte>, b: BlockMap, f: set<int>, fl: seq<int>, first: int, start: int, limit: int,
                             a: int)
    requires WellFormed(m, b, f, fl, first, start, limit) && a in b && a !in f
    ensures 0 < a && 0 <= b[a] && End(b, a) <= |m|
    ensures forall y :: y in fl ==> y + OVERHEAD <= a || a + OVERHEAD <= y
    ensures Confined(m, b, f, Stamp(m, a, b[a], true), b, f + {a}, [a] + fl, a, End(b, a), a)
  {
    hide Word, Tagged, Linked, HasNext, HasPrev;
  }

  lemma MergeTags(m: seq<byte>, b: BlockMap, f: set<int>, f': set<int>, a: int)
    requires Separate(b) && Tagged(m, b, f) && a in b && End(b, a) in b
    requires 0 <= a && End(b, End(b, a)) <= |m| <= UINT32
    requires forall c :: c in b && c != a && c != End(b, a) ==> (c in f <==> c in f')
    ensures Tagged(Stamp(m, a, b[a] + OVERHEAD + b[End(b, a)], a in f'), Merge(b, a), f')
  {
    hide Word, Tagged;
    MergeSeparates(b, a);
    StampTags(m, b, f, Merge(b, a), f', a);
  }

  lemma MergeLinks(m: seq<byte>, b: BlockMap, fl: seq<int>, first: int, a: int, free: bool)
    requires Separate(b) && Linked(m, fl, first) && (forall x :: x in fl ==> x in b) && a in b && End(b, a) in b
    requires 0 <= a && End(b, End(b, a)) <= |m| <= UINT32
    ensures Linked(Stamp(m, a, b[a] + OVERHEAD + b[End(b, a)], free), fl, first)
    ensures TagsClear([a] + fl, Merge(b, a)) && TagsClear(fl, Merge(b, a))
  {
    hide Word, Linked, TagsClear, ClearOfLinks;
    BlocksClear([a] + fl, b);
    BlocksClear(fl, b);
    MergeClear([a] + fl, b, a);
    MergeClear(fl, b, a);
    ClearAt(fl, b, a);
    ClearAt(fl, b, End(b, a));
    StampKeepsLinks(m, fl, first, a, b[a] + OVERHEAD + b[End(b, a)], free);
  }

  /** A live block absorbs its free successor and stays live (realloc) or becomes free itself (free). */
  lemma AbsorbNext(m: seq<byte>, b: BlockMap, f: set<int>, fl: seq<int>, first: int, start: int, limit: int, a: int,
                   free: bool)
    requires WellFormed(m, b, f, fl, first, start, limit) && a in b && a !in f && End(b, a) in f
    requires free ==> forall p :: p in f ==> p in b && End(b, p) != a
    ensures End(b, a) in b && 0 < a && 0 < b[a] && 0 < b[End(b, a)] && End(b, End(b, a)) <= |m|
    ensures var n, b', f' := End(b, a), Merge(b, a), if free then f - {End(b, a)} + {a} else f - {End(b, a)};
      var m' := Stamp(m, a, b[a] + OVERHEAD + b[n], free);
      && Linked(m', fl, first) && Staged(m', b', f', fl, first, [a] + fl, start, limit)
  {
    hide Word, Tagged, Linked, TagsClear, HasNext, HasPrev, Lonely;
    assert (forall x :: x in fl ==> x in b) && End(b, a) in b;
    hide Coalesced;
    var n, b', f' := End(b, a), Merge(b, a), if free then f - {End(b, a)} + {a} else f - {End(b, a)};
    MergeTiles(b, start, limit, a);
    MergeCoalesced(b, f, a);
    if free {
      assert forall p :: p in f - {n} ==> p in b' && b'[p] == b[p];
      ReleaseCoalesced(b', f - {n}, a);
    }
    MergeTags(m, b, f, f', a);
    MergeLinks(m, b, fl, first, a, free);
  }

  lemma AbsorbNextConfined(m: seq<byte>, b: BlockMap, f: set<int>, fl: seq<int>, first: int, start: int, limit: int,
                           a: int, free: bool)
    requires WellFormed(m, b, f, fl, first, start, limit) && a in b && a !in f && End(b, a) in f && End(b, a) in b
    ensures 0 < a && 0 < b[a] && 0 < b[End(b, a)] && End(b, End(b, a)) <= |m|
    ensures forall y :: y in fl ==> y + OVERHEAD <= a || a + OVERHEAD <= y
    ensures var n, b', f' := End(b, a), Merge(b, a), if free then f - {End(b, a)} + {a} else f - {End(b, a)};
      var m' := Stamp(m, a, b[a] + OVERHEAD + b[n], free);
      Confined(m, b, f, m', b', f', [a] + fl, a, End(b, n), a)
  {
    hide Word, Tagged, Linked, HasNext, HasPrev;
  }

  /** A free block absorbs its live successor and stays free (free) or is handed out (realloc). */
  lemma AbsorbedByPrev(m: seq<byte>, b: BlockMap, f: set<int>, fl: seq<int>, first: int, start: int, limit: int,
                       p: int, free: bool)
    requires WellFormed(m, b, f, fl, first, start, limit) && p in f && p in b && End(b, p) in b
    requires free ==> End(b, End(b, p)) !in f
    ensures 0 < p && 0 < b[p] && 0 < b[End(b, p)] && End(b, End(b, p)) <= |m| && End(b, p) !in f
    ensures var a, b', f' := End(b, p), Merge(b, p), if free then f else f - {p};
      var m' := Stamp(m, p, b[p] + OVERHEAD + b[a], free);
      && Linked(m', fl, first) && Staged(m', b', f', fl, first, fl, start, limit)
  {
    assert forall x :: x in fl ==> x in b;
    assert Lonely(b, f, p) && End(b, p) !in f;
    hide Word, Tagged, Linked, Coalesced, TagsClear, HasNext, HasPrev;
    MergeTiles(b, start, limit, p);
    if free {
      AbsorbCoalesced(b, f, p);
    } else {
      HandOutCoalesced(b, f, p);
    }
    MergeTags(m, b, f, if free then f else f - {p}, p);
    MergeLinks(m, b, fl, first, p, free);
  }

  lemma AbsorbedByPrevConfined(m: seq<byte>, b: BlockMap, f: set<int>, fl: seq<int>, first: int, start: int,
                               limit: int, p: int, free: bool)
    requires WellFormed(m, b, f, fl, first, start, limit) && p in f && p in b && End(b, p) in b
    ensures 0 < p && 0 < b[p] && 0 < b[End(b, p)] && End(b, End(b, p)) <= |m|
    ensures var a, b', f' := End(b, p), Merge(b, p), if free then f else f - {p};
      var m' := Stamp(m, p, b[p] + OVERHEAD + b[a], free);
      Confined(m, b, f, m', b', f', fl, p, End(b, a), a)
  {
    hide Word, Tagged, Linked, HasNext, HasPrev;
  }

  lemma HandOutCoalesced(b: BlockMap, f: set<int>, p: int)
    requires Separate(b) && Coalesced(b, f) && p in f && End(b, p) in b && End(b, p) !in f
    ensures Coalesced(Merge(b, p), f - {p})
  {
    var b', f' := Merge(b, p), f - {p};
    forall c {:trigger Lonely(b', f', c)} | c in f'
      ensures c in b' && Lonely(b', f', c)
    {
      assert Lonely(b, f, c);
    }
  }

  /** A new live block after the last one. */
  lemma AppendCoalesced(b: BlockMap, f: set<int>, limit: int, size: int)
    requires Coalesced(b, f) && limit !in b
    ensures Coalesced(b[limit := size], f)
  {
    var b' := b[limit := size];
    forall c {:trigger Lonely(b', f, c)} | c in f
      ensures Lonely(b', f, c)
    {
      assert Lonely(b, f, c);
    }
  }

  lemma Append(m: seq<byte>, b: BlockMap, f: set<int>, fl: seq<int>, first: int, start: int, limit: int, size: int)
    requires WellFormed(m, b, f, fl, first, start, limit)
    requires size >= 16 && size % 16 == 0 && limit + OVERHEAD + size <= |m|
    ensures 0 < start <= limit && limit !in b && limit !in f && |m| <= UINT32
    ensures WellFormed(Stamp(m, limit, size, false), b[limit := size], f, fl, first, start, limit + OVERHEAD + size)
  {
    hide Word, Tagged, Linked, TagsClear, ClearOfLinks, HasNext, HasPrev;
    assert forall x :: x in fl ==> x in b;
    var b' := b[limit := size];
    AppendCoalesced(b, f, limit, size);
    hide Coalesced, Lonely;
    ExtendTiles(b, start, limit, size);
    BlocksClear(fl, b');
    ClearAt(fl, b', limit);
    StampTags(m, b, f, b', f, limit);
    StampKeepsLinks(m, fl, first, limit, size, false);
  }

  lemma AppendKeepsLive(m: seq<byte>, b: BlockMap, f: set<int>, fl: seq<int>, first: int, start: int, limit: int,
                        size: int)
    requires WellFormed(m, b, f, fl, first, start, limit)
    requires size >= 16 && limit + OVERHEAD + size <= |m|
    ensures LiveKept(m, b, f, Stamp(m, limit, size, false), b[limit := size], f, {})
  {
    hide Word, Tagged, Linked, HasNext, HasPrev;
  }

  // ---- A block with two free neighbours is released ----

  ghost function MergeBoth(b: BlockMap, p: int): BlockMap
    requires p in b && End(b, p) in b && End(b, End(b, p)) in b && p < End(b, p) < End(b, End(b, p))
  {
    Merge(Merge(b, p), p)
  }

  lemma MergeBothCoalesced(b: BlockMap, f: set<int>, p: int)
    requires Separate(b) && Coalesced(b, f) && p in f && p in b && End(b, p) in b && End(b, p) !in f
    requires End(b, End(b, p)) in f
    ensures End(b, End(b, p)) in b && p < End(b, p) < End(b, End(b, p))
    ensures Coalesced(MergeBoth(b, p), f - {End(b, End(b, p))})
  {
    var n, b1 := End(b, End(b, p)), Merge(b, p);
    HandOutCoalesced(b, f, p);
    MergeSeparates(b, p);
    assert End(b1, p) == n;
    MergeCoalesced(b1, f - {p}, p);
    MergeSeparates(b1, p);
    var b2 := MergeBoth(b, p);
    assert f - {p} - {n} + {p} == f - {n};
    forall q | q in f - {p} - {n}
      ensures q in b2 && End(b2, q) != p
    {
      assert Lonely(b, f, q);
    }
    ReleaseCoalesced(b2, f - {p} - {n}, p);
  }

  lemma MergeBothSeparates(b: BlockMap, p: int)
    requires Separate(b) && p in b && End(b, p) in b && End(b, End(b, p)) in b
    ensures p < End(b, p) < End(b, End(b, p))
    ensures Separate(MergeBoth(b, p)) && End(MergeBoth(b, p), p) == End(b, End(b, End(b, p)))
  {
    MergeSeparates(b, p);
    MergeSeparates(Merge(b, p), p);
  }

  lemma ReleaseBothTags(m: seq<byte>, b: BlockMap, f: set<int>, p: int)
    requires Separate(b) && Tagged(m, b, f) && p in f && p in b && End(b, p) in b && End(b, End(b, p)) in b
    requires 0 <= p < End(b, p) < End(b, End(b, p)) && End(b, End(b, End(b, p))) <= |m| <= UINT32
    ensures var a, n := End(b, p), End(b, End(b, p));
      Tagged(Stamp(m, p, b[p] + 2 * OVERHEAD + b[a] + b[n], true), MergeBoth(b, p), f - {n})
  {
    hide Word, Tagged;
    MergeBothSeparates(b, p);
    StampTags(m, b, f, MergeBoth(b, p), f - {End(b, End(b, p))}, p);
  }

  lemma ReleaseBothLinks(m: seq<byte>, b: BlockMap, fl: seq<int>, first: int, p: int)
    requires Separate(b) && Linked(m, fl, first) && (forall x :: x in fl ==> x in b)
    requires p in b && End(b, p) in b && End(b, End(b, p)) in b
    requires 0 <= p < End(b, p) < End(b, End(b, p)) && End(b, End(b, End(b, p))) <= |m| <= UINT32
    ensures var a, n := End(b, p), End(b, End(b, p));
      Linked(Stamp(m, p, b[p] + 2 * OVERHEAD + b[a] + b[n], true), fl, first) && TagsClear(fl, MergeBoth(b, p))
  {
    hide Word, Linked, TagsClear, ClearOfLinks;
    var a, n := End(b, p), End(b, End(b, p));
    BlocksClear(fl, b);
    MergeClear(fl, b, p);
    MergeClear(fl, Merge(b, p), p);
    ClearAt(fl, b, p);
    ClearAt(fl, b, n);
    StampKeepsLinks(m, fl, first, p, b[p] + 2 * OVERHEAD + b[a] + b[n], true);
  }

  lemma ReleaseBoth(m: seq<byte>, b: BlockMap, f: set<int>, fl: seq<int>, first: int, start: int, limit: int, p: int)
    requires WellFormed(m, b, f, fl, first, start, limit)
    requires p in f && p in b && End(b, p) in b && End(b, p) !in f && End(b, End(b, p)) in f
    ensures End(b, End(b, p)) in b && 0 < p && 0 < b[p] && 0 < b[End(b, p)] && 0 < b[End(b, End(b, p))]
    ensures End(b, End(b, End(b, p))) <= |m|
    ensures var a, n := End(b, p), End(b, End(b, p));
      var m' := Stamp(m, p, b[p] + 2 * OVERHEAD + b[a] + b[n], true);
      Linked(m', fl, first) && Staged(m', MergeBoth(b, p), f - {n}, fl, first, fl, start, limit)
  {
    assert (forall x :: x in fl ==> x in b) && End(b, End(b, p)) in b;
    hide Word, Tagged, Linked, Coalesced, TagsClear, HasNext, HasPrev;
    MergeBothCoalesced(b, f, p);
    MergeTiles(b, start, limit, p);
    MergeTiles(Merge(b, p), start, limit, p);
    ReleaseBothTags(m, b, f, p);
    ReleaseBothLinks(m, b, fl, first, p);
  }

  lemma ReleaseBothConfined(m: seq<byte>, b: BlockMap, f: set<int>, fl: seq<int>, first: int, start: int, limit: int,
                            p: int)
    requires WellFormed(m, b, f, fl, first, start, limit)
    requires p in f && p in b && End(b, p) in b && End(b, p) !in f && End(b, End(b, p)) in f && End(b, End(b, p)) in b
    ensures 0 < p && 0 < b[p] && 0 < b[End(b, p)] && 0 < b[End(b, End(b, p))] && End(b, End(b, End(b, p))) <= |m|
    ensures var a, n := End(b, p), End(b, End(b, p));
      var m' := Stamp(m, p, b[p] + 2 * OVERHEAD + b[a] + b[n], true);
      Confined(m, b, f, m', MergeBoth(b, p), f - {n}, fl, p, End(b, n), a)
  {
    hide Word, Tagged, Linked, HasNext, HasPrev;
  }

  // ---- A live block gives its end to its free successor ----

  lemma ShiftTags(m: seq<byte>, b: BlockMap, f: set<int>, a: int, size: int)
    requires Separate(b) && Tagged(m, b, f) && a in b && a !in f && End(b, a) in f && End(b, a) in b
    requires 0 <= a && End(b, End(b, a)) <= |m| <= UINT32
    requires 16 <= size <= b[a] - 16 && size % 16 == 0
    ensures var o, n := End(b, a), a + OVERHEAD + size;
      var m' := Stamp(Stamp(m, a, size, false), n, b[a] - size + b[o], true);
      Tagged(m', Split(Merge(b, a), a, size), f - {o} + {n})
  {
    hide Word, Tagged;
    var o, n, b0 := End(b, a), a + OVERHEAD + size, Merge(b, a);
    var b1, b' := b0[a := size], Split(b0, a, size);
    MergeSeparates(b, a);
    SplitSeparates(b0, a, size);
    StampTags(m, b, f, b1, f - {o}, a);
    StampTags(Stamp(m, a, size, false), b1, f - {o}, b', f - {o} + {n}, n);
  }

  lemma ShiftLinks(m: seq<byte>, b: BlockMap, fl: seq<int>, first: int, a: int, size: int)
    requires Separate(b) && Linked(m, fl, first) && (forall x :: x in fl ==> x in b) && a in b && a !in fl
    requires End(b, a) in b && 0 <= a && End(b, End(b, a)) <= |m| <= UINT32
    requires 16 <= size <= b[a] - 32 && size % 16 == 0
    ensures var o, n := End(b, a), a + OVERHEAD + size;
      var m' := Stamp(Stamp(m, a, size, false), n, b[a] - size + b[o], true);
      Linked(m', fl, first) && TagsClear([n] + fl, Split(Merge(b, a), a, size))
  {
    hide Word, Linked, Separate, ClearOfLinks, TagsClear, Merge, Split, Stamp;
    var o, n := End(b, a), a + OVERHEAD + size;
    InsideClear(b, fl, a, size);
    StampKeepsLinks(m, fl, first, a, size, false);
    StampKeepsLinks(Stamp(m, a, size, false), fl, first, n, b[a] - size + b[o], true);
    ShiftClear(b, fl, a, size);
  }

  /** No link of the freelist lies where the tags of the two parts go. */
  lemma InsideClear(b: BlockMap, fl: seq<int>, a: int, size: int)
    requires Separate(b) && (forall x :: x in fl ==> x in b) && a in b && a !in fl && End(b, a) in b
    requires 16 <= size <= b[a] - 32
    ensures var o, n := End(b, a), a + OVERHEAD + size;
      && ClearOfLinks(fl, a) && ClearOfLinks(fl, a + HEADER + size)
      && ClearOfLinks(fl, n) && ClearOfLinks(fl, n + HEADER + (b[a] - size + b[o]))
      && 16 <= b[o] && End(b, o) == n + OVERHEAD + (b[a] - size + b[o]) && n + OVERHEAD <= End(b, o)
  {
  }

  lemma ShiftClear(b: BlockMap, fl: seq<int>, a: int, size: int)
    requires Separate(b) && (forall x :: x in fl ==> x in b) && a in b && a !in fl && End(b, a) in b
    requires 16 <= size <= b[a] - 32 && size % 16 == 0
    ensures TagsClear([a + OVERHEAD + size] + fl, Split(Merge(b, a), a, size))
  {
    var o, n, b0 := End(b, a), a + OVERHEAD + size, Merge(b, a);
    var b1 := Split(b0, a, size);
    MergeSeparates(b, a);
    SplitSeparates(b0, a, size);
    BlocksClear([n], b1);
    BlocksClear(fl, b);
    InsideClear(b, fl, a, size);
    hide Separate, ClearOfLinks;
    assert TagsClear(fl, b1);
    hide TagsClear;
    BothClear(n, fl, b1);
  }

  lemma Shift(m: seq<byte>, b: BlockMap, f: set<int>, fl: seq<int>, first: int, start: int, limit: int, a: int,
              size: int)
    requires WellFormed(m, b, f, fl, first, start, limit) && a in b && a !in f && End(b, a) in f
    requires 16 <= size <= b[a] - 32 && size % 16 == 0
    ensures End(b, a) in b && 0 <= a && 0 < b[End(b, a)] && End(b, End(b, a)) <= |m|
    ensures var o, n := End(b, a), a + OVERHEAD + size;
      var m' := Stamp(Stamp(m, a, size, false), n, b[a] - size + b[o], true);
      Linked(m', fl, first) && Staged(m', Split(Merge(b, a), a, size), f - {o} + {n}, fl, first, [n] + fl, start, limit)
  {
    assert (forall x :: x in fl ==> x in b) && End(b, a) in b;
    hide Word, Tagged, Linked, Coalesced, TagsClear, HasNext, HasPrev;
    var o, n, b0 := End(b, a), a + OVERHEAD + size, Merge(b, a);
    MergeTiles(b, start, limit, a);
    SplitTiles(b0, start, limit, a, size);
    MergeCoalesced(b, f, a);
    SplitCoalesced(b0, f - {o}, a, size);
    assert f - {o} - {a} + {n} == f - {o} + {n};
    ShiftTags(m, b, f, a, size);
    ShiftLinks(m, b, fl, first, a, size);
  }

  lemma ShiftConfined(m: seq<byte>, b: BlockMap, f: set<int>, fl: seq<int>, first: int, start: int, limit: int,
                      a: int, size: int)
    requires WellFormed(m, b, f, fl, first, start, limit) && a in b && a !in f && End(b, a) in f && End(b, a) in b
    requires 16 <= size <= b[a] - 32
    ensures 0 <= a && 0 < b[End(b, a)] && End(b, End(b, a)) <= |m|
    ensures var o, n := End(b, a), a + OVERHEAD + size;
      var m' := Stamp(Stamp(m, a, size, false), n, b[a] - size + b[o], true);
      && n !in b && (forall y :: y in fl ==> y + OVERHEAD <= n || n + OVERHEAD <= y)
      && Confined(m, b, f, m', Split(Merge(b, a), a, size), f - {o} + {n}, [n] + fl, a, End(b, o), a)
  {
    hide Word, Tagged, Linked, HasNext, HasPrev;
  }

  // ---- Writes to a payload ----

  /** Bytes of [lo, hi) that neither the tags nor the touched links cover are kept. */
  lemma RangeKept(m: seq<byte>, m1: seq<byte>, m2: seq<byte>, nodes: seq<int>, lo: int, hi: int)
    requires Same(m, m1, lo, hi) && OnlyLinks(m1, m2, nodes)
    requires forall x :: x in nodes ==> x + 12 <= lo || hi <= x + 4
    ensures Same(m, m2, lo, hi)
  {
  }

  /** Freelist links lie outside every live payload. */
  lemma LinksOutside(m: seq<byte>, b: BlockMap, f: set<int>, fl: seq<int>, first: int, start: int, limit: int, a: int)
    requires WellFormed(m, b, f, fl, first, start, limit) && a in b && a !in f
    ensures forall x :: x in fl ==> x + 12 <= a + HEADER || a + HEADER + b[a] <= x + 4
  {
    hide Word, Linked, Tagged, HasNext, HasPrev;
  }

  /** `m'` differs from `m` inside [lo, hi) only. */
  ghost predicate Within(m: seq<byte>, m': seq<byte>, lo: int, hi: int)
  {
    |m| == |m'| && forall i {:trigger m'[i]} {:trigger m[i]} :: 0 <= i < |m| && (i < lo || hi <= i) ==> m'[i] == m[i]
  }

  lemma WithinWord(m: seq<byte>, m': seq<byte>, lo: int, hi: int, p: int)
    requires Within(m, m', lo, hi) && 0 <= p <= |m| - 4 && (p + 4 <= lo || hi <= p)
    ensures Word(m', p) == Word(m, p)
  {
  }

  lemma WithinTags(m: seq<byte>, m': seq<byte>, b: BlockMap, f: set<int>, a: int)
    requires Separate(b) && Tagged(m, b, f) && a in b && Within(m, m', a + HEADER, a + HEADER + b[a])
    ensures Tagged(m', b, f)
  {
    hide Word, Separate, Within, Tag;
    assert |m'| == |m| by { WithinLength(m, m', a + HEADER, a + HEADER + b[a]); }
    forall c | c in b
      ensures 0 <= c && 0 <= b[c] && End(b, c) <= |m|
      ensures Word(m', c) == Word(m, c) && Word(m', c + HEADER + b[c]) == Word(m, c + HEADER + b[c])
    {
      TagsOutside(b, a, c);
      WithinWord(m, m', a + HEADER, a + HEADER + b[a], c);
      WithinWord(m, m', a + HEADER, a + HEADER + b[a], c + HEADER + b[c]);
    }
  }

  lemma WithinLength(m: seq<byte>, m': seq<byte>, lo: int, hi: int)
    requires Within(m, m', lo, hi)
    ensures |m'| == |m|
  {
  }

  /** No tag lies in a payload. */
  lemma TagsOutside(b: BlockMap, a: int, c: int)
    requires Separate(b) && a in b && c in b
    ensures c + 4 <= a + HEADER || a + HEADER + b[a] <= c
    ensures End(b, c) <= a + HEADER || a + HEADER + b[a] <= c + HEADER + b[c]
  {
  }

  lemma WithinLinks(m: seq<byte>, m': seq<byte>, b: BlockMap, fl: seq<int>, first: int, a: int)
    requires Separate(b) && Linked(m, fl, first) && (forall x :: x in fl ==> x in b) && a in b && a !in fl
    requires Within(m, m', a + HEADER, a + HEADER + b[a])
    ensures Linked(m', fl, first)
  {
    forall i {:trigger LinkedAt(m', fl, i)} | 0 <= i < |fl|
      ensures LinkedAt(m', fl, i)
    {
      assert fl[i] in fl && LinkedAt(m, fl, i);
    }
  }

  /** Whatever the owner of a live block writes into it, the heap stays intact and so do all other blocks. */
  lemma OwnerWrites(m: seq<byte>, m': seq<byte>, b: BlockMap, f: set<int>, fl: seq<int>, first: int, start: int,
                    limit: int, a: int)
    requires WellFormed(m, b, f, fl, first, start, limit) && a in b && a !in f
    requires Within(m, m', a + HEADER, a + HEADER + b[a])
    ensures WellFormed(m', b, f, fl, first, start, limit) && LiveKept(m, b, f, m', b, f, {a})
  {
    hide Word, Linked, HasNext, HasPrev, LiveKept, LinkedAt;
    assert Separate(b) && (forall x :: x in fl ==> x in b) && a !in fl;
    WithinTags(m, m', b, f, a);
    WithinLinks(m, m', b, fl, first, a);
    WithinLive(m, m', b, f, a);
  }

  lemma WithinLive(m: seq<byte>, m': seq<byte>, b: BlockMap, f: set<int>, a: int)
    requires Separate(b) && Tagged(m, b, f) && a in b && Within(m, m', a + HEADER, a + HEADER + b[a])
    ensures LiveKept(m, b, f, m', b, f, {a})
  {
    hide Word;
  }

  lemma LiveKeptTrans(m: seq<byte>, b: BlockMap, f: set<int>, m1: seq<byte>, b1: BlockMap, f1: set<int>,
                      m2: seq<byte>, b2: BlockMap, f2: set<int>, gone: set<int>, gone': set<int>)
    requires LiveKept(m, b, f, m1, b1, f1, gone) && LiveKept(m1, b1, f1, m2, b2, f2, gone')
    ensures LiveKept(m, b, f, m2, b2, f2, gone + gone')
  {
  }

  /** Blocks that were not live need no exception. */
  lemma LiveKeptLess(m: seq<byte>, b: BlockMap, f: set<int>, m': seq<byte>, b': BlockMap, f': set<int>,
                     gone: set<int>, less: set<int>)
    requires LiveKept(m, b, f, m', b', f', gone) && forall c :: c in gone && c !in less ==> c !in b || c in f
    ensures LiveKept(m, b, f, m', b', f', less)
  {
  }
}
