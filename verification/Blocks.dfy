/**
  The block structure of the heap, apart from the bytes that record it. A block at address `a`
  has a 12-byte header, `b[a]` bytes of payload and a 4-byte trailer.
 */
module Blocks {

  const HEADER := 12
  const TRAILER := 4
  const OVERHEAD := 16

  type BlockMap = map<int, int>

  ghost function End(b: BlockMap, a: int): int
    requires a in b
  {
    a + OVERHEAD + b[a]
  }

  /** Payload sizes are positive multiples of 16 and no two blocks overlap. */
  ghost predicate Separate(b: BlockMap)
  {
    && (forall a :: a in b ==> b[a] >= 16 && b[a] % 16 == 0)
    && (forall a, c :: a in b && c in b && a < c ==> End(b, a) <= c)
  }

  ghost predicate HasNext(b: BlockMap, limit: int, a: int)
    requires a in b
  {
    End(b, a) == limit || End(b, a) in b
  }

  ghost predicate HasPrev(b: BlockMap, start: int, c: int)
  {
    c == start || exists a :: a in b && End(b, a) == c
  }

  /** The blocks tile [start, limit): each one ends where the next begins. */
  ghost predicate Tiled(b: BlockMap, start: int, limit: int)
  {
    && Separate(b)
    && start <= limit
    && (start in b <==> start < limit)
    && (forall a :: a in b ==> start <= a && End(b, a) <= limit)
    && (forall a {:trigger HasNext(b, limit, a)} :: a in b ==> HasNext(b, limit, a))
    && (forall c {:trigger HasPrev(b, start, c)} :: c in b ==> HasPrev(b, start, c))
  }

  ghost predicate Lonely(b: BlockMap, f: set<int>, a: int)
    requires a in b
  {
    End(b, a) !in f
  }

  /** Free blocks are blocks, and no two neighbours are both free. */
  ghost predicate Coalesced(b: BlockMap, f: set<int>)
  {
    && (forall a :: a in f ==> a in b)
    && (forall a {:trigger Lonely(b, f, a)} :: a in f ==> Lonely(b, f, a))
  }

  lemma FreeAreBlocks(b: BlockMap, f: set<int>)
    requires Coalesced(b, f)
    ensures f <= b.Keys
  {
    forall a | a in f
      ensures a in b.Keys
    {
    }
  }

  /** Every address in a tiled heap lies in a block. */
  lemma {:induction false} CoverFrom(b: BlockMap, start: int, limit: int, a: int, x: int) returns (c: int)
    requires Tiled(b, start, limit) && a in b && a <= x < limit
    ensures c in b && c <= x < End(b, c)
    decreases limit - a
  {
    if x < End(b, a) {
      c := a;
    } else {
      assert HasNext(b, limit, a);
      c := CoverFrom(b, start, limit, End(b, a), x);
    }
  }

  /** Exactly one block, in fact. */
  lemma ExactCover(b: BlockMap, start: int, limit: int, x: int)
    requires Tiled(b, start, limit) && start <= x < limit
    ensures exists c :: c in b && c <= x < End(b, c)
    ensures forall c, d :: c in b && d in b && c <= x < End(b, c) && d <= x < End(b, d) ==> c == d
  {
    var c := CoverFrom(b, start, limit, start, x);
  }

  ghost function Split(b: BlockMap, a: int, size: int): BlockMap
    requires a in b
  {
    b[a := size][a + OVERHEAD + size := b[a] - size - OVERHEAD]
  }

  lemma Multiples(x: int, y: int)
    requires x % 16 == 0 && y % 16 == 0
    ensures (x - y - 16) % 16 == 0 && (x + 16 + y) % 16 == 0
  {
  }

  lemma SplitSeparates(b: BlockMap, a: int, size: int)
    requires Separate(b) && a in b
    requires 16 <= size <= b[a] - 32 && size % 16 == 0
    ensures a + OVERHEAD + size !in b && Separate(Split(b, a, size))
  {
    var b', n := Split(b, a, size), a + OVERHEAD + size;
    Multiples(b[a], size);
    assert n !in b;
    forall c | c in b'
      ensures b'[c] >= 16 && b'[c] % 16 == 0
    {
    }
    forall c, d | c in b' && d in b' && c < d
      ensures End(b', c) <= d
    {
      if c == n {
        assert d in b && a < d && End(b, a) <= d;
      } else if d == n {
        assert c == a || (c < a && End(b, c) <= a);
      } else {
        assert End(b, c) <= d;
      }
    }
  }

  lemma SplitTiles(b: BlockMap, start: int, limit: int, a: int, size: int)
    requires Tiled(b, start, limit) && a in b
    requires 16 <= size <= b[a] - 32 && size % 16 == 0
    ensures Tiled(Split(b, a, size), start, limit)
  {
    var b', n := Split(b, a, size), a + OVERHEAD + size;
    SplitSeparates(b, a, size);
    assert End(b', a) == n && End(b', n) == End(b, a);
    forall c {:trigger HasNext(b', limit, c)} | c in b'
      ensures HasNext(b', limit, c)
    {
      assert HasNext(b, limit, if c == n then a else c);
    }
    forall c {:trigger HasPrev(b', start, c)} | c in b'
      ensures HasPrev(b', start, c)
    {
      if c == n {
        assert End(b', a) == c;
      } else if c != start {
        assert HasPrev(b, start, c);
        var d :| d in b && End(b, d) == c;
        assert End(b', if d == a then n else d) == c;
      }
    }
  }

  ghost function Merge(b: BlockMap, a: int): BlockMap
    requires a in b && End(b, a) in b
  {
    (b - {End(b, a)})[a := b[a] + OVERHEAD + b[End(b, a)]]
  }

  lemma MergeSeparates(b: BlockMap, a: int)
    requires Separate(b) && a in b && End(b, a) in b
    ensures Separate(Merge(b, a)) && End(Merge(b, a), a) == End(b, End(b, a))
  {
    var b', n := Merge(b, a), End(b, a);
    Multiples(b[a], b[n]);
    assert End(b', a) == End(b, n);
    forall c | c in b'
      ensures b'[c] >= 16 && b'[c] % 16 == 0
    {
    }
    forall c, d | c in b' && d in b' && c < d
      ensures End(b', c) <= d
    {
      if c == a {
        assert End(b, a) <= d && d != n;
        assert End(b, n) <= d;
      } else {
        assert End(b', c) == End(b, c) <= d;
      }
    }
  }

  lemma MergeTiles(b: BlockMap, start: int, limit: int, a: int)
    requires Tiled(b, start, limit) && a in b && End(b, a) in b
    ensures Tiled(Merge(b, a), start, limit)
    ensures End(Merge(b, a), a) == End(b, End(b, a))
  {
    var b', n := Merge(b, a), End(b, a);
    MergeSeparates(b, a);
    forall c {:trigger HasNext(b', limit, c)} | c in b'
      ensures HasNext(b', limit, c)
    {
      assert HasNext(b, limit, if c == a then n else c);
    }
    forall c {:trigger HasPrev(b', start, c)} | c in b'
      ensures HasPrev(b', start, c)
    {
      assert HasPrev(b, start, c);
      if c != start {
        var d :| d in b && End(b, d) == c;
        assert End(b', if d == n then a else d) == c;
      }
    }
  }

  lemma ExtendTiles(b: BlockMap, start: int, limit: int, size: int)
    requires Tiled(b, start, limit) && size >= 16 && size % 16 == 0
    ensures Tiled(b[limit := size], start, limit + OVERHEAD + size)
  {
    var b' := b[limit := size];
    forall c {:trigger HasNext(b', limit + OVERHEAD + size, c)} | c in b'
      ensures HasNext(b', limit + OVERHEAD + size, c)
    {
      assert c != limit ==> HasNext(b, limit, c);
    }
    forall c {:trigger HasPrev(b', start, c)} | c in b'
      ensures HasPrev(b', start, c)
    {
      if c == limit && c != start {
        var d := CoverFrom(b, start, limit, start, limit - 1);
        assert End(b', d) == c;
      } else if c != start {
        assert HasPrev(b, start, c);
        var d :| d in b && End(b, d) == c;
        assert End(b', d) == c;
      }
    }
  }
}
