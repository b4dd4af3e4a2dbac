/** Boundary tags and the doubly linked freelist, as bytes in memory. */
module Tags {
  import opened Basics
  import opened Memory
  import opened Blocks

  /** The size word of a block: the payload size with the free flag in bit 0. */
  function Tag(size: int, free: bool): int
  {
    size + if free then 1 else 0
  }

  /** getRealSize: (w >> 1) << 1 */
  function RealSize(w: int): int
  {
    w / 2 * 2
  }

  predicate FreeFlag(w: int)
  {
    w % 2 == 1
  }

  lemma TagParts(size: int, free: bool)
    requires size % 16 == 0
    ensures RealSize(Tag(size, free)) == size && (FreeFlag(Tag(size, free)) <==> free)
  {
    assert size == 16 * (size / 16);
    Halves(8 * (size / 16), if free then 1 else 0);
  }

  lemma Halves(k: int, bit: int)
    requires 0 <= bit < 2
    ensures (2 * k + bit) / 2 == k && (2 * k + bit) % 2 == bit
  {
  }

  /** Header and trailer of the block at `a`. */
  function Stamp(m: seq<byte>, a: int, size: int, free: bool): (r: seq<byte>)
    requires 0 <= a && 0 <= size && a + OVERHEAD + size <= |m| <= UINT32
    ensures |r| == |m|
    ensures forall i {:trigger r[i]} ::
      0 <= i < |m| && (i < a || a + 4 <= i) && (i < a + HEADER + size || a + OVERHEAD + size <= i) ==> r[i] == m[i]
  {
    Put(Put(m, a, Tag(size, free)), a + HEADER + size, Tag(size, free))
  }

  /** Every block's header and trailer hold its size and its free flag. */
  ghost predicate Tagged(m: seq<byte>, b: BlockMap, f: set<int>)
  {
    forall a :: a in b ==>
      && 0 <= a && 0 <= b[a] && End(b, a) <= |m|
      && Word(m, a) == Tag(b[a], a in f)
      && Word(m, a + HEADER + b[a]) == Tag(b[a], a in f)
  }

  lemma StampTags(m: seq<byte>, b: BlockMap, f: set<int>, b': BlockMap, f': set<int>, a: int)
    requires Tagged(m, b, f) && Separate(b') && |m| <= UINT32
    requires a in b' && 0 <= a && End(b', a) <= |m|
    requires forall c :: c in b' && c != a ==> c in b && b[c] == b'[c] && (c in f <==> c in f')
    ensures Tagged(Stamp(m, a, b'[a], a in f'), b', f')
  {
    hide Word;
    var m' := Stamp(m, a, b'[a], a in f');
    forall c | c in b'
      ensures 0 <= c && 0 <= b'[c] && End(b', c) <= |m'|
      ensures Word(m', c) == Tag(b'[c], c in f') && Word(m', c + HEADER + b'[c]) == Tag(b'[c], c in f')
    {
      if c != a {
        StampWord(m, a, b'[a], a in f', c);
        StampWord(m, a, b'[a], a in f', c + HEADER + b[c]);
      }
    }
  }

  /** Words apart from header and trailer stay. */
  lemma StampWord(m: seq<byte>, a: int, size: int, free: bool, c: int)
    requires 0 <= a && 0 <= size && a + OVERHEAD + size <= |m| <= UINT32 && 0 <= c <= |m| - 4
    requires c + 4 <= a || (a + 4 <= c && c + 4 <= a + HEADER + size) || a + OVERHEAD + size <= c
    ensures Word(Stamp(m, a, size, free), c) == Word(m, c)
  {
    hide Word;
  }

  // ---- The freelist ----

  ghost function Before(fl: seq<int>, i: int): int
    requires 0 <= i < |fl|
  {
    if i == 0 then 0 else fl[i - 1]
  }

  ghost function After(fl: seq<int>, i: int): int
    requires -1 <= i < |fl|
  {
    if i + 1 == |fl| then 0 else fl[i + 1]
  }

  /** Nodes lie in memory and no two of them overlap. */
  ghost predicate Spaced(fl: seq<int>, size: int)
  {
    && (forall i :: 0 <= i < |fl| ==> 0 < fl[i] <= size - OVERHEAD)
    && (forall i, j :: 0 <= i < j < |fl| ==> fl[i] + OVERHEAD <= fl[j] || fl[j] + OVERHEAD <= fl[i])
  }

  ghost predicate LinkedAt(m: seq<byte>, fl: seq<int>, i: int)
    requires 0 <= i < |fl| && 0 < fl[i] <= |m| - OVERHEAD
  {
    Word(m, fl[i] + 4) == Before(fl, i) && Word(m, fl[i] + 8) == After(fl, i)
  }

  /** The links in memory spell out the node sequence `fl` from `first` on. */
  ghost predicate Linked(m: seq<byte>, fl: seq<int>, first: int)
  {
    && Spaced(fl, |m|)
    && first == After(fl, -1)
    && forall i {:trigger LinkedAt(m, fl, i)} :: 0 <= i < |fl| ==> LinkedAt(m, fl, i)
  }

  /** The word at `p` shares no byte with a node's link fields. */
  ghost predicate ClearOfLinks(fl: seq<int>, p: int)
  {
    forall x :: x in fl ==> p + 4 <= x + 4 || x + 12 <= p
  }

  ghost predicate TagsClear(fl: seq<int>, b: BlockMap)
  {
    forall a :: a in b ==> ClearOfLinks(fl, a) && ClearOfLinks(fl, a + HEADER + b[a])
  }

  lemma BlocksClear(fl: seq<int>, b: BlockMap)
    requires Separate(b) && forall x :: x in fl ==> x in b
    ensures TagsClear(fl, b)
  {
  }

  lemma MergeClear(fl: seq<int>, b: BlockMap, a: int)
    requires TagsClear(fl, b) && a in b && End(b, a) in b
    ensures TagsClear(fl, Merge(b, a))
  {
  }

  lemma SplitClear(fl: seq<int>, b: BlockMap, a: int, size: int)
    requires Separate(b) && (forall x :: x in fl ==> x in b) && a in b
    requires 16 <= size <= b[a] - 32
    ensures TagsClear(fl, Split(b, a, size))
  {
    BlocksClear(fl, b);
    var n := a + OVERHEAD + size;
    assert ClearOfLinks(fl, n) && ClearOfLinks(fl, n - 4);
  }

  lemma StampKeepsLinks(m: seq<byte>, fl: seq<int>, first: int, a: int, size: int, free: bool)
    requires Linked(m, fl, first)
    requires 0 <= a && 0 <= size && a + OVERHEAD + size <= |m| <= UINT32
    requires ClearOfLinks(fl, a) && ClearOfLinks(fl, a + HEADER + size)
    ensures Linked(Stamp(m, a, size, free), fl, first)
  {
    hide Word;
    var m' := Stamp(m, a, size, free);
    forall i {:trigger LinkedAt(m', fl, i)} | 0 <= i < |fl|
      ensures LinkedAt(m', fl, i)
    {
      assert fl[i] in fl && LinkedAt(m, fl, i);
    }
  }

  ghost predicate InLinks(fl: seq<int>, i: int)
  {
    exists x :: x in fl && x + 4 <= i < x + 12
  }

  /** `m'` differs from `m` in link fields of `fl` nodes only. */
  ghost predicate OnlyLinks(m: seq<byte>, m': seq<byte>, fl: seq<int>)
  {
    |m| == |m'| && forall i {:trigger m'[i]} {:trigger m[i]} :: 0 <= i < |m| && !InLinks(fl, i) ==> m'[i] == m[i]
  }

  lemma LinksKeepWord(m: seq<byte>, m': seq<byte>, fl: seq<int>, p: int)
    requires OnlyLinks(m, m', fl) && ClearOfLinks(fl, p) && 0 <= p <= |m| - 4
    ensures Word(m', p) == Word(m, p)
  {
    assert !InLinks(fl, p) && !InLinks(fl, p + 1) && !InLinks(fl, p + 2) && !InLinks(fl, p + 3);
  }

  lemma LinksKeepTags(m: seq<byte>, m': seq<byte>, fl: seq<int>, b: BlockMap, f: set<int>)
    requires Tagged(m, b, f) && OnlyLinks(m, m', fl) && TagsClear(fl, b)
    ensures Tagged(m', b, f)
  {
    hide Word;
    forall a | a in b
      ensures Word(m', a) == Word(m, a) && Word(m', a + HEADER + b[a]) == Word(m, a + HEADER + b[a])
    {
      LinksKeepWord(m, m', fl, a);
      LinksKeepWord(m, m', fl, a + HEADER + b[a]);
    }
  }

  // ---- Unlinking and pushing a node ----

  const PREV := 4
  const NEXT := 8

  /** Writes a link field of node `x`; there is nothing to write when `x` is NULL. */
  function SetLink(m: seq<byte>, x: int, field: int, v: int): (r: seq<byte>)
    requires 0 <= x <= |m| - OVERHEAD && 0 <= v < UINT32 && (field == PREV || field == NEXT)
    ensures |r| == |m| && (x != 0 ==> Word(r, x + field) == v) && (x == 0 ==> r == m)
    ensures forall c {:trigger Word(r, c)} :: 0 <= c <= |m| - 4 && (c + 4 <= x + field || x + field + 4 <= c) ==>
      Word(r, c) == Word(m, c)
    ensures forall i {:trigger r[i]} :: 0 <= i < |m| && (i < x + 4 || x + 12 <= i) ==> r[i] == m[i]
  {
    if x == 0 then m else Put(m, x + field, v)
  }

  ghost function Without(fl: seq<int>, k: int): seq<int>
    requires 0 <= k < |fl|
  {
    fl[..k] + fl[k + 1..]
  }

  lemma WithoutMembers(fl: seq<int>, size: int, k: int)
    requires Spaced(fl, size) && 0 <= k < |fl|
    ensures Spaced(Without(fl, k), size)
    ensures forall y :: y in Without(fl, k) <==> y in fl && y != fl[k]
  {
    var fl' := Without(fl, k);
    forall y | y in fl && y != fl[k]
      ensures y in fl'
    {
      var i :| 0 <= i < |fl| && fl[i] == y;
      assert fl'[if i < k then i else i - 1] == y;
    }
  }

  ghost function Unlink(m: seq<byte>, fl: seq<int>, k: int): seq<byte>
    requires Spaced(fl, |m|) && 0 <= k < |fl| && |m| <= UINT32
  {
    var p, n := Before(fl, k), After(fl, k);
    assert fl[k] <= |m| - OVERHEAD;
    SetLink(SetLink(m, p, NEXT, n), n, PREV, p)
  }

  /** The two writes of an unlink reach the link fields of `p` and `n` and no others. */
  lemma LinksAfter(m: seq<byte>, p: int, n: int, x: int)
    requires 0 <= p <= |m| - OVERHEAD && 0 <= n <= |m| - OVERHEAD && 0 < x <= |m| - OVERHEAD && |m| <= UINT32
    requires p == 0 || p == x || x + OVERHEAD <= p || p + OVERHEAD <= x
    requires n == 0 || n == x || x + OVERHEAD <= n || n + OVERHEAD <= x
    ensures var r := SetLink(SetLink(m, p, NEXT, n), n, PREV, p);
      && Word(r, x + NEXT) == (if x == p then n else Word(m, x + NEXT))
      && Word(r, x + PREV) == (if x == n then p else Word(m, x + PREV))
  {
    hide Word;
  }

  lemma WithoutNeighbours(fl: seq<int>, k: int, i: int)
    requires 0 <= k < |fl| && 0 <= i < |fl| - 1
    ensures var fl', j := Without(fl, k), if i < k then i else i + 1;
      && fl'[i] == fl[j]
      && Before(fl', i) == (if j == k + 1 then Before(fl, k) else Before(fl, j))
      && After(fl', i) == (if j == k - 1 then After(fl, k) else After(fl, j))
  {
  }

  lemma UnlinkAt(m: seq<byte>, fl: seq<int>, first: int, k: int, i: int)
    requires Linked(m, fl, first) && 0 <= k < |fl| && 0 <= i < |fl| - 1 && |m| <= UINT32
    requires Spaced(Without(fl, k), |m|)
    ensures LinkedAt(Unlink(m, fl, k), Without(fl, k), i)
  {
    hide Word;
    var p, n, j := Before(fl, k), After(fl, k), if i < k then i else i + 1;
    var x := fl[j];
    assert LinkedAt(m, fl, j);
    assert p != 0 ==> (x == p <==> j == k - 1) && (x == p || x + OVERHEAD <= p || p + OVERHEAD <= x);
    assert n != 0 ==> (x == n <==> j == k + 1) && (x == n || x + OVERHEAD <= n || n + OVERHEAD <= x);
    LinksAfter(m, p, n, x);
    WithoutNeighbours(fl, k, i);
  }

  /** Joining a node's neighbours to each other takes it out of the list. */
  lemma UnlinkRemoves(m: seq<byte>, fl: seq<int>, first: int, k: int)
    requires Linked(m, fl, first) && 0 <= k < |fl| && |m| <= UINT32
    ensures Linked(Unlink(m, fl, k), Without(fl, k), if k == 0 then After(fl, k) else first)
    ensures OnlyLinks(m, Unlink(m, fl, k), fl)
  {
    WithoutMembers(fl, |m|, k);
    forall i {:trigger LinkedAt(Unlink(m, fl, k), Without(fl, k), i)} | 0 <= i < |fl| - 1
      ensures LinkedAt(Unlink(m, fl, k), Without(fl, k), i)
    {
      UnlinkAt(m, fl, first, k, i);
    }
    assert Before(fl, k) != 0 ==> Before(fl, k) in fl;
    assert After(fl, k) != 0 ==> After(fl, k) in fl;
  }

  ghost function Push(m: seq<byte>, first: int, x: int): seq<byte>
    requires 0 < x <= |m| - OVERHEAD && 0 <= first <= |m| - OVERHEAD && |m| <= UINT32
  {
    SetLink(SetLink(SetLink(m, x, NEXT, first), first, PREV, x), x, PREV, 0)
  }

  lemma PushAt(m: seq<byte>, fl: seq<int>, first: int, x: int, i: int)
    requires Linked(m, fl, first) && 0 < x <= |m| - OVERHEAD && |m| <= UINT32
    requires forall j :: 0 <= j < |fl| ==> fl[j] + OVERHEAD <= x || x + OVERHEAD <= fl[j]
    requires 0 <= i <= |fl|
    ensures LinkedAt(Push(m, first, x), [x] + fl, i)
  {
    hide Word;
    var fl' := [x] + fl;
    if i > 0 {
      assert fl'[i] == fl[i - 1] && LinkedAt(m, fl, i - 1);
      assert i > 1 ==> fl'[i - 1] == fl[i - 2];
      assert fl[i - 1] == first || fl[i - 1] + 16 <= first || first + 16 <= fl[i - 1];
      assert i < |fl| ==> fl'[i + 1] == fl[i];
    }
  }

  /** Pushing a node that overlaps no other puts it at the front. */
  lemma PushInserts(m: seq<byte>, fl: seq<int>, first: int, x: int)
    requires Linked(m, fl, first) && 0 < x <= |m| - OVERHEAD && |m| <= UINT32
    requires forall y :: y in fl ==> y + OVERHEAD <= x || x + OVERHEAD <= y
    ensures Linked(Push(m, first, x), [x] + fl, x)
    ensures OnlyLinks(m, Push(m, first, x), [x] + fl)
  {
    hide Word;
    var fl' := [x] + fl;
    assert forall j :: 0 <= j < |fl| ==> fl[j] in fl;
    forall i {:trigger LinkedAt(Push(m, first, x), fl', i)} | 0 <= i < |fl'|
      ensures LinkedAt(Push(m, first, x), fl', i)
    {
      PushAt(m, fl, first, x, i);
    }
    assert x in fl' && (first != 0 ==> first in fl');
  }
}
