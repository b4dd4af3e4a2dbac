/** Bits of an unsigned machine word, written out in arithmetic. */
module Bits {

  function Pow2(j: nat): (p: nat)
    ensures p > 0
  {
    if j == 0 then 1 else 2 * Pow2(j - 1)
  }

  /** `w & (1 << j)` is not zero. */
  predicate Bit(w: nat, j: nat)
  {
    if j == 0 then w % 2 == 1 else Bit(w / 2, j - 1)
  }

  /** `w | (1 << j)` */
  function SetBit(w: nat, j: nat): nat
  {
    if Bit(w, j) then w else w + Pow2(j)
  }

  /** `w & ~(1 << j)` */
  function ClearBit(w: nat, j: nat): (r: nat)
    ensures Bit(w, j) ==> w >= Pow2(j)
  {
    BitBound(w, j);
    if Bit(w, j) then w - Pow2(j) else w
  }

  lemma {:induction false} BitBound(w: nat, j: nat)
    ensures Bit(w, j) ==> w >= Pow2(j)
  {
    if j > 0 {
      BitBound(w / 2, j - 1);
    }
  }

  /** Adding a clear bit's weight sets that bit and changes no other. */
  lemma {:induction false} AddBit(w: nat, j: nat, i: nat)
    requires !Bit(w, j)
    ensures Bit(w + Pow2(j), i) <==> i == j || Bit(w, i)
  {
    if j > 0 {
      assert (w + Pow2(j)) / 2 == w / 2 + Pow2(j - 1) && (w + Pow2(j)) % 2 == w % 2;
      if i > 0 {
        AddBit(w / 2, j - 1, i - 1);
      }
    } else {
      assert (w + 1) / 2 == w / 2;
    }
  }

  lemma SetBitWrites(w: nat, j: nat, i: nat)
    ensures Bit(SetBit(w, j), i) <==> i == j || Bit(w, i)
  {
    if !Bit(w, j) {
      AddBit(w, j, i);
    }
  }

  lemma ClearBitWrites(w: nat, j: nat, i: nat)
    ensures Bit(ClearBit(w, j), i) <==> i != j && Bit(w, i)
  {
    if Bit(w, j) {
      SubtractBit(w, j);
      AddBit(w - Pow2(j), j, i);
    }
  }

  lemma {:induction false} SubtractBit(w: nat, j: nat)
    requires Bit(w, j)
    ensures w >= Pow2(j) && !Bit(w - Pow2(j), j)
  {
    BitBound(w, j);
    if j > 0 {
      assert (w - Pow2(j)) / 2 == w / 2 - Pow2(j - 1);
      SubtractBit(w / 2, j - 1);
    }
  }

  /** An n-bit word has all its bits set exactly when it is the largest one. */
  lemma {:induction false} LargestIsAllSet(n: nat, i: nat)
    requires i < n
    ensures Bit(Pow2(n) - 1, i)
  {
    assert (Pow2(n) - 1) / 2 == Pow2(n - 1) - 1;
    if i > 0 {
      LargestIsAllSet(n - 1, i - 1);
    }
  }

  lemma {:induction false} AllSetIsLargest(w: nat, n: nat)
    requires w < Pow2(n) && forall i :: 0 <= i < n ==> Bit(w, i)
    ensures w == Pow2(n) - 1
  {
    if n > 0 {
      forall i | 0 <= i < n - 1
        ensures Bit(w / 2, i)
      {
        assert Bit(w, i + 1);
      }
      AllSetIsLargest(w / 2, n - 1);
      assert Bit(w, 0);
    }
  }

  lemma {:induction false} SetBitBound(w: nat, j: nat, n: nat)
    requires w < Pow2(n) && j < n
    ensures SetBit(w, j) < Pow2(n)
  {
    if j > 0 && !Bit(w, j) {
      SetBitBound(w / 2, j - 1, n - 1);
      assert SetBit(w / 2, j - 1) == w / 2 + Pow2(j - 1);
    }
  }

  lemma ClearBitBound(w: nat, j: nat)
    ensures ClearBit(w, j) <= w
  {
  }

  lemma Pow2Of32()
    ensures Pow2(32) == 0x1_0000_0000
  {
    assert Pow2(8) == 0x100;
    assert Pow2(16) == 0x1_0000;
    assert Pow2(24) == 0x100_0000;
  }
}

/** The physical frame allocator: one bit per 4 KiB block, lowest clear block first. */
module FrameAllocator {
  import opened Basics
  import opened Bits

  const BLOCK_SIZE := 4096

  /** A set of block numbers below `n` with fewer than `n` members misses one. */
  lemma {:induction false} Pigeonhole(s: set<nat>, n: nat)
    requires forall k :: k in s ==> k < n
    ensures |s| <= n
    ensures |s| < n ==> exists k: nat :: k < n && k !in s
    ensures |s| == n ==> forall k: nat :: k < n ==> k in s
  {
    if n > 0 {
      var t := s - {n - 1};
      Pigeonhole(t, n - 1);
      if n - 1 in s {
        assert |s| == |t| + 1;
      } else {
        assert s == t;
      }
    } else {
      assert s == {};
    }
  }

  class Pmm {
    const maxBlocks: nat
    const bitmap: array<nat>
    var used: int
    ghost var taken: set<nat>  // the blocks whose bit is set

    ghost predicate Valid()
      reads this, bitmap
    {
      && maxBlocks <= 32 * bitmap.Length && maxBlocks <= 0x10_0000
      && (forall i :: 0 <= i < bitmap.Length ==> bitmap[i] < Pow2(32))
      && (forall k :: k in taken ==> k < 32 * bitmap.Length)
      && (forall i, j :: 0 <= i < bitmap.Length && 0 <= j < 32 ==> (Bit(bitmap[i], j) <==> 32 * i + j in taken))
    }

    /** The counter agrees with the bitmap and no bit past the last block is set. */
    ghost predicate Counted()
      reads this
    {
      used == |taken| && forall k :: k in taken ==> k < maxBlocks
    }

    /** The state pmm_init leaves: a zeroed bitmap of `blocks` bits. */
    constructor (blocks: nat)
      requires blocks <= 0x10_0000
      ensures Valid() && maxBlocks == blocks && fresh(bitmap)
      ensures taken == {} && Counted()
    {
      maxBlocks := blocks;
      bitmap := new nat[(blocks + 31) / 32](_ => 0);
      used := 0;
      taken := {};
      new;
      forall j | 0 <= j < 32
        ensures !Bit(0, j)
      {
        BitBound(0, j);
      }
    }

    method SetBlock(bit: nat)
      requires Valid() && bit < 32 * bitmap.Length
      modifies this, bitmap
      ensures Valid() && taken == old(taken) + {bit} && used == (old(used) + 1) % UINT32
    {
      hide Bit, SetBit, Pow2;
      ghost var w := bitmap[bit / 32];
      SetBitBound(w, bit % 32, 32);
      forall j | 0 <= j < 32
        ensures Bit(SetBit(w, bit % 32), j) <==> j == bit % 32 || Bit(w, j)
      {
        SetBitWrites(w, bit % 32, j);
      }
      bitmap[bit / 32] := SetBit(bitmap[bit / 32], bit % 32);
      used := (used + 1) % UINT32;
      taken := taken + {bit};
    }

    method ClearBlock(bit: nat)
      requires Valid() && bit < 32 * bitmap.Length
      modifies this, bitmap
      ensures Valid() && taken == old(taken) - {bit} && used == (old(used) - 1) % UINT32
    {
      hide Bit, ClearBit, Pow2;
      ghost var w := bitmap[bit / 32];
      ClearBitBound(w, bit % 32);
      forall j | 0 <= j < 32
        ensures Bit(ClearBit(w, bit % 32), j) <==> j != bit % 32 && Bit(w, j)
      {
        ClearBitWrites(w, bit % 32, j);
      }
      bitmap[bit / 32] := ClearBit(bitmap[bit / 32], bit % 32);
      used := (used - 1) % UINT32;
      taken := taken - {bit};
    }

    /** The blocks the scan looks at: whole bitmap words below `maxBlocks`. */
    function Scanned(): nat
    {
      32 * (maxBlocks / 32)
    }

    /** The lowest clear block among those scanned; block 0 when all of them are set. */
    method FirstFree() returns (r: nat)
      requires Valid()
      ensures forall k: nat :: k < r ==> k in taken
      ensures (r < Scanned() && r !in taken) || (r == 0 && forall k: nat :: k < Scanned() ==> k in taken)
    {
      Pow2Of32();
      for i := 0 to maxBlocks / 32
        invariant forall k: nat :: k < 32 * i ==> k in taken
      {
        if bitmap[i] != 0xffff_ffff {
          for j := 0 to 32
            invariant forall k: nat :: k < 32 * i + j ==> k in taken
            invariant forall k :: 0 <= k < j ==> Bit(bitmap[i], k)
          {
            if !Bit(bitmap[i], j) {
              return 32 * i + j;
            }
          }
          AllSetIsLargest(bitmap[i], 32);
          assert false;
        }
        forall k: nat | 32 * i <= k < 32 * i + 32
          ensures k in taken
        {
          LargestIsAllSet(32, k - 32 * i);
        }
      }
      return 0;
    }

    /**
      Out of blocks: answer 0 and change nothing. Otherwise mark and return the block the scan
      finds. That block is a fresh one, and the counter stays exact, just when block 0 or some
      other block the scan looks at was clear.
     */
    method AllocBlock() returns (addr: nat)
      requires Valid() && Counted()
      modifies this, bitmap
      ensures Valid()
      ensures old(used) == maxBlocks ==> addr == 0 && taken == old(taken) && used == old(used)
      ensures old(used) < maxBlocks ==>
                && addr % BLOCK_SIZE == 0 && taken == old(taken) + {addr / BLOCK_SIZE}
                && (forall k: nat :: k < addr / BLOCK_SIZE ==> k in old(taken))
                && (addr / BLOCK_SIZE !in old(taken) <==>
                    (0 !in old(taken) || exists k: nat :: k < Scanned() && k !in old(taken)))
                && (addr / BLOCK_SIZE !in old(taken) <==> Counted())
    {
      Pigeonhole(taken, maxBlocks);
      if maxBlocks - used <= 0 {
        return 0;
      }
      var block := FirstFree();
      SetBlock(block);
      addr := block * BLOCK_SIZE;
      if block in old(taken) {
        assert taken == old(taken);
      }
    }

    /** When the block count is a multiple of 32 the scan misses nothing, so a block is always found. */
    lemma WholeWordsNeverFallBack()
      requires Counted() && maxBlocks % 32 == 0 && used < maxBlocks
      ensures exists k: nat :: k < Scanned() && k !in taken
    {
      Pigeonhole(taken, maxBlocks);
    }

    /** The counter stays exact precisely when the freed block was allocated. */
    method FreeBlock(addr: nat)
      requires Valid() && addr / BLOCK_SIZE < 32 * bitmap.Length
      modifies this, bitmap
      ensures Valid() && taken == old(taken) - {addr / BLOCK_SIZE} && used == (old(used) - 1) % UINT32
      ensures old(Counted()) ==> (Counted() <==> addr / BLOCK_SIZE in old(taken))
    {
      if Counted() {
        Pigeonhole(taken, maxBlocks);
      }
      ClearBlock(addr / BLOCK_SIZE);
      if addr / BLOCK_SIZE !in old(taken) {
        assert taken == old(taken);
      }
    }
  }
}
