/** Byte-addressed memory and the little-endian 32-bit words stored in it. */
module Memory {
  import opened Basics

  type byte = x: int | 0 <= x < 256

  function Word(m: seq<byte>, a: int): (w: int)
    requires 0 <= a <= |m| - 4
    ensures 0 <= w < UINT32
  {
    m[a] as int + 0x100 * (m[a + 1] as int) + 0x1_0000 * (m[a + 2] as int) + 0x100_0000 * (m[a + 3] as int)
  }

  /** The four bytes of a word, least significant first. */
  function Bytes(v: int): (b: (byte, byte, byte, byte))
    requires 0 <= v < UINT32
    ensures b.0 as int + 0x100 * (b.1 as int) + 0x1_0000 * (b.2 as int) + 0x100_0000 * (b.3 as int) == v
  {
    var r := v / 0x100;
    var s := r / 0x100;
    (v % 0x100, r % 0x100, s % 0x100, s / 0x100)
  }

  /** Storing a word reads back and leaves every other byte, and every word apart from it, alone. */
  function Put(m: seq<byte>, a: int, v: int): (r: seq<byte>)
    requires 0 <= a <= |m| - 4 && 0 <= v < UINT32
    ensures |r| == |m| && Word(r, a) == v
    ensures forall i {:trigger r[i]} :: 0 <= i < |m| && (i < a || a + 4 <= i) ==> r[i] == m[i]
    ensures forall c {:trigger Word(r, c)} :: 0 <= c <= |m| - 4 && (c + 4 <= a || a + 4 <= c) ==>
      Word(r, c) == Word(m, c)
  {
    var b := Bytes(v);
    m[a := b.0][a + 1 := b.1][a + 2 := b.2][a + 3 := b.3]
  }
}
