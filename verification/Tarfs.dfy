/** The USTAR archives that the initial ramdisk is made of. */
module Ustar {
  import opened Basics
  import opened Memory

  const BLOCK := 512
  const NAME := 100        // offset of mode, and the longest name
  const SIZE := 124        // offset of the size field
  const SIZE_DIGITS := 11
  const TYPEFLAG := 156
  const REGTYPE: byte := 48

  /**
    One archived file: `owner` is mode, uid and gid, `stamps` the terminator of the size field, the
    time and the checksum, `links` everything behind the type flag.
   */
  datatype Entry =
    Entry(name: seq<byte>, owner: seq<byte>, stamps: seq<byte>, kind: byte, links: seq<byte>, data: seq<byte>)
  {
    ghost predicate Valid()
    {
      && 0 < |name| <= NAME && (forall k :: 0 <= k < |name| ==> name[k] != 0)
      && |owner| == 24 && |stamps| == 21 && |links| == 355
      && |data| < UINT32
    }
  }

  function Pow8(n: nat): (p: int)
    ensures p > 0
  {
    if n == 0 then 1 else 8 * Pow8(n - 1)
  }

  /** `n` in `k` octal digits. */
  function Octal(n: nat, k: nat): (s: seq<byte>)
    requires n < Pow8(k)
    ensures |s| == k
  {
    if k == 0 then []
    else
      OctalStep(n, k);
      [48 + n / Pow8(k - 1)] + Octal(n % Pow8(k - 1), k - 1)
  }

  lemma OctalStep(n: nat, k: nat)
    requires 0 < k && n < Pow8(k)
    ensures 0 <= n / Pow8(k - 1) < 8 && 0 <= n % Pow8(k - 1) < Pow8(k - 1)
    ensures n == (n / Pow8(k - 1)) * Pow8(k - 1) + n % Pow8(k - 1)
  {
    DivideBy(n, Pow8(k - 1));
  }

  lemma DivideBy(n: nat, p: int)
    requires 0 < p && n < 8 * p
    ensures 0 <= n / p < 8 && 0 <= n % p < p && n == (n / p) * p + n % p
  {
    var q, r := n / p, n % p;
    assert n == q * p + r;
    MulOrder(8, q, p);
    MulOrder(q, -1, p);
  }

  lemma WordInOctal()
    ensures Pow8(10) == 0x4000_0000 && UINT32 < Pow8(11)
  {
    assert Pow8(5) == 0x8000;
  }

  function Zeros(n: nat): (s: seq<byte>)
    ensures |s| == n && forall k :: 0 <= k < n ==> s[k] == 0
  {
    seq(n, _ => 0)
  }

  function Header(e: Entry): (h: seq<byte>)
    requires e.Valid()
    ensures |h| == BLOCK
  {
    WordInOctal();
    e.name + Zeros(NAME - |e.name|) + e.owner + Octal(|e.data|, SIZE_DIGITS) + e.stamps + [e.kind] + e.links
  }

  /** Contents are padded to whole blocks. */
  function Padding(n: nat): (p: nat)
    ensures (n + p) % BLOCK == 0 && p < BLOCK
  {
    (BLOCK - n % BLOCK) % BLOCK
  }

  /** The blocks of one entry. */
  function Space(e: Entry): (n: nat)
    ensures n >= BLOCK + |e.data|
  {
    BLOCK + |e.data| + Padding(|e.data|)
  }

  /** Every entry in turn, then a zero block. */
  function Encode(es: seq<Entry>): seq<byte>
    requires forall e :: e in es ==> e.Valid()
  {
    if es == [] then Zeros(BLOCK)
    else Header(es[0]) + es[0].data + Zeros(Padding(|es[0].data|)) + Encode(es[1..])
  }

  /** Memory at `a` holds the header of `e`; bytes the reader never looks at are left open. */
  ghost predicate HeaderAt(m: seq<byte>, a: nat, e: Entry)
  {
    && e.Valid() && a + BLOCK <= |m|
    && m[a..a + |e.name|] == e.name
    && (|e.name| < NAME ==> m[a + |e.name|] == 0)
    && (|e.name| == NAME ==> m[a + |e.name|] == e.owner[0])
    && |e.data| < Pow8(SIZE_DIGITS)
    && m[a + SIZE..a + SIZE + SIZE_DIGITS] == Octal(|e.data|, SIZE_DIGITS)
    && m[a + TYPEFLAG] == e.kind
  }

  ghost predicate EntryAt(m: seq<byte>, a: nat, e: Entry)
  {
    HeaderAt(m, a, e) && a + Space(e) <= |m| && m[a + BLOCK..a + BLOCK + |e.data|] == e.data
  }

  /** Where entry `k` starts in an archive at `a`; for `k == |es|`, where the zero block does. */
  function Start(a: nat, es: seq<Entry>, k: nat): (r: nat)
    requires k <= |es|
    ensures r >= a + k * BLOCK
    decreases k
  {
    if k == 0 then a else Start(a + Space(es[0]), es[1..], k - 1)
  }

  /** Memory at `a` holds the archive of `es`. */
  ghost predicate ArchiveAt(m: seq<byte>, a: nat, es: seq<Entry>)
    decreases |es|
  {
    if es == [] then a < |m| && m[a] == 0
    else EntryAt(m, a, es[0]) && ArchiveAt(m, a + Space(es[0]), es[1..])
  }

  lemma HeaderEncoded(m: seq<byte>, a: nat, e: Entry)
    requires e.Valid() && a + BLOCK <= |m| && m[a..a + BLOCK] == Header(e)
    ensures HeaderAt(m, a, e)
  {
    hide Octal, Zeros;
    WordInOctal();
    var front := e.name + Zeros(NAME - |e.name|);
    var digits := Octal(|e.data|, SIZE_DIGITS);
    var h := Header(e);
    HeaderPieces(front, e.owner, digits, e.stamps, e.kind, e.links);
    Slice(m, a, BLOCK, SIZE, SIZE + SIZE_DIGITS);
    Slice(m, a, BLOCK, 0, |e.name|);
    assert h[..|e.name|] == e.name;
    assert m[a + |e.name|] == h[|e.name|] && m[a + TYPEFLAG] == h[TYPEFLAG];
    if |e.name| < NAME {
      assert h[|e.name|] == front[|e.name|] == Zeros(NAME - |e.name|)[0];
    }
  }

  lemma Slice(m: seq<byte>, a: nat, n: nat, i: nat, j: nat)
    requires a + n <= |m| && i <= j <= n
    ensures m[a..a + n][i..j] == m[a + i..a + j]
  {
    var s, t := m[a..a + n][i..j], m[a + i..a + j];
    assert |s| == |t| && forall k :: 0 <= k < |s| ==> s[k] == m[a + i + k] == t[k];
  }

  lemma HeaderPieces(front: seq<byte>, owner: seq<byte>, digits: seq<byte>, stamps: seq<byte>, kind: byte,
                     links: seq<byte>)
    requires |front| == NAME && |owner| == 24 && |digits| == SIZE_DIGITS && |stamps| == 21
    ensures var h := front + owner + digits + stamps + [kind] + links;
      && |h| == 157 + |links|
      && h[..NAME] == front && h[NAME] == owner[0] && h[SIZE..SIZE + SIZE_DIGITS] == digits && h[TYPEFLAG] == kind
  {
  }

  lemma EntryPieces(h: seq<byte>, d: seq<byte>, z: seq<byte>, rest: seq<byte>)
    ensures var c := h + d + z + rest;
      && c[..|h|] == h && c[|h|..|h| + |d|] == d && c[|h| + |d| + |z|..] == rest
  {
  }

  /** What is written out is an archive. */
  lemma {:induction false} EncodedArchive(m: seq<byte>, a: nat, es: seq<Entry>)
    requires forall e :: e in es ==> e.Valid()
    requires a + |Encode(es)| <= |m| && m[a..a + |Encode(es)|] == Encode(es)
    ensures ArchiveAt(m, a, es)
    decreases |es|
  {
    hide Header, HeaderAt, Padding;
    var c := Encode(es);
    if es == [] {
      assert m[a] == m[a..a + |c|][0] == 0;
    } else {
      EntryEncoded(m, a, es[0], Encode(es[1..]));
      EncodedArchive(m, a + Space(es[0]), es[1..]);
    }
  }

  lemma EntryEncoded(m: seq<byte>, a: nat, e: Entry, rest: seq<byte>)
    requires e.Valid() && a + Space(e) + |rest| <= |m|
    requires m[a..a + Space(e) + |rest|] == Header(e) + e.data + Zeros(Padding(|e.data|)) + rest
    ensures EntryAt(m, a, e) && m[a + Space(e)..a + Space(e) + |rest|] == rest
  {
    hide Header, HeaderAt, Padding, Zeros;
    var d, n := |e.data|, Space(e) + |rest|;
    EntryPieces(Header(e), e.data, Zeros(Padding(d)), rest);
    Slice(m, a, n, 0, BLOCK);
    Slice(m, a, n, BLOCK, BLOCK + d);
    Slice(m, a, n, Space(e), n);
    HeaderEncoded(m, a, e);
  }

  /** Each entry of an archive is where the sizes before it say. */
  lemma {:induction false} EntryInArchive(m: seq<byte>, a: nat, es: seq<Entry>, k: nat)
    requires ArchiveAt(m, a, es) && k < |es|
    ensures EntryAt(m, Start(a, es, k), es[k])
    decreases k
  {
    hide EntryAt, Space;
    if k > 0 {
      EntryInArchive(m, a + Space(es[0]), es[1..], k - 1);
    }
  }

  lemma {:induction false} StartNext(a: nat, es: seq<Entry>, k: nat)
    requires k < |es|
    ensures Start(a, es, k + 1) == Start(a, es, k) + Space(es[k])
    decreases k
  {
    if k > 0 {
      StartNext(a + Space(es[0]), es[1..], k - 1);
    }
  }
}

/** Mounting the ramdisk: parsing the archive, the list of file nodes, lookup and reading. */
module Tarfs {
  import opened Basics
  import opened Memory
  import opened Ustar

  const NUM_TARFILES := 64

  // ---- The size field ----

  /** Unsigned 32-bit arithmetic. */
  function Wrap(x: int): (r: nat)
    ensures r < UINT32
  {
    x % UINT32
  }

  /** A `char` is signed. */
  function Signed(b: byte): int
  {
    if b < 128 then b as int else b - 256
  }

  function DigitTimes(b: byte, count: int): int
  {
    (Signed(b) - 48) * count
  }

  /** What a field of octal digits stands for, whatever its bytes. */
  function Field(s: seq<byte>): int
  {
    if s == [] then 0 else DigitTimes(s[0], Pow8(|s| - 1)) + Field(s[1..])
  }

  lemma {:induction false} FieldOfOctal(n: nat, k: nat)
    requires n < Pow8(k)
    ensures Field(Octal(n, k)) == n
    decreases k
  {
    if k > 0 {
      OctalStep(n, k);
      var s, p := Octal(n, k), Pow8(k - 1);
      FieldOfOctal(n % p, k - 1);
      assert s[1..] == Octal(n % p, k - 1);
      assert Signed(s[0]) - 48 == n / p;
    }
  }

  lemma AddModulo(x: int, y: int)
    ensures (x % UINT32 + y) % UINT32 == (x + y) % UINT32
  {
    var q := x / UINT32;
    assert x + y == q * UINT32 + (x % UINT32 + y);
  }

  /** The size in a header, modulo 2^32. */
  function SizeAt(m: seq<byte>, a: nat): (n: nat)
    requires a + BLOCK <= |m|
    ensures n < UINT32
  {
    Wrap(Field(m[a + SIZE..a + SIZE + SIZE_DIGITS]))
  }

  lemma FieldEnds(s: seq<byte>)
    ensures Wrap(Field(s[|s|..])) == 0 && s[0..] == s && Pow8(0) == 1
  {
  }

  /** One more digit on the left. */
  lemma FieldStep(s: seq<byte>, j: nat)
    requires j < |s|
    ensures Wrap(Wrap(Field(s[j + 1..])) + DigitTimes(s[j], Pow8(|s| - 1 - j))) == Wrap(Field(s[j..]))
  {
    assert s[j..][1..] == s[j + 1..];
    AddModulo(Field(s[j + 1..]), DigitTimes(s[j], Pow8(|s| - 1 - j)));
  }

  method GetSize(m: seq<byte>, a: nat) returns (size: nat)
    requires a + BLOCK <= |m|
    ensures size == SizeAt(m, a)
  {
    hide Field, Pow8, DigitTimes, Wrap, TimesEight;
    size := 0;
    var count := 1;
    var j := SIZE_DIGITS;
    ghost var s := m[a + SIZE..a + SIZE + SIZE_DIGITS];
    FieldEnds(s);
    while j > 0
      invariant 0 <= j <= SIZE_DIGITS == |s| && size == Wrap(Field(s[j..]))
      invariant j > 0 ==> count == Pow8(SIZE_DIGITS - j)
    {
      j := j - 1;
      FieldStep(s, j);
      SmallPower(SIZE_DIGITS - 1 - j);
      size := Wrap(size + DigitTimes(m[a + SIZE + j], count));
      count := TimesEight(count);
    }
  }

  /** count *= 8, in 32 bits. */
  function TimesEight(count: int): nat
  {
    Wrap(count * 8)
  }

  lemma SmallPower(n: nat)
    requires n <= 10
    ensures n < 10 ==> Pow8(n + 1) == TimesEight(Pow8(n))
  {
    WordInOctal();
    if n < 10 {
      Pow8Grows(n + 1, 10);
    }
  }

  lemma Pow8Grows(m: nat, n: nat)
    requires m <= n
    ensures Pow8(m) <= Pow8(n)
  {
  }

  /** The reader sees the archived length. */
  lemma SizeOfEntry(m: seq<byte>, a: nat, e: Entry)
    requires HeaderAt(m, a, e)
    ensures SizeAt(m, a) == |e.data|
  {
    FieldOfOctal(|e.data|, SIZE_DIGITS);
  }

  // ---- Parsing ----

  /** How far the next header is. */
  function Advance(size: nat): nat
  {
    (size / 512 + 1) * 512 + if size % 512 != 0 then 512 else 0
  }

  lemma AdvanceIsSpace(e: Entry)
    ensures Advance(|e.data|) == Space(e)
  {
  }

  /**
    The headers counted from `address` on when `room` places are left, or None when parsing leaves
    the memory or the header table. An entry reaching beyond `end` is not counted.
   */
  function Scan(m: seq<byte>, address: nat, end: nat, room: nat): Option<seq<nat>>
    decreases room
  {
    if address >= |m| then None
    else if m[address] == 0 then Some([])
    else if address + BLOCK > |m| || room == 0 then None
    else
      var next := Wrap(address + Advance(SizeAt(m, address)));
      if next > end then Some([])
      else
        match Scan(m, next, end, room - 1)
        case None => None
        case Some(rest) => Some([address] + rest)
  }

  /**
    On an archive the headers counted are the positions of the entries that end by `end`, and the
    table overflows exactly when one more of them than it has places begins by `end`.
   */
  lemma {:induction false} ScanArchive(m: seq<byte>, a: nat, es: seq<Entry>, end: nat, room: nat)
    requires |m| <= UINT32 && ArchiveAt(m, a, es) && a <= end
    ensures var r := Scan(m, a, end, room);
      && (r.None? <==> |es| > room && Start(a, es, room) <= end)
      && (r.Some? ==>
            && |r.value| <= |es| && |r.value| <= room
            && (forall k :: 0 <= k < |r.value| ==> r.value[k] == Start(a, es, k))
            && (forall k :: 0 < k <= |es| ==> (k <= |r.value| <==> Start(a, es, k) <= end)))
    decreases |es|
  {
    hide HeaderAt, Scan, Space, SizeAt, Wrap, Advance;
    if es == [] {
      ScanStep(m, a, end, room);
    } else {
      var next := a + Space(es[0]);
      ScanEntry(m, a, es, end, room);
      assert forall k :: 0 < k <= |es| ==> Start(a, es, k) == Start(next, es[1..], k - 1);
      if room > 0 && next <= end {
        ScanArchive(m, next, es[1..], end, room - 1);
      } else if next > end {
        assert forall k :: 0 < k <= |es| ==> Start(a, es, k) > end;
      }
    }
  }

  lemma NoWrap(x: nat)
    requires x < UINT32
    ensures Wrap(x) == x
  {
  }

  /** One entry of the archive, as the scan meets it. */
  lemma ScanEntry(m: seq<byte>, a: nat, es: seq<Entry>, end: nat, room: nat)
    requires |m| <= UINT32 && es != [] && ArchiveAt(m, a, es)
    ensures var next := a + Space(es[0]);
      Scan(m, a, end, room) ==
      if room == 0 then None else if next > end then Some([]) else Prepend([a], Scan(m, next, end, room - 1))
  {
    hide HeaderAt, Scan, SizeAt, Wrap, Advance, Space;
    var e, next := es[0], a + Space(es[0]);
    FirstByte(m, a, e);
    SizeOfEntry(m, a, e);
    AdvanceIsSpace(e);
    ArchiveInMemory(m, next, es[1..]);
    NoWrap(next);
    ScanStep(m, a, end, room);
  }

  lemma FirstByte(m: seq<byte>, a: nat, e: Entry)
    requires HeaderAt(m, a, e)
    ensures a + BLOCK <= |m| && m[a] != 0
  {
    assert m[a] == m[a..a + |e.name|][0];
  }

  lemma ArchiveInMemory(m: seq<byte>, a: nat, es: seq<Entry>)
    requires ArchiveAt(m, a, es)
    ensures a < |m|
  {
  }

  // ---- Names ----

  /** The C string at `a`. */
  function CString(m: seq<byte>, a: nat): seq<byte>
    decreases |m| - a
  {
    if a >= |m| || m[a] == 0 then [] else [m[a]] + CString(m, a + 1)
  }

  lemma {:induction false} CStringIs(m: seq<byte>, a: nat, s: seq<byte>)
    requires a + |s| < |m| && m[a..a + |s|] == s && forall k :: 0 <= k < |s| ==> s[k] != 0
    ensures CString(m, a) == s <==> m[a + |s|] == 0
    decreases |s|
  {
    if s != [] {
      assert m[a] == m[a..a + |s|][0] == s[0];
      assert m[a + 1..a + |s|] == m[a..a + |s|][1..] == s[1..];
      CStringIs(m, a + 1, s[1..]);
      assert s == [s[0]] + s[1..];
      assert CString(m, a)[1..] == CString(m, a + 1);
    }
  }

  /** The recorded name is the archived one, unless a name of all 100 bytes runs on into the mode field. */
  lemma NameOfEntry(m: seq<byte>, a: nat, e: Entry)
    requires HeaderAt(m, a, e)
    ensures CString(m, a) == e.name <==> |e.name| < NAME || e.owner[0] == 0
  {
    CStringIs(m, a, e.name);
  }

  // ---- File nodes ----

  /** The node of a file: `inode` is the index of its header. */
  datatype FileNode = FileNode(name: seq<byte>, inode: nat, length: nat)

  ghost predicate InMemory(m: seq<byte>, hs: seq<nat>)
  {
    forall k :: 0 <= k < |hs| ==> hs[k] + BLOCK <= |m|
  }

  predicate Regular(m: seq<byte>, a: nat)
    requires a + BLOCK <= |m|
  {
    m[a + TYPEFLAG] == REGTYPE
  }

  function NodeAt(m: seq<byte>, hs: seq<nat>, i: nat): FileNode
    requires InMemory(m, hs) && i < |hs|
  {
    FileNode(CString(m, hs[i]), i, SizeAt(m, hs[i]))
  }

  /** The node inserted for header `i`: its own if it is regular, otherwise the previous one again. */
  function Latest(m: seq<byte>, hs: seq<nat>, i: nat): Option<FileNode>
    requires InMemory(m, hs) && i < |hs|
  {
    if i == 0 then None else if Regular(m, hs[i]) then Some(NodeAt(m, hs, i)) else Latest(m, hs, i - 1)
  }

  /** The list after headers 1 to n - 1: each is inserted at the front. */
  function Nodes(m: seq<byte>, hs: seq<nat>, n: nat): seq<Option<FileNode>>
    requires InMemory(m, hs) && n <= |hs|
  {
    if n <= 1 then [] else [Latest(m, hs, n - 1)] + Nodes(m, hs, n - 1)
  }

  datatype Answer = Missing | NullNode | Found(node: FileNode)

  function Lookup(nodes: seq<Option<FileNode>>, name: seq<byte>): Answer
  {
    if nodes == [] then Missing
    else if nodes[0].None? then NullNode
    else if name == nodes[0].value.name then Found(nodes[0].value)
    else Lookup(nodes[1..], name)
  }

  /** Header `k` is a regular file of that name. */
  ghost predicate Matches(m: seq<byte>, hs: seq<nat>, k: nat, name: seq<byte>)
    requires InMemory(m, hs)
  {
    0 < k < |hs| && Regular(m, hs[k]) && CString(m, hs[k]) == name
  }

  /** `k` is the last regular file of that name among headers 1 to n - 1. */
  ghost predicate LastMatch(m: seq<byte>, hs: seq<nat>, n: nat, k: nat, name: seq<byte>)
    requires InMemory(m, hs) && n <= |hs|
  {
    k < n && Matches(m, hs, k, name) && forall j :: k < j < n ==> !Matches(m, hs, j, name)
  }

  ghost predicate NoMatch(m: seq<byte>, hs: seq<nat>, n: nat, name: seq<byte>)
    requires InMemory(m, hs) && n <= |hs|
  {
    forall k :: 0 < k < n ==> !Matches(m, hs, k, name)
  }

  /** The node inserted for header `i` belongs to the last regular file up to `i`; there is none until the first. */
  lemma {:induction false} LatestIs(m: seq<byte>, hs: seq<nat>, i: nat)
    requires InMemory(m, hs) && i < |hs|
    ensures var r := Latest(m, hs, i);
      && (r.None? <==> forall k :: 0 < k <= i ==> !Regular(m, hs[k]))
      && (r.Some? ==>
            && 0 < r.value.inode <= i && Regular(m, hs[r.value.inode]) && r.value == NodeAt(m, hs, r.value.inode)
            && forall k :: r.value.inode < k <= i ==> !Regular(m, hs[k]))
  {
    if i > 0 && !Regular(m, hs[i]) {
      LatestIs(m, hs, i - 1);
    }
  }

  /**
    Lookup finds the last regular file archived under the name, even though other entries insert an
    earlier node again; a search that finds nothing runs into a null node exactly when the first
    entry behind the leading one is not regular.
   */
  lemma {:induction false} LookupLast(m: seq<byte>, hs: seq<nat>, n: nat, name: seq<byte>)
    requires InMemory(m, hs) && n <= |hs|
    ensures var r := Lookup(Nodes(m, hs, n), name);
      && (r.Found? <==> !NoMatch(m, hs, n, name))
      && (r.Found? ==> r.node.inode < n && LastMatch(m, hs, n, r.node.inode, name) && r.node == NodeAt(m, hs,
        r.node.inode))
      && (r.NullNode? <==> NoMatch(m, hs, n, name) && n > 1 && !Regular(m, hs[1]))
  {
    hide CString, SizeAt;
    if n > 1 {
      var nodes := Nodes(m, hs, n);
      assert nodes[1..] == Nodes(m, hs, n - 1);
      LookupLast(m, hs, n - 1, name);
      LatestIs(m, hs, n - 1);
      var r := Latest(m, hs, n - 1);
      assert forall j :: 0 < j < n && Matches(m, hs, j, name) ==> Regular(m, hs[j]);
      if r.Some? && r.value.name == name {
        assert Matches(m, hs, r.value.inode, name);
      } else if r.Some? {
        assert !Matches(m, hs, n - 1, name);
      }
    }
  }

  // ---- The mounted ramdisk ----

  class Ramdisk {
    const headers: array<nat>
    var files: nat
    var nodes: seq<Option<FileNode>>

    ghost predicate Valid()
      reads this, headers
    {
      headers.Length == NUM_TARFILES && files <= NUM_TARFILES
    }

    constructor ()
      ensures Valid() && fresh(headers) && files == 0 && nodes == []
    {
      headers := new nat[NUM_TARFILES](_ => 0);
      files, nodes := 0, [];
    }

    /** Fails exactly when parsing would leave the memory or write past the header table. */
    method Parse(m: seq<byte>, start: nat, end: nat) returns (ok: bool)
      requires Valid() && |m| <= UINT32
      modifies this`files, headers
      ensures Valid() && ok == Scan(m, start, end, NUM_TARFILES).Some?
      ensures ok ==> headers[..files] == Scan(m, start, end, NUM_TARFILES).value
    {
      hide Scan, Advance, SizeAt;
      var address := start;
      files := 0;
      ghost var all := Scan(m, start, end, NUM_TARFILES);
      PrependMore([], 0, all);
      while true
        invariant Valid() && 0 <= address
        invariant all == Prepend(headers[..files], Scan(m, address, end, NUM_TARFILES - files))
        decreases NUM_TARFILES - files
      {
        ScanStep(m, address, end, NUM_TARFILES - files);
        if address >= |m| {
          return false;
        }
        if m[address] == 0 {
          return true;
        }
        if address + BLOCK > |m| || files == NUM_TARFILES {
          return false;
        }
        var size := GetSize(m, address);
        headers[files] := address;
        PrependMore(headers[..files], address, Scan(m, Wrap(address + Advance(size)), end, NUM_TARFILES - files - 1));
        assert headers[..files + 1] == headers[..files] + [address];
        address := Wrap(address + Advance(size));
        if address > end {
          return true;
        }
        files := files + 1;
      }
    }

    /** Parses and builds the list of nodes. */
    method Init(m: seq<byte>, start: nat, end: nat) returns (ok: bool)
      requires Valid() && |m| <= UINT32
      modifies this, headers
      ensures Valid() && ok == Scan(m, start, end, NUM_TARFILES).Some?
      ensures ok ==> headers[..files] == Scan(m, start, end, NUM_TARFILES).value && InMemory(m, headers[..files])
      ensures ok ==> nodes == Nodes(m, headers[..files], files)
    {
      hide Scan, CString, SizeAt;
      ok := Parse(m, start, end);
      if !ok {
        return;
      }
      ghost var hs := headers[..files];
      ScanInMemory(m, start, end, NUM_TARFILES);
      nodes := [];
      var node: Option<FileNode> := None;
      var i := 1;
      while i < files
        invariant 1 <= i && (i <= files || files == 0) && Valid()
        invariant headers[..files] == hs
        invariant i <= files ==> node == Latest(m, hs, i - 1) && nodes == Nodes(m, hs, i)
        invariant files == 0 ==> nodes == []
      {
        var h := headers[i];
        assert h == hs[i];
        if m[h + TYPEFLAG] == REGTYPE {
          var name := ReadName(m, h);
          var size := GetSize(m, h);
          node := Some(FileNode(name, i, size));
        }
        nodes := [node] + nodes;
        i := i + 1;
      }
    }

    method FindDir(name: seq<byte>) returns (answer: Answer)
      ensures answer == Lookup(nodes, name)
    {
      var k := 0;
      while k < |nodes|
        invariant 0 <= k <= |nodes| && Lookup(nodes[k..], name) == Lookup(nodes, name)
      {
        assert nodes[k..][0] == nodes[k] && nodes[k..][1..] == nodes[k + 1..];
        if nodes[k].None? {
          return NullNode;
        }
        if name == nodes[k].value.name {
          return Found(nodes[k].value);
        }
        k := k + 1;
      }
      return Missing;
    }

    /** Copies from the start of the contents, whatever the offset; nothing is copied beyond the length. */
    method Read(m: seq<byte>, node: FileNode, offset: nat, size: nat, buffer: array<byte>) returns (n: nat)
      requires Valid() && node.inode < files && offset < UINT32 && size < UINT32 && size <= buffer.Length
      // What is copied is mapped: the contents, or more where the 32-bit sum offset + size wraps.
      requires headers[node.inode] + BLOCK + ReadLength(node.length, offset, size) <= |m|
      modifies buffer
      ensures n == ReadLength(node.length, offset, size) && (offset > node.length ==> n == 0)
      ensures offset <= node.length && offset + size < UINT32 ==>
        n == if size < node.length - offset then size else node.length - offset
      ensures buffer[..n] == m[headers[node.inode] + BLOCK..][..n]
      ensures buffer[n..] == old(buffer[n..])
    {
      if offset > node.length {
        return 0;
      }
      n := size;
      if Wrap(offset + size) > node.length {
        n := node.length - offset;
      }
      assert offset + size < UINT32 ==> Wrap(offset + size) == offset + size;
      var src := headers[node.inode] + BLOCK;
      var k := 0;
      while k < n
        invariant 0 <= k <= n && headers[node.inode] + BLOCK == src
        invariant buffer[..k] == m[src..][..k]
        invariant forall j :: k <= j < buffer.Length ==> buffer[j] == old(buffer[j])
      {
        buffer[k] := m[src + k];
        assert buffer[..k + 1] == buffer[..k] + [m[src + k]];
        k := k + 1;
      }
    }
  }

  function ReadLength(length: nat, offset: nat, size: nat): (n: nat)
    ensures n <= size || n <= length
  {
    if offset > length then 0 else if Wrap(offset + size) > length then length - offset else size
  }

  /** A read stays inside the file exactly when offset + size does not wrap to something inside it. */
  lemma ReadStaysInside(length: nat, offset: nat, size: nat)
    requires length < UINT32 && offset < UINT32 && size < UINT32
    ensures ReadLength(length, offset, size) <= length
      <==> offset > length || size <= length || offset + size < UINT32 || offset + size - UINT32 > length
    ensures offset > length ==> ReadLength(length, offset, size) == 0
    ensures offset + size < UINT32 && offset <= length ==>
      ReadLength(length, offset, size) == if size < length - offset then size else length - offset
  {
    if offset + size >= UINT32 {
      assert Wrap(offset + size) == offset + size - UINT32;
    }
  }

  function Prepend(hs: seq<nat>, r: Option<seq<nat>>): Option<seq<nat>>
  {
    if r.None? then None else Some(hs + r.value)
  }

  lemma PrependMore(hs: seq<nat>, h: nat, r: Option<seq<nat>>)
    ensures Prepend(hs, Prepend([h], r)) == Prepend(hs + [h], r)
    ensures Prepend([], r) == r
    ensures Prepend(hs, Some([])) == Some(hs)
  {
    assert hs + [] == hs;
    if r.Some? {
      assert hs + ([h] + r.value) == hs + [h] + r.value;
      assert [] + r.value == r.value;
    }
  }

  lemma ScanStep(m: seq<byte>, address: nat, end: nat, room: nat)
    ensures address >= |m| ==> Scan(m, address, end, room) == None
    ensures address < |m| && m[address] == 0 ==> Scan(m, address, end, room) == Some([])
    ensures address < |m| && m[address] != 0 && (address + BLOCK > |m| || room == 0) ==>
      Scan(m, address, end, room) == None
    ensures address + BLOCK <= |m| && m[address] != 0 && room > 0 ==>
      var next := Wrap(address + Advance(SizeAt(m, address)));
      Scan(m, address, end, room) == if next > end then Some([]) else Prepend([address], Scan(m, next, end, room - 1))
  {
  }

  lemma {:induction false} ScanInMemory(m: seq<byte>, address: nat, end: nat, room: nat)
    ensures var r := Scan(m, address, end, room); r.Some? ==> InMemory(m, r.value) && |r.value| <= room
    decreases room
  {
    if address < |m| && m[address] != 0 && address + BLOCK <= |m| && room > 0 {
      var next := Wrap(address + Advance(SizeAt(m, address)));
      ScanInMemory(m, next, end, room - 1);
    }
  }

  method ReadName(m: seq<byte>, a: nat) returns (name: seq<byte>)
    ensures name == CString(m, a)
  {
    name := [];
    var k := a;
    while k < |m| && m[k] != 0
      invariant a <= k && name + CString(m, k) == CString(m, a)
      decreases |m| - k
    {
      assert CString(m, k) == [m[k]] + CString(m, k + 1);
      name := name + [m[k]];
      k := k + 1;
    }
  }

  // ---- From archive to bytes ----

  /** An archive the reader takes in whole: it fits the header table, and every name has its zero byte. */
  ghost predicate Mountable(m: seq<byte>, start: nat, end: nat, es: seq<Entry>)
  {
    && |m| <= UINT32 && ArchiveAt(m, start, es) && |es| <= NUM_TARFILES
    && start <= end && Start(start, es, |es|) <= end
    && forall k :: 0 <= k < |es| ==> |es[k].name| < NAME
  }

  /** What the reader sees of entry `k`. */
  ghost predicate Seen(m: seq<byte>, hs: seq<nat>, es: seq<Entry>, k: nat)
    requires InMemory(m, hs) && k < |hs| == |es|
  {
    && (Regular(m, hs[k]) <==> es[k].kind == REGTYPE)
    && NodeAt(m, hs, k) == FileNode(es[k].name, k, |es[k].data|)
    && hs[k] + BLOCK + |es[k].data| <= |m|
    && m[hs[k] + BLOCK..][..|es[k].data|] == es[k].data
  }

  /** Every entry is recorded, at its place, with its name, kind, length and contents. */
  lemma Mounted(m: seq<byte>, start: nat, end: nat, es: seq<Entry>)
    requires Mountable(m, start, end, es)
    ensures var r := Scan(m, start, end, NUM_TARFILES);
      && r.Some? && |r.value| == |es| && InMemory(m, r.value)
      && (forall k :: 0 <= k < |es| ==> r.value[k] == Start(start, es, k))
      && (forall k :: 0 <= k < |es| ==> Seen(m, r.value, es, k))
  {
    hide Scan, CString, SizeAt, ArchiveAt, HeaderAt, Start, Space;
    ScanArchive(m, start, es, end, NUM_TARFILES);
    ScanInMemory(m, start, end, NUM_TARFILES);
    var hs := Scan(m, start, end, NUM_TARFILES).value;
    if es == [] {
      assert |hs| <= |es|;
    } else {
      assert |es| <= |hs|;
    }
    forall k | 0 <= k < |es|
      ensures Seen(m, hs, es, k)
    {
      EntryInArchive(m, start, es, k);
      SizeOfEntry(m, hs[k], es[k]);
      NameOfEntry(m, hs[k], es[k]);
      KindOfEntry(m, hs[k], es[k]);
      Contents(m, hs[k] + BLOCK, |es[k].data|);
    }
  }

  lemma KindOfEntry(m: seq<byte>, a: nat, e: Entry)
    requires EntryAt(m, a, e)
    ensures a + BLOCK + |e.data| <= |m| && m[a + TYPEFLAG] == e.kind
  {
  }

  lemma Contents(m: seq<byte>, a: nat, n: nat)
    requires a + n <= |m|
    ensures m[a..][..n] == m[a..a + n]
  {
  }

  predicate IsFile(es: seq<Entry>, k: nat, name: seq<byte>)
  {
    0 < k < |es| && es[k].kind == REGTYPE && es[k].name == name
  }

  /** Mounting, looking a name up and reading from offset 0 gives the contents of the last file archived under it. */
  method ReadByName(disk: Ramdisk, m: seq<byte>, start: nat, end: nat, ghost es: seq<Entry>, name: seq<byte>, size: nat,
                    buffer: array<byte>) returns (answer: Answer, n: nat)
    requires disk.Valid() && Mountable(m, start, end, es) && size <= buffer.Length && size < UINT32
    modifies disk, disk.headers, buffer
    ensures answer.Found? <==> exists k :: IsFile(es, k, name)
    ensures answer.NullNode? <==> (forall k :: !IsFile(es, k, name)) && |es| > 1 && es[1].kind != REGTYPE
    ensures answer.Found? ==>
      var k := answer.node.inode;
      && IsFile(es, k, name) && (forall j :: k < j ==> !IsFile(es, j, name))
      && n == (if size < |es[k].data| then size else |es[k].data|)
      && buffer[..n] == es[k].data[..n] && buffer[n..] == old(buffer[n..])
  {
    hide Scan, CString, SizeAt, ArchiveAt, Start, Nodes, Lookup, Regular;
    n := 0;
    Mounted(m, start, end, es);
    var ok := disk.Init(m, start, end);
    answer := disk.FindDir(name);
    ghost var hs := disk.headers[..disk.files];
    LookupLast(m, hs, disk.files, name);
    MatchesAreFiles(m, hs, es, name);
    if answer.Found? {
      ghost var k := answer.node.inode;
      assert Matches(m, hs, k, name) && Seen(m, hs, es, k);
      assert disk.headers[k] == hs[k];
      n := disk.Read(m, answer.node, 0, size, buffer);
      assert m[hs[k] + BLOCK..][..n] == m[hs[k] + BLOCK..][..|es[k].data|][..n];
    }
  }

  lemma MatchesAreFiles(m: seq<byte>, hs: seq<nat>, es: seq<Entry>, name: seq<byte>)
    requires InMemory(m, hs) && |hs| == |es|
    requires forall k :: 0 <= k < |es| ==> Seen(m, hs, es, k)
    ensures forall k: nat :: Matches(m, hs, k, name) <==> IsFile(es, k, name)
    ensures |hs| > 1 ==> (Regular(m, hs[1]) <==> es[1].kind == REGTYPE)
  {
    hide CString, SizeAt;
    forall k: nat
      ensures Matches(m, hs, k, name) <==> IsFile(es, k, name)
    {
      if 0 < k < |es| {
        assert Seen(m, hs, es, k);
      }
    }
    assert |es| > 1 ==> Seen(m, hs, es, 1);
  }

  /** The contents a read at `offset` should give. */
  ghost predicate ReadsRight(data: seq<byte>, offset: nat, n: nat)
    requires offset + n <= |data|
  {
    data[..n] == data[offset..offset + n]
  }

  function Spike(n: nat): (s: seq<byte>)
    requires 0 < n
    ensures |s| == n && s[0] == 1 && forall k :: 0 < k < n ==> s[k] == 0
  {
    [1] + Zeros(n - 1)
  }

  /**
    The copy always starts at the beginning of the file, so for files of a given length reads are
    right at offset 0, or when empty, and only then.
   */
  lemma OffsetIgnored(length: nat, offset: nat, size: nat)
    requires offset <= length < UINT32 && size < UINT32
    ensures var n := ReadLength(length, offset, size);
      (offset + n <= length && forall data: seq<byte> | |data| == length :: ReadsRight(data, offset, n)) <==>
        offset == 0 || n == 0
  {
    var n := ReadLength(length, offset, size);
    if offset == 0 {
      assert Wrap(size) == size;
    }
    if offset + n <= length {
      if offset != 0 && n != 0 {
        var data := Spike(length);
        assert data[..n][0] == 1 && data[offset..offset + n][0] == 0;
        assert !ReadsRight(data, offset, n);
      } else {
        forall data: seq<byte> | |data| == length
          ensures ReadsRight(data, offset, n)
        {
          assert data[..n] == data[offset..offset + n];
        }
      }
    }
  }
}
