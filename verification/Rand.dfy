/** The complementary multiply-with-carry generator behind /dev/rand. */
module Random {
  import opened Basics
  import opened Bits

  const B := 0xffff_ffff       // the base of the generator, 2^32 - 1
  const A := 18782             // the multiplier
  const SEED_CARRY := 362436   // the initial carry

  // ---- One step on numbers ----

  /**
    The carry and the digit one step computes from the oldest word and the carry, in the generator's
    64- and 32-bit arithmetic.
   */
  function Mix(q: int, c: int): (r: (int, int))
    requires 0 <= q < UINT32 && 0 <= c <= SEED_CARRY
    ensures 0 <= r.0 <= A && 0 <= r.1 < UINT32
    ensures A * q + c == r.0 * B + r.1
  {
    var t := A * q + c;
    var c1 := t / UINT32;
    var x := (t + c1) % UINT32;
    MixExact(t);
    if x < c1 then (c1 + 1, x + 1) else (c1, x)
  }

  /** Folding the high word back in divides by 2^32 - 1 exactly. */
  lemma MixExact(t: int)
    requires 0 <= t <= A * B + SEED_CARRY
    ensures var c1 := t / UINT32; var x := (t + c1) % UINT32;
      && (x < c1 ==> t == (c1 + 1) * B + x + 1 && c1 < A)
      && (x >= c1 ==> t == c1 * B + x && c1 <= A)
  {
    var c1, lo := t / UINT32, t % UINT32;
    assert t == c1 * UINT32 + lo;
    assert c1 <= A;
    if lo + c1 < UINT32 {
      assert (t + c1) == c1 * UINT32 + (lo + c1);
      assert (t + c1) % UINT32 == lo + c1;
    } else {
      assert (t + c1) == (c1 + 1) * UINT32 + (lo + c1 - UINT32);
      assert (t + c1) % UINT32 == lo + c1 - UINT32;
    }
  }

  /** The word stored and returned: 0xfffffffe - x, modulo 2^32. */
  function Output(x: int): (y: int)
    requires 0 <= x < UINT32
    ensures 0 <= y < UINT32 && (x != B ==> y == B - 1 - x) && (x == B ==> y == B)
  {
    (0xffff_fffe - x) % UINT32
  }

  /**
    The digit 2^32 - 1, whose complement is no digit, comes up exactly when the sum is a positive
    multiple of 2^32 - 1.
   */
  lemma TopDigit(q: int, c: int)
    requires 0 <= q < UINT32 && 0 <= c <= SEED_CARRY
    ensures Mix(q, c).1 == B <==> A * q + c > 0 && (A * q + c) % B == 0
  {
    var t, r := A * q + c, Mix(q, c);
    assert t == r.0 * B + r.1;
    if r.1 == B {
      assert t == (r.0 + 1) * B;
      assert t % B == 0;
    } else {
      assert t % B == r.1;
      if r.1 == 0 {
        ZeroDigit(t);
      }
    }
  }

  /** The digit 0 comes up for the sum 0 only: every other multiple of 2^32 - 1 gives the top digit. */
  lemma ZeroDigit(t: int)
    requires 0 <= t <= A * B + SEED_CARRY
    ensures var c1 := t / UINT32; var x := (t + c1) % UINT32;
      t > 0 ==> (if x < c1 then x + 1 else x) > 0
  {
    var c1, lo := t / UINT32, t % UINT32;
    assert t == c1 * UINT32 + lo;
    if lo + c1 < UINT32 {
      assert (t + c1) == c1 * UINT32 + (lo + c1);
      assert (t + c1) % UINT32 == lo + c1;
    }
  }

  /** It does come up: for the largest word and no carry. */
  lemma TopDigitWitness()
    ensures Mix(B, 0) == (A - 1, B)
  {
  }

  // ---- The window as a number ----

  function Pow(n: nat): (p: int)
    ensures p > 0
  {
    if n == 0 then 1 else B * Pow(n - 1)
  }

  /** The window, oldest word first, as digits in base B. */
  function Value(w: seq<int>): int
  {
    if w == [] then 0 else w[0] + B * Value(w[1..])
  }

  lemma {:induction false} ValueAppend(w: seq<int>, y: int)
    ensures Value(w + [y]) == Value(w) + y * Pow(|w|)
  {
    if w == [] {
      assert [y][1..] == [];
    } else {
      assert (w + [y])[1..] == w[1..] + [y];
      ValueAppend(w[1..], y);
    }
  }

  /** Dropping the oldest digit and appending a newest one. */
  lemma ValueShift(w: seq<int>, y: int)
    requires w != []
    ensures B * Value(w[1..] + [y]) == Value(w) - w[0] + y * Pow(|w|)
  {
    hide Pow;
    ValueAppend(w[1..], y);
    PowNext(|w|);
    Regroup(Value(w[1..]), y, Pow(|w| - 1));
  }

  lemma PowNext(n: nat)
    requires n > 0
    ensures Pow(n) == B * Pow(n - 1)
  {
  }

  lemma PowZero()
    ensures Pow(0) == 1
  {
  }

  lemma Regroup(v: int, y: int, p: int)
    ensures B * (v + y * p) == B * v + y * (B * p)
  {
  }

  /** The generator's modulus for a lag of n words, and the state as one residue. */
  function Modulus(n: nat): int
  {
    A * Pow(n) + 1
  }

  function Residue(w: seq<int>, c: int): int
  {
    A * Value(w) + c + 1
  }

  ghost predicate Words(w: seq<int>)
  {
    w != [] && forall i :: 0 <= i < |w| ==> 0 <= w[i] < UINT32
  }

  function StepWindow(w: seq<int>, c: int): seq<int>
    requires Words(w) && 0 <= c <= SEED_CARRY
  {
    w[1..] + [Output(Mix(w[0], c).1)]
  }

  function StepCarry(w: seq<int>, c: int): int
    requires Words(w) && 0 <= c <= SEED_CARRY
  {
    Mix(w[0], c).0
  }

  /**
    A step divides the residue by B modulo p. The one digit for which it does not is 2^32 - 1, whose
    complement does not fit below it.
   */
  lemma StepDivides(w: seq<int>, c: int)
    requires Words(w) && 0 <= c <= SEED_CARRY
    ensures var x := Mix(w[0], c).1; var y := Output(x);
      B * Residue(StepWindow(w, c), StepCarry(w, c)) == Residue(w, c) + Modulus(|w|) * y - if x == B then UINT32 else 0
  {
    hide Mix, Output, Value, Pow;
    var x, c' := Mix(w[0], c).1, Mix(w[0], c).0;
    var y := Output(x);
    ValueShift(w, y);
    Balance(Value(w), Value(StepWindow(w, c)), w[0], c, c', x, y, Pow(|w|));
  }

  lemma Balance(v: int, v': int, q: int, c: int, c': int, x: int, y: int, p: int)
    requires B * v' == v - q + y * p && A * q + c == c' * B + x
    ensures B * (A * v' + c' + 1) == A * v + (A * p) * y + c - x + B
  {
    calc {
      B * (A * v' + c' + 1);
    ==
      A * (B * v') + c' * B + B;
    ==
      A * (v - q + y * p) + (A * q + c - x) + B;
    == { assert A * (y * p) == (A * p) * y; }
      A * v + (A * p) * y + c - x + B;
    }
  }

  // ---- Runs ----

  /** The state after k steps. */
  function Run(w: seq<int>, c: int, k: nat): (r: (seq<int>, int))
    requires Words(w) && 0 <= c <= SEED_CARRY
    decreases k
    ensures Words(r.0) && |r.0| == |w| && 0 <= r.1 <= SEED_CARRY && (k > 0 ==> r.1 <= A)
  {
    if k == 0 then (w, c) else Run(StepWindow(w, c), StepCarry(w, c), k - 1)
  }

  /** What the top digits among the first k take off, in units of 2^32: B^j for each step j that gives one. */
  function Tops(w: seq<int>, c: int, k: nat): int
    requires Words(w) && 0 <= c <= SEED_CARRY
    decreases k
  {
    if k == 0 then 0
    else (if Mix(w[0], c).1 == B then 1 else 0) + B * Tops(StepWindow(w, c), StepCarry(w, c), k - 1)
  }

  /**
    After k steps the residue times B^k is the first residue, up to a multiple of p and what the top
    digits take off.
   */
  lemma {:induction false} RunDivides(w: seq<int>, c: int, k: nat) returns (m: int)
    requires Words(w) && 0 <= c <= SEED_CARRY
    decreases k
    ensures Pow(k) * Residue(Run(w, c, k).0, Run(w, c, k).1) == Residue(w, c) + Modulus(|w|) * m - UINT32 * Tops(w,
      c, k)
  {
    hide Residue, Modulus, Pow, Mix;
    if k == 0 {
      m := 0;
      PowZero();
    } else {
      var w', c' := StepWindow(w, c), StepCarry(w, c);
      var y := Output(Mix(w[0], c).1);
      StepDivides(w, c);
      var m' := RunDivides(w', c', k - 1);
      m := y + B * m';
      PowNext(k);
      Combine(Residue(w, c), Residue(w', c'), Residue(Run(w, c, k).0, Run(w, c, k).1), Modulus(|w|), Pow(k - 1), m', y,
              if Mix(w[0], c).1 == B then 1 else 0, Tops(w', c', k - 1));
    }
  }

  /** None of the first k sums is a positive multiple of 2^32 - 1. */
  predicate NoTopDigit(w: seq<int>, c: int, k: nat)
    requires Words(w) && 0 <= c <= SEED_CARRY
    decreases k
  {
    k > 0 ==> !(A * w[0] + c > 0 && (A * w[0] + c) % B == 0) && NoTopDigit(StepWindow(w, c), StepCarry(w, c), k - 1)
  }

  /**
    Without such a sum nothing is taken off, and with one something is: the plain congruence is exact
    for these runs.
   */
  lemma {:induction false} NoTops(w: seq<int>, c: int, k: nat)
    requires Words(w) && 0 <= c <= SEED_CARRY
    decreases k
    ensures Tops(w, c, k) >= 0 && (NoTopDigit(w, c, k) <==> Tops(w, c, k) == 0)
  {
    hide Mix;
    if k > 0 {
      TopDigit(w[0], c);
      NoTops(StepWindow(w, c), StepCarry(w, c), k - 1);
    }
  }

  lemma Combine(t: int, t': int, tk: int, p: int, pk: int, m: int, y: int, top: int, tops: int)
    requires pk * tk == t' + p * m - UINT32 * tops && B * t' == t + p * y - UINT32 * top
    ensures (B * pk) * tk == t + p * (y + B * m) - UINT32 * (top + B * tops)
  {
    calc {
      (B * pk) * tk;
    ==
      B * (pk * tk);
    ==
      B * t' + B * (p * m) - B * (UINT32 * tops);
    == { assert B * (p * m) == p * (B * m); }
      t + p * y - UINT32 * top + p * (B * m) - UINT32 * (B * tops);
    }
  }

  // ---- The generator itself ----

  /** The words from `next` on, around the end of the buffer: oldest first. */
  function Window(q: seq<int>, next: int): seq<int>
    requires 0 <= next < |q|
  {
    q[next..] + q[..next]
  }

  /** Overwriting the oldest word and moving on shifts the window. */
  lemma WindowShift(q: seq<int>, next: int, y: int)
    requires 0 <= next < |q|
    ensures Window(q[next := y], (next + 1) % |q|) == Window(q, next)[1..] + [y]
  {
    var q', n := q[next := y], |q|;
    if next + 1 == n {
      assert (next + 1) % n == 0;
      assert Window(q', 0) == q';
      assert Window(q, next) == [q[next]] + q[..next];
      assert q' == q[..next] + [y];
    } else {
      assert (next + 1) % n == next + 1;
      assert q'[next + 1..] == q[next + 1..] && q'[..next + 1] == q[..next] + [y];
      assert Window(q, next)[1..] == q[next + 1..] + q[..next];
    }
  }

  lemma WindowFromStart(q: seq<int>)
    requires q != []
    ensures Window(q, 0) == q
  {
  }

  // ---- Seeding ----

  const PHI := 0x9e37_79b9

  /** Bitwise exclusive or, one bit after the other. */
  function Xor(a: nat, b: nat): nat
    decreases a + b
  {
    if a == 0 && b == 0 then 0 else (a % 2 + b % 2) % 2 + 2 * Xor(a / 2, b / 2)
  }

  lemma {:induction false} XorBound(a: nat, b: nat, n: nat)
    requires a < Pow2(n) && b < Pow2(n)
    ensures Xor(a, b) < Pow2(n)
    decreases n
  {
    if n > 0 {
      XorBound(a / 2, b / 2, n - 1);
    }
  }

  lemma XorParts(a: nat, b: nat)
    ensures Xor(a, b) % 2 == (a % 2 + b % 2) % 2 && Xor(a, b) / 2 == Xor(a / 2, b / 2)
  {
  }

  /** Exclusive or with the same word twice changes nothing. */
  lemma {:induction false} XorTwice(a: nat, b: nat)
    ensures Xor(Xor(a, b), b) == a
    decreases a + b
  {
    if a != 0 || b != 0 {
      hide Xor;
      XorTwice(a / 2, b / 2);
      XorParts(a, b);
      XorParts(Xor(a, b), b);
      BitTwice(a % 2, b % 2);
      SameHalves(Xor(Xor(a, b), b), a);
    }
  }

  /** A bit of the exclusive or is set if and only if it differs in the two words. */
  lemma {:induction false} XorBit(a: nat, b: nat, j: nat)
    ensures Bit(Xor(a, b), j) <==> Bit(a, j) != Bit(b, j)
    decreases j
  {
    XorParts(a, b);
    if j > 0 {
      XorBit(a / 2, b / 2, j - 1);
    }
  }

  /** The bits are all there is to a number. */
  lemma {:induction false} SameBits(a: nat, b: nat)
    requires forall j: nat :: Bit(a, j) <==> Bit(b, j)
    ensures a == b
    decreases a + b
  {
    if a != 0 || b != 0 {
      forall j: nat
        ensures Bit(a / 2, j) <==> Bit(b / 2, j)
      {
        assert Bit(a, j + 1) <==> Bit(b, j + 1);
      }
      assert Bit(a, 0) <==> Bit(b, 0);
      SameBits(a / 2, b / 2);
      SameHalves(a, b);
    }
  }

  lemma BitTwice(a: int, b: int)
    requires 0 <= a < 2 && 0 <= b < 2
    ensures ((a + b) % 2 + b) % 2 == a
  {
  }

  lemma SameHalves(a: int, b: int)
    requires a % 2 == b % 2 && a / 2 == b / 2
    ensures a == b
  {
  }

  /** The word mixed from the words three and two places before. */
  function Stir(u: int, v: int, k: int): (r: int)
    requires 0 <= u < UINT32 && 0 <= v < UINT32 && 0 <= k < UINT32
    ensures 0 <= r < UINT32
  {
    Pow2Of32();
    XorBound(u, v, 32);
    XorBound(Xor(u, v), PHI, 32);
    XorBound(Xor(Xor(u, v), PHI), k, 32);
    Xor(Xor(Xor(u, v), PHI), k)
  }

  /** Whether bit `j` is set in an odd number of the four words. */
  predicate OddBit(a: nat, b: nat, c: nat, d: nat, j: nat)
  {
    (Bit(a, j) != Bit(b, j)) != (Bit(c, j) != Bit(d, j))
  }

  /** Each bit of the mixed word is the parity of that bit in the two words, the golden ratio and the index. */
  lemma StirBits(u: int, v: int, k: int, j: nat)
    requires 0 <= u < UINT32 && 0 <= v < UINT32 && 0 <= k < UINT32
    ensures Bit(Stir(u, v, k), j) <==> OddBit(u, v, PHI, k, j)
  {
    hide Xor, Bit;
    XorBit(u, v, j);
    XorBit(Xor(u, v), PHI, j);
    XorBit(Xor(Xor(u, v), PHI), k, j);
  }

  /** Every seeded word bit by bit, from the words two and three places before. */
  lemma SeedBits(q: seq<int>, x: int, k: nat, j: nat)
    requires Seeded(q, x) && 3 <= k < |q|
    ensures Bit(q[k], j) <==> OddBit(q[k - 3], q[k - 2], PHI, k, j)
  {
    hide Stir, Bit;
    assert Stirred(q, k);
    StirBits(q[k - 3], q[k - 2], k, j);
  }

  /** The parities leave one buffer only. */
  lemma {:induction false} ParitiesSeed(q: seq<int>, q': seq<int>, x: int, k: nat)
    requires Seeded(q, x) && k < |q'| == |q| && (forall i :: 0 <= i < |q'| ==> 0 <= q'[i] < UINT32)
    requires q'[..3] == q[..3]
    requires forall i, j: nat :: 3 <= i <= k ==> (Bit(q'[i], j) <==> OddBit(q'[i - 3], q'[i - 2], PHI, i, j))
    ensures q'[k] == q[k]
    decreases k
  {
    hide Stir, Bit;
    if k < 3 {
      assert q'[k] == q'[..3][k] && q[k] == q[..3][k];
    } else {
      ParitiesSeed(q, q', x, k - 3);
      ParitiesSeed(q, q', x, k - 2);
      forall j: nat
        ensures Bit(q'[k], j) <==> Bit(q[k], j)
      {
        SeedBits(q, x, k, j);
      }
      SameBits(q'[k], q[k]);
    }
  }

  ghost predicate Stirred(q: seq<int>, k: int)
    requires 3 <= k < |q| && forall j :: 0 <= j < |q| ==> 0 <= q[j] < UINT32
  {
    k < UINT32 && q[k] == Stir(q[k - 3], q[k - 2], k)
  }

  /** The first n words are those init_rand computes. */
  ghost predicate SeededTo(q: seq<int>, x: int, n: int)
  {
    && 0 <= x < UINT32 && 3 <= n <= |q| == 4096 && (forall k :: 0 <= k < |q| ==> 0 <= q[k] < UINT32)
    && q[0] == x && q[1] == (x + PHI) % UINT32 && q[2] == (x + PHI + PHI) % UINT32
    && forall k {:trigger Stirred(q, k)} :: 3 <= k < n ==> Stirred(q, k)
  }

  /** What init_rand leaves in the buffer. */
  ghost predicate Seeded(q: seq<int>, x: int)
  {
    SeededTo(q, x, 4096)
  }

  lemma SeededMore(q: seq<int>, x: int, n: int)
    requires SeededTo(q, x, n) && n < 4096
    ensures SeededTo(q[n := Stir(q[n - 3], q[n - 2], n)], x, n + 1)
  {
    hide Stir;
    var q' := q[n := Stir(q[n - 3], q[n - 2], n)];
    forall k {:trigger Stirred(q', k)} | 3 <= k < n + 1
      ensures Stirred(q', k)
    {
      assert k < n ==> Stirred(q, k);
    }
  }

  lemma StirBack(u: int, u': int, v: int, k: int)
    requires 0 <= u < UINT32 && 0 <= u' < UINT32 && 0 <= v < UINT32 && 0 <= k < UINT32
    requires Stir(u, v, k) == Stir(u', v, k)
    ensures u == u'
  {
    hide Xor;
    XorTwice(Xor(Xor(u, v), PHI), k);
    XorTwice(Xor(Xor(u', v), PHI), k);
    XorTwice(Xor(u, v), PHI);
    XorTwice(Xor(u', v), PHI);
    XorTwice(u, v);
    XorTwice(u', v);
  }

  /** Any three neighbouring words give the whole seed away: different seeds differ in every such place. */
  lemma {:induction false} SeedsDiffer(q: seq<int>, x: int, q': seq<int>, x': int, k: nat)
    requires Seeded(q, x) && Seeded(q', x') && k + 2 < |q|
    requires q[k] == q'[k] && q[k + 1] == q'[k + 1] && q[k + 2] == q'[k + 2]
    ensures x == x' && q == q'
  {
    hide Stir;
    if k > 0 {
      assert Stirred(q, k + 2) && Stirred(q', k + 2);
      StirBack(q[k - 1], q'[k - 1], q[k], k + 2);
      SeedsDiffer(q, x, q', x', k - 1);
    } else {
      SameSeed(q, q', x, |q|);
    }
  }

  lemma {:induction false} SameSeed(q: seq<int>, q': seq<int>, x: int, n: nat)
    requires Seeded(q, x) && Seeded(q', x) && n <= |q|
    ensures q[..n] == q'[..n]
  {
    hide Stir;
    if n > 0 {
      SameSeed(q, q', x, n - 1);
      assert q[..n] == q[..n - 1] + [q[n - 1]] && q'[..n] == q'[..n - 1] + [q'[n - 1]];
      if n > 3 {
        assert Stirred(q, n - 1) && Stirred(q', n - 1);
        assert q[n - 4] == q[..n - 1][n - 4] && q'[n - 4] == q'[..n - 1][n - 4];
        assert q[n - 3] == q[..n - 1][n - 3] && q'[n - 3] == q'[..n - 1][n - 3];
      }
    }
  }

  class Generator {
    const q: array<int>
    var c: int
    var i: int

    ghost predicate Valid()
      reads this, q
    {
      && q.Length == 4096 && 0 <= i < q.Length && 0 <= c <= SEED_CARRY
      && forall k :: 0 <= k < q.Length ==> 0 <= q[k] < UINT32
    }

    /** The window of the next step. */
    ghost function State(): (w: seq<int>)
      requires Valid()
      reads this, q
      ensures Words(w) && |w| == 4096
    {
      Window(q[..], (i + 1) % q.Length)
    }

    /** The static storage before seeding. */
    constructor ()
      ensures Valid() && c == SEED_CARRY && i == 4095 && fresh(q)
    {
      q := new int[4096](_ => 0);
      c, i := SEED_CARRY, 4095;
    }

    /** init_rand: the first three words count up by PHI, the others mix the words two and three before. */
    method Seed(x: int)
      requires Valid() && 0 <= x < UINT32
      modifies q
      ensures Valid() && Seeded(q[..], x) && q[0] == x && q[1] == (x + PHI) % UINT32 && q[2] == (x + 2 * PHI) % UINT32
      ensures forall k, j: nat :: 3 <= k < q.Length ==> (Bit(q[k], j) <==> OddBit(q[k - 3], q[k - 2], PHI, k, j))
      ensures i == 4095 ==> State() == q[..]
    {
      hide Stir, Bit, OddBit;
      q[0] := x;
      q[1] := (x + PHI) % UINT32;
      q[2] := (x + PHI + PHI) % UINT32;
      for k := 3 to 4096
        invariant Valid() && SeededTo(q[..], x, k)
      {
        ghost var before := q[..];
        q[k] := Stir(q[k - 3], q[k - 2], k);
        SeededMore(before, x, k);
        assert q[..] == before[k := Stir(before[k - 3], before[k - 2], k)];
      }
      WindowFromStart(q[..]);
      forall k, j: nat | 3 <= k < q.Length
        ensures Bit(q[k], j) <==> OddBit(q[k - 3], q[k - 2], PHI, k, j)
      {
        SeedBits(q[..], x, k, j);
      }
    }

    /** One number: the state moves by exactly the step on windows, and the carry stays below the multiplier's. */
    method Next() returns (y: int)
      requires Valid()
      modifies this, q
      ensures Valid() && c <= A
      ensures State() == StepWindow(old(State()), old(c)) && c == StepCarry(old(State()), old(c))
      ensures y == State()[4095]
    {
      ghost var w, all, at := State(), q[..], (i + 1) % q.Length;
      assert w[0] == q[(i + 1) % q.Length];
      i := (i + 1) % 4096;
      var r := Mix(q[i], c);
      c := r.0;
      y := Output(r.1);
      WindowShift(all, at, y);
      q[i] := y;
      assert q[..] == all[at := y];
    }

    /** k numbers: B^k times the new residue is the old one modulo p, less what top digits take off. */
    method Draw(k: nat) returns (ghost m: int)
      requires Valid()
      modifies this, q
      ensures Valid() && State() == Run(old(State()), old(c), k).0 && c == Run(old(State()), old(c), k).1
      ensures Pow(k) * Residue(State(), c) == Residue(old(State()),
        old(c)) + Modulus(4096) * m - UINT32 * Tops(old(State()), old(c), k)
    {
      ghost var w, c0 := State(), c;
      var left := k;
      while left > 0
        invariant 0 <= left && Valid()
        invariant Run(w, c0, k) == Run(State(), c, left)
      {
        var y := Next();
        left := left - 1;
      }
      m := RunDivides(w, c0, k);
    }
  }
}
