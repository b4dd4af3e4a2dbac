/** Printing numbers: the digits written by the console's number printer, and reading them back. */
module Display {
  import opened Basics

  const BCHARS := "0123456789ABCDEF"
  const TBUF := 32

  // ---- Products ----

  lemma Distribute(a: int, b: int, c: int)
    ensures (a + b) * c == a * c + b * c
  {
  }

  // ---- Numerals, the reference ----

  predicate IsDigit(c: char, base: int)
    requires 2 <= base <= 16
  {
    exists d :: 0 <= d < base && DigitChar(d) == c
  }

  function DigitChar(d: int): char
    requires 0 <= d < 16
  {
    BCHARS[d]
  }

  function DigitValue(c: char): int
  {
    if '0' <= c <= '9' then c as int - '0' as int else c as int - 'A' as int + 10
  }

  /** Reads digits, most significant first. */
  function Parse(s: string, base: int): int
  {
    if s == "" then 0 else Parse(s[..|s| - 1], base) * base + DigitValue(s[|s| - 1])
  }

  ghost predicate Digits(s: string, base: int)
    requires 2 <= base <= 16
  {
    forall k :: 0 <= k < |s| ==> IsDigit(s[k], base)
  }

  /** Digits without a leading zero. */
  ghost predicate Canonical(s: string, base: int)
    requires 2 <= base <= 16
  {
    Digits(s, base) && (s != "" ==> s[0] != '0')
  }

  function Power(base: nat, n: nat): nat
  {
    if n == 0 then 1 else base * Power(base, n - 1)
  }

  lemma ValueOfDigit(d: int)
    requires 0 <= d < 16
    ensures DigitValue(DigitChar(d)) == d
    ensures DigitChar(d) == '0' <==> d == 0
  {
  }

  /** The digits in ASCII: 0x30 to 0x39, then 0x41 to 0x46. */
  lemma AsciiDigit(c: char, base: int)
    requires 2 <= base <= 16
    ensures IsDigit(c, base) <==> 0x30 <= c as int < 0x30 + (if base < 10 then base else 10)
                                  || 0x41 <= c as int < 0x41 + base - 10
  {
    if 0x30 <= c as int < 0x30 + (if base < 10 then base else 10) {
      assert DigitChar(c as int - 0x30) == c;
    } else if 0x41 <= c as int < 0x41 + base - 10 {
      assert DigitChar(c as int - 0x41 + 10) == c;
    }
  }

  lemma ParseNothing(base: int)
    ensures Parse("", base) == 0
  {
  }

  lemma ParseMore(s: string, c: char, base: int)
    ensures Parse(s + [c], base) == Parse(s, base) * base + DigitValue(c)
  {
    assert (s + [c])[..|s|] == s;
  }

  lemma ValueInRange(c: char, base: int) returns (d: int)
    requires 2 <= base <= 16 && IsDigit(c, base)
    ensures 0 <= d < base && d == DigitValue(c) && c == DigitChar(d)
  {
    d :| 0 <= d < base && DigitChar(d) == c;
    ValueOfDigit(d);
  }

  /** A canonical numeral of n digits stands for a number of at least base^(n-1) and below base^n. */
  lemma {:induction false} ParseRange(s: string, base: int)
    requires 2 <= base <= 16 && Canonical(s, base)
    ensures 0 <= Parse(s, base) < Power(base, |s|)
    ensures s != "" ==> Power(base, |s| - 1) <= Parse(s, base)
    decreases |s|
  {
    if s != "" {
      var rest, n := s[..|s| - 1], |s|;
      var d := ValueInRange(s[n - 1], base);
      ParseRange(rest, base);
      var p, q := Parse(rest, base), Power(base, n - 1);
      MulOrder(p + 1, q, base);
      Distribute(p, 1, base);
      if n == 1 {
        ValueOfDigit(d);
        assert s[0] != '0';
      } else {
        assert rest[0] == s[0];
        MulOrder(Power(base, n - 2), p, base);
      }
    }
  }

  lemma {:induction false} PowerMonotone(base: nat, m: nat, n: nat)
    requires 1 <= base && m <= n
    ensures 1 <= Power(base, m) <= Power(base, n)
    decreases n
  {
    if m < n {
      PowerMonotone(base, m, n - 1);
      MulOrder(1, base, Power(base, n - 1));
    } else if n > 0 {
      PowerMonotone(base, n - 1, n - 1);
      MulOrder(1, base, Power(base, n - 1));
    }
  }

  /** The number of digits is determined by the number. */
  lemma ShortNumeral(s: string, base: int, n: nat)
    requires 2 <= base <= 16 && Canonical(s, base)
    ensures |s| <= n <==> Parse(s, base) < Power(base, n)
  {
    ParseRange(s, base);
    if |s| <= n {
      PowerMonotone(base, |s|, n);
    } else {
      PowerMonotone(base, n, |s| - 1);
    }
  }

  lemma {:induction false} SameLength(s: string, t: string, base: int)
    requires 2 <= base <= 16 && Canonical(s, base) && Canonical(t, base)
    requires Parse(s, base) == Parse(t, base)
    ensures |s| == |t|
  {
    ShortNumeral(s, base, |t|);
    ShortNumeral(t, base, |t|);
    ShortNumeral(s, base, |s|);
    ShortNumeral(t, base, |s|);
  }

  /** A number has one canonical numeral: printing is determined by reading. */
  lemma {:induction false} UniqueNumeral(s: string, t: string, base: int)
    requires 2 <= base <= 16 && Canonical(s, base) && Canonical(t, base)
    requires Parse(s, base) == Parse(t, base)
    ensures s == t
    decreases |s|
  {
    hide IsDigit, DigitValue, DigitChar;
    SameLength(s, t, base);
    if s != "" {
      var n := |s|;
      var d := ValueInRange(s[n - 1], base);
      var e := ValueInRange(t[n - 1], base);
      var p, q := Parse(s[..n - 1], base), Parse(t[..n - 1], base);
      LastDigit(p, d, q, e, base);
      assert n > 1 ==> s[..n - 1][0] == s[0] && t[..n - 1][0] == t[0];
      UniqueNumeral(s[..n - 1], t[..n - 1], base);
      assert s == s[..n - 1] + [s[n - 1]] && t == t[..n - 1] + [t[n - 1]];
    }
  }

  lemma LastDigit(p: int, d: int, q: int, e: int, base: int)
    requires 0 <= d < base && 0 <= e < base && p * base + d == q * base + e
    ensures p == q && d == e
  {
    if p < q {
      MulOrder(p + 1, q, base);
      Distribute(p, 1, base);
    } else if q < p {
      MulOrder(q + 1, p, base);
      Distribute(q, 1, base);
    }
  }

  /** Every 32-bit number has at most 32 digits, in base ten at most 10, in base sixteen at most 8. */
  lemma WordFits(s: string, base: int)
    requires 2 <= base <= 16 && Canonical(s, base) && Parse(s, base) < UINT32
    ensures |s| <= TBUF && (base >= 10 ==> |s| <= 10) && (base == 16 ==> |s| <= 8)
  {
    TwoToThe32();
    PowerBase(2, base, 32);
    ShortNumeral(s, base, 32);
    if base >= 10 {
      TenToThe10();
      PowerBase(10, base, 10);
      ShortNumeral(s, base, 10);
    }
    if base == 16 {
      SixteenToThe8();
      ShortNumeral(s, base, 8);
    }
  }

  lemma {:induction false} PowerBase(a: nat, b: nat, n: nat)
    requires a <= b
    ensures Power(a, n) <= Power(b, n)
  {
    if n > 0 {
      PowerBase(a, b, n - 1);
      MulOrder(Power(a, n - 1), Power(b, n - 1), a);
      MulOrder(a, b, Power(b, n - 1));
    }
  }

  lemma TwoToThe32()
    ensures Power(2, 32) == UINT32
  {
    assert Power(2, 8) == 0x100;
    assert Power(2, 16) == 0x1_0000;
    assert Power(2, 24) == 0x100_0000;
  }

  lemma TenToThe10()
    ensures Power(10, 10) == 10_000_000_000
  {
    assert Power(10, 5) == 100_000;
  }

  lemma SixteenToThe8()
    ensures Power(16, 8) == UINT32
  {
  }

  // ---- The printer ----

  function Reversed(s: string): (r: string)
    ensures |r| == |s| && forall k :: 0 <= k < |s| ==> r[k] == s[|s| - 1 - k]
  {
    if s == "" then "" else Reversed(s[1..]) + [s[0]]
  }

  /** The numeral for `i`, empty for zero. */
  function Numeral(i: nat, base: int): string
    requires 2 <= base <= 16
  {
    if i == 0 then "" else Numeral(i / base, base) + [DigitChar(i % base)]
  }

  lemma Divide(i: nat, base: int)
    requires 2 <= base <= 16
    ensures i == (i / base) * base + i % base && 0 <= i % base < base && 0 <= i / base
    ensures 0 < i ==> i / base < i
    ensures i / base == 0 ==> i == i % base
  {
  }

  lemma DigitIsDigit(d: int, base: int)
    requires 0 <= d < base && 2 <= base <= 16
    ensures IsDigit(DigitChar(d), base)
  {
  }

  /** The numeral is canonical and reads back as the number. */
  lemma {:induction false} NumeralReads(i: nat, base: int)
    requires 2 <= base <= 16
    ensures Canonical(Numeral(i, base), base) && Parse(Numeral(i, base), base) == i
    ensures i != 0 ==> Numeral(i, base) != ""
  {
    hide DigitValue, DigitChar, IsDigit, Parse;
    if i != 0 {
      Divide(i, base);
      var q, d := i / base, i % base;
      NumeralReads(q, base);
      ParseMore(Numeral(q, base), DigitChar(d), base);
      ValueOfDigit(d);
      DigitIsDigit(d, base);
    } else {
      ParseNothing(base);
    }
  }

  lemma ReversedNothing()
    ensures Reversed("") == ""
  {
  }

  lemma CollectDigit(high: string, low: string, c: char)
    ensures (high + [c]) + Reversed(low) == high + Reversed(low + [c])
  {
  }

  /** The text for `value` ends at a zero byte; the rest of the buffer is not touched. */
  method Itoa(value: nat, base: nat, tbuf: array<char>, buf: array<char>, at: nat) returns (n: nat)
    requires value < UINT32 && tbuf.Length == TBUF && tbuf != buf
    requires value == 0 || 2 <= base
    requires at + TBUF < buf.Length || (base >= 10 && at + 10 < buf.Length) || (base == 16 && at + 8 < buf.Length)
    modifies tbuf, buf
    ensures at + n < buf.Length && n <= TBUF && buf[at + n] == '\0'
    ensures value == 0 || base > 16 ==> buf[at..at + n] == "0"
    ensures value != 0 && base <= 16 ==>
      n > 0 && Canonical(buf[at..at + n], base) && Parse(buf[at..at + n], base) == value
    ensures forall k :: 0 <= k < buf.Length && (k < at || at + n < k) ==> buf[k] == old(buf[k])
  {
    hide DigitValue, DigitChar, IsDigit, Parse, Canonical, Numeral;
    if value == 0 || base > 16 {
      buf[at] := '0';
      buf[at + 1] := '\0';
      return 1;
    }
    ghost var text := Numeral(value, base);
    NumeralReads(value, base);
    WordFits(text, base);
    n := CollectDigits(value, base, tbuf);
    CopyBack(tbuf, n, buf, at, text);
  }

  /** The second loop: the digits in reading order, and the zero byte. */
  method CopyBack(tbuf: array<char>, top: nat, buf: array<char>, at: nat, ghost text: string)
    requires tbuf != buf && top <= tbuf.Length && at + top < buf.Length && text == Reversed(tbuf[..top])
    modifies buf
    ensures buf[at..at + top] == text && buf[at + top] == '\0'
    ensures forall k :: 0 <= k < buf.Length && (k < at || at + top < k) ==> buf[k] == old(buf[k])
  {
    var pos, opos := top - 1, 0;
    while opos < top
      invariant 0 <= opos <= top && pos == top - 1 - opos
      invariant forall k :: at <= k < at + opos ==> buf[k] == text[k - at]
      invariant forall k :: 0 <= k < buf.Length && (k < at || at + opos <= k) ==> buf[k] == old(buf[k])
    {
      buf[at + opos] := tbuf[pos];
      opos := opos + 1;
      pos := pos - 1;
    }
    buf[at + opos] := '\0';
    assert buf[at..at + top] == text;
  }

  /** The first loop: the digits, least significant first. */
  method CollectDigits(value: nat, base: nat, tbuf: array<char>) returns (pos: nat)
    requires value < UINT32 && tbuf.Length == TBUF && 2 <= base <= 16
    modifies tbuf
    ensures pos <= TBUF && Numeral(value, base) == Reversed(tbuf[..pos])
  {
    hide DigitValue, DigitChar, IsDigit, Parse, Canonical, Reversed;
    ghost var text := Numeral(value, base);
    NumeralReads(value, base);
    WordFits(text, base);
    ReversedNothing();
    var i := value;
    pos := 0;
    while i != 0
      invariant 0 <= i && 0 <= pos <= TBUF && text == Numeral(i, base) + Reversed(tbuf[..pos])
    {
      Divide(i, base);
      ghost var low := tbuf[..pos];
      CollectDigit(Numeral(i / base, base), low, DigitChar(i % base));
      tbuf[pos] := DigitChar(i % base);
      assert tbuf[..pos + 1] == low + [DigitChar(i % base)];
      pos := pos + 1;
      i := i / base;
    }
  }

  /** Signed: a minus sign and the magnitude. With a base above 16 nothing is written. */
  method ItoaSigned(value: int, base: nat, tbuf: array<char>, buf: array<char>) returns (n: nat)
    requires -0x8000_0000 < value < 0x8000_0000 && tbuf.Length == TBUF && tbuf != buf
    requires value == 0 || 2 <= base
    requires 1 + TBUF < buf.Length || (base >= 10 && 11 < buf.Length)
    modifies tbuf, buf
    ensures base > 16 ==> buf[..] == old(buf[..])
    ensures base <= 16 ==> n < buf.Length && buf[n] == '\0' && SignedText(buf[..n], value, base)
    ensures base <= 16 && value < 0 ==> buf[0] == '-'
    ensures base <= 16 ==> forall k :: n < k < buf.Length ==> buf[k] == old(buf[k])
  {
    if base > 16 {
      return 0;
    }
    var i, at := value, 0;
    if i < 0 {
      buf[0] := '-';
      at := 1;
      i := -i;
    }
    n := Itoa(i, base, tbuf, buf, at);
    assert at == 1 ==> buf[..at + n] == "-" + buf[at..at + n];
    n := at + n;
  }

  /** `s` is the one way to write `value`: an optional minus sign and a canonical numeral, or "0". */
  ghost predicate SignedText(s: string, value: int, base: nat)
  {
    if value == 0 || base < 2 || base > 16 then s == "0"
    else if value > 0 then Canonical(s, base) && Parse(s, base) == value
    else s != "" && s[0] == '-' && Canonical(s[1..], base) && Parse(s[1..], base) == -value
  }

  /** Different numbers get different texts, and a number gets only one. */
  lemma SignedTextExact(s: string, t: string, v: int, w: int, base: nat)
    requires 2 <= base <= 16 && SignedText(s, v, base) && SignedText(t, w, base)
    ensures s == t <==> v == w
  {
    if v == w && v > 0 {
      UniqueNumeral(s, t, base);
    } else if v == w && v < 0 {
      UniqueNumeral(s[1..], t[1..], base);
    }
    assert !IsDigit('-', base);
  }
}
