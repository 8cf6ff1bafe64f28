/** StringAccum::append_numeric: the numeral of an unsigned 64-bit number in base 8, 10 or 16, with
    decimal digits found by shifts, sums and corrections instead of division. */
module Numeric {
  import opened Common

  const LIMIT: nat := 0x1_0000_0000_0000_0000

  /** As a uintmax_t. */
  function U64(x: nat): (w: nat)
    ensures w < LIMIT && (x < LIMIT ==> w == x)
  {
    x % LIMIT
  }

  // ---------------------------------------------------------------- numerals

  function DigitChar(d: nat, upper: bool): (c: char)
    requires d < 16
    ensures (c == '0' <==> d == 0) && HexValue(c) == d
  {
    if d < 10 then ('0' as int + d) as char
    else if upper then ('A' as int + d - 10) as char
    else ('a' as int + d - 10) as char
  }

  /** The digits of n, none for zero. */
  function Digits(n: nat, base: nat, upper: bool): (s: string)
    requires base in {8, 10, 16}
  {
    if n == 0 then [] else Digits(n / base, base, upper) + [DigitChar(n % base, upper)]
  }

  /** The digits in their order. */
  lemma DigitCharIs(d: nat)
    requires d < 16
    ensures DigitChar(d, false) == "0123456789abcdef"[d] && DigitChar(d, true) == "0123456789ABCDEF"[d]
  {
  }

  function Numeral(n: nat, base: nat, upper: bool): (s: string)
    requires base in {8, 10, 16}
  {
    if n == 0 then "0" else Digits(n, base, upper)
  }

  function Value(s: string, base: nat): (n: int)
  {
    if s == [] then 0 else Value(s[..|s| - 1], base) * base + HexValue(s[|s| - 1])
  }

  /** A numeral in base: digits of that base in one case, and no leading zero unless it is "0". */
  ghost predicate Canonical(s: string, base: nat, upper: bool)
    requires base in {8, 10, 16}
  {
    && s != [] && (s[0] == '0' ==> |s| == 1)
    && forall i :: 0 <= i < |s| ==> 0 <= HexValue(s[i]) < base && s[i] == DigitChar(HexValue(s[i]), upper)
  }

  lemma Divides(n: nat, base: nat, q: nat, d: nat)
    requires base in {8, 10, 16} && d < base && n == q * base + d
    ensures q == n / base && d == n % base
  {
  }

  lemma Split(n: nat, base: nat)
    requires base in {8, 10, 16}
    ensures n == n / base * base + n % base && n % base < base && (n > 0 ==> n / base < n)
  {
  }

  lemma ValueMore(t: string, d: nat, base: nat, upper: bool)
    requires d < 16
    ensures Value(t + [DigitChar(d, upper)], base) == Value(t, base) * base + d
  {
    hide DigitChar, HexValue;
    var s := t + [DigitChar(d, upper)];
    assert s[..|s| - 1] == t;
  }

  lemma CanonicalMore(t: string, d: nat, base: nat, upper: bool)
    requires base in {8, 10, 16} && d < base
    requires if t == [] then d > 0 else Canonical(t, base, upper) && t[0] != '0'
    ensures var s := t + [DigitChar(d, upper)];
            Canonical(s, base, upper) && s[0] != '0' && Value(s, base) == Value(t, base) * base + d
  {
    hide DigitChar, HexValue, Value;
    ValueMore(t, d, base, upper);
    var c := DigitChar(d, upper);
    var s := t + [c];
    assert HexValue(c) == d;
    assert forall i :: 0 <= i < |t| ==> s[i] == t[i];
  }

  lemma {:induction false} DigitsAreCanonical(n: nat, base: nat, upper: bool)
    requires base in {8, 10, 16} && n > 0
    ensures var s := Digits(n, base, upper); Canonical(s, base, upper) && s[0] != '0' && Value(s, base) == n
  {
    hide DigitChar, HexValue, Digits, Canonical, Value;
    var q, d := n / base, n % base;
    Split(n, base);
    DigitsUnfold(n, base, upper);
    if q > 0 {
      DigitsAreCanonical(q, base, upper);
    } else {
      NoDigits(base, upper);
      NoValue(base);
    }
    NotEmpty(Digits(q, base, upper), base, upper);
    CanonicalMore(Digits(q, base, upper), d, base, upper);
  }

  lemma NoValue(base: nat)
    ensures Value([], base) == 0
  {
  }

  lemma NotEmpty(s: string, base: nat, upper: bool)
    requires base in {8, 10, 16}
    ensures Canonical(s, base, upper) ==> s != []
  {
  }

  lemma NumeralUnfolds(n: nat, base: nat, upper: bool)
    requires base in {8, 10, 16}
    ensures Numeral(n, base, upper)
            == if n < base then [DigitChar(n, upper)]
               else Numeral(n / base, base, upper) + [DigitChar(n % base, upper)]
    ensures n == n / base * base + n % base && (n > 0 ==> n / base < n)
  {
    hide DigitChar, Digits;
    Split(n, base);
    NoDigits(base, upper);
    if n == 0 {
      ZeroChar(upper);
      assert "0" == ['0'];
    } else {
      DigitsUnfold(n, base, upper);
      if n < base {
        assert n / base == 0 && n % base == n;
        assert [] + [DigitChar(n, upper)] == [DigitChar(n, upper)];
      } else {
        assert n / base > 0;
      }
    }
  }

  lemma ZeroChar(upper: bool)
    ensures DigitChar(0, upper) == '0'
  {
  }

  /** The numeral denotes its number and is canonical. */
  lemma NumeralIsCanonical(n: nat, base: nat, upper: bool)
    requires base in {8, 10, 16}
    ensures Canonical(Numeral(n, base, upper), base, upper) && Value(Numeral(n, base, upper), base) == n
  {
    if n > 0 {
      DigitsAreCanonical(n, base, upper);
    } else {
      assert "0"[..0] == [];
    }
  }

  lemma {:induction false} DigitsOfValue(s: string, base: nat, upper: bool)
    requires base in {8, 10, 16} && Canonical(s, base, upper) && s[0] != '0'
    ensures Value(s, base) > 0 && s == Digits(Value(s, base), base, upper)
    decreases |s|
  {
    hide DigitChar, HexValue, Digits;
    var t, d := s[..|s| - 1], HexValue(s[|s| - 1]);
    var n, q: int := Value(s, base), Value(t, base);
    if t != [] {
      DigitsOfValue(t, base, upper);
    } else {
      assert 0 <= HexValue(s[0]) < base && s[0] == DigitChar(HexValue(s[0]), upper);
      NotZero(s[0], upper);
      NoDigits(base, upper);
    }
    Divides(n, base, q, d);
    assert s == t + [s[|s| - 1]];
    DigitsUnfold(n, base, upper);
  }

  lemma NotZero(c: char, upper: bool)
    requires c != '0' && HexValue(c) >= 0 && c == DigitChar(HexValue(c), upper)
    ensures HexValue(c) > 0
  {
  }

  lemma NoDigits(base: nat, upper: bool)
    requires base in {8, 10, 16}
    ensures Digits(0, base, upper) == []
  {
  }

  lemma DigitsUnfold(n: nat, base: nat, upper: bool)
    requires base in {8, 10, 16} && n > 0
    ensures Digits(n, base, upper) == Digits(n / base, base, upper) + [DigitChar(n % base, upper)]
  {
  }

  /** There is only one canonical numeral for a number. */
  lemma CanonicalIsNumeral(s: string, base: nat, upper: bool)
    requires base in {8, 10, 16} && Canonical(s, base, upper)
    ensures Value(s, base) >= 0 && s == Numeral(Value(s, base), base, upper)
  {
    if s[0] != '0' {
      hide Digits, Value;
      DigitsOfValue(s, base, upper);
    } else {
      assert s == "0" && s[..0] == [];
      assert Value(s, base) == Value([], base) * base;
    }
  }

  lemma {:induction false} DigitsAreFew(n: nat, base: nat, upper: bool, k: nat)
    requires base in {8, 10, 16} && n < Power8(k)
    ensures |Digits(n, base, upper)| <= k
    decreases k
  {
    hide DigitChar;
    if n > 0 {
      assert n / base < Power8(k - 1);
      DigitsAreFew(n / base, base, upper, k - 1);
    }
  }

  function Power8(k: nat): (p: nat)
  {
    if k == 0 then 1 else 8 * Power8(k - 1)
  }

  lemma TwentyTwo(n: nat)
    requires n < LIMIT
    ensures n < Power8(22)
  {
    assert Power8(6) == 0x4_0000 by {
      assert Power8(3) == 512;
      assert Power8(6) == 8 * (8 * (8 * Power8(3)));
    }
    assert Power8(12) == 0x10_0000_0000 by {
      assert Power8(9) == 8 * (8 * (8 * Power8(6)));
      assert Power8(12) == 8 * (8 * (8 * Power8(9)));
    }
    assert Power8(18) == 0x40_0000_0000_0000 by {
      assert Power8(15) == 8 * (8 * (8 * Power8(12)));
      assert Power8(18) == 8 * (8 * (8 * Power8(15)));
    }
    assert Power8(21) == 8 * (8 * (8 * Power8(18)));
    assert Power8(22) == 8 * Power8(21);
  }

  // ---------------------------------------------------------------- a tenth, by shifts

  function Near(n: nat): (k: nat)
  {
    n / 0x10 + n / 0x20 + n / 0x100 + n / 0x200
  }

  function Far(n: nat): (k: nat)
  {
    n / 0x1000 + n / 0x2000 + n / 0x1_0000 + n / 0x2_0000
  }

  /** The shift sums never exceed a tenth. */
  lemma ShiftsStayBelow(n: nat)
    ensures 10 * (Near(n) + Far(n)) <= n
  {
    assert 0x10 * (n / 0x10) <= n && 0x20 * (n / 0x20) <= n && 0x100 * (n / 0x100) <= n && 0x200 * (n / 0x200) <= n;
    assert 0x1000 * (n / 0x1000) <= n && 0x2000 * (n / 0x2000) <= n;
    assert 0x1_0000 * (n / 0x1_0000) <= n && 0x2_0000 * (n / 0x2_0000) <= n;
  }

  /** One digit: the exact quotient and remainder. */
  method DivideByTen(num: nat) returns (k: nat, m: nat)
    requires num < LIMIT
    ensures k == num / 10 && m == num % 10
  {
    hide Near, Far, U64;
    ShiftsStayBelow(num);
    k := U64(Near(num) + Far(num));
    m := U64(num - U64(U64(8 * k) + U64(2 * k)));
    while m >= 10
      invariant 10 * k <= num && m == num - 10 * k
      decreases m
    {
      ShiftsStayBelow(m);
      var delta := Near(m);
      if m >= 0x1000 {
        delta := delta + Far(m);
      }
      k := U64(k + if delta != 0 then delta else 1);
      m := U64(num - U64(U64(8 * k) + U64(2 * k)));
    }
  }

  // ---------------------------------------------------------------- filling the buffer

  /** The numeral of n is the digits of what is left, num, followed by what is in the buffer. */
  ghost predicate Pending(n: nat, num: nat, base: nat, upper: bool, buf: seq<char>)
    requires base in {8, 10, 16}
  {
    num <= n && Digits(n, base, upper) == Digits(num, base, upper) + buf
  }

  lemma PendingMore(n: nat, num: nat, base: nat, upper: bool, buf: seq<char>)
    requires base in {8, 10, 16} && num > 0 && Pending(n, num, base, upper, buf)
    ensures Pending(n, num / base, base, upper, [DigitChar(num % base, upper)] + buf)
    ensures n < LIMIT ==> |buf| < 22
  {
    hide Digits, DigitChar;
    DigitsUnfold(num, base, upper);
    Split(num, base);
    var rest, c := Digits(num / base, base, upper), DigitChar(num % base, upper);
    assert rest + [c] + buf == rest + ([c] + buf);
    if n < LIMIT {
      TwentyTwo(n);
      DigitsAreFew(n, base, upper, 22);
    }
  }

  lemma PendingStart(n: nat, base: nat, upper: bool)
    requires base in {8, 10, 16}
    ensures Pending(n, n, base, upper, [])
  {
    assert Digits(n, base, upper) + [] == Digits(n, base, upper);
  }

  lemma PendingEnd(n: nat, base: nat, upper: bool, buf: seq<char>)
    requires base in {8, 10, 16} && Pending(n, 0, base, upper, buf)
    ensures buf == Digits(n, base, upper) && (buf == [] <==> n == 0)
  {
    assert [] + buf == buf;
  }

  method AppendNumeric(n: nat, base: nat, upper: bool) returns (s: string)
    requires n < LIMIT && base in {8, 10, 16}
    ensures s == Numeral(n, base, upper)
  {
    hide Digits, DigitChar, Pending;
    var buf := new char[256];
    var trav := 256;
    var num: nat := n;
    PendingStart(n, base, upper);
    assert buf[256..] == [];
    ghost var tail: string := [];
    if base != 10 {
      while num > 0
        invariant 0 <= trav <= 256 && trav == 256 - |tail| && buf[trav..] == tail && num <= n
        invariant Pending(n, num, base, upper, tail)
      {
        PendingMore(n, num, base, upper, tail);
        Split(num, base);
        trav := trav - 1;
        buf[trav] := DigitChar(num % base, upper);
        tail := [buf[trav]] + tail;
        num := num / base;
      }
    }
    while num > 0
      invariant 0 <= trav <= 256 && trav == 256 - |tail| && buf[trav..] == tail && num <= n
      invariant Pending(n, num, base, upper, tail) && (base != 10 ==> num == 0)
    {
      PendingMore(n, num, base, upper, tail);
      Split(num, base);
      var k, m := DivideByTen(num);
      trav := trav - 1;
      buf[trav] := ('0' as int + m) as char;
      DecimalDigit(m, upper);
      tail := [buf[trav]] + tail;
      num := k;
    }
    PendingEnd(n, base, upper, tail);
    if trav == 256 {
      trav := trav - 1;
      buf[trav] := '0';
    }
    s := buf[trav..];
  }

  lemma DecimalDigit(m: nat, upper: bool)
    requires m < 10
    ensures DigitChar(m, upper) == ('0' as int + m) as char
  {
  }
}
