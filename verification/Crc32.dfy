/** The CRC of crc32.c: one table look-up per byte computes the remainder of dividing by the
    generator polynomial, most significant bit first. */
module Crc32 {
  const POLYNOMIAL: bv32 := 0x04c11db7

  // ---------------------------------------------------------------- words

  function Xor(a: bv32, b: bv32): (w: bv32)
  {
    a ^ b
  }

  function Left(w: bv32): (v: bv32)
  {
    w << 1
  }

  function Right(w: bv32): (v: bv32)
  {
    w >> 1
  }

  predicate Msb(w: bv32)
  {
    w & 0x8000_0000 != 0
  }

  predicate Lsb(w: bv32)
  {
    w & 1 != 0
  }

  function TopBit(b: bool): (w: bv32)
  {
    if b then 0x8000_0000 else 0
  }

  lemma XorAssociates(a: bv32, b: bv32, c: bv32)
    ensures Xor(Xor(a, b), c) == Xor(a, Xor(b, c))
  {
    assert (a ^ b) ^ c == a ^ (b ^ c);
  }

  lemma XorCommutes(a: bv32, b: bv32)
    ensures Xor(a, b) == Xor(b, a)
  {
    assert a ^ b == b ^ a;
  }

  lemma XorUnits(a: bv32)
    ensures Xor(a, a) == 0 && Xor(a, 0) == a
  {
    assert a ^ a == 0 && a ^ 0 == a;
  }

  lemma XorPairs(x: bv32, y: bv32, p: bv32)
    ensures Xor(Xor(x, p), Xor(y, p)) == Xor(x, y)
    ensures Xor(Xor(x, p), y) == Xor(Xor(x, y), p) && Xor(x, Xor(y, p)) == Xor(Xor(x, y), p)
  {
    hide Xor;
    XorAssociates(x, p, y);
    XorCommutes(p, y);
    XorAssociates(x, y, p);
    XorAssociates(Xor(x, p), y, p);
    XorAssociates(Xor(x, y), p, p);
    XorUnits(p);
    XorUnits(Xor(x, y));
  }

  lemma XorCancels(a: bv32, b: bv32, t: bv32)
    requires Xor(a, t) == Xor(b, t)
    ensures a == b
  {
    hide Xor;
    XorAssociates(a, t, t);
    XorAssociates(b, t, t);
    XorUnits(t);
    XorUnits(a);
    XorUnits(b);
  }

  lemma LeftXor(a: bv32, b: bv32)
    ensures Left(Xor(a, b)) == Xor(Left(a), Left(b))
  {
  }

  lemma MsbCases(w: bv32)
    ensures w & 0x8000_0000 == 0 || w & 0x8000_0000 == 0x8000_0000
  {
  }

  lemma MsbXor(a: bv32, b: bv32)
    ensures Msb(Xor(a, b)) <==> Msb(a) != Msb(b)
  {
    MsbCases(a);
    MsbCases(b);
    assert (a ^ b) & 0x8000_0000 == (a & 0x8000_0000) ^ (b & 0x8000_0000);
  }

  lemma TopBitLaws(b: bool)
    ensures Msb(TopBit(b)) == b && Left(TopBit(b)) == 0 && !Msb(0) && Left(0) == 0
  {
  }

  lemma LsbCases(w: bv32)
    ensures w & 1 == 0 || w & 1 == 1
  {
  }

  lemma LsbXorPolynomial(a: bv32)
    ensures Lsb(Xor(a, POLYNOMIAL)) == !Lsb(a) && !Lsb(Left(a))
  {
    LsbCases(a);
    assert (a ^ 0x04c11db7) & 1 == (a & 1) ^ 1;
    assert (a << 1) & 1 == 0;
  }

  lemma SameWord(a: bv32, b: bv32)
    requires Left(a) == Left(b) && Msb(a) == Msb(b)
    ensures a == b
  {
    MsbCases(a);
    MsbCases(b);
    assert a & 0x8000_0000 == b & 0x8000_0000;
  }

  lemma RightLaws(w: bv32)
    ensures !Msb(Right(w)) && (!Lsb(w) ==> Left(Right(w)) == w)
  {
  }

  lemma Split(w: bv32)
    ensures w == Xor(TopBit(Msb(w)), Right(Left(w)))
  {
    hide Xor, Left, Right, Msb, TopBit;
    TopOf(w);
    TopAndRest(w);
  }

  lemma TopOf(w: bv32)
    ensures TopBit(Msb(w)) == w & 0x8000_0000
  {
    MsbCases(w);
  }

  lemma TopAndRest(w: bv32)
    ensures w == Xor(w & 0x8000_0000, Right(Left(w)))
  {
    assert (w & 0x8000_0000) ^ ((w << 1) >> 1) == w;
  }

  // ---------------------------------------------------------------- the shift register

  /** One step of the register: multiply by x, modulo the generator. */
  function Clock(c: bv32): (d: bv32)
  {
    if Msb(c) then Xor(Left(c), POLYNOMIAL) else Left(c)
  }

  function Clocks(c: bv32, n: nat): (d: bv32)
    decreases n
  {
    if n == 0 then c else Clocks(Clock(c), n - 1)
  }

  /** The register c after the bits m, one bit at a time. */
  function Feed(c: bv32, m: seq<bool>): (d: bv32)
    decreases |m|
  {
    if m == [] then c else Feed(Clock(Xor(c, TopBit(m[0]))), m[1..])
  }

  lemma ClockXor(a: bv32, b: bv32)
    ensures Clock(Xor(a, b)) == Xor(Clock(a), Clock(b))
  {
    hide Xor, Left, Msb;
    MsbXor(a, b);
    LeftXor(a, b);
    var x, y, p := Left(a), Left(b), POLYNOMIAL;
    XorPairs(x, y, p);
  }

  lemma {:induction false} ClocksXor(a: bv32, b: bv32, n: nat)
    ensures Clocks(Xor(a, b), n) == Xor(Clocks(a, n), Clocks(b, n))
    decreases n
  {
    hide Xor, Clock;
    if n > 0 {
      ClockXor(a, b);
      ClocksXor(Clock(a), Clock(b), n - 1);
    }
  }

  lemma {:induction false} ClocksOfZero(n: nat)
    ensures Clocks(0, n) == 0
    decreases n
  {
    if n > 0 {
      TopBitLaws(true);
      ClocksOfZero(n - 1);
    }
  }

  /** The generator is odd, so no two registers step to the same one. */
  lemma ClockIsInjective(a: bv32, b: bv32)
    requires Clock(a) == Clock(b)
    ensures a == b
  {
    hide Xor, Left, Msb, Lsb;
    var x, y, p := Left(a), Left(b), POLYNOMIAL;
    LsbXorPolynomial(a);
    LsbXorPolynomial(b);
    LsbXorPolynomial(x);
    LsbXorPolynomial(y);
    assert Msb(a) == Msb(b);
    if Msb(a) {
      XorCancels(x, y, p);
    }
    SameWord(a, b);
  }

  lemma {:induction false} ClocksAreInjective(a: bv32, b: bv32, n: nat)
    requires Clocks(a, n) == Clocks(b, n)
    ensures a == b
    decreases n
  {
    hide Clock;
    if n > 0 {
      ClocksAreInjective(Clock(a), Clock(b), n - 1);
      ClockIsInjective(a, b);
    }
  }

  lemma {:induction false} FeedIsInjective(a: bv32, b: bv32, m: seq<bool>)
    requires Feed(a, m) == Feed(b, m)
    ensures a == b
    decreases |m|
  {
    hide Clock, Xor, TopBit;
    if m != [] {
      var t := TopBit(m[0]);
      FeedIsInjective(Clock(Xor(a, t)), Clock(Xor(b, t)), m[1..]);
      ClockIsInjective(Xor(a, t), Xor(b, t));
      XorCancels(a, b, t);
    }
  }

  /** The CRC of a concatenation is the CRC of the second part started from that of the first. */
  lemma {:induction false} FeedAppend(c: bv32, m: seq<bool>, m': seq<bool>)
    ensures Feed(c, m + m') == Feed(Feed(c, m), m')
    decreases |m|
  {
    hide Clock, Xor, TopBit;
    if m == [] {
      assert m + m' == m';
    } else {
      assert (m + m')[1..] == m[1..] + m';
      FeedAppend(Clock(Xor(c, TopBit(m[0]))), m[1..], m');
    }
  }

  // ---------------------------------------------------------------- words as bits

  function Lefts(w: bv32, n: nat): (v: bv32)
    decreases n
  {
    if n == 0 then w else Lefts(Left(w), n - 1)
  }

  /** The first n bits of w, most significant first. */
  function Bits(w: bv32, n: nat): (m: seq<bool>)
    ensures |m| == n
    decreases n
  {
    if n == 0 then [] else [Msb(w)] + Bits(Left(w), n - 1)
  }

  /** The word that starts with the bits m. */
  function Word(m: seq<bool>): (w: bv32)
  {
    if m == [] then 0 else Xor(TopBit(m[0]), Right(Word(m[1..])))
  }

  lemma {:induction false} LeftsAdd(w: bv32, n: nat, k: nat)
    ensures Lefts(w, n + k) == Lefts(Lefts(w, n), k)
    decreases n
  {
    hide Left;
    if n > 0 {
      LeftsAdd(Left(w), n - 1, k);
    }
  }

  function LeftByte(w: bv32): (v: bv32)
  {
    w << 8
  }

  lemma LeftsEight(w: bv32)
    ensures Lefts(w, 8) == LeftByte(w)
  {
    hide Left;
    var w4 := Left(Left(Left(Left(w))));
    assert Lefts(w, 8) == Lefts(Left(Left(w)), 6) == Lefts(w4, 4) == Lefts(Left(Left(w4)), 2);
    assert Lefts(w, 8) == Left(Left(Left(Left(w4))));
    LeftFour(w);
    LeftFour(w4);
    assert (w << 4) << 4 == w << 8;
  }

  lemma LeftFour(w: bv32)
    ensures Left(Left(Left(Left(w)))) == w << 4
  {
  }

  lemma LeftsSeven(w: bv32)
    ensures Lefts(w, 7) == w << 7
  {
    hide Left;
    var w4 := Left(Left(Left(Left(w))));
    assert Lefts(w, 7) == Lefts(Left(Left(w)), 5) == Lefts(w4, 3) == Lefts(Left(Left(w4)), 1);
    assert Lefts(w, 7) == Left(Left(Left(w4)));
    LeftFour(w);
    assert Left(Left(Left(w4))) == w4 << 3 by {
      LeftThree(w4);
    }
    assert (w << 4) << 3 == w << 7;
  }

  lemma LeftThree(w: bv32)
    ensures Left(Left(Left(w))) == w << 3
  {
  }

  lemma FourBytes(w: bv32)
    ensures LeftByte(LeftByte(LeftByte(LeftByte(w)))) == 0
    ensures LeftByte(LeftByte(LeftByte(w))) << 7 == 0 ==> !Lsb(w)
  {
    LsbCases(w);
    assert ((w << 24) << 7) == (w & 1) << 31;
    assert ((w << 8) << 8) << 8 == w << 24;
  }

  lemma LeftsThreeBytes(w: bv32, k: nat)
    ensures Lefts(w, 24 + k) == Lefts(LeftByte(LeftByte(LeftByte(w))), k)
  {
    hide Lefts, LeftByte;
    var w1 := LeftByte(w);
    var w2 := LeftByte(w1);
    LeftsEight(w);
    LeftsEight(w1);
    LeftsEight(w2);
    LeftsAdd(w, 8, 16 + k);
    LeftsAdd(w1, 8, 8 + k);
    LeftsAdd(w2, 8, k);
  }

  /** Nothing is left of a word after thirty-two shifts, nor of an even one after thirty-one. */
  lemma LeftsAll(w: bv32)
    ensures Lefts(w, 32) == 0
    ensures Lefts(w, 31) == 0 ==> !Lsb(w)
  {
    hide Lefts, LeftByte, Lsb;
    LeftsThreeBytes(w, 8);
    LeftsThreeBytes(w, 7);
    LeftsEight(LeftByte(LeftByte(LeftByte(w))));
    LeftsSeven(LeftByte(LeftByte(LeftByte(w))));
    FourBytes(w);
  }

  lemma {:induction false} LeftsOfZero(n: nat)
    ensures Lefts(0, n) == 0
  {
    if n > 0 {
      LeftsOfZero(n - 1);
    }
  }

  lemma {:induction false} BitsAdd(w: bv32, n: nat, k: nat)
    ensures Bits(w, n + k) == Bits(w, n) + Bits(Lefts(w, n), k)
    decreases n
  {
    hide Left, Msb;
    if n > 0 {
      BitsAdd(Left(w), n - 1, k);
    }
  }

  /** A word whose last 32 - n bits are zero is the word of its first n bits. */
  lemma {:induction false} WordOfBits(w: bv32, n: nat)
    requires Lefts(w, n) == 0
    ensures Word(Bits(w, n)) == w
    decreases n
  {
    hide Left, Right, Msb, Xor, TopBit;
    if n > 0 {
      WordOfBits(Left(w), n - 1);
      Split(w);
      assert Bits(w, n)[1..] == Bits(Left(w), n - 1);
    }
  }

  lemma WordUnfolds(m: seq<bool>)
    requires m != []
    ensures Msb(Word(m)) == m[0]
    ensures !Lsb(Word(m[1..])) ==> Left(Word(m)) == Word(m[1..])
  {
    hide Left, Right, Msb, Lsb, Xor, TopBit;
    var t, w := TopBit(m[0]), Word(m[1..]);
    TopBitLaws(m[0]);
    RightLaws(w);
    MsbXor(t, Right(w));
    LeftXor(t, Right(w));
    XorCommutes(0, w);
    XorUnits(w);
  }

  /** The word of at most thirty-two bits has those bits and zeros behind them. */
  lemma {:induction false} BitsOfWord(m: seq<bool>)
    requires |m| <= 32
    ensures Bits(Word(m), |m|) == m && Lefts(Word(m), |m|) == 0
    ensures |m| < 32 ==> !Lsb(Word(m))
  {
    hide Left, Msb, Lsb, Word;
    if m == [] {
      WordOfNone();
    } else {
      BitsOfWord(m[1..]);
      WordUnfolds(m);
    }
    if |m| < 32 {
      LeftsAdd(Word(m), |m|, 31 - |m|);
      LeftsOfZero(31 - |m|);
      LeftsAll(Word(m));
    }
  }

  lemma WordOfNone()
    ensures Word([]) == 0
  {
  }

  // ---------------------------------------------------------------- what the register computes

  /** Feeding up to thirty-two bits is adding them to the register and then clocking it. */
  lemma {:induction false} FeedIsClocks(c: bv32, m: seq<bool>)
    requires |m| <= 32
    ensures Feed(c, m) == Clocks(Xor(c, Word(m)), |m|)
    decreases |m|
  {
    hide Clock, Xor, TopBit, Word, Right, Lsb, Msb, Left;
    if m == [] {
      WordOfNone();
      XorUnits(c);
    } else {
      var t, r, w := TopBit(m[0]), Right(Word(m[1..])), Word(m[1..]);
      BitsOfWord(m[1..]);
      FeedIsClocks(Clock(Xor(c, t)), m[1..]);
      assert Clock(r) == w by {
        RightLaws(w);
        ClockOfShort(r);
      }
      ClockXor(Xor(c, t), r);
      XorAssociates(c, t, r);
      WordIs(m);
    }
  }

  lemma WordIs(m: seq<bool>)
    requires m != []
    ensures Word(m) == Xor(TopBit(m[0]), Right(Word(m[1..])))
  {
  }

  lemma ClockOfShort(w: bv32)
    requires !Msb(w)
    ensures Clock(w) == Left(w)
  {
  }

  /** Data followed by its own CRC, most significant bit first, leaves zero. */
  lemma OwnCrcLeavesZero(c: bv32, m: seq<bool>)
    ensures Feed(c, m + Bits(Feed(c, m), 32)) == 0
  {
    hide Feed, Bits, Xor, Word, Clocks;
    var d := Feed(c, m);
    FeedAppend(c, m, Bits(d, 32));
    FeedIsClocks(d, Bits(d, 32));
    LeftsAll(d);
    WordOfBits(d, 32);
    XorUnits(d);
    ClocksOfZero(32);
  }

  /** Only its own CRC does. */
  lemma OnlyOwnCrcLeavesZero(c: bv32, m: seq<bool>, tail: seq<bool>)
    requires |tail| == 32
    ensures Feed(c, m + tail) == 0 <==> tail == Bits(Feed(c, m), 32)
  {
    hide Feed, Bits, Xor, Word;
    OwnCrcLeavesZero(c, m);
    if Feed(c, m + tail) == 0 {
      BurstIsDetected(c, m, tail, Bits(Feed(c, m), 32), []);
      assert m + tail + [] == m + tail;
      assert m + Bits(Feed(c, m), 32) + [] == m + Bits(Feed(c, m), 32);
    }
  }

  /** Two messages of the same length that differ only within thirty-two consecutive bits have
      different CRCs. */
  lemma BurstIsDetected(c: bv32, before: seq<bool>, e: seq<bool>, e': seq<bool>, behind: seq<bool>)
    requires |e| == |e'| <= 32
    ensures Feed(c, before + e + behind) == Feed(c, before + e' + behind) <==> e == e'
  {
    hide Feed, Bits, Xor, Word, Clocks;
    var d := Feed(c, before);
    FeedAppend(c, before + e, behind);
    FeedAppend(c, before + e', behind);
    FeedAppend(c, before, e);
    FeedAppend(c, before, e');
    if Feed(c, before + e + behind) == Feed(c, before + e' + behind) {
      FeedIsInjective(Feed(d, e), Feed(d, e'), behind);
      FeedIsClocks(d, e);
      FeedIsClocks(d, e');
      ClocksAreInjective(Xor(d, Word(e)), Xor(d, Word(e')), |e|);
      XorCommutes(d, Word(e));
      XorCommutes(d, Word(e'));
      XorCancels(Word(e), Word(e'), d);
      BitsOfWord(e);
      BitsOfWord(e');
    }
  }

  // ---------------------------------------------------------------- long division

  /** The generator, from its x^31 coefficient down; the leading x^32 is implied. */
  function Generator(): (g: seq<bool>)
    ensures |g| == 32 && forall i :: 0 <= i < 32 ==> (g[i] <==> 31 - i in {26, 23, 22, 16, 12, 11, 10, 8, 7, 5, 4, 2, 1, 0})
  {
    [false, false, false, false, false, true, false, false] +
    [true, true, false, false, false, false, false, true] +
    [false, false, false, true, true, true, false, true] +
    [true, false, true, true, false, true, true, true]
  }

  /** a with the bits of b added, modulo 2, to its first ones. */
  function Added(a: seq<bool>, b: seq<bool>): (m: seq<bool>)
    requires |b| <= |a|
    ensures |m| == |a|
  {
    seq(|a|, i requires 0 <= i < |a| => if i < |b| then a[i] != b[i] else a[i])
  }

  /** Division of a polynomial over GF(2) by the generator, as by hand: while there are more than
      thirty-two coefficients, drop the leading one after subtracting the generator if it is one. */
  function Remainder(m: seq<bool>): (r: seq<bool>)
    requires |m| >= 32
    ensures |r| == 32
    decreases |m|
  {
    if |m| == 32 then m
    else Remainder(if m[0] then Added(m[1..], Generator()) else m[1..])
  }

  function NoBits(): (m: seq<bool>)
    ensures |m| == 32 && forall i :: 0 <= i < 32 ==> !m[i]
  {
    seq(32, _ => false)
  }

  lemma GeneratorIsPolynomial()
    ensures Bits(POLYNOMIAL, 32) == Generator()
  {
    hide Bits;
    BitsAdd(POLYNOMIAL, 8, 24);
    LeftsEight(POLYNOMIAL);
    BitsAdd(LeftByte(POLYNOMIAL), 8, 16);
    LeftsEight(LeftByte(POLYNOMIAL));
    BitsAdd(LeftByte(LeftByte(POLYNOMIAL)), 8, 8);
    LeftsEight(LeftByte(LeftByte(POLYNOMIAL)));
    assert LeftByte(POLYNOMIAL) == 0xc11d_b700;
    assert LeftByte(LeftByte(POLYNOMIAL)) == 0x1db7_0000;
    assert LeftByte(LeftByte(LeftByte(POLYNOMIAL))) == 0xb700_0000;
    FirstBytes();
  }

  lemma FirstBytes()
    ensures Bits(0x04c1_1db7, 8) == [false, false, false, false, false, true, false, false]
    ensures Bits(0xc11d_b700, 8) == [true, true, false, false, false, false, false, true]
    ensures Bits(0x1db7_0000, 8) == [false, false, false, true, true, true, false, true]
    ensures Bits(0xb700_0000, 8) == [true, false, true, true, false, true, true, true]
  {
    EightBits(0x04c1_1db7);
    EightBits(0xc11d_b700);
    EightBits(0x1db7_0000);
    EightBits(0xb700_0000);
  }

  lemma EightBits(w: bv32)
    ensures Bits(w, 8) == [w & 0x8000_0000 != 0, w & 0x4000_0000 != 0, w & 0x2000_0000 != 0, w & 0x1000_0000 != 0,
                           w & 0x0800_0000 != 0, w & 0x0400_0000 != 0, w & 0x0200_0000 != 0, w & 0x0100_0000 != 0]
  {
    hide Bits, Lefts, Left;
    FourBits(w);
    BitsAdd(w, 4, 4);
    LeftsFour(w);
    FourBits(w << 4);
    SecondNibble(w);
  }

  lemma LeftsFour(w: bv32)
    ensures Lefts(w, 4) == w << 4
  {
    hide Left;
    LeftFour(w);
    assert Lefts(w, 4) == Lefts(Left(Left(w)), 2);
  }

  lemma SecondNibble(w: bv32)
    ensures (w << 4) & 0x8000_0000 != 0 <==> w & 0x0800_0000 != 0
    ensures (w << 4) & 0x4000_0000 != 0 <==> w & 0x0400_0000 != 0
    ensures (w << 4) & 0x2000_0000 != 0 <==> w & 0x0200_0000 != 0
    ensures (w << 4) & 0x1000_0000 != 0 <==> w & 0x0100_0000 != 0
  {
  }

  lemma FourBits(w: bv32)
    ensures Bits(w, 4) == [w & 0x8000_0000 != 0, w & 0x4000_0000 != 0, w & 0x2000_0000 != 0, w & 0x1000_0000 != 0]
  {
    assert Bits(w, 4) == [Msb(w)] + ([Msb(Left(w))] + Bits(Left(Left(w)), 2));
    assert Bits(Left(Left(w)), 2) == [Msb(Left(Left(w)))] + ([Msb(Left(Left(Left(w))))] + []);
  }

  lemma {:induction false} BitsXor(a: bv32, b: bv32, n: nat)
    ensures Bits(Xor(a, b), n) == Added(Bits(a, n), Bits(b, n))
    decreases n
  {
    hide Xor, Left, Msb;
    if n > 0 {
      MsbXor(a, b);
      LeftXor(a, b);
      BitsXor(Left(a), Left(b), n - 1);
    }
  }

  /** Dropping the first bit of a register is shifting it. */
  lemma BitsDrop(c: bv32)
    ensures Bits(c, 32)[0] == Msb(c)
    ensures Bits(Left(c), 32) == Bits(c, 32)[1..] + [false]
  {
    hide Left, Msb, Lefts, Bits;
    BitsUnfold(c, 31);
    BitsAdd(Left(c), 31, 1);
    LeftsAll(c);
    LeftsUnfold(c, 31);
    TopBitLaws(true);
    BitsUnfold(0, 0);
  }

  lemma BitsUnfold(w: bv32, n: nat)
    ensures Bits(w, n + 1) == [Msb(w)] + Bits(Left(w), n)
  {
  }

  lemma LeftsUnfold(w: bv32, n: nat)
    ensures Lefts(w, n + 1) == Lefts(Left(w), n)
  {
  }

  lemma AddedTwice(a: seq<bool>, b: seq<bool>, c: seq<bool>)
    requires |b| == |c| <= |a|
    ensures Added(Added(a, b), c) == Added(a, Added(b, c))
  {
  }

  /** One step of the division is one step of the register. */
  lemma DivisionStep(c: bv32, b: bool, m: seq<bool>)
    requires |m| >= 32
    ensures Remainder(Added([b] + m, Bits(c, 32)))
            == Remainder(Added(m, Bits(Clock(Xor(c, TopBit(b))), 32)))
  {
    hide Bits, Xor, Left, Msb, TopBit;
    var d := Added([b] + m, Bits(c, 32));
    BitsDrop(c);
    assert d[0] == (b != Msb(c));
    assert d[1..] == Added(m, Bits(Left(c), 32));
    var x := Xor(c, TopBit(b));
    MsbXor(c, TopBit(b));
    TopBitLaws(b);
    LeftXor(c, TopBit(b));
    XorUnits(Left(c));
    assert Left(x) == Left(c);
    if d[0] {
      GeneratorIsPolynomial();
      BitsXor(Left(c), POLYNOMIAL, 32);
      AddedTwice(m, Bits(Left(c), 32), Generator());
    }
  }

  /** The CRC is the remainder of the data, shifted up by thirty-two places, with the start value
      added to its first thirty-two coefficients. */
  lemma {:induction false} CrcIsRemainder(c: bv32, m: seq<bool>)
    ensures Remainder(Added(m + NoBits(), Bits(c, 32))) == Bits(Feed(c, m), 32)
    decreases |m|
  {
    hide Bits, Xor, TopBit, Clock;
    if m == [] {
      assert Added(m + NoBits(), Bits(c, 32)) == Bits(c, 32);
    } else {
      hide Added, Remainder;
      assert m + NoBits() == [m[0]] + (m[1..] + NoBits());
      DivisionStep(c, m[0], m[1..] + NoBits());
      CrcIsRemainder(Clock(Xor(c, TopBit(m[0]))), m[1..]);
    }
  }

  // ---------------------------------------------------------------- a byte at a time

  /** The low byte of a word, at the top of a register. */
  function Up(w: bv32): (w': bv32)
  {
    w << 24
  }

  /** A register without its top byte. */
  function Low(c: bv32): (c': bv32)
  {
    c & 0x00ff_ffff
  }

  /** A byte at the top of a register. */
  function Top(b: bv8): (w: bv32)
  {
    Up(b as bv32)
  }

  function ByteBits(b: bv8): (m: seq<bool>)
    ensures |m| == 8
  {
    Bits(Top(b), 8)
  }

  function DataBits(data: seq<bv8>): (m: seq<bool>)
  {
    if data == [] then [] else ByteBits(data[0]) + DataBits(data[1..])
  }

  /** What the table holds for index i. */
  function Entry(i: bv32): (e: bv32)
  {
    Clocks(Up(i), 8)
  }

  /** The top byte of a register with another added to it. */
  function Mixed(c: bv32, w: bv32): (i: bv32)
    ensures i < 256
  {
    ((c >> 24) ^ w) & 0xff
  }

  function Index(c: bv32, b: bv8): (i: bv32)
    ensures i < 256
  {
    Mixed(c, b as bv32)
  }

  lemma IndexCarries(c: bv32, b: bv8)
    ensures Xor(c, Top(b)) == Xor(Up(Index(c, b)), Low(c))
  {
    hide Xor, Up, Low, Mixed;
    TopByte(c, b as bv32);
  }

  lemma TopByte(c: bv32, w: bv32)
    ensures Xor(c, Up(w)) == Xor(Up(Mixed(c, w)), Low(c))
  {
    hide Xor, Up, Low, Mixed;
    var high, low, up := Up(c >> 24), Low(c), Up(w);
    UpMixed(c, w);
    HighAndLow(c);
    XorAssociates(high, low, up);
    XorCommutes(low, up);
    XorAssociates(high, up, low);
  }

  lemma UpMixed(c: bv32, w: bv32)
    ensures Up(Mixed(c, w)) == Xor(Up(c >> 24), Up(w))
  {
  }

  lemma HighAndLow(c: bv32)
    ensures c == Xor(Up(c >> 24), Low(c))
  {
  }

  lemma ShortRegister(c: bv32)
    ensures Clocks(Low(c), 8) == LeftByte(c)
  {
    var w := Low(c);
    assert LeftByte(w) == LeftByte(c);
    LeftsEight(w);
    ShortMsbs(c);
    hide Msb, Left, LeftByte;
    var w4 := Left(Left(Left(Left(w))));
    assert Clocks(w, 8) == Clocks(Left(Left(w)), 6) == Clocks(w4, 4);
    assert Clocks(w4, 4) == Clocks(Left(Left(w4)), 2) == Left(Left(Left(Left(w4))));
    assert Lefts(w, 8) == Lefts(Left(Left(w)), 6) == Lefts(w4, 4);
    assert Lefts(w4, 4) == Lefts(Left(Left(w4)), 2) == Left(Left(Left(Left(w4))));
  }

  lemma ShortMsbs(c: bv32)
    ensures var w := Low(c);
            var w4 := Left(Left(Left(Left(w))));
            && !Msb(w) && !Msb(Left(w)) && !Msb(Left(Left(w))) && !Msb(Left(Left(Left(w))))
            && !Msb(w4) && !Msb(Left(w4)) && !Msb(Left(Left(w4))) && !Msb(Left(Left(Left(w4))))
  {
  }

  /** One table look-up does what eight single-bit steps do. */
  lemma ByteStep(c: bv32, b: bv8)
    ensures Xor(LeftByte(c), Entry(Index(c, b))) == Feed(c, ByteBits(b))
  {
    hide Xor, LeftByte, Index, Top, Up, Low, Clocks, Word, Bits, Feed, Lefts;
    var top, i := Top(b), Index(c, b);
    ByteFallsOff(b);
    LeftsEight(top);
    WordOfBits(top, 8);
    FeedIsClocks(c, Bits(top, 8));
    IndexCarries(c, b);
    ClocksXor(Up(i), Low(c), 8);
    ShortRegister(c);
    XorCommutes(LeftByte(c), Entry(i));
  }

  lemma ByteFallsOff(b: bv8)
    ensures LeftByte(Top(b)) == 0
  {
  }

  lemma {:induction false} DataBitsAppend(data: seq<bv8>, data': seq<bv8>)
    ensures DataBits(data + data') == DataBits(data) + DataBits(data')
  {
    hide ByteBits;
    if data == [] {
      assert data + data' == data';
    } else {
      assert (data + data')[1..] == data[1..] + data';
      DataBitsAppend(data[1..], data');
    }
  }

  function FirstByte(w: bv32): (b: bv8)
  {
    (w >> 24) as bv8
  }

  /** A word as four bytes, most significant first. */
  function WordBytes(w: bv32): (data: seq<bv8>)
  {
    var w1 := LeftByte(w);
    var w2 := LeftByte(w1);
    [FirstByte(w), FirstByte(w1), FirstByte(w2), FirstByte(LeftByte(w2))]
  }

  lemma FirstByteBits(w: bv32)
    ensures ByteBits(FirstByte(w)) == Bits(w, 8)
  {
    hide Bits;
    TopOfFirst(w);
    EightBits(w);
    EightBits(w & 0xff00_0000);
    MaskedBits(w);
  }

  lemma TopOfFirst(w: bv32)
    ensures Top(FirstByte(w)) == w & 0xff00_0000
  {
  }

  lemma MaskedBits(w: bv32)
    ensures var v := w & 0xff00_0000;
            && v & 0x8000_0000 == w & 0x8000_0000 && v & 0x4000_0000 == w & 0x4000_0000
            && v & 0x2000_0000 == w & 0x2000_0000 && v & 0x1000_0000 == w & 0x1000_0000
            && v & 0x0800_0000 == w & 0x0800_0000 && v & 0x0400_0000 == w & 0x0400_0000
            && v & 0x0200_0000 == w & 0x0200_0000 && v & 0x0100_0000 == w & 0x0100_0000
  {
  }

  lemma BitsSplit(w: bv32, k: nat)
    ensures Bits(w, 8 + k) == ByteBits(FirstByte(w)) + Bits(LeftByte(w), k)
  {
    hide Bits, ByteBits, FirstByte, LeftByte;
    FirstByteBits(w);
    BitsAdd(w, 8, k);
    LeftsEight(w);
  }

  lemma WordBytesBits(w: bv32)
    ensures DataBits(WordBytes(w)) == Bits(w, 32)
  {
    hide Bits, ByteBits, FirstByte, LeftByte;
    var w1 := LeftByte(w);
    var w2 := LeftByte(w1);
    var w3 := LeftByte(w2);
    BitsSplit(w, 24);
    BitsSplit(w1, 16);
    BitsSplit(w2, 8);
    FirstByteBits(w3);
    var data := WordBytes(w);
    assert data[1..] == [FirstByte(w1), FirstByte(w2), FirstByte(w3)];
    assert data[1..][1..] == [FirstByte(w2), FirstByte(w3)];
    assert data[1..][1..][1..] == [FirstByte(w3)];
    assert DataBits(data[1..][1..]) == ByteBits(FirstByte(w2)) + DataBits([FirstByte(w3)]);
    assert DataBits([FirstByte(w3)]) == ByteBits(FirstByte(w3)) + DataBits([FirstByte(w3)][1..]);
    assert DataBits([FirstByte(w3)][1..]) == [];
  }

  /** Data and the four bytes behind it leave zero exactly when those bytes are the CRC of the data,
      most significant byte first. */
  lemma FrameLeavesZero(c: bv32, data: seq<bv8>, w: bv32)
    ensures Feed(c, DataBits(data + WordBytes(w))) == 0 <==> w == Feed(c, DataBits(data))
  {
    hide Bits, Feed, DataBits, Word, WordBytes, Lefts;
    var m := DataBits(data);
    DataBitsAppend(data, WordBytes(w));
    WordBytesBits(w);
    OnlyOwnCrcLeavesZero(c, m, Bits(w, 32));
    LeftsAll(w);
    LeftsAll(Feed(c, m));
    WordOfBits(w, 32);
    WordOfBits(Feed(c, m), 32);
  }

  // ---------------------------------------------------------------- the table and the loop

  lemma IndexAsInt(i: bv32)
    requires i < 256
    ensures 0 <= i as int < 256 && (i as int) as bv32 == i
  {
  }

  /** The first n words of s are what the table holds. */
  ghost predicate Entries(s: seq<bv32>, n: nat)
  {
    n <= |s| == 256 && forall i :: 0 <= i < n ==> s[i] == Entry(i as bv32)
  }

  lemma NoEntries(s: seq<bv32>)
    requires |s| == 256
    ensures Entries(s, 0)
  {
  }

  lemma EntriesMore(s: seq<bv32>, n: nat, c: bv32)
    requires Entries(s, n) && n < 256 && c == Entry(n as bv32)
    ensures Entries(s[n := c], n + 1)
  {
    hide Entry;
  }

  lemma EntriesAt(s: seq<bv32>, i: bv32)
    requires Entries(s, 256) && i < 256
    ensures 0 <= i as int < 256 && s[i as int] == Entry(i)
  {
    hide Entry;
    IndexAsInt(i);
  }

  method TableEntry(i: nat) returns (c: bv32)
    requires i < 256
    ensures c == Entry(i as bv32)
  {
    c := ClockEight((i as bv32) << 24);
  }

  /** crc_table and the flag that says whether it has been filled. */
  class Crc {
    const table: array<bv32>
    var initialized: bool

    ghost predicate Valid()
      reads this, table
    {
      table.Length == 256 && (initialized ==> Entries(table[..], 256))
    }

    constructor ()
      ensures Valid() && !initialized && fresh(table)
    {
      table := new bv32[256];
      initialized := false;
    }

    method GenTable()
      requires table.Length == 256
      modifies table
      ensures Entries(table[..], 256)
    {
      hide Entries;
      var i := 0;
      ghost var s := table[..];
      NoEntries(s);
      while i < 256
        invariant 0 <= i <= 256 && s == table[..] && Entries(s, i)
      {
        var c := TableEntry(i);
        EntriesMore(s, i, c);
        table[i] := c;
        s := s[i := c];
        i := i + 1;
      }
    }

    method Update(start: bv32, data: seq<bv8>) returns (c: bv32)
      requires Valid()
      modifies this, table
      ensures Valid() && initialized
      ensures c == Feed(start, DataBits(data))
    {
      hide Entries, Entry, Feed, DataBits, ByteBits, Xor, LeftByte, Index;
      if !initialized {
        initialized := true;
        GenTable();
      }
      c := start;
      DataBitsOfNone();
      FeedOfNone(start);
      for j := 0 to |data|
        invariant Valid() && initialized
        invariant c == Feed(start, DataBits(data[..j]))
      {
        var i := Index(c, data[j]);
        EntriesAt(table[..], i);
        ByteStep(c, data[j]);
        FeedMore(start, data, j);
        c := Xor(LeftByte(c), table[i as int]);
      }
      assert data[..|data|] == data;
    }
  }

  lemma DataBitsOfNone()
    ensures DataBits([]) == []
  {
  }

  lemma FeedOfNone(c: bv32)
    ensures Feed(c, []) == c
  {
  }

  lemma FeedMore(c: bv32, data: seq<bv8>, j: nat)
    requires j < |data|
    ensures Feed(c, DataBits(data[..j + 1])) == Feed(Feed(c, DataBits(data[..j])), ByteBits(data[j]))
  {
    hide Feed, ByteBits;
    assert data[..j + 1] == data[..j] + [data[j]];
    DataBitsAppend(data[..j], [data[j]]);
    assert DataBits([data[j]][1..]) == [];
    assert DataBits([data[j]]) == ByteBits(data[j]);
    FeedAppend(c, DataBits(data[..j]), ByteBits(data[j]));
  }

  /** The inner loop of gen_crc_table. */
  method ClockEight(start: bv32) returns (c: bv32)
    ensures c == Clocks(start, 8)
  {
    hide Clock, Msb, Left, Xor;
    c := start;
    for j := 0 to 8
      invariant Clocks(start, 8) == Clocks(c, 8 - j)
    {
      ClockIs(c);
      c := if Msb(c) then Xor(Left(c), POLYNOMIAL) else Left(c);
    }
  }

  lemma ClockIs(c: bv32)
    ensures Clock(c) == if Msb(c) then Xor(Left(c), POLYNOMIAL) else Left(c)
  {
  }
}
