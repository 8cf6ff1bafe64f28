/** The Internet checksum of in_cksum.c: a 32-bit sum folded twice, against the one's complement sum
    of RFC 1071 section 1 and the pseudo-header of RFC 793 section 3.1. */
module Checksum {
  const WRAP: nat := 0x1_0000_0000

  ghost predicate Words(ws: seq<nat>)
  {
    forall i :: 0 <= i < |ws| ==> ws[i] < 0x1_0000
  }

  // ---------------------------------------------------------------- RFC 1071

  /** One's complement addition: the carry comes back in at the low end. */
  function OnesAdd(a: nat, b: nat): (c: nat)
    requires a < 0x1_0000 && b < 0x1_0000
    ensures c < 0x1_0000
  {
    if a + b < 0x1_0000 then a + b else a + b - 0xFFFF
  }

  ghost function OnesSum(ws: seq<nat>): (c: nat)
    requires Words(ws)
    ensures c < 0x1_0000
  {
    if ws == [] then 0 else OnesAdd(OnesSum(ws[..|ws| - 1]), ws[|ws| - 1])
  }

  function Complement(c: nat): (d: nat)
    requires c < 0x1_0000
    ensures d < 0x1_0000
  {
    0xFFFF - c
  }

  // ---------------------------------------------------------------- in_cksum.c

  ghost function Total(ws: seq<nat>): (t: nat)
  {
    if ws == [] then 0 else Total(ws[..|ws| - 1]) + ws[|ws| - 1]
  }

  /** As a uint32_t. */
  function Wrapped(t: nat): (w: nat)
    ensures w < WRAP
  {
    t % WRAP
  }

  /** Add the carries back, twice, and keep sixteen bits. */
  function Fold(sum: nat): (c: nat)
    ensures c < 0x1_0000
  {
    var s1 := sum % 0x1_0000 + sum / 0x1_0000;
    (s1 + s1 / 0x1_0000) % 0x1_0000
  }

  // ---------------------------------------------------------------- sums modulo 0xFFFF

  /** What all of this computes: zero for zero, otherwise the residue among 1, ..., 0xFFFF. */
  function Residue(t: nat): (c: nat)
    ensures c < 0x1_0000 && (c == 0 <==> t == 0)
  {
    if t == 0 then 0 else (t - 1) % 0xFFFF + 1
  }

  lemma ResidueOf(t: nat, q: nat, c: nat)
    requires t == q * 0xFFFF + c && 0 < c < 0x1_0000
    ensures Residue(t) == c
  {
  }

  lemma ResidueSplits(t: nat) returns (q: nat)
    requires t > 0
    ensures t == q * 0xFFFF + Residue(t)
  {
    q := (t - 1) / 0xFFFF;
  }

  lemma ResidueAdds(a: nat, b: nat)
    ensures Residue(Residue(a) + b) == Residue(a + b)
  {
    if a > 0 {
      var q := ResidueSplits(a);
      var r := ResidueSplits(Residue(a) + b);
      ResidueOf(a + b, q + r, Residue(Residue(a) + b));
    }
  }

  lemma OnesAddIsResidue(a: nat, b: nat)
    requires a < 0x1_0000 && b < 0x1_0000
    ensures OnesAdd(a, b) == Residue(a + b)
  {
    if 0 < a + b < 0x1_0000 {
      ResidueOf(a + b, 0, a + b);
    } else if a + b >= 0x1_0000 {
      ResidueOf(a + b, 1, a + b - 0xFFFF);
    }
  }

  /** The one's complement sum depends only on the total. */
  lemma {:induction false} OnesSumIsResidue(ws: seq<nat>)
    requires Words(ws)
    ensures OnesSum(ws) == Residue(Total(ws))
  {
    if ws != [] {
      var t, w := Total(ws[..|ws| - 1]), ws[|ws| - 1];
      OnesSumIsResidue(ws[..|ws| - 1]);
      OnesAddIsResidue(Residue(t), w);
      ResidueAdds(t, w);
    }
  }

  /** Two folds are enough for a 32-bit sum. */
  lemma FoldIsResidue(sum: nat)
    requires sum < WRAP
    ensures Fold(sum) == Residue(sum)
  {
    var lo, hi := sum % 0x1_0000, sum / 0x1_0000;
    var s1 := lo + hi;
    assert sum == hi * 0xFFFF + s1 && s1 <= 0x1_FFFE;
    if 0 < s1 < 0x1_0000 {
      ResidueOf(sum, hi, s1);
    } else if s1 >= 0x1_0000 {
      ResidueOf(sum, hi + 1, s1 - 0xFFFF);
    }
  }

  lemma {:induction false} TotalIsBounded(ws: seq<nat>)
    requires Words(ws)
    ensures Total(ws) <= |ws| * 0xFFFF
  {
    if ws != [] {
      TotalIsBounded(ws[..|ws| - 1]);
    }
  }

  // ---------------------------------------------------------------- the main results

  /** What click_in_cksum computes from the words of its buffer: its accumulator has 32 bits. */
  ghost function Cksum(ws: seq<nat>): (c: nat)
    ensures c < 0x1_0000
  {
    Complement(Fold(Wrapped(Total(ws))))
  }

  /** For buffers an int can count, the result is the RFC 1071 checksum exactly when the accumulator
      does not wrap around. */
  lemma CksumIsExact(ws: seq<nat>)
    requires Words(ws) && |ws| <= 0x4000_0000
    ensures Cksum(ws) == Complement(OnesSum(ws)) <==> Total(ws) < WRAP
  {
    hide Total, OnesSum, Residue, Fold;
    var t := Total(ws);
    var wraps, kept := t / WRAP, t % WRAP;
    OnesSumIsResidue(ws);
    FoldIsResidue(kept);
    TotalIsBounded(ws);
    if wraps > 0 {
      WrappedResidue(t, wraps, kept);
    }
  }

  lemma WrappedResidue(t: nat, wraps: nat, kept: nat)
    requires t == wraps * WRAP + kept && 0 < wraps < 0xFFFF
    ensures Residue(t) != Residue(kept)
  {
    var q := ResidueSplits(t);
    var k := wraps * 0x1_0001 - q;
    assert WRAP == 0x1_0001 * 0xFFFF + 1;
    if kept == 0 {
    } else {
      var r := ResidueSplits(kept);
      assert Residue(t) - Residue(kept) == (k + r) * 0xFFFF + wraps;
    }
  }

  /** With its checksum behind it, a buffer adds up to all ones. */
  lemma ChecksumCloses(ws: seq<nat>)
    requires Words(ws) && |ws| <= 0x4000_0000 && Total(ws) < WRAP
    ensures Words(ws + [Cksum(ws)]) && OnesSum(ws + [Cksum(ws)]) == 0xFFFF
  {
    CksumIsExact(ws);
    hide OnesSum, Cksum, Total;
    OnesSumMore(ws, Cksum(ws));
  }

  lemma OnesSumMore(ws: seq<nat>, w: nat)
    requires Words(ws) && w < 0x1_0000
    ensures Words(ws + [w]) && OnesSum(ws + [w]) == OnesAdd(OnesSum(ws), w)
  {
    assert (ws + [w])[..|ws|] == ws;
  }

  /** So the receiver, who sums the checksum too, gets zero. */
  lemma ReceiverGetsZero(ws: seq<nat>)
    requires Words(ws) && |ws| < 0x4000_0000 && Total(ws + [Cksum(ws)]) < WRAP
    ensures Cksum(ws + [Cksum(ws)]) == 0
  {
    assert (ws + [Cksum(ws)])[..|ws|] == ws;
    ChecksumCloses(ws);
    CksumIsExact(ws + [Cksum(ws)]);
  }

  /** Up to 131074 bytes, the accumulator cannot wrap. */
  lemma CksumIsRfc1071(ws: seq<nat>)
    requires Words(ws) && |ws| <= 65537
    ensures Cksum(ws) == Complement(OnesSum(ws))
  {
    TotalIsBounded(ws);
    CksumIsExact(ws);
  }

  lemma {:induction false} TotalOfOnes(n: nat)
    ensures Total(seq(n, _ => 0xFFFF)) == n * 0xFFFF
  {
    if n > 0 {
      assert seq(n, _ => 0xFFFF)[..n - 1] == seq(n - 1, _ => 0xFFFF);
      TotalOfOnes(n - 1);
    }
  }

  /** One word more and it can. */
  lemma LongerBufferWraps()
    ensures var ws := seq(65538, _ => 0xFFFF); Words(ws) && Cksum(ws) != Complement(OnesSum(ws))
  {
    var ws := seq(65538, _ => 0xFFFF);
    TotalOfOnes(65538);
    hide Cksum, OnesSum, Total;
    CksumIsExact(ws);
  }

  // ---------------------------------------------------------------- bytes and byte order

  ghost predicate Bytes(bs: seq<nat>)
  {
    forall i :: 0 <= i < |bs| ==> bs[i] < 256
  }

  /** Two bytes loaded as a sixteen-bit word, on a big-endian or a little-endian host. */
  function Load(b0: nat, b1: nat, big: bool): (w: nat)
    requires b0 < 256 && b1 < 256
    ensures w < 0x1_0000
  {
    if big then b0 * 256 + b1 else b0 + b1 * 256
  }

  /** The words of a buffer; an odd byte at the end is the first of a word whose second is zero. */
  ghost function BufferWords(bs: seq<nat>, big: bool): (ws: seq<nat>)
    requires Bytes(bs)
    ensures Words(ws) && |ws| == (|bs| + 1) / 2
    decreases |bs|
  {
    if bs == [] then []
    else if |bs| % 2 == 1 then BufferWords(bs[..|bs| - 1], big) + [Load(bs[|bs| - 1], 0, big)]
    else BufferWords(bs[..|bs| - 2], big) + [Load(bs[|bs| - 2], bs[|bs| - 1], big)]
  }

  /** An odd byte at the end counts as if a zero followed it. */
  lemma OddByte(bs: seq<nat>, big: bool)
    requires Bytes(bs) && |bs| % 2 == 1
    ensures Bytes(bs + [0]) && BufferWords(bs, big) == BufferWords(bs + [0], big)
  {
    var cs := bs + [0];
    assert cs[..|cs| - 2] == bs[..|bs| - 1];
  }

  /** The word with its bytes exchanged. */
  function Swap(w: nat): (v: nat)
    requires w < 0x1_0000
    ensures v < 0x1_0000
  {
    w % 256 * 256 + w / 256
  }

  lemma TotalAppend(ws: seq<nat>, w: nat)
    ensures Total(ws + [w]) == Total(ws) + w
  {
    assert (ws + [w])[..|ws|] == ws;
  }

  /** Exchanging bytes is multiplying by 256, modulo 0xFFFF. */
  lemma SwapIsTimes256(w: nat)
    requires w < 0x1_0000
    ensures w * 256 == w / 256 * 0xFFFF + Swap(w)
    ensures Swap(Swap(w)) == w && (Swap(w) == 0 <==> w == 0)
  {
    assert w == w / 256 * 256 + w % 256;
    var v := Swap(w);
    assert v % 256 == w / 256 && v / 256 == w % 256;
  }

  lemma LoadSwaps(b0: nat, b1: nat)
    requires b0 < 256 && b1 < 256
    ensures Load(b0, b1, true) == Swap(Load(b0, b1, false))
  {
  }

  /** The two totals agree, up to a multiple of 0xFFFF and a factor of 256. */
  lemma {:induction false} TotalsSwap(bs: seq<nat>) returns (k: nat)
    requires Bytes(bs)
    ensures Total(BufferWords(bs, false)) * 256 == k * 0xFFFF + Total(BufferWords(bs, true))
    ensures Total(BufferWords(bs, false)) == 0 <==> Total(BufferWords(bs, true)) == 0
    decreases |bs|
  {
    k := 0;
    if bs != [] {
      var n := if |bs| % 2 == 1 then 1 else 2;
      var front := bs[..|bs| - n];
      var b0, b1 := bs[|bs| - n], if n == 1 then 0 else bs[|bs| - 1];
      var j := TotalsSwap(front);
      var w := Load(b0, b1, false);
      LoadSwaps(b0, b1);
      SwapIsTimes256(w);
      TotalAppend(BufferWords(front, false), w);
      TotalAppend(BufferWords(front, true), Swap(w));
      k := j + w / 256;
      hide Load, Swap;
      assert BufferWords(bs, false) == BufferWords(front, false) + [w];
      assert BufferWords(bs, true) == BufferWords(front, true) + [Swap(w)];
    }
  }

  lemma SwapResidue(t: nat, u: nat, k: nat)
    requires t * 256 == k * 0xFFFF + u && (t == 0 <==> u == 0)
    ensures Swap(Residue(t)) == Residue(u)
  {
    if t > 0 {
      var q := ResidueSplits(t);
      var r := Residue(t);
      SwapIsTimes256(r);
      var c := Swap(r);
      hide Swap, Residue;
      var d := q * 256 + r / 256;
      assert t * 256 == d * 0xFFFF + c;
      SameResidue(u, c, d, k);
    }
  }

  lemma SameResidue(u: nat, c: nat, d: nat, k: nat)
    requires d * 0xFFFF + c == k * 0xFFFF + u && 0 < c < 0x1_0000 && u > 0
    ensures Residue(u) == c
  {
    if d >= k {
      ResidueOf(u, d - k, c);
    }
  }

  /** The checksum does not depend on the byte order of the host: stored as it was loaded, it is the
      same two bytes in memory, as long as neither order makes the accumulator wrap around; up to
      131074 bytes neither does. */
  lemma ByteOrderDoesNotMatter(bs: seq<nat>)
    requires Bytes(bs) && |bs| <= 0x7FFF_FFFF
    ensures Total(BufferWords(bs, true)) < WRAP && Total(BufferWords(bs, false)) < WRAP ==>
              Cksum(BufferWords(bs, true)) == Swap(Cksum(BufferWords(bs, false)))
    ensures |bs| <= 131074 ==> Total(BufferWords(bs, true)) < WRAP && Total(BufferWords(bs, false)) < WRAP
  {
    hide Total, BufferWords, OnesSum, Cksum, Residue, Swap;
    var big, little := BufferWords(bs, true), BufferWords(bs, false);
    TotalIsBounded(big);
    TotalIsBounded(little);
    if Total(big) < WRAP && Total(little) < WRAP {
      CksumIsExact(big);
      CksumIsExact(little);
      OnesSumIsResidue(big);
      OnesSumIsResidue(little);
      var k := TotalsSwap(bs);
      SwapResidue(Total(little), Total(big), k);
      ComplementSwaps(OnesSum(little));
    }
  }

  lemma ComplementSwaps(c: nat)
    requires c < 0x1_0000
    ensures Swap(Complement(c)) == Complement(Swap(c))
  {
    assert c == c / 256 * 256 + c % 256;
    var d := Complement(c);
    assert d == (255 - c / 256) * 256 + (255 - c % 256);
    assert d / 256 == 255 - c / 256 && d % 256 == 255 - c % 256;
  }

  // ---------------------------------------------------------------- the pseudo-header

  /** Four bytes loaded as a 32-bit word. */
  function Load32(bs: seq<nat>, big: bool): (v: nat)
    requires |bs| == 4 && forall i :: 0 <= i < 4 ==> bs[i] < 256
  {
    if big then Load(bs[0], bs[1], big) * 0x1_0000 + Load(bs[2], bs[3], big)
    else Load(bs[0], bs[1], big) + Load(bs[2], bs[3], big) * 0x1_0000
  }

  function Htons(v: nat, big: bool): (w: nat)
    requires v < 0x1_0000
    ensures w < 0x1_0000
  {
    if big then v else Swap(v)
  }

  /** click_in_cksum_pseudohdr_raw. */
  function PseudoRaw(csum: nat, src: nat, dst: nat, proto: nat, len: nat, big: bool): (c: nat)
    requires csum < 0x1_0000 && proto < 256 && len < 0x1_0000
  {
    Complement(Fold(Complement(csum) + (Halved(src) + Halved(dst) + (Htons(len, big) + Htons(proto, big)))))
  }

  /** Source, destination, zero, protocol and length. */
  function PseudoHeader(src: seq<nat>, dst: seq<nat>, proto: nat, len: nat): (bs: seq<nat>)
  {
    src + dst + [0, proto, len / 256, len % 256]
  }

  /** How many bytes the last word of a buffer has, and that word. */
  function LastLength(bs: seq<nat>): (n: nat)
  {
    if |bs| % 2 == 1 then 1 else 2
  }

  function LastWord(bs: seq<nat>, big: bool): (w: nat)
    requires bs != [] && forall i :: 0 <= i < |bs| ==> bs[i] < 256
  {
    if |bs| % 2 == 1 then Load(bs[|bs| - 1], 0, big) else Load(bs[|bs| - 2], bs[|bs| - 1], big)
  }

  lemma BufferWordsUnfold(bs: seq<nat>, big: bool)
    requires Bytes(bs) && bs != []
    ensures LastLength(bs) <= |bs| && Bytes(bs[..|bs| - LastLength(bs)])
    ensures BufferWords(bs, big) == BufferWords(bs[..|bs| - LastLength(bs)], big) + [LastWord(bs, big)]
  {
    hide Load;
  }

  lemma LastOfBoth(a: seq<nat>, b: seq<nat>, big: bool)
    requires Bytes(a) && Bytes(b) && |a| % 2 == 0 && b != []
    ensures Bytes(a + b) && LastLength(a + b) == LastLength(b) && LastWord(a + b, big) == LastWord(b, big)
  {
    hide Load;
  }

  lemma {:induction false} BufferWordsAppend(a: seq<nat>, b: seq<nat>, big: bool)
    requires Bytes(a) && Bytes(b) && |a| % 2 == 0
    ensures Bytes(a + b) && BufferWords(a + b, big) == BufferWords(a, big) + BufferWords(b, big)
    decreases |b|
  {
    hide BufferWords, LastWord, Load, Bytes;
    if b == [] {
      assert a + b == a;
      NoWords(big);
    } else {
      var n := LastLength(b);
      LastOfBoth(a, b, big);
      BufferWordsUnfold(a + b, big);
      BufferWordsUnfold(b, big);
      BufferWordsAppend(a, b[..|b| - n], big);
      assert (a + b)[..|a + b| - n] == a + b[..|b| - n];
    }
  }

  lemma NoWords(big: bool)
    ensures BufferWords([], big) == []
  {
  }

  lemma {:induction false} TotalConcat(a: seq<nat>, b: seq<nat>)
    ensures Total(a + b) == Total(a) + Total(b)
    decreases |b|
  {
    if b == [] {
      assert a + b == a;
    } else {
      TotalConcat(a, b[..|b| - 1]);
      assert (a + b)[..|a + b| - 1] == a + b[..|b| - 1];
    }
  }

  lemma TotalOfTwo(b0: nat, b1: nat, big: bool)
    requires b0 < 256 && b1 < 256
    ensures Total(BufferWords([b0, b1], big)) == Load(b0, b1, big)
  {
    hide Load, BufferWords, Total;
    var bs := [b0, b1];
    BufferWordsUnfold(bs, big);
    assert bs[..0] == [] && LastWord(bs, big) == Load(b0, b1, big);
    NoWords(big);
    NoTotal();
    TotalAppend([], Load(b0, b1, big));
  }

  lemma Halves(w0: nat, w1: nat)
    requires w0 < 0x1_0000 && w1 < 0x1_0000
    ensures (w0 * 0x1_0000 + w1) % 0x1_0000 == w1 && (w0 * 0x1_0000 + w1) / 0x1_0000 == w0
  {
  }

  lemma TotalOfBoth(a: seq<nat>, b: seq<nat>, big: bool)
    requires Bytes(a) && Bytes(b) && |a| % 2 == 0
    ensures Bytes(a + b) && Total(BufferWords(a + b, big)) == Total(BufferWords(a, big)) + Total(BufferWords(b, big))
  {
    hide BufferWords, Total;
    BufferWordsAppend(a, b, big);
    TotalConcat(BufferWords(a, big), BufferWords(b, big));
  }

  /** The two halves of an address, added up. */
  function Halved(v: nat): (t: nat)
  {
    v % 0x1_0000 + v / 0x1_0000
  }

  lemma TotalOfFour(bs: seq<nat>, big: bool)
    requires |bs| == 4 && Bytes(bs)
    ensures Total(BufferWords(bs, big)) == Halved(Load32(bs, big))
  {
    hide Load, BufferWords, Total;
    var w0, w1 := Load(bs[0], bs[1], big), Load(bs[2], bs[3], big);
    assert bs == [bs[0], bs[1]] + [bs[2], bs[3]];
    TotalOfBoth([bs[0], bs[1]], [bs[2], bs[3]], big);
    TotalOfTwo(bs[0], bs[1], big);
    TotalOfTwo(bs[2], bs[3], big);
    Halves(w0, w1);
    Halves(w1, w0);
  }

  lemma HtonsIsLoad(v: nat, big: bool)
    requires v < 0x1_0000
    ensures Load(v / 256, v % 256, big) == Htons(v, big)
  {
    assert v == v / 256 * 256 + v % 256;
  }

  lemma TotalOfPseudoHeader(src: seq<nat>, dst: seq<nat>, proto: nat, len: nat, big: bool)
    requires |src| == |dst| == 4 && Bytes(src) && Bytes(dst) && proto < 256 && len < 0x1_0000
    ensures Bytes(PseudoHeader(src, dst, proto, len))
    ensures Total(BufferWords(PseudoHeader(src, dst, proto, len), big))
            == Halved(Load32(src, big)) + Halved(Load32(dst, big)) + (Htons(len, big) + Htons(proto, big))
  {
    hide Load, Load32, Htons, BufferWords, Total, Halved;
    var hi, lo := len / 256, len % 256;
    HtonsIsLoad(len, big);
    HtonsIsLoad(proto, big);
    TotalOfFour(src, big);
    TotalOfFour(dst, big);
    TotalOfTwo(0, proto, big);
    TotalOfTwo(hi, lo, big);
    assert PseudoHeader(src, dst, proto, len) == src + (dst + ([0, proto] + [hi, lo]));
    TotalOfBoth([0, proto], [hi, lo], big);
    TotalOfBoth(dst, [0, proto] + [hi, lo], big);
    TotalOfBoth(src, dst + ([0, proto] + [hi, lo]), big);
  }

  lemma FoldsOnto(t: nat, h: nat, csum: nat)
    requires csum < 0x1_0000 && Complement(csum) == Residue(t) && h < 0x10_0000
    ensures Fold(Complement(csum) + h) == Residue(t + h)
  {
    hide Residue, Fold;
    FoldIsResidue(Residue(t) + h);
    ResidueAdds(t, h);
  }

  lemma CksumOfBuffer(bs: seq<nat>, big: bool)
    requires Bytes(bs) && |bs| <= 131074
    ensures Complement(Cksum(BufferWords(bs, big))) == Residue(Total(BufferWords(bs, big)))
  {
    hide BufferWords, OnesSum, Cksum, Residue, Total;
    CksumIsRfc1071(BufferWords(bs, big));
    OnesSumIsResidue(BufferWords(bs, big));
  }

  /** Applied to the checksum of a payload, click_in_cksum_pseudohdr_raw gives the RFC 1071 checksum of
      the pseudo-header followed by the payload. */
  lemma PseudoRawIsPrefix(src: seq<nat>, dst: seq<nat>, proto: nat, len: nat, payload: seq<nat>, big: bool)
    requires |src| == |dst| == 4 && Bytes(src) && Bytes(dst) && proto < 256 && len < 0x1_0000
    requires Bytes(payload) && |payload| <= 131074
    ensures Bytes(PseudoHeader(src, dst, proto, len) + payload)
    ensures PseudoRaw(Cksum(BufferWords(payload, big)), Load32(src, big), Load32(dst, big), proto, len, big)
            == Complement(OnesSum(BufferWords(PseudoHeader(src, dst, proto, len) + payload, big)))
  {
    hide Total, BufferWords, OnesSum, Cksum, Residue, Load32, Htons, Fold, Halved, Bytes, Words;
    var header, ws := PseudoHeader(src, dst, proto, len), BufferWords(payload, big);
    TotalOfPseudoHeader(src, dst, proto, len, big);
    CksumOfBuffer(payload, big);
    TotalOfBoth(header, payload, big);
    OnesSumIsResidue(BufferWords(header + payload, big));
    TotalIsBounded(BufferWords(header, big));
    FoldsOnto(Total(ws), Total(BufferWords(header, big)), Cksum(ws));
  }

  // ---------------------------------------------------------------- the loop

  lemma WordsMore(bs: seq<nat>, w: nat, n: nat, big: bool)
    requires Bytes(bs) && w % 2 == 0 && 1 <= n <= 2 && w + n <= |bs| && (n == 1 ==> w + n == |bs|)
    ensures var word := Load(bs[w], if n == 1 then 0 else bs[w + 1], big);
            && BufferWords(bs[..w + n], big) == BufferWords(bs[..w], big) + [word]
            && Total(BufferWords(bs[..w + n], big)) == Total(BufferWords(bs[..w], big)) + word
  {
    hide Load, BufferWords, Total;
    var front := bs[..w + n];
    BufferWordsUnfold(front, big);
    assert front[..w] == bs[..w];
    TotalAppend(BufferWords(bs[..w], big), LastWord(front, big));
  }

  lemma WrapTwice(t: nat, w: nat)
    ensures Wrapped(Wrapped(t) + w) == Wrapped(t + w)
  {
  }

  method InCksum(addr: seq<nat>, big: bool) returns (answer: nat)
    requires Bytes(addr)
    ensures answer == Cksum(BufferWords(addr, big))
  {
    hide Load, BufferWords, Total, Wrapped, Fold;
    var nleft, w := |addr|, 0;
    var sum := 0;
    assert addr[..0] == [];
    NoWords(big);
    NoTotal();
    NothingWraps();
    while nleft > 1
      invariant w + nleft == |addr| && w % 2 == 0 && nleft >= 0
      invariant sum == Wrapped(Total(BufferWords(addr[..w], big)))
    {
      WordsMore(addr, w, 2, big);
      var word := Load(addr[w], addr[w + 1], big);
      WrapTwice(Total(BufferWords(addr[..w], big)), word);
      sum := Wrapped(sum + word);
      w := w + 2;
      nleft := nleft - 2;
    }
    if nleft == 1 {
      WordsMore(addr, w, 1, big);
      var word := Load(addr[w], 0, big);
      WrapTwice(Total(BufferWords(addr[..w], big)), word);
      sum := Wrapped(sum + word);
      w := w + 1;
    }
    assert addr[..w] == addr;
    answer := FoldCarries(sum);
    answer := Complement(answer);
  }

  method FoldCarries(start: nat) returns (c: nat)
    requires start < WRAP
    ensures c == Fold(start)
  {
    var sum := start;
    sum := sum % 0x1_0000 + sum / 0x1_0000;
    sum := sum + sum / 0x1_0000;
    c := sum % 0x1_0000;
  }

  lemma NothingWraps()
    ensures Wrapped(0) == 0
  {
  }

  lemma NoTotal()
    ensures Total([]) == 0
  {
  }
}
