/**
 The Internet checksum of `utils.c` and its incremental update: the two loops
 as methods, and what they compute on every host (RFC 1071, sections 1, 2(B)
 and 4.1; RFC 3022, section 4.2).
 */
module Checksum {
  import opened MachineInts

  // ---------------------------------------------------------------- byte order

  /** The value of two consecutive bytes read as one `unsigned short`. */
  function Word(e: Endian, b0: byte, b1: byte): u16 {
    if e.Big? then 256 * b0 + b1 else b0 + 256 * b1
  }

  /** The two bytes a store of `v` leaves in memory. */
  function Image(e: Endian, v: u16): (s: seq<byte>)
    ensures |s| == 2 && Word(e, s[0], s[1]) == v
  {
    if e.Big? then [v / 256, v % 256] else [v % 256, v / 256]
  }

  function Swap(v: u16): u16 {
    256 * (v % 256) + v / 256
  }

  lemma SwapIsInvolution(v: u16)
    ensures Swap(Swap(v)) == v
  {
    var h, l := v / 256, v % 256;
    assert Swap(v) / 256 == l && Swap(v) % 256 == h;
  }

  /** `ntohs`, which is also `htons`. */
  function NetworkOrder(e: Endian, v: u16): (r: u16)
    ensures r == Word(Big, Image(e, v)[0], Image(e, v)[1])
  {
    if e.Big? then v else Swap(v)
  }

  lemma NetworkOrderIsInvolution(e: Endian, v: u16)
    ensures NetworkOrder(e, NetworkOrder(e, v)) == v
  {
    SwapIsInvolution(v);
  }

  /** Where the last word of a buffer of `n` bytes begins. */
  function LastWord(n: nat): (k: nat)
    requires n > 0
    ensures k % 2 == 0 && (k + 1 == n || k + 2 == n)
  {
    (n - 1) / 2 * 2
  }

  /** The unbounded sum of the 16-bit words of `s`, an odd last byte padded with zero. */
  function WordSum(e: Endian, s: seq<byte>): nat {
    if s == [] then 0
    else
      var k := LastWord(|s|);
      WordSum(e, s[..k]) + Word(e, s[k], if k + 1 < |s| then s[k + 1] else 0)
  }

  /** The 32-bit accumulator of `checksum` holds the word sum of `s`. */
  predicate Fits(e: Endian, s: seq<byte>) {
    WordSum(e, s) < 0x1_0000_0000
  }

  // ---------------------------------------------------------------- one's complement residues

  /** How many times 65535 is taken from `v` to bring it into 1..65535. */
  function Laps(v: int): int {
    (v - 1) / 65535
  }

  /** The representative of `v` modulo 65535 in 1..65535. */
  function Canon(v: int): (c: u16)
    ensures 1 <= c
  {
    v - 65535 * Laps(v)
  }

  lemma CanonIsUnique(v: int, c: int, laps: int)
    requires 1 <= c <= 65535 && v == c + 65535 * laps
    ensures Canon(v) == c
  {
  }

  /** The loop of RFC 1071, section 4.1: fold until the sum has 16 bits. */
  function Fold(sum: nat): u16 {
    if sum < 0x1_0000 then sum else Fold(sum / 0x1_0000 + sum % 0x1_0000)
  }

  /** The two folding statements of `checksum`, as truncated by its last one. */
  function FoldTwice(sum: u32): u16 {
    var once := sum / 0x1_0000 + sum % 0x1_0000;
    (once + once / 0x1_0000) % 0x1_0000
  }

  /** What `checksum` returns, wrap-around of its accumulator included. */
  function ChecksumOf(e: Endian, s: seq<byte>): u16 {
    0xffff - FoldTwice(Wrap32(WordSum(e, s)))
  }

  /** Zero is the only sum whose residue is represented by zero. */
  function Residue(sum: nat): u16 {
    if sum == 0 then 0 else Canon(sum)
  }

  lemma {:induction false} FoldIsResidue(sum: nat)
    ensures Fold(sum) == Residue(sum)
    decreases sum
  {
    if sum >= 0x1_0000 {
      var q, r := sum / 0x1_0000, sum % 0x1_0000;
      FoldIsResidue(q + r);
      CanonIsUnique(sum, Canon(q + r), Laps(q + r) + q);
    } else if sum > 0 {
      CanonIsUnique(sum, sum, 0);
    }
  }

  /** RFC 1071, section 4.1, without its loop. */
  lemma FoldClosedForm(sum: nat)
    ensures Fold(sum) == if sum == 0 then 0 else 1 + (sum - 1) % 65535
  {
    FoldIsResidue(sum);
  }

  /** Two folds are enough for any 32-bit sum. */
  lemma FoldTwiceIsResidue(sum: u32)
    ensures FoldTwice(sum) == Residue(sum)
  {
    var q, r := sum / 0x1_0000, sum % 0x1_0000;
    if sum > 0 {
      if q + r < 0x1_0000 {
        CanonIsUnique(sum, q + r, q);
      } else {
        CanonIsUnique(sum, q + r - 65535, q + 1);
      }
    }
  }

  // ---------------------------------------------------------------- word sums

  lemma LastWordShifts(m: nat, n: nat)
    requires m % 2 == 0 && n > 0
    ensures LastWord(m + n) == m + LastWord(n)
  {
  }

  lemma {:induction false} WordSumOfConcat(e: Endian, a: seq<byte>, b: seq<byte>)
    requires |a| % 2 == 0
    ensures WordSum(e, a + b) == WordSum(e, a) + WordSum(e, b)
    decreases |b|
  {
    hide Word, LastWord;
    if b == [] {
      assert a + b == a;
    } else {
      var k := LastWord(|b|);
      LastWordShifts(|a|, |b|);
      WordSumOfConcat(e, a, b[..k]);
      assert (a + b)[..|a| + k] == a + b[..k];
    }
  }

  /** One turn of the summing loop, and its odd byte. */
  lemma WordSumStep(e: Endian, s: seq<byte>, b0: byte, b1: byte)
    requires |s| % 2 == 0
    ensures WordSum(e, s + [b0, b1]) == WordSum(e, s) + Word(e, b0, b1)
    ensures WordSum(e, s + [b0]) == WordSum(e, s) + Word(e, b0, 0)
  {
    hide Word, LastWord;
    LastWordShifts(|s|, 1);
    LastWordShifts(|s|, 2);
    assert (s + [b0, b1])[..|s|] == s;
    assert (s + [b0])[..|s|] == s;
  }

  lemma {:induction false} WordSumBound(e: Endian, s: seq<byte>)
    ensures WordSum(e, s) <= (|s| + 1) / 2 * 65535
  {
    if s != [] {
      WordSumBound(e, s[..LastWord(|s|)]);
    }
  }

  predicate AllZero(s: seq<byte>) {
    forall i :: 0 <= i < |s| ==> s[i] == 0
  }

  predicate AllOnes(s: seq<byte>) {
    forall i :: 0 <= i < |s| ==> s[i] == 0xff
  }

  lemma {:induction false} WordSumZero(e: Endian, s: seq<byte>)
    ensures WordSum(e, s) == 0 <==> AllZero(s)
  {
    if s != [] {
      var k := LastWord(|s|);
      WordSumZero(e, s[..k]);
      assert AllZero(s) <==> AllZero(s[..k]) && s[k] == 0 && s[|s| - 1] == 0;
    }
  }

  /** The sum of the bytes at even offsets. */
  function EvenBytes(s: seq<byte>): nat {
    if s == [] then 0 else var k := LastWord(|s|); EvenBytes(s[..k]) + s[k]
  }

  /** Swapping the bytes of every word multiplies the sum by 256 modulo 65535. */
  lemma {:induction false} WordSumSwaps(s: seq<byte>)
    ensures WordSum(Little, s) == 256 * WordSum(Big, s) - 65535 * EvenBytes(s)
  {
    if s != [] {
      WordSumSwaps(s[..LastWord(|s|)]);
    }
  }

  lemma {:induction false} WordSumOfOnes(e: Endian, s: seq<byte>)
    requires AllOnes(s) && |s| % 2 == 0
    ensures WordSum(e, s) == 65535 * (|s| / 2)
  {
    if s != [] {
      WordSumOfOnes(e, s[..LastWord(|s|)]);
    }
  }

  lemma ShortBuffersFit(e: Endian, s: seq<byte>)
    requires |s| <= 131074
    ensures Fits(e, s)
  {
    WordSumBound(e, s);
  }

  // ---------------------------------------------------------------- checksum

  /** The value `checksum` returns for a fitting buffer. */
  lemma FittingChecksum(e: Endian, s: seq<byte>)
    requires Fits(e, s)
    ensures ChecksumOf(e, s) == 0xffff - Residue(WordSum(e, s))
  {
    WrapIsIdentity(WordSum(e, s));
    FoldTwiceIsResidue(WordSum(e, s));
  }

  /** For any buffer, the fold of the sum as the accumulator holds it. */
  lemma WrappedChecksum(e: Endian, s: seq<byte>)
    ensures ChecksumOf(e, s) == 0xffff - Fold(WordSum(e, s) % 0x1_0000_0000)
  {
    hide Fold, FoldTwice, Residue, WordSum;
    FoldTwiceIsResidue(Wrap32(WordSum(e, s)));
    FoldIsResidue(Wrap32(WordSum(e, s)));
  }

  /**
   For every length an `unsigned int` can hold, `checksum` returns the
   complement of the RFC 1071 fold exactly when the accumulator does not wrap.
   */
  lemma ChecksumExactIffFits(e: Endian, s: seq<byte>)
    requires |s| < 0x1_0000_0000
    ensures ChecksumOf(e, s) == 0xffff - Fold(WordSum(e, s)) <==> Fits(e, s)
  {
    hide Fold, FoldTwice, Residue, WordSum, Wrap32;
    var sum := WordSum(e, s);
    WordSumBound(e, s);
    FoldIsResidue(sum);
    FoldTwiceIsResidue(Wrap32(sum));
    WrapChangesResidue(sum);
  }

  lemma WrapChangesResidue(sum: nat)
    requires sum <= 0x8000_0000 * 65535
    ensures Residue(Wrap32(sum)) == Residue(sum) <==> sum < 0x1_0000_0000
  {
    var wraps, kept := sum / 0x1_0000_0000, Wrap32(sum);
    assert wraps < 0x8000;
    if wraps > 0 && kept > 0 {
      assert Canon(sum) - Canon(kept) == wraps + 65535 * (65537 * wraps - Laps(sum) + Laps(kept));
    }
  }

  /** No longer bound works: 131074 bytes always fit, some 131075 give another value. */
  lemma FitBoundIsTight(e: Endian) returns (s: seq<byte>)
    ensures |s| == 131075 && ChecksumOf(e, s) != 0xffff - Fold(WordSum(e, s))
  {
    var ones := seq(131074, _ => 0xff as byte);
    s := ones + [1];
    WordSumOfOnes(e, ones);
    assert s[..131074] == ones;
    ChecksumExactIffFits(e, s);
  }

  /** The one's complement sum of a buffer on one host is the byte swap of that on the other. */
  lemma ResidueSwaps(s: seq<byte>)
    ensures Residue(WordSum(Little, s)) == Swap(Residue(WordSum(Big, s)))
  {
    var big, little := WordSum(Big, s), WordSum(Little, s);
    WordSumZero(Big, s);
    WordSumZero(Little, s);
    WordSumSwaps(s);
    if big > 0 {
      var c := Canon(big);
      CanonIsUnique(little, Swap(c), 256 * Laps(big) - EvenBytes(s) + c / 256);
    }
  }

  lemma SwapOfComplement(v: u16)
    ensures Swap(0xffff - v) == 0xffff - Swap(v)
  {
  }

  lemma ImageOfSwap(v: u16)
    ensures Image(Little, Swap(v)) == Image(Big, v)
  {
    var h, l := v / 256, v % 256;
    assert Swap(v) / 256 == l && Swap(v) % 256 == h;
  }

  /** RFC 1071, section 2(B): both hosts leave the same two bytes in memory. */
  lemma ByteOrderIndependence(s: seq<byte>)
    requires Fits(Big, s) && Fits(Little, s)
    ensures ChecksumOf(Little, s) == Swap(ChecksumOf(Big, s))
    ensures Image(Little, ChecksumOf(Little, s)) == Image(Big, ChecksumOf(Big, s))
  {
    hide ChecksumOf, Residue, Swap, Image;
    FittingChecksum(Big, s);
    FittingChecksum(Little, s);
    ResidueSwaps(s);
    SwapOfComplement(Residue(WordSum(Big, s)));
    ImageOfSwap(ChecksumOf(Big, s));
  }

  /** In network order, a fitting checksum depends on the bytes alone. */
  lemma ChecksumInNetworkOrder(e: Endian, s: seq<byte>)
    requires Fits(e, s)
    ensures NetworkOrder(e, ChecksumOf(e, s)) == 0xffff - Residue(WordSum(Big, s))
  {
    hide ChecksumOf, Residue, Swap;
    FittingChecksum(e, s);
    ResidueSwaps(s);
    SwapOfComplement(Residue(WordSum(Big, s)));
    SwapIsInvolution(0xffff - Residue(WordSum(Big, s)));
  }

  lemma EmptySum(e: Endian)
    ensures WordSum(e, []) == 0
  {
  }

  /** The last three statements of `checksum`. */
  method FoldAndComplement(total: u32) returns (answer: u16)
    ensures answer == 0xffff - FoldTwice(total)
  {
    hide BitAnd, ShiftRight;
    var sum := total;
    Halves(sum);
    WrapIsIdentity(ShiftRight(sum, 16) + BitAnd(sum, 0xffff));
    sum := Wrap32(ShiftRight(sum, 16) + BitAnd(sum, 0xffff));
    Halves(sum);
    WrapIsIdentity(sum + ShiftRight(sum, 16));
    sum := Wrap32(sum + ShiftRight(sum, 16));
    answer := (0xffff_ffff - sum) % 0x1_0000;
  }

  /** `checksum`. */
  method Checksum(e: Endian, buff: array<byte>, len: u32) returns (answer: u16)
    requires len <= buff.Length
    ensures answer == ChecksumOf(e, buff[..len])
    ensures answer == 0xffff - Fold(WordSum(e, buff[..len]) % 0x1_0000_0000)
    ensures Fits(e, buff[..len]) ==> answer == 0xffff - Fold(WordSum(e, buff[..len]))
  {
    hide FoldTwice, Fold, Residue, Wrap32, Word, WordSum;
    ghost var data := buff[..len];
    var sum: u32, nbytes: u32, ptr: nat := 0, len, 0;
    WrapIsIdentity(0);
    EmptySum(e);
    while nbytes > 1
      invariant ptr + nbytes == len && ptr % 2 == 0
      invariant sum == Wrap32(WordSum(e, data[..ptr]))
    {
      WordSumStep(e, data[..ptr], data[ptr], data[ptr + 1]);
      assert data[..ptr + 2] == data[..ptr] + [data[ptr], data[ptr + 1]];
      WrapAbsorbs(WordSum(e, data[..ptr]), Word(e, buff[ptr], buff[ptr + 1]));
      sum := Wrap32(sum + Word(e, buff[ptr], buff[ptr + 1]));
      ptr := ptr + 2;
      nbytes := nbytes - 2;
    }
    if nbytes == 1 {
      // The byte goes to the lower address of a zeroed short.
      WordSumStep(e, data[..ptr], data[ptr], 0);
      assert data == data[..ptr] + [data[ptr]];
      var oddbyte := Word(e, buff[ptr], 0);
      WrapAbsorbs(WordSum(e, data[..ptr]), oddbyte);
      sum := Wrap32(sum + oddbyte);
    } else {
      assert data == data[..ptr];
    }
    answer := FoldAndComplement(sum);
    WrappedChecksum(e, data);
    if Fits(e, data) {
      FittingChecksum(e, data);
      FoldIsResidue(WordSum(e, data));
    }
  }

  // ---------------------------------------------------------------- adjust_checksum

  /**
   What `adjust_checksum` leaves in `*sum`: the stored value moves by the
   difference of the word sums, and its complement stays in 1..65535. Only a
   complement of zero can stay zero, and does so when every old word is 0xffff
   and every new word is 0.
   */
  function AdjustOf(e: Endian, sum: u16, odata: seq<byte>, ndata: seq<byte>): u16 {
    var x := 0xffff - NetworkOrder(e, sum);
    if x == 0 && AllOnes(odata) && AllZero(ndata) then sum
    else NetworkOrder(e, 0xffff - Canon(x - WordSum(Big, odata) + WordSum(Big, ndata)))
  }

  /** One turn of the subtract loop, with the end-around borrow. */
  method SubtractWord(x: i32, w: u16) returns (y: i32)
    requires 0 <= x <= 65535
    ensures y == if x == 0 && w == 0xffff then 0 else Canon(x - w)
  {
    hide BitAnd, Pattern, Canon;
    y := x - w;
    if y <= 0 {
      y := y - 1;
      LowHalf(y);
      y := BitAnd(Pattern(y), 0xffff);
      if y > 0 {
        CanonIsUnique(x - w, y, -1);
      }
    } else {
      CanonIsUnique(x - w, y, 0);
    }
  }

  /** One turn of the add loop, with the end-around carry. */
  method AddWord(x: i32, w: u16) returns (y: i32)
    requires 0 <= x <= 65535
    ensures y == if x == 0 && w == 0 then 0 else Canon(x + w)
  {
    hide BitAnd, Pattern, Canon;
    y := x + w;
    CarryBit(y);
    if BitAnd(Pattern(y), 0x1_0000) != 0 {
      y := y + 1;
      LowHalf(y);
      y := BitAnd(Pattern(y), 0xffff);
      CanonIsUnique(x + w, y, 1);
    } else if y > 0 {
      CanonIsUnique(x + w, y, 0);
    }
  }

  /** `x` after the subtract loop has read `s`. */
  function Subtracted(x: u16, s: seq<byte>): u16 {
    if x == 0 && AllOnes(s) then 0 else Canon(x - WordSum(Big, s))
  }

  /** `x` after the add loop has read `s`. */
  function Added(x: u16, s: seq<byte>): u16 {
    if x == 0 && AllZero(s) then 0 else Canon(x + WordSum(Big, s))
  }

  lemma CanonAbsorbs(v: int, d: int)
    ensures Canon(Canon(v) + d) == Canon(v + d)
  {
    CanonIsUnique(Canon(v) + d, Canon(v + d), Laps(v + d) - Laps(v));
  }

  lemma CanonOfMultiple(v: int, laps: int)
    ensures Canon(v - 65535 * laps) == Canon(v)
  {
    CanonIsUnique(v - 65535 * laps, Canon(v), Laps(v) - laps);
  }

  lemma NothingRead(x: u16)
    ensures Subtracted(x, []) == x && Added(x, []) == x
  {
    if x > 0 {
      CanonIsUnique(x, x, 0);
    }
  }

  lemma OneMoreWord(s: seq<byte>, b0: byte, b1: byte)
    requires |s| % 2 == 0
    ensures WordSum(Big, s + [b0, b1]) == WordSum(Big, s) + Word(Big, b0, b1)
    ensures AllOnes(s + [b0, b1]) <==> AllOnes(s) && Word(Big, b0, b1) == 0xffff
    ensures AllZero(s + [b0, b1]) <==> AllZero(s) && Word(Big, b0, b1) == 0
  {
    hide AllOnes, AllZero, WordSum;
    WordSumStep(Big, s, b0, b1);
    AllOfConcat(s, [b0, b1]);
    AllOfPair(b0, b1);
  }

  lemma AllOfPair(b0: byte, b1: byte)
    ensures AllOnes([b0, b1]) <==> Word(Big, b0, b1) == 0xffff
    ensures AllZero([b0, b1]) <==> Word(Big, b0, b1) == 0
  {
    var s := [b0, b1];
    assert AllOnes(s) <==> s[0] == 0xff && s[1] == 0xff;
    assert AllZero(s) <==> s[0] == 0 && s[1] == 0;
  }

  lemma SubtractedStep(x: u16, s: seq<byte>, b0: byte, b1: byte)
    requires |s| % 2 == 0
    ensures var y, w := Subtracted(x, s), Word(Big, b0, b1);
            Subtracted(x, s + [b0, b1]) == if y == 0 && w == 0xffff then 0 else Canon(y - w)
  {
    hide WordSum, Word, Canon;
    OneMoreWord(s, b0, b1);
    var w: int := Word(Big, b0, b1);
    if x == 0 && AllOnes(s) {
      WordSumOfOnes(Big, s);
      CanonOfMultiple(-w, |s| / 2);
    } else {
      CanonAbsorbs(x - WordSum(Big, s), -w);
    }
  }

  lemma AddedStep(x: u16, s: seq<byte>, b0: byte, b1: byte)
    requires |s| % 2 == 0
    ensures var y, w := Added(x, s), Word(Big, b0, b1);
            Added(x, s + [b0, b1]) == if y == 0 && w == 0 then 0 else Canon(y + w)
  {
    hide WordSum, Word, Canon;
    OneMoreWord(s, b0, b1);
    var w: int := Word(Big, b0, b1);
    if x == 0 && AllZero(s) {
      WordSumZero(Big, s);
    } else {
      CanonAbsorbs(x + WordSum(Big, s), w);
    }
  }

  lemma BothLoops(e: Endian, sum: u16, odata: seq<byte>, ndata: seq<byte>)
    requires |odata| % 2 == 0
    ensures var x := Added(Subtracted(0xffff - NetworkOrder(e, sum), odata), ndata);
            NetworkOrder(e, 0xffff - x) == AdjustOf(e, sum, odata, ndata)
  {
    hide WordSum, Canon, NetworkOrder;
    var x: int := 0xffff - NetworkOrder(e, sum);
    NetworkOrderIsInvolution(e, sum);
    if x == 0 && AllOnes(odata) {
      WordSumOfOnes(Big, odata);
      CanonOfMultiple(WordSum(Big, ndata), |odata| / 2);
    } else {
      CanonAbsorbs(x - WordSum(Big, odata), WordSum(Big, ndata));
    }
  }

  /** `(unsigned short) ~x`. */
  lemma TruncatedComplement(x: i32)
    requires 0 <= x <= 65535
    ensures (0xffff_ffff - Pattern(x)) % 0x1_0000 == 0xffff - x
  {
    assert Pattern(x) == x;
  }

  /** `adjust_checksum`: an odd length is rounded up to whole words, and none is read for one that is not positive. */
  method AdjustChecksum(e: Endian, sum: array<u16>, odata: array<byte>, ndata: array<byte>, len: i32)
    requires sum.Length == 1 && len < INT_MAX
    requires len > 0 ==> len + len % 2 <= odata.Length && len + len % 2 <= ndata.Length
    modifies sum
    ensures len <= 0 ==> sum[0] == old(sum[0])
    ensures len > 0 && len % 2 == 0 ==> sum[0] == old(AdjustOf(e, sum[0], odata[..len], ndata[..len]))
    ensures len > 0 && len % 2 == 1 ==> sum[0] == old(AdjustOf(e, sum[0], odata[..len + 1], ndata[..len + 1]))
  {
    hide BitAnd, Canon, Subtracted, Added, WordSum, NetworkOrder, AdjustOf;
    ghost var span := if len <= 0 then 0 else len + len % 2;
    ghost var olds, news := odata[..span], ndata[..span];
    ghost var was := sum[0];
    var x: i32 := 0xffff - NetworkOrder(e, sum[0]);
    ghost var x0 := x;
    NothingRead(x0);
    var i: i32, ptr: nat := 0, 0;
    while i < len
      invariant i == ptr && ptr % 2 == 0 && ptr <= span
      invariant x == Subtracted(x0, olds[..ptr])
    {
      SubtractedStep(x0, olds[..ptr], olds[ptr], olds[ptr + 1]);
      assert olds[..ptr + 2] == olds[..ptr] + [olds[ptr], olds[ptr + 1]];
      x := SubtractWord(x, 256 * (odata[ptr] as int) + odata[ptr + 1]);
      i, ptr := i + 2, ptr + 2;
    }
    assert olds[..ptr] == olds;
    ghost var x1 := x;
    NothingRead(x1);
    i, ptr := 0, 0;
    while i < len
      invariant i == ptr && ptr % 2 == 0 && ptr <= span
      invariant x == Added(x1, news[..ptr])
    {
      AddedStep(x1, news[..ptr], news[ptr], news[ptr + 1]);
      assert news[..ptr + 2] == news[..ptr] + [news[ptr], news[ptr + 1]];
      x := AddWord(x, 256 * (ndata[ptr] as int) + ndata[ptr + 1]);
      i, ptr := i + 2, ptr + 2;
    }
    assert news[..ptr] == news;
    TruncatedComplement(x);
    BothLoops(e, was, olds, news);
    NothingToAdjust(e, was);
    sum[0] := NetworkOrder(e, (0xffff_ffff - Pattern(x)) % 0x1_0000);
  }

  // ---------------------------------------------------------------- the two together

  /** `buf` with the bytes from `at` on overwritten by `ndata`. */
  function Edit(buf: seq<byte>, at: nat, ndata: seq<byte>): (r: seq<byte>)
    requires at + |ndata| <= |buf|
    ensures |r| == |buf|
    ensures r[..at] == buf[..at] && r[at..at + |ndata|] == ndata && r[at + |ndata|..] == buf[at + |ndata|..]
  {
    buf[..at] + ndata + buf[at + |ndata|..]
  }

  lemma EditedSum(e: Endian, buf: seq<byte>, at: nat, ndata: seq<byte>)
    requires at % 2 == 0 && |ndata| % 2 == 0 && at + |ndata| <= |buf|
    ensures WordSum(e, Edit(buf, at, ndata))
         == WordSum(e, buf) - WordSum(e, buf[at..at + |ndata|]) + WordSum(e, ndata)
  {
    hide WordSum;
    var before, odata, after := buf[..at], buf[at..at + |ndata|], buf[at + |ndata|..];
    assert buf == before + odata + after;
    WordSumOfConcat(e, before + odata, after);
    WordSumOfConcat(e, before, odata);
    WordSumOfConcat(e, before + ndata, after);
    WordSumOfConcat(e, before, ndata);
  }

  /**
   RFC 3022, section 4.2: adjusting a checksum for a replaced even slice gives
   the checksum of the edited buffer, on either host, unless the slice is not
   empty and the edited buffer is all zero; there it gives the other zero.
   */
  lemma IncrementalEqualsFull(e: Endian, buf: seq<byte>, at: nat, ndata: seq<byte>)
    requires at % 2 == 0 && |ndata| % 2 == 0 && at + |ndata| <= |buf|
    requires Fits(e, buf) && Fits(e, Edit(buf, at, ndata))
    ensures var edited := Edit(buf, at, ndata);
            var adjusted := AdjustOf(e, ChecksumOf(e, buf), buf[at..at + |ndata|], ndata);
            var blank := ndata != [] && AllZero(edited);
            && (adjusted == ChecksumOf(e, edited) <==> !blank)
            && (blank ==> adjusted == 0 && ChecksumOf(e, edited) == 0xffff)
  {
    hide Canon, NetworkOrder, ChecksumOf, WordSum, AdjustOf, Change;
    var edited, odata := Edit(buf, at, ndata), buf[at..at + |ndata|];
    if ndata == [] {
      assert edited == buf;
      NothingToAdjust(e, ChecksumOf(e, buf));
    } else {
      var was: int, now: int := WordSum(Big, buf), WordSum(Big, edited);
      ChecksumInNetworkOrder(e, buf);
      AdjustMeansChange(e, ChecksumOf(e, buf), odata, ndata);
      EditChanges(buf, at, ndata);
      WordSumZero(Big, buf);
      assert was == 0 ==> odata[0] == 0;
      assert !(was == 0 && AllOnes(odata));
      CanonAbsorbs(was, now - was);
      FromNetworkOrder(e, edited);
    }
  }

  lemma EditChanges(buf: seq<byte>, at: nat, ndata: seq<byte>)
    requires at % 2 == 0 && |ndata| % 2 == 0 && at + |ndata| <= |buf|
    ensures WordSum(Big, Edit(buf, at, ndata)) == WordSum(Big, buf) + Change(buf[at..at + |ndata|], ndata)
  {
    hide WordSum;
    EditedSum(Big, buf, at, ndata);
  }

  /** The checksum of a fitting buffer, from its sum in network order; the other zero for one that is all zero. */
  lemma FromNetworkOrder(e: Endian, s: seq<byte>)
    requires Fits(e, s)
    ensures var r := NetworkOrder(e, 0xffff - Canon(WordSum(Big, s)));
            if AllZero(s) then r == 0 && ChecksumOf(e, s) == 0xffff else r == ChecksumOf(e, s)
  {
    hide Canon, NetworkOrder, ChecksumOf, WordSum;
    ChecksumInNetworkOrder(e, s);
    NetworkOrderIsInvolution(e, ChecksumOf(e, s));
    WordSumZero(Big, s);
    NetworkOrderOfZeros(e);
  }

  /**
   `adjust_checksum` where the stored value is the checksum of `buf` and `len`
   bytes of it, from `at` on, are replaced: the checksum of the edited buffer.
   */
  method AdjustForEdit(e: Endian, sum: array<u16>, odata: array<byte>, ndata: array<byte>, len: i32,
                       ghost buf: seq<byte>, ghost at: nat)
    requires sum.Length == 1 && 0 <= len <= odata.Length && len <= ndata.Length && len % 2 == 0
    requires at % 2 == 0 && at + len <= |buf| <= 131074 && buf[at..at + len] == odata[..len]
    requires sum[0] == ChecksumOf(e, buf)
    modifies sum
    ensures var edited := buf[..at] + ndata[..len] + buf[at + len..];
            sum[0] == if len > 0 && AllZero(edited) then 0 else ChecksumOf(e, edited)
  {
    hide AdjustOf, ChecksumOf, WordSum;
    ghost var edited := Edit(buf, at, ndata[..len]);
    ShortBuffersFit(e, buf);
    ShortBuffersFit(e, edited);
    IncrementalEqualsFull(e, buf, at, ndata[..len]);
    assert edited == buf[..at] + ndata[..len] + buf[at + len..];
    assert len == 0 ==> edited == buf;
    AdjustChecksum(e, sum, odata, ndata, len);
  }

  /** The two differ, for one, when a buffer of the bytes 0 and 1 becomes all zero. */
  lemma BlankEditDiffers(e: Endian) returns (buf: seq<byte>, ndata: seq<byte>)
    ensures buf == [0, 1] && ndata == [0, 0]
    ensures AdjustOf(e, ChecksumOf(e, buf), buf, ndata) == 0 && ChecksumOf(e, ndata) == 0xffff
  {
    buf, ndata := [0, 1], [0, 0];
    hide AdjustOf, ChecksumOf, WordSum;
    assert Edit(buf, 0, ndata) == ndata && buf[0..0 + |ndata|] == buf;
    ShortBuffersFit(e, buf);
    ShortBuffersFit(e, ndata);
    IncrementalEqualsFull(e, buf, 0, ndata);
  }

  lemma NothingToAdjust(e: Endian, sum: u16)
    ensures AdjustOf(e, sum, [], []) == sum
  {
    hide AdjustOf, Subtracted, Added, WordSum, NetworkOrder;
    BothLoops(e, sum, [], []);
    NothingRead(0xffff - NetworkOrder(e, sum));
    NetworkOrderIsInvolution(e, sum);
  }

  lemma NetworkOrderOfZeros(e: Endian)
    ensures NetworkOrder(e, 0) == 0 && NetworkOrder(e, 0xffff) == 0xffff
    ensures Canon(0) == 0xffff
  {
    CanonIsUnique(0, 0xffff, -1);
  }

  /** Two edits in either order amount to one over their concatenation, whatever was stored. */
  lemma AdjustmentsCompose(e: Endian, sum: u16, o1: seq<byte>, n1: seq<byte>, o2: seq<byte>, n2: seq<byte>)
    requires |o1| % 2 == 0 && |o2| % 2 == 0 && |n1| == |o1| && |n2| == |o2|
    ensures AdjustOf(e, AdjustOf(e, sum, o1, n1), o2, n2) == AdjustOf(e, sum, o1 + o2, n1 + n2)
    ensures AdjustOf(e, AdjustOf(e, sum, o2, n2), o1, n1) == AdjustOf(e, sum, o1 + o2, n1 + n2)
  {
    hide AdjustOf, WordSum;
    AdjustTwice(e, sum, o1, n1, o2, n2);
    AdjustTwice(e, sum, o2, n2, o1, n1);
    AdjustmentIsSymmetric(e, sum, o1, n1, o2, n2);
  }

  lemma AdjustTwice(e: Endian, sum: u16, o1: seq<byte>, n1: seq<byte>, o2: seq<byte>, n2: seq<byte>)
    requires |o1| % 2 == 0 && |n1| % 2 == 0
    ensures AdjustOf(e, AdjustOf(e, sum, o1, n1), o2, n2) == AdjustOf(e, sum, o1 + o2, n1 + n2)
  {
    hide AdjustOf, NetworkOrder, Canon, WordSum, Change, AllOnes, AllZero;
    var x: int := 0xffff - NetworkOrder(e, sum);
    AdjustMeansChange(e, sum, o1, n1);
    AdjustMeansChange(e, AdjustOf(e, sum, o1, n1), o2, n2);
    AdjustMeansChange(e, sum, o1 + o2, n1 + n2);
    ChangeOfConcat(o1, n1, o2, n2);
    AllOfConcat(o1, o2);
    AllOfConcat(n1, n2);
    if x == 0 && AllOnes(o1) && AllZero(n1) {
      ChangeOfOnes(o1, n1);
      CanonOfMultiple(Change(o2, n2), |o1| / 2);
    } else {
      NetworkOrderIsInvolution(e, 0xffff - Canon(x + Change(o1, n1)));
      CanonAbsorbs(x + Change(o1, n1), Change(o2, n2));
    }
  }

  /** How far an adjustment moves the sum modulo 65535. */
  function Change(odata: seq<byte>, ndata: seq<byte>): int {
    WordSum(Big, ndata) - WordSum(Big, odata)
  }

  lemma ChangeOfConcat(o1: seq<byte>, n1: seq<byte>, o2: seq<byte>, n2: seq<byte>)
    requires |o1| % 2 == 0 && |n1| % 2 == 0
    ensures Change(o1 + o2, n1 + n2) == Change(o1, n1) + Change(o2, n2)
  {
    hide WordSum;
    WordSumOfConcat(Big, o1, o2);
    WordSumOfConcat(Big, n1, n2);
  }

  lemma ChangeOfOnes(odata: seq<byte>, ndata: seq<byte>)
    requires |odata| % 2 == 0 && AllOnes(odata) && AllZero(ndata)
    ensures Change(odata, ndata) == -65535 * (|odata| / 2)
  {
    hide WordSum;
    WordSumOfOnes(Big, odata);
    WordSumZero(Big, ndata);
  }

  lemma AdjustMeansChange(e: Endian, sum: u16, odata: seq<byte>, ndata: seq<byte>)
    ensures AdjustOf(e, sum, odata, ndata) ==
              var x := 0xffff - NetworkOrder(e, sum);
              if x == 0 && AllOnes(odata) && AllZero(ndata) then sum
              else NetworkOrder(e, 0xffff - Canon(x + Change(odata, ndata)))
  {
    hide NetworkOrder, Canon, WordSum;
  }

  lemma AllOfConcat(a: seq<byte>, b: seq<byte>)
    ensures AllOnes(a + b) <==> AllOnes(a) && AllOnes(b)
    ensures AllZero(a + b) <==> AllZero(a) && AllZero(b)
  {
    assert forall i :: 0 <= i < |a| ==> (a + b)[i] == a[i];
    assert forall i :: 0 <= i < |b| ==> (a + b)[|a| + i] == b[i];
  }

  lemma AdjustmentIsSymmetric(e: Endian, sum: u16, o1: seq<byte>, n1: seq<byte>, o2: seq<byte>, n2: seq<byte>)
    requires |o1| % 2 == 0 && |o2| % 2 == 0 && |n1| == |o1| && |n2| == |o2|
    ensures AdjustOf(e, sum, o1 + o2, n1 + n2) == AdjustOf(e, sum, o2 + o1, n2 + n1)
  {
    hide NetworkOrder, Canon, WordSum;
    WordSumOfConcat(Big, o1, o2);
    WordSumOfConcat(Big, n1, n2);
    WordSumOfConcat(Big, o2, o1);
    WordSumOfConcat(Big, n2, n1);
    AllOfConcat(o1, o2);
    AllOfConcat(n1, n2);
    AllOfConcat(o2, o1);
    AllOfConcat(n2, n1);
  }

  /** Undoing an edit restores the stored checksum, except that 0xffff comes back as 0. */
  lemma AdjustBackRestores(e: Endian, sum: u16, odata: seq<byte>, ndata: seq<byte>)
    requires |odata| == |ndata| && |odata| % 2 == 0
    ensures AdjustOf(e, AdjustOf(e, sum, odata, ndata), ndata, odata) == sum
       <==> sum != 0xffff || odata == []
    ensures sum == 0xffff && odata != [] ==> AdjustOf(e, AdjustOf(e, sum, odata, ndata), ndata, odata) == 0
  {
    hide NetworkOrder, Canon, WordSum;
    var x: int := 0xffff - NetworkOrder(e, sum);
    AdjustTwice(e, sum, odata, ndata, ndata, odata);
    AllOfConcat(odata, ndata);
    AllOfConcat(ndata, odata);
    WordSumOfConcat(Big, odata, ndata);
    WordSumOfConcat(Big, ndata, odata);
    assert odata != [] ==> odata[0] != 0 || odata[0] != 0xff;
    NetworkOrderIsInvolution(e, sum);
    NetworkOrderIsInvolution(e, 0xffff - Canon(x));
    NetworkOrderOfZeros(e);
    if x > 0 {
      CanonIsUnique(x, x, 0);
    }
  }

  /** Replacing zero by zero, and back, turns a stored 0xffff into 0. */
  lemma AdjustBackFails(e: Endian) returns (data: seq<byte>)
    ensures data == [0, 0]
    ensures AdjustOf(e, AdjustOf(e, 0xffff, data, data), data, data) == 0
  {
    data := [0, 0];
    AdjustBackRestores(e, 0xffff, data, data);
  }

  /**
   RFC 1071, section 1: a buffer whose zeroed field at an even offset then
   receives `v` sums to zero exactly for the checksum of the zeroed buffer, or
   for 0xffff where that checksum is 0.
   */
  lemma SelfVerification(e: Endian, buf: seq<byte>, at: nat, v: u16)
    requires at % 2 == 0 && at + 2 <= |buf| && buf[at] == 0 && buf[at + 1] == 0
    requires Fits(e, Edit(buf, at, Image(e, v)))
    ensures ChecksumOf(e, Edit(buf, at, Image(e, v))) == 0
       <==> v == ChecksumOf(e, buf) || (v == 0xffff && ChecksumOf(e, buf) == 0)
  {
    hide ChecksumOf, Image, WordSum, Edit;
    EditedSum(e, buf, at, Image(e, v));
    WordSumZero(e, buf[at..at + 2]);
    SumOfImage(e, v);
    FittingChecksum(e, buf);
    FittingChecksum(e, Edit(buf, at, Image(e, v)));
    ResidueOfField(WordSum(e, buf), v);
  }

  lemma ResidueOfField(sum: nat, v: u16)
    ensures Residue(sum + v) == 0xffff <==> v == 0xffff - Residue(sum) || (v == 0xffff && Residue(sum) == 0xffff)
  {
    if sum > 0 {
      var c := Canon(sum);
      if v + c > 65535 {
        CanonIsUnique(sum + v, v + c - 65535, Laps(sum) + 1);
      } else {
        CanonIsUnique(sum + v, v + c, Laps(sum));
      }
    } else if v > 0 {
      CanonIsUnique(v, v, 0);
    }
  }

  lemma SumOfImage(e: Endian, v: u16)
    ensures WordSum(e, Image(e, v)) == v
  {
    assert Image(e, v)[..0] == [];
    assert LastWord(2) == 0;
  }
}
