/** What the image checksum detects: every error burst of up to 32 consecutive bits, and not one bit more. */
module CrcBursts {
  import opened Crc32

  // ---- The same register, one bit at a time ----

  function Bit(b: bool): bv32 {
    if b then 1 else 0
  }

  function BitFeed(c: bv32, bits: seq<bool>): bv32
    decreases |bits|
  {
    if bits == [] then c else BitFeed(Step(Plus(c, Bit(bits[0]))), bits[1..])
  }

  // The n low bits of a byte, least significant first: the order in which the CRC consumes them.
  function LowBits(b: bv8, n: nat): (bits: seq<bool>)
    ensures |bits| == n
    decreases n
  {
    if n == 0 then [] else [b & 1 != 0] + LowBits(b >> 1, n - 1)
  }

  function Bits(bytes: seq<bv8>): (bits: seq<bool>)
    ensures |bits| == 8 * |bytes|
    decreases |bytes|
  {
    if bytes == [] then [] else LowBits(bytes[0], 8) + Bits(bytes[1..])
  }

  // The word whose bits, least significant first, are the given ones.
  function Word(bits: seq<bool>): bv32
    decreases |bits|
  {
    if bits == [] then 0 else Plus(Bit(bits[0]), Double(Word(bits[1..])))
  }

  function Double(w: bv32): bv32 {
    w << 1
  }

  function Halve(w: bv32): bv32 {
    w >> 1
  }

  predicate TopIsClear(w: bv32) {
    w & TOP_BIT == 0
  }

  predicate Within(w: bv32, m: bv32) {
    w & !m == 0
  }

  // A mask of some number of low bits.
  predicate LowOnes(m: bv32) {
    m & (m + 1) == 0
  }

  // The low 32 - k bits set.
  function LowMask(k: nat): bv32
    decreases k
  {
    if k == 0 then ALL_ONES else Halve(LowMask(k - 1))
  }

  lemma HalveMask(m: bv32)
    requires LowOnes(m)
    ensures LowOnes(Halve(m)) && TopIsClear(Halve(m))
  {
  }

  lemma {:induction false} LowMaskShape(k: nat)
    ensures LowOnes(LowMask(k))
    ensures k > 0 ==> TopIsClear(LowMask(k))
    decreases k
  {
    if k > 0 {
      LowMaskShape(k - 1);
      HalveMask(LowMask(k - 1));
    }
  }

  lemma {:induction false} LowMaskNonzero(k: nat)
    requires k <= 31
    ensures LowMask(k) != 0
    decreases 31 - k
  {
    if k == 31 {
      assert LowMask(4) == 0x0fff_ffff;
      assert LowMask(8) == 0x00ff_ffff;
      assert LowMask(12) == 0x000f_ffff;
      assert LowMask(16) == 0xffff;
      assert LowMask(20) == 0xfff;
      assert LowMask(24) == 0xff;
      assert LowMask(28) == 0xf;
      assert LowMask(31) == 1;
    } else {
      LowMaskNonzero(k + 1);
    }
  }

  lemma PushBit(m: bv32, w: bv32, b: bool)
    requires LowOnes(m) && m != 0
    requires Within(w, Halve(m))
    ensures Within(Plus(Bit(b), Double(w)), m)
    ensures Plus(Bit(b), Double(w)) == 0 ==> !b && w == 0
  {
  }

  // A word of n bits fits under n low bits, and is zero only if every bit is.
  lemma {:induction false} WordFits(bits: seq<bool>)
    requires |bits| <= 32
    ensures Within(Word(bits), LowMask(32 - |bits|))
    ensures Word(bits) == 0 ==> forall k :: 0 <= k < |bits| ==> !bits[k]
    decreases |bits|
  {
    if bits != [] {
      hide Plus, Bit, Double, Halve, Within, LowOnes, TopIsClear;
      var k := 32 - |bits|;
      var rest := bits[1..];
      WordFits(rest);
      LowMaskShape(k);
      LowMaskNonzero(k);
      PushBit(LowMask(k), Word(rest), bits[0]);
      assert forall j :: 0 < j < |bits| ==> bits[j] == rest[j - 1];
    }
  }

  lemma StepUndoesDouble(w: bv32, m: bv32)
    requires Within(w, m) && TopIsClear(m)
    ensures Step(Double(w)) == w
  {
  }

  // Key lemma: up to 32 bit updates equal one exclusive or of a word followed by that many steps.
  lemma {:induction false} BitsAreOneWord(c: bv32, bits: seq<bool>)
    requires |bits| <= 32
    ensures BitFeed(c, bits) == Steps(Plus(c, Word(bits)), |bits|)
    decreases |bits|
  {
    hide Step, Plus, Bit, Double, Halve, Within, LowOnes, TopIsClear;
    if bits == [] {
      PlusLaws(c, 0, 0, 0);
    } else {
      var rest := bits[1..];
      var w := Word(rest);
      var x := Plus(c, Bit(bits[0]));
      WordFits(rest);
      LowMaskShape(32 - |rest|);
      StepUndoesDouble(w, LowMask(32 - |rest|));
      PlusLaws(c, Bit(bits[0]), Double(w), 0);
      StepIsLinear(x, Double(w));
      BitsAreOneWord(Step(x), rest);
    }
  }

  lemma {:induction false} BitFeedConcat(c: bv32, a: seq<bool>, b: seq<bool>)
    ensures BitFeed(c, a + b) == BitFeed(BitFeed(c, a), b)
    decreases |a|
  {
    hide Step, Plus, Bit;
    if a == [] {
      assert a + b == b;
    } else {
      assert (a + b)[1..] == a[1..] + b;
      BitFeedConcat(Step(Plus(c, Bit(a[0]))), a[1..], b);
    }
  }

  lemma WordOfLowBits(b: bv8, n: nat)
    requires Word(LowBits(b >> 1, n)) == (b >> 1) as bv32
    ensures Word(LowBits(b, n + 1)) == b as bv32
  { }

  lemma NothingLeft(b: bv8)
    ensures Word(LowBits(b >> 1 >> 1 >> 1 >> 1 >> 1 >> 1 >> 1 >> 1, 0)) == (b >> 1 >> 1 >> 1 >> 1 >> 1 >> 1 >> 1 >> 1) as bv32
  { }

  lemma WordOfByte(b: bv8)
    ensures Word(LowBits(b, 8)) == b as bv32
  {
    hide Plus, Bit, Double, Word, LowBits;
    NothingLeft(b);
    WordOfLowBits(b >> 1 >> 1 >> 1 >> 1 >> 1 >> 1 >> 1, 0);
    WordOfLowBits(b >> 1 >> 1 >> 1 >> 1 >> 1 >> 1, 1);
    WordOfLowBits(b >> 1 >> 1 >> 1 >> 1 >> 1, 2);
    WordOfLowBits(b >> 1 >> 1 >> 1 >> 1, 3);
    WordOfLowBits(b >> 1 >> 1 >> 1, 4);
    WordOfLowBits(b >> 1 >> 1, 5);
    WordOfLowBits(b >> 1, 6);
    WordOfLowBits(b, 7);
  }

  // The byte-wise and the bit-wise register agree.
  lemma {:induction false} FeedIsBitFeed(c: bv32, bytes: seq<bv8>)
    ensures Feed(c, bytes) == BitFeed(c, Bits(bytes))
    decreases |bytes|
  {
    hide Step, Plus, Bit, LowBits;
    if bytes != [] {
      var low := LowBits(bytes[0], 8);
      BitsAreOneWord(c, low);
      WordOfByte(bytes[0]);
      BitFeedConcat(c, low, Bits(bytes[1..]));
      FeedIsBitFeed(Steps(Plus(c, bytes[0] as bv32), 8), bytes[1..]);
    }
  }

  // ---- Burst detection ----

  ghost predicate AllClear(bits: seq<bool>) {
    forall k :: 0 <= k < |bits| ==> !bits[k]
  }

  lemma {:induction false} ClearBitsOnlyStep(c: bv32, bits: seq<bool>)
    requires AllClear(bits)
    ensures BitFeed(c, bits) == Steps(c, |bits|)
    decreases |bits|
  {
    hide Step, Plus;
    if bits != [] {
      PlusLaws(c, 0, 0, 0);
      ClearBitsOnlyStep(Step(c), bits[1..]);
    }
  }

  // The pattern flips at least one bit, and only bits in the 32 that start at bit i.
  ghost predicate BurstAt(e: seq<bv8>, i: nat) {
    && (exists k :: 0 <= k < |Bits(e)| && Bits(e)[k])
    && (forall k :: 0 <= k < |Bits(e)| && Bits(e)[k] ==> i <= k < i + 32)
  }

  lemma ClearPrefix(before: seq<bool>, rest: seq<bool>)
    requires AllClear(before)
    ensures BitFeed(0, before + rest) == BitFeed(0, rest)
  {
    hide Step, Plus, Bit;
    BitFeedConcat(0, before, rest);
    ClearBitsOnlyStep(0, before);
    StepsZeroOnlyAtZero(0, |before|);
  }

  lemma ClearSuffix(window: seq<bool>, after: seq<bool>)
    requires |window| <= 32 && !AllClear(window) && AllClear(after)
    ensures BitFeed(0, window + after) != 0
  {
    hide Step, Plus, Bit, Word, Within, LowMask;
    var w := Word(window);
    BitsAreOneWord(0, window);
    WordFits(window);
    PlusLaws(w, 0, 0, 0);
    StepsZeroOnlyAtZero(w, |window|);
    var d := BitFeed(0, window);
    BitFeedConcat(0, window, after);
    ClearBitsOnlyStep(d, after);
    StepsZeroOnlyAtZero(d, |after|);
  }

  lemma BurstLeavesTrace(e: seq<bv8>, i: nat)
    requires BurstAt(e, i)
    ensures Feed(0, e) != 0
  {
    hide Step, Plus, Bit, Bits, BitFeed, Steps, Feed;
    var bits := Bits(e);
    var k :| 0 <= k < |bits| && bits[k];
    var j := if i + 32 <= |bits| then i + 32 else |bits|;
    var before, window, after := bits[..i], bits[i..j], bits[j..];
    assert window[k - i];
    assert AllClear(before) && AllClear(after);
    assert bits == before + (window + after);
    ClearPrefix(before, window + after);
    ClearSuffix(window, after);
    FeedIsBitFeed(0, e);
  }

  lemma PlusNonzero(a: bv32, d: bv32)
    requires d != 0
    ensures Plus(a, d) != a
  {
  }

  // Main result: no burst of up to 32 consecutive bits leaves the checksum unchanged.
  lemma BurstChangesCrc(a: seq<bv8>, e: seq<bv8>, i: nat)
    requires |a| == |e| && BurstAt(e, i)
    ensures Crc(Xor(a, e)) != Crc(a)
  {
    hide Step, Plus, Steps, Feed, Crc, Xor, BurstAt;
    ErrorShiftsCrc(a, e);
    BurstLeavesTrace(e, i);
    PlusNonzero(Crc(a), Feed(0, e));
  }

  // The bound is exact: the generator itself is a burst of 33 bits that no payload's checksum notices.
  const GENERATOR: seq<bv8> := [0x41, 0x06, 0x71, 0xdb, 0x01]

  lemma GeneratorIsInvisible(a: seq<bv8>)
    requires |a| == 5
    ensures Crc(Xor(a, GENERATOR)) == Crc(a)
    ensures Xor(a, GENERATOR) != a
  {
    assert Feed(0, GENERATOR) == 0;
    ErrorShiftsCrc(a, GENERATOR);
    PlusLaws(Crc(a), 0, 0, 0);
    assert Xor(a, GENERATOR)[4] != a[4];
  }

  // ---- Whole-byte windows ----

  lemma {:induction false} BitsAt(bytes: seq<bv8>, k: nat)
    requires k < 8 * |bytes|
    ensures Bits(bytes)[k] == LowBits(bytes[k / 8], 8)[k % 8]
    decreases |bytes|
  {
    hide LowBits;
    if k >= 8 {
      BitsAt(bytes[1..], k - 8);
    }
  }

  lemma {:induction false} ZeroByteIsClear(b: bv8, n: nat)
    requires b == 0
    ensures AllClear(LowBits(b, n))
    decreases n
  {
    if n > 0 {
      ZeroByteIsClear(b >> 1, n - 1);
    }
  }

  lemma {:induction false} ClearWordIsZero(bits: seq<bool>)
    requires AllClear(bits)
    ensures Word(bits) == 0
    decreases |bits|
  {
    if bits != [] {
      ClearWordIsZero(bits[1..]);
    }
  }

  lemma WidenedZero(b: bv8)
    ensures b as bv32 == 0 <==> b == 0
  {
  }

  // Any corruption confined to four consecutive bytes is such a burst.
  lemma FourBytesAreABurst(e: seq<bv8>, i: nat)
    requires exists j :: 0 <= j < |e| && e[j] != 0
    requires forall j :: 0 <= j < |e| && e[j] != 0 ==> i <= j < i + 4
    ensures BurstAt(e, 8 * i)
  {
    hide Bits, LowBits, Word;
    var j :| 0 <= j < |e| && e[j] != 0;
    var low := LowBits(e[j], 8);
    WordOfByte(e[j]);
    WidenedZero(e[j]);
    if AllClear(low) {
      ClearWordIsZero(low);
    }
    var t :| 0 <= t < 8 && low[t];
    BitsAt(e, 8 * j + t);
    assert Bits(e)[8 * j + t];
    forall k | 0 <= k < |Bits(e)| && Bits(e)[k] ensures 8 * i <= k < 8 * i + 32 {
      BitsAt(e, k);
      if e[k / 8] == 0 {
        ZeroByteIsClear(e[k / 8], 8);
      }
    }
  }
}
