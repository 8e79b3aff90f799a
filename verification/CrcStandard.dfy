/**
 The checksum of an RP1 image is the standard one: the `crc` of section 8 of RFC 1952, written out there with a
 table, and what that section says it is, a remainder of polynomial division.
 */
module CrcStandard {
  import opened Crc32
  import opened CrcBursts
  import CrcTable

  // ---- The sample code of the RFC ----

  // One turn of the loop that makes a table entry.
  function TableTurn(c: bv32): bv32 {
    if c & 1 == 1 then 0xedb8_8320 ^ (c >> 1) else c >> 1
  }

  // The table entry for n: eight turns.
  function TableEntry(n: bv32): bv32 {
    TableTurn(TableTurn(TableTurn(TableTurn(TableTurn(TableTurn(TableTurn(TableTurn(n))))))))
  }

  function Index(c: bv32, b: bv8): bv32 {
    (c ^ (b as bv32)) & 0xff
  }

  function Shifted(c: bv32): bv32 {
    c >> 8
  }

  function Mixed(a: bv32, b: bv32): bv32 {
    a ^ b
  }

  function UpdateLoop(c: bv32, buf: seq<bv8>): bv32
    decreases |buf|
  {
    if buf == [] then c else UpdateLoop(Mixed(TableEntry(Index(c, buf[0])), Shifted(c)), buf[1..])
  }

  // update_crc: the register is conditioned before and after the loop.
  function UpdateCrc(crc: bv32, buf: seq<bv8>): bv32 {
    Mixed(UpdateLoop(Mixed(crc, 0xffff_ffff), buf), 0xffff_ffff)
  }

  function StandardCrc(buf: seq<bv8>): bv32 {
    UpdateCrc(0, buf)
  }

  predicate Odd(c: bv32) {
    c & 1 == 1
  }

  lemma TurnIsStep(c: bv32)
    ensures TableTurn(c) == Step(c)
  {
    TurnDecides(c);
    LowDecides(c);
    hide TableTurn, Step, Half, Plus, Odd;
  }

  lemma TurnDecides(c: bv32)
    ensures TableTurn(c) == if Odd(c) then Plus(Half(c), POLY) else Half(c)
  { }

  lemma LowDecides(c: bv32)
    ensures Step(c) == if Odd(c) then Plus(Half(c), POLY) else Half(c)
  {
    MaskDecides(c);
    TapsAre();
    PlusNothing(Half(c));
    hide Half, Plus, Odd, Mask, Taps;
  }

  lemma MaskDecides(c: bv32)
    ensures Mask(c) == if Odd(c) then ALL_ONES else 0
  { }

  lemma TapsAre()
    ensures Taps(ALL_ONES) == POLY && Taps(0) == 0
  { }

  lemma PlusNothing(a: bv32)
    ensures Plus(a, 0) == a
  { }

  lemma EntryIsEightSteps(n: bv32)
    ensures TableEntry(n) == Steps(n, 8)
  {
    hide Step, TableTurn;
    TurnIsStep(n);
    TurnIsStep(Step(n));
    TurnIsStep(Step(Step(n)));
    TurnIsStep(Step(Step(Step(n))));
    TurnIsStep(Step(Step(Step(Step(n)))));
    TurnIsStep(Step(Step(Step(Step(Step(n))))));
    TurnIsStep(Step(Step(Step(Step(Step(Step(n)))))));
    TurnIsStep(Step(Step(Step(Step(Step(Step(Step(n))))))));
    EightSteps(n);
  }

  lemma EightSteps(n: bv32)
    ensures Steps(n, 8) == Step(Step(Step(Step(Step(Step(Step(Step(n))))))))
  {
    hide Step;
    var a, b := Step(Step(n)), Step(Step(Step(Step(n))));
    assert Steps(n, 8) == Steps(a, 6);
    assert Steps(a, 6) == Steps(b, 4);
    assert Steps(b, 4) == Steps(Step(Step(b)), 2);
    assert Steps(Step(Step(b)), 2) == Step(Step(Step(Step(b))));
  }

  lemma LookupsAgree(c: bv32, b: bv8)
    ensures Index(c, b) == CrcTable.LowByte(Plus(c, b as bv32)) as bv32
    ensures Shifted(c) == CrcTable.DropByte(c)
  { }

  lemma MixedIsPlus(a: bv32, b: bv32)
    ensures Mixed(a, b) == Plus(a, b)
  { }

  lemma RoundsAgree(c: bv32, b: bv8)
    ensures Mixed(TableEntry(Index(c, b)), Shifted(c))
         == Plus(CrcTable.Entry(CrcTable.LowByte(Plus(c, b as bv32))), CrcTable.DropByte(c))
  {
    hide TableEntry, Steps, CrcTable.LowByte, CrcTable.DropByte, Index, Shifted, Mixed, Plus;
    LookupsAgree(c, b);
    EntryIsEightSteps(Index(c, b));
    MixedIsPlus(TableEntry(Index(c, b)), Shifted(c));
  }

  lemma {:induction false} LoopsAgree(c: bv32, buf: seq<bv8>)
    ensures UpdateLoop(c, buf) == CrcTable.TableFeed(c, buf)
    decreases |buf|
  {
    hide TableEntry, CrcTable.Entry, CrcTable.LowByte, CrcTable.DropByte, Index, Shifted, Mixed, Plus;
    if buf != [] {
      RoundsAgree(c, buf[0]);
      LoopsAgree(Mixed(TableEntry(Index(c, buf[0])), Shifted(c)), buf[1..]);
    }
  }

  lemma Conditioning(f: bv32)
    ensures Mixed(0, 0xffff_ffff) == ALL_ONES && Mixed(f, 0xffff_ffff) == Plus(f, ALL_ONES)
  { }

  // Main result: the bitwise loop's checksum is the `crc` of the RFC, for every input.
  lemma CrcIsStandard(buf: seq<bv8>)
    ensures Crc(buf) == StandardCrc(buf)
  {
    hide Feed, UpdateLoop, Mixed, Plus;
    CrcTable.BitwiseIsTableDriven(ALL_ONES, buf);
    LoopsAgree(ALL_ONES, buf);
    Conditioning(Feed(ALL_ONES, buf));
  }

  // ---- The remainder of a division ----

  // Polynomials over the field of two elements, highest degree first.
  type Poly = seq<bool>

  // x^32+x^26+x^23+x^22+x^16+x^12+x^11+x^10+x^8+x^7+x^5+x^4+x^2+x+1
  const DIVISOR: Poly := [true] + DIVISOR_TAIL
  const DIVISOR_TAIL: Poly :=
    [false, false, false, false] + [false, true, false, false] + [true, true, false, false] + [false, false, false, true] +
    [false, false, false, true] + [true, true, false, true] + [true, false, true, true] + [false, true, true, true]

  // The sum of two polynomials, the second one aligned with the front of the first.
  function AddFront(p: Poly, q: Poly): (s: Poly)
    requires |q| <= |p|
    ensures |s| == |p|
    ensures forall i :: 0 <= i < |p| ==> s[i] == if i < |q| then p[i] != q[i] else p[i]
  {
    seq(|p|, i requires 0 <= i < |p| => if i < |q| then p[i] != q[i] else p[i])
  }

  // Long division: as long as 33 coefficients are left, a leading one is cancelled by the divisor.
  function Remainder(p: Poly): Poly
    decreases |p|
  {
    if |p| <= 32 then p
    else if p[0] then Remainder(AddFront(p, DIVISOR)[1..])
    else Remainder(p[1..])
  }

  // The n low bits of a word, lowest first: the register's lowest bit is the highest coefficient.
  function BitsOf(c: bv32, n: nat): (p: Poly)
    ensures |p| == n
    decreases n
  {
    if n == 0 then [] else [Odd(c)] + BitsOf(Half(c), n - 1)
  }

  function NoBits(n: nat): (p: Poly)
    ensures |p| == n && forall i :: 0 <= i < n ==> !p[i]
  {
    seq(n, i => false)
  }

  lemma {:induction false} BitsOfSum(a: bv32, b: bv32, n: nat)
    ensures BitsOf(Plus(a, b), n) == AddFront(BitsOf(a, n), BitsOf(b, n))
    decreases n
  {
    if n > 0 {
      BitsOfMore(a, n - 1);
      BitsOfMore(b, n - 1);
      BitsOfMore(Plus(a, b), n - 1);
      hide Plus, Half, Odd, BitsOf, AddFront;
      LowOfSum(a, b);
      HalfIsLinear(a, b);
      BitsOfSum(Half(a), Half(b), n - 1);
      FrontSum(Odd(a), Odd(b), BitsOf(Half(a), n - 1), BitsOf(Half(b), n - 1));
    }
  }

  lemma FrontSum(a: bool, b: bool, p: Poly, q: Poly)
    requires |p| == |q|
    ensures AddFront([a] + p, [b] + q) == [a != b] + AddFront(p, q)
  { }

  lemma LowOfSum(a: bv32, b: bv32)
    ensures Odd(Plus(a, b)) <==> Odd(a) != Odd(b)
  { }

  lemma HalfFits(c: bv32, m: bv32)
    requires Within(c, m)
    ensures Within(Half(c), Halve(m))
  { }

  lemma NothingFits()
    ensures LowMask(32) == 0
  {
    assert LowMask(4) == 0x0fff_ffff;
    assert LowMask(8) == 0x00ff_ffff;
    assert LowMask(12) == 0x000f_ffff;
    assert LowMask(16) == 0xffff;
    assert LowMask(20) == 0xfff;
    assert LowMask(24) == 0xff;
    assert LowMask(28) == 0xf;
  }

  lemma ZeroFits(c: bv32)
    requires Within(c, 0)
    ensures c == 0 && BitsOf(c, 1) == [false]
  { }

  // A word that fits n bits has no bit after them.
  lemma {:induction false} BitAfterFit(c: bv32, n: nat)
    requires n <= 32 && Within(c, LowMask(32 - n))
    ensures BitsOf(c, n + 1) == BitsOf(c, n) + [false]
    decreases n
  {
    if n == 0 {
      NothingFits();
      ZeroFits(c);
    } else {
      HalfFits(c, LowMask(32 - n));
      assert LowMask(33 - n) == Halve(LowMask(32 - n));
      hide Half, Halve, Within;
      BitAfterFit(Half(c), n - 1);
    }
  }

  lemma HalfFits31(c: bv32)
    ensures Within(Half(c), LowMask(1))
  { }

  // Shifting the register drops its highest coefficient and brings in a zero.
  lemma BitsOfHalf(c: bv32)
    ensures BitsOf(Half(c), 32) == BitsOf(c, 32)[1..] + [false]
  {
    HalfFits31(c);
    hide Half, Within;
    BitAfterFit(Half(c), 31);
  }

  // The register's polynomial is the divisor without its leading coefficient.
  lemma BitsOfPoly()
    ensures BitsOf(POLY, 32) == DIVISOR_TAIL
  {
    hide BitsOf, LastFour, Quarter;
    HalvedPoly();
    FourBits(0xedb8_8320, 28);
    FourBits(0x0edb_8832, 24);
    FourBits(0x00ed_b883, 20);
    FourBits(0x000e_db88, 16);
    FourBits(0x0000_edb8, 12);
    FourBits(0x0000_0edb, 8);
    FourBits(0x0000_00ed, 4);
    FourBits(0x0000_000e, 0);
    Eight(LastFour(0xedb8_8320), LastFour(0x0edb_8832), LastFour(0x00ed_b883), LastFour(0x000e_db88),
          LastFour(0x0000_edb8), LastFour(0x0000_0edb), LastFour(0x0000_00ed), LastFour(0x0000_000e), BitsOf(0, 0));
  }

  lemma Eight(a: Poly, b: Poly, c: Poly, d: Poly, e: Poly, f: Poly, g: Poly, h: Poly, last: Poly)
    requires last == []
    ensures a + (b + (c + (d + (e + (f + (g + (h + last))))))) == a + b + c + d + e + f + g + h
  { }

  function Quarter(c: bv32): bv32 {
    Half(Half(Half(Half(c))))
  }

  function LastFour(c: bv32): Poly {
    [Odd(c), Odd(Half(c)), Odd(Half(Half(c))), Odd(Half(Half(Half(c))))]
  }

  lemma FourBits(c: bv32, n: nat)
    ensures BitsOf(c, n + 4) == LastFour(c) + BitsOf(Quarter(c), n)
  {
    hide BitsOf, Half, Odd;
    var a, b, d := Half(c), Half(Half(c)), Half(Half(Half(c)));
    BitsOfMore(c, n + 3);
    BitsOfMore(a, n + 2);
    BitsOfMore(b, n + 1);
    BitsOfMore(d, n);
    Four(Odd(c), Odd(a), Odd(b), Odd(d), BitsOf(Half(d), n));
  }

  lemma BitsOfMore(c: bv32, n: nat)
    ensures BitsOf(c, n + 1) == [Odd(c)] + BitsOf(Half(c), n)
  { }

  lemma Four(a: bool, b: bool, c: bool, d: bool, rest: Poly)
    ensures [a] + ([b] + ([c] + ([d] + rest))) == [a, b, c, d] + rest
  { }

  lemma HalvedPoly()
    ensures Quarter(0xedb8_8320) == 0x0edb_8832 && LastFour(0xedb8_8320) == [false, false, false, false]
    ensures Quarter(0x0edb_8832) == 0x00ed_b883 && LastFour(0x0edb_8832) == [false, true, false, false]
    ensures Quarter(0x00ed_b883) == 0x000e_db88 && LastFour(0x00ed_b883) == [true, true, false, false]
    ensures Quarter(0x000e_db88) == 0x0000_edb8 && LastFour(0x000e_db88) == [false, false, false, true]
    ensures Quarter(0x0000_edb8) == 0x0000_0edb && LastFour(0x0000_edb8) == [false, false, false, true]
    ensures Quarter(0x0000_0edb) == 0x0000_00ed && LastFour(0x0000_0edb) == [true, true, false, true]
    ensures Quarter(0x0000_00ed) == 0x0000_000e && LastFour(0x0000_00ed) == [true, false, true, true]
    ensures Quarter(0x0000_000e) == 0 && LastFour(0x0000_000e) == [false, true, true, true]
  { }

  // ---- The register is what is left of the division ----

  // One step of the register is one step of long division.
  lemma StepDivides(c: bv32)
    ensures var p := BitsOf(c, 32) + [false];
            BitsOf(Step(c), 32) == if p[0] then AddFront(p, DIVISOR)[1..] else p[1..]
  {
    BitsOfMore(c, 31);
    hide Half, Step, Plus, Odd, BitsOf, DIVISOR_TAIL;
    BitsOfHalf(c);
    BitsOfPoly();
    LowDecides(c);
    var b := BitsOf(c, 32);
    assert b[0] == Odd(c) && (b + [false])[1..] == b[1..] + [false];
    if Odd(c) {
      BitsOfSum(Half(c), POLY, 32);
      DropFront(b + [false], DIVISOR_TAIL);
    }
  }

  lemma DropFront(p: Poly, tail: Poly)
    requires |tail| + 1 <= |p|
    ensures AddFront(p, [true] + tail)[1..] == AddFront(p[1..], tail)
  { }

  // What is still to be divided: the bits to come, followed by 32 zeros, with the register added in front.
  function Pending(c: bv32, bits: seq<bool>): Poly {
    AddFront(bits + NoBits(32), BitsOf(c, 32))
  }

  lemma BitOfBool(b: bool)
    ensures BitsOf(Bit(b), 32) == [b] + NoBits(31)
  {
    if b { OneBit(); } else { ZeroBits(0, 32); }
  }

  lemma {:induction false} ZeroBits(c: bv32, n: nat)
    requires c == 0
    ensures BitsOf(c, n) == NoBits(n)
    decreases n
  {
    if n > 0 {
      ZeroBits(Half(c), n - 1);
    }
  }

  lemma OneBit()
    ensures BitsOf(1, 32) == [true] + NoBits(31)
  {
    assert Half(1) == 0;
    ZeroBits(0, 31);
  }

  // Feeding the next bit to the register divides by one coefficient.
  lemma BitDivides(c: bv32, bits: seq<bool>)
    requires bits != []
    ensures Remainder(Pending(c, bits)) == Remainder(Pending(Step(Plus(c, Bit(bits[0]))), bits[1..]))
  {
    hide Step, Plus, Bit, BitsOf, AddFront, DIVISOR;
    var x := Plus(c, Bit(bits[0]));
    BitsOfSum(c, Bit(bits[0]), 32);
    BitOfBool(bits[0]);
    StepDivides(x);
    PendingSplits(bits, BitsOf(c, 32));
    FrontStep(bits[1..] + NoBits(32), BitsOf(x, 32) + [false]);
  }

  lemma PendingSplits(bits: seq<bool>, b: Poly)
    requires bits != [] && |b| == 32
    ensures AddFront(bits + NoBits(32), b)
         == AddFront([false] + (bits[1..] + NoBits(32)), AddFront(b, [bits[0]] + NoBits(31)) + [false])
  { }

  lemma FrontStep(rest: Poly, q: Poly)
    requires |rest| >= 32 && |q| == 33
    ensures var p := AddFront([false] + rest, q);
            && p[0] == q[0]
            && (p[0] ==> AddFront(p, DIVISOR)[1..] == AddFront(rest, AddFront(q, DIVISOR)[1..]))
            && (!p[0] ==> p[1..] == AddFront(rest, q[1..]))
  { }

  lemma {:induction false} FeedDivides(c: bv32, bits: seq<bool>)
    ensures BitsOf(BitFeed(c, bits), 32) == Remainder(Pending(c, bits))
    decreases |bits|
  {
    hide Step, Plus, Bit, BitsOf, Remainder;
    if bits == [] {
      NothingPending(c);
    } else {
      BitDivides(c, bits);
      FeedDivides(Step(Plus(c, Bit(bits[0]))), bits[1..]);
    }
  }

  lemma NothingPending(c: bv32)
    ensures Remainder(Pending(c, [])) == BitsOf(c, 32)
  {
    hide BitsOf;
    assert Pending(c, []) == BitsOf(c, 32);
  }

  function Complemented(p: Poly): Poly
    requires |p| >= 32
  {
    seq(|p|, i requires 0 <= i < |p| => if i < 32 then !p[i] else p[i])
  }

  lemma {:induction false} AllBits(c: bv32, n: nat)
    requires n <= 32 && c == LowMask(32 - n)
    ensures BitsOf(c, n) == seq(n, i => true)
    decreases n
  {
    if n > 0 {
      LowMaskNonzero(32 - n);
      LowMaskShape(32 - n);
      OddMask(c);
      assert LowMask(33 - n) == Halve(LowMask(32 - n)) == Half(c);
      hide Half, Halve, Odd;
      AllBits(Half(c), n - 1);
    }
  }

  lemma OddMask(m: bv32)
    requires LowOnes(m) && m != 0
    ensures Odd(m)
  { }

  lemma PlusOnes(c: bv32)
    ensures !c == Plus(c, ALL_ONES) && !Plus(c, ALL_ONES) == c
  { }

  // Main result: the complement of the checksum is the remainder, modulo the divisor, of the message's bits
  // followed by 32 zeros, the first 32 bits of all that complemented.
  lemma ComplementIsRemainder(buf: seq<bv8>)
    ensures BitsOf(!Crc(buf), 32) == Remainder(Complemented(Bits(buf) + NoBits(32)))
  {
    var c := Feed(ALL_ONES, buf);
    PlusOnes(c);
    hide Feed, BitsOf, Remainder, Bits;
    FeedIsBitFeed(ALL_ONES, buf);
    FeedDivides(ALL_ONES, Bits(buf));
    assert LowMask(0) == ALL_ONES;
    AllBits(ALL_ONES, 32);
    assert Pending(ALL_ONES, Bits(buf)) == Complemented(Bits(buf) + NoBits(32));
  }

  // So a zero byte in front of a message is noticed.
  lemma LeadingZeroIsNoticed(buf: seq<bv8>)
    ensures Crc([0] + buf) != Crc(buf)
  {
    hide Step, Plus, Feed, Xor;
    var c := Steps(ALL_ONES, 8);
    var d := Plus(c, ALL_ONES);
    OnesMove();
    FeedOfZeroFirst(buf);
    XorZeros(buf);
    PlusLaws(ALL_ONES, c, 0, 0);
    PlusLaws(c, ALL_ONES, 0, 0);
    FeedIsLinear(ALL_ONES, d, buf, Zeros(|buf|));
    ZerosOnlyStep(d, |buf|);
    StepsZeroOnlyAtZero(d, 8 * |buf|);
    PlusNonzero(Feed(ALL_ONES, buf), Feed(d, Zeros(|buf|)));
    PlusLaws(Feed(c, buf), ALL_ONES, 0, 0);
    PlusCancels(Feed(c, buf), Feed(ALL_ONES, buf));
  }

  lemma PlusCancels(a: bv32, b: bv32)
    requires a != b
    ensures Plus(a, ALL_ONES) != Plus(b, ALL_ONES)
  { }

  lemma OnesMove()
    ensures Plus(Steps(ALL_ONES, 8), ALL_ONES) != 0
    ensures Plus(ALL_ONES, Plus(Steps(ALL_ONES, 8), ALL_ONES)) == Steps(ALL_ONES, 8)
  {
    EightSteps(ALL_ONES);
  }

  lemma FeedOfZeroFirst(buf: seq<bv8>)
    ensures Feed(ALL_ONES, [0] + buf) == Feed(Steps(ALL_ONES, 8), buf)
  {
    PlusLaws(ALL_ONES, 0, 0, 0);
    hide Step, Plus, Steps;
    var b: bv8 := 0;
    assert ([b] + buf)[1..] == buf && b as bv32 == 0;
  }

  lemma XorZeros(buf: seq<bv8>)
    ensures Xor(buf, Zeros(|buf|)) == buf
  { }

  lemma {:induction false} ZerosOnlyStep(d: bv32, n: nat)
    ensures Feed(d, Zeros(n)) == Steps(d, 8 * n)
    decreases n
  {
    hide Step, Plus;
    if n > 0 {
      var b: bv8 := 0;
      assert b as bv32 == 0;
      PlusLaws(d, 0, 0, 0);
      assert Zeros(n)[1..] == Zeros(n - 1);
      StepsCompose(d, 8, 8 * (n - 1));
      ZerosOnlyStep(Steps(d, 8), n - 1);
    }
  }
}
