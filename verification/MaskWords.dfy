/**
 * Ownership masks as the 64-bit words they are, and why sets of bit positions
 * stand for them (rp1_dtb_policy.rs:7-16, 67-100).
 */
module MaskWords {
  import opened Prelude
  import opened Policy

  // The word with one bit set.
  function BitOf(bit: DeviceNumbers, d: Device): nat {
    Pow2(bit(d))
  }

  function KnownWord(bit: DeviceNumbers, devices: seq<Device>): nat {
    if devices == [] then 0 else BitOr(BitOf(bit, devices[0]), KnownWord(bit, devices[1..]))
  }

  function ValidateWords(rp1: nat, linux: nat, disabled: nat, bit: DeviceNumbers): Result<(), BootError> {
    var overlap := BitOr(BitOr(BitAnd(rp1, linux), BitAnd(rp1, disabled)), BitAnd(linux, disabled));
    if overlap != 0 then Err(Rp1DtbPolicyInvalid) else
    var specified, known := BitOr(BitOr(rp1, linux), disabled), KnownWord(bit, TABLE);
    if AndNot(specified, known) != 0 then Err(Rp1DtbPolicyInvalid) else
    if BitAnd(specified, known) != known then Err(Rp1DtbPolicyInvalid) else
    if BitAnd(linux, BitOr(BitOf(bit, Pio0), BitOf(bit, Pio1))) != 0 then Err(Rp1DtbPolicyInvalid) else
    Ok(())
  }

  function OwnerOfWord(rp1: nat, linux: nat, disabled: nat, position: nat): Owner {
    if BitAnd(rp1, Pow2(position)) != 0 then OwnedByRp1
    else if BitAnd(linux, Pow2(position)) != 0 then OwnedByLinux
    else if BitAnd(disabled, Pow2(position)) != 0 then OwnedByNobody
    else Unspecified
  }

  // ---- Bit operators are set operators ------------------------------------

  lemma PositionsStep(v: nat, low: nat, p: nat)
    ensures p in Positions(v, low) <==> (p == low && v % 2 == 1) || p in Positions(v / 2, low + 1)
    ensures low !in Positions(v / 2, low + 1)
  {
    PositionsAreBits(v / 2, low + 1, 0);
  }

  lemma {:induction false} AndIsIntersection(x: nat, y: nat, low: nat)
    ensures Positions(BitAnd(x, y), low) == Positions(x, low) * Positions(y, low)
    decreases x
  {
    if x != 0 {
      var z := BitAnd(x, y);
      AndIsIntersection(x / 2, y / 2, low + 1);
      assert z / 2 == BitAnd(x / 2, y / 2) && z % 2 == if x % 2 == 1 && y % 2 == 1 then 1 else 0;
      hide Positions, BitAnd;
      forall p ensures p in Positions(z, low) <==> p in Positions(x, low) && p in Positions(y, low) {
        PositionsStep(x, low, p);
        PositionsStep(y, low, p);
        PositionsStep(z, low, p);
      }
    }
  }

  lemma {:induction false} OrIsUnion(x: nat, y: nat, low: nat)
    ensures Positions(BitOr(x, y), low) == Positions(x, low) + Positions(y, low)
    decreases x + y
  {
    if x + y != 0 {
      var z := BitOr(x, y);
      OrIsUnion(x / 2, y / 2, low + 1);
      assert z / 2 == BitOr(x / 2, y / 2) && z % 2 == if x % 2 == 1 || y % 2 == 1 then 1 else 0;
      hide Positions, BitOr;
      forall p ensures p in Positions(z, low) <==> p in Positions(x, low) || p in Positions(y, low) {
        PositionsStep(x, low, p);
        PositionsStep(y, low, p);
        PositionsStep(z, low, p);
      }
    }
  }

  lemma {:induction false} AndNotIsDifference(x: nat, m: nat, low: nat)
    ensures Positions(AndNot(x, m), low) == Positions(x, low) - Positions(m, low)
    decreases x
  {
    if x != 0 {
      var z := AndNot(x, m);
      AndNotIsDifference(x / 2, m / 2, low + 1);
      assert z / 2 == AndNot(x / 2, m / 2) && z % 2 == if x % 2 == 1 && m % 2 == 0 then 1 else 0;
      hide Positions, AndNot;
      forall p ensures p in Positions(z, low) <==> p in Positions(x, low) && p !in Positions(m, low) {
        PositionsStep(x, low, p);
        PositionsStep(m, low, p);
        PositionsStep(z, low, p);
      }
    }
  }

  // Different words have different positions.
  lemma {:induction false} PositionsTellWords(x: nat, y: nat, low: nat)
    requires Positions(x, low) == Positions(y, low)
    ensures x == y
    decreases x + y
  {
    if x + y != 0 {
      PositionsStep(x, low, low);
      PositionsStep(y, low, low);
      var a, b := Positions(x / 2, low + 1), Positions(y / 2, low + 1);
      forall p ensures p in a <==> p in b {
        PositionsStep(x, low, p);
        PositionsStep(y, low, p);
      }
      PositionsTellWords(x / 2, y / 2, low + 1);
    }
  }

  lemma NoPositionsIff(x: nat)
    ensures Positions(x) == {} <==> x == 0
  {
    if Positions(x) == {} {
      PositionsTellWords(x, 0, 0);
    }
  }

  lemma {:induction false} OneBit(k: nat, low: nat)
    ensures Positions(Pow2(k), low) == {low + k}
  {
    if k == 0 {
      assert Pow2(0) == 1 && Positions(0, low + 1) == {};
    } else {
      OneBit(k - 1, low + 1);
      assert Pow2(k) / 2 == Pow2(k - 1) && Pow2(k) % 2 == 0;
    }
  }

  function NumbersOf(bit: DeviceNumbers, devices: seq<Device>): Mask {
    set d | d in devices :: bit(d)
  }

  lemma {:induction false} KnownPositions(bit: DeviceNumbers, devices: seq<Device>)
    ensures Positions(KnownWord(bit, devices)) == NumbersOf(bit, devices)
  {
    hide BitOr, Positions, Pow2;
    if devices == [] {
      NoPositionsIff(0);
    } else {
      KnownPositions(bit, devices[1..]);
      OrIsUnion(BitOf(bit, devices[0]), KnownWord(bit, devices[1..]), 0);
      OneBit(bit(devices[0]), 0);
      assert NumbersOf(bit, devices) == {bit(devices[0])} + NumbersOf(bit, devices[1..]);
    }
  }

  // Main result: the checks on words decide what the checks on sets of positions decide.
  lemma WordsAreMasks(rp1: nat, linux: nat, disabled: nat, bit: DeviceNumbers)
    ensures ValidateWords(rp1, linux, disabled, bit)
         == Validate(Masks(Positions(rp1), Positions(linux), Positions(disabled)), bit)
  {
    hide Positions, BitAnd, BitOr, AndNot, KnownWord, KnownMask, Pow2;
    var known := KnownWord(bit, TABLE);
    OverlapWords(rp1, linux, disabled);
    KnownIsKnown(bit);
    var specified := BitOr(BitOr(rp1, linux), disabled);
    OrIsUnion(rp1, linux, 0);
    OrIsUnion(BitOr(rp1, linux), disabled, 0);
    AndNotIsDifference(specified, known, 0);
    NoPositionsIff(AndNot(specified, known));
    AndIsIntersection(specified, known, 0);
    if Positions(BitAnd(specified, known)) == Positions(known) {
      PositionsTellWords(BitAnd(specified, known), known, 0);
    }
    PioWords(linux, bit);
    assert Positions(specified) == Positions(rp1) + Positions(linux) + Positions(disabled);
  }

  lemma OverlapWords(a: nat, b: nat, c: nat)
    ensures BitOr(BitOr(BitAnd(a, b), BitAnd(a, c)), BitAnd(b, c)) == 0 <==>
            Positions(a) * Positions(b) + Positions(a) * Positions(c) + Positions(b) * Positions(c) == {}
  {
    hide Positions, BitAnd, BitOr;
    AndIsIntersection(a, b, 0);
    AndIsIntersection(a, c, 0);
    AndIsIntersection(b, c, 0);
    OrIsUnion(BitAnd(a, b), BitAnd(a, c), 0);
    OrIsUnion(BitOr(BitAnd(a, b), BitAnd(a, c)), BitAnd(b, c), 0);
    NoPositionsIff(BitOr(BitOr(BitAnd(a, b), BitAnd(a, c)), BitAnd(b, c)));
  }

  lemma KnownIsKnown(bit: DeviceNumbers)
    ensures Positions(KnownWord(bit, TABLE)) == KnownMask(bit)
  {
    hide Positions, KnownWord;
    KnownPositions(bit, TABLE);
    forall d: Device ensures d in TABLE { EveryDeviceIsListed(d); }
  }

  lemma PioWords(linux: nat, bit: DeviceNumbers)
    ensures BitAnd(linux, BitOr(BitOf(bit, Pio0), BitOf(bit, Pio1))) == 0 <==>
            Positions(linux) * {bit(Pio0), bit(Pio1)} == {}
  {
    hide Positions, BitAnd, BitOr, Pow2;
    OneBit(bit(Pio0), 0);
    OneBit(bit(Pio1), 0);
    OrIsUnion(BitOf(bit, Pio0), BitOf(bit, Pio1), 0);
    var pios := BitOr(BitOf(bit, Pio0), BitOf(bit, Pio1));
    assert Positions(pios) == {bit(Pio0), bit(Pio1)};
    AndIsIntersection(linux, pios, 0);
    NoPositionsIff(BitAnd(linux, pios));
  }

  lemma BitIsMember(w: nat, position: nat)
    ensures BitAnd(w, Pow2(position)) != 0 <==> position in Positions(w)
  {
    hide Positions, BitAnd, Pow2;
    OneBit(position, 0);
    AndIsIntersection(w, Pow2(position), 0);
    NoPositionsIff(BitAnd(w, Pow2(position)));
    assert Positions(w) * {position} == {} <==> position !in Positions(w);
  }

  // And so does looking an owner up.
  lemma OwnersAreOwners(rp1: nat, linux: nat, disabled: nat, position: nat)
    ensures OwnerOfWord(rp1, linux, disabled, position)
         == OwnerOf(Masks(Positions(rp1), Positions(linux), Positions(disabled)), position)
  {
    hide Positions, BitAnd, Pow2;
    BitIsMember(rp1, position);
    BitIsMember(linux, position);
    BitIsMember(disabled, position);
  }
}
