/** The bitwise register computes the table-driven CRC of section 8 of RFC 1952. */
module CrcTable {
  import opened Crc32

  // The 256-entry table, entry by entry.
  function Entry(n: bv8): bv32 {
    Steps(n as bv32, 8)
  }

  // The update loop of the RFC: look the low byte up, shift the rest down.
  function TableFeed(c: bv32, bytes: seq<bv8>): bv32
    decreases |bytes|
  {
    if bytes == [] then c
    else TableFeed(Plus(Entry(LowByte(Plus(c, bytes[0] as bv32))), DropByte(c)), bytes[1..])
  }

  function LowByte(c: bv32): bv8 {
    (c & 0xff) as bv8
  }

  function DropByte(c: bv32): bv32 {
    c >> 8
  }

  function HighBytes(c: bv32): bv32 {
    c & 0xffff_ff00
  }

  predicate Even(w: bv32) {
    w & 1 == 0
  }

  lemma MaskOfEven(w: bv32)
    requires Even(w)
    ensures Mask(w) == 0
  { }

  // A word whose lowest bit is clear is only shifted.
  lemma EvenStep(w: bv32, n: nat)
    requires Even(w)
    ensures Steps(w, n + 1) == Steps(Half(w), n)
  {
    hide Plus, Half, Mask, Taps, Even;
    MaskOfEven(w);
    TapsOfMasks();
    PlusLaws(Half(w), 0, 0, 0);
  }

  lemma HighBytesAreEven(c: bv32)
    ensures var w := HighBytes(c);
            && Even(w) && Even(Half(w)) && Even(Half(Half(w))) && Even(Half(Half(Half(w))))
            && Even(Half(Half(Half(Half(w))))) && Even(Half(Half(Half(Half(Half(w))))))
            && Even(Half(Half(Half(Half(Half(Half(w))))))) && Even(Half(Half(Half(Half(Half(Half(Half(w))))))))
            && Half(Half(Half(Half(Half(Half(Half(Half(w)))))))) == DropByte(c)
  { }

  lemma EightEvenSteps(c: bv32)
    ensures Steps(HighBytes(c), 8) == DropByte(c)
  {
    HighBytesAreEven(c);
    hide Step, Steps, Even, Half, HighBytes, DropByte;
    var w := HighBytes(c);
    EvenStep(w, 7);
    EvenStep(Half(w), 6);
    EvenStep(Half(Half(w)), 5);
    EvenStep(Half(Half(Half(w))), 4);
    EvenStep(Half(Half(Half(Half(w)))), 3);
    EvenStep(Half(Half(Half(Half(Half(w))))), 2);
    EvenStep(Half(Half(Half(Half(Half(Half(w)))))), 1);
    EvenStep(Half(Half(Half(Half(Half(Half(Half(w))))))), 0);
    NoSteps(DropByte(c));
  }

  lemma NoSteps(c: bv32)
    ensures Steps(c, 0) == c
  { }

  lemma SplitLowByte(c: bv32, b: bv8)
    ensures var x := Plus(c, b as bv32);
            x == Plus(LowByte(x) as bv32, HighBytes(x)) && DropByte(x) == DropByte(c)
  {
  }

  lemma LookupIsEightSteps(c: bv32, b: bv8)
    ensures Steps(Plus(c, b as bv32), 8) == Plus(Entry(LowByte(Plus(c, b as bv32))), DropByte(c))
  {
    hide Plus, Steps, LowByte, HighBytes, DropByte;
    var x := Plus(c, b as bv32);
    SplitLowByte(c, b);
    EightEvenSteps(x);
    StepsIsLinear(LowByte(x) as bv32, HighBytes(x), 8);
  }

  // Main result: the bitwise loop and the table-driven loop agree on every input.
  lemma {:induction false} BitwiseIsTableDriven(c: bv32, bytes: seq<bv8>)
    ensures Feed(c, bytes) == TableFeed(c, bytes)
    decreases |bytes|
  {
    hide Steps, Entry, LowByte, DropByte, Plus;
    if bytes != [] {
      LookupIsEightSteps(c, bytes[0]);
      BitwiseIsTableDriven(Steps(Plus(c, bytes[0] as bv32), 8), bytes[1..]);
    }
  }
}
