/** The boot heap: a bump allocator that can take back its topmost block (main.rs:1871-1922). */
module BumpAllocator {
  import opened Prelude

  const HEAP_SIZE: nat := 80 * 1024 * 1024

  // A block handed out: where it starts in the heap, and the layout asked for.
  datatype Block = Block(at: nat, size: nat, align: nat)

  // ---- Rounding up --------------------------------------------------------

  ghost predicate PowerOfTwo(a: nat) {
    exists k: nat :: a == Pow2(k)
  }

  function AlignUp(current: nat, align: nat): nat
    requires align > 0
  {
    AndNot(current + align - 1, align - 1)
  }

  ghost predicate Multiple(n: nat, d: nat) {
    exists q: nat :: n == q * d
  }

  lemma {:induction false} AndNotClearsLowBits(x: nat, k: nat)
    ensures AndNot(x, Pow2(k) - 1) <= x < AndNot(x, Pow2(k) - 1) + Pow2(k)
    ensures Multiple(AndNot(x, Pow2(k) - 1), Pow2(k))
    decreases x
  {
    hide Multiple;
    if x == 0 {
      ZeroIsMultiple(Pow2(k));
    } else if k == 0 {
      AndNotClearsLowBits(x / 2, 0);
      assert AndNot(x, 0) == 2 * AndNot(x / 2, 0) + x % 2;
      AnyIsMultipleOfOne(AndNot(x, 0));
    } else {
      var d := Pow2(k - 1);
      AndNotClearsLowBits(x / 2, k - 1);
      assert Pow2(k) == 2 * d;
      hide Pow2;
      assert (2 * d - 1) / 2 == d - 1 && (2 * d - 1) % 2 == 1;
      assert AndNot(x, 2 * d - 1) == 2 * AndNot(x / 2, d - 1);
      DoubleMultiple(AndNot(x / 2, d - 1), d);
    }
  }

  lemma ZeroIsMultiple(d: nat)
    ensures Multiple(0, d)
  {
    assert 0 == 0 * d;
  }

  lemma AnyIsMultipleOfOne(n: nat)
    ensures Multiple(n, 1)
  {
    assert n == n * 1;
  }

  lemma DoubleMultiple(n: nat, d: nat)
    requires Multiple(n, d)
    ensures Multiple(2 * n, 2 * d)
  {
    var q: nat :| n == q * d;
    assert 2 * n == q * (2 * d);
  }

  // For a power of two the mask gives the least multiple at or above.
  lemma AlignUpIsNextMultiple(current: nat, align: nat)
    requires PowerOfTwo(align)
    ensures align > 0
    ensures current <= AlignUp(current, align) < current + align
    ensures Multiple(AlignUp(current, align), align)
  {
    var k: nat :| align == Pow2(k);
    AndNotClearsLowBits(current + align - 1, k);
  }

  // ---- The allocator ------------------------------------------------------

  datatype State = State(offset: nat, live: set<Block>)

  // Where a block of this layout would go.
  function Placed(offset: nat, size: nat, align: nat): Block
    requires align > 0
  {
    Block(AlignUp(offset, align), size, align)
  }

  function End(b: Block): nat {
    b.at + b.size
  }

  function Alloc(s: State, size: nat, align: nat): (State, Option<Block>)
    requires align > 0
  {
    var b := Placed(s.offset, size, align);
    if End(b) <= HEAP_SIZE then (State(End(b), s.live + {b}), Some(b)) else (s, None)
  }

  function Free(s: State, b: Block): State {
    State(if End(b) == s.offset then b.at else s.offset, s.live - {b})
  }

  class Heap {
    const base: nat
    var offset: nat
    ghost var live: set<Block>

    constructor (base: nat)
      ensures this.base == base && offset == 0 && live == {}
    {
      this.base := base;
      offset, live := 0, {};
    }

    ghost function Now(): State
      reads this
    {
      State(offset, live)
    }

    // The address of the new block, or nothing when the heap is full.
    method AllocBlock(size: nat, align: nat) returns (address: Option<nat>)
      requires align > 0
      modifies this
      ensures Now() == Alloc(old(Now()), size, align).0
      ensures var b := Alloc(old(Now()), size, align).1;
              address == if b.Some? then Some(base + b.value.at) else None
    {
      var current := offset;
      hide AlignUp;
      var aligned := AlignUp(current, align);
      var next := aligned + size;
      if next > HEAP_SIZE {
        return None;
      }
      offset := next;
      live := live + {Block(aligned, size, align)};
      return Some(base + aligned);
    }

    // An address below the heap is ignored; otherwise the block that starts
    // there with this layout is given back.
    method DeallocBlock(address: nat, size: nat, align: nat)
      modifies this
      ensures address < base ==> Now() == old(Now())
      ensures address >= base ==> Now() == Free(old(Now()), Block(address - base, size, align))
    {
      if address < base {
        return;
      }
      var at := address - base;
      var end := at + size;
      if end == offset {
        offset := at;
      }
      live := live - {Block(at, size, align)};
    }
  }

  // ---- What every run keeps -----------------------------------------------

  predicate Apart(a: Block, b: Block) {
    End(a) <= b.at || End(b) <= a.at
  }

  ghost predicate Valid(s: State) {
    && s.offset <= HEAP_SIZE
    && (forall b :: b in s.live ==> 0 < b.size && End(b) <= s.offset && Multiple(b.at, b.align))
    && (forall a, b :: a in s.live && b in s.live && a != b ==> Apart(a, b))
  }

  // Layouts as the allocation interface promises them: a power of two, and
  // blocks that are not empty.
  datatype Op = AllocOp(size: nat, align: nat) | FreeOp(block: Block)

  ghost predicate Lawful(s: State, op: Op) {
    match op
    case AllocOp(size, align) => size > 0 && PowerOfTwo(align)
    case FreeOp(b) => b in s.live
  }

  ghost function Apply(s: State, op: Op): State
    requires Lawful(s, op)
  {
    match op
    case AllocOp(size, align) => AlignUpIsNextMultiple(s.offset, align); Alloc(s, size, align).0
    case FreeOp(b) => Free(s, b)
  }

  ghost predicate LawfulRun(s: State, ops: seq<Op>)
    decreases |ops|
  {
    ops == [] || (Lawful(s, ops[0]) && LawfulRun(Apply(s, ops[0]), ops[1..]))
  }

  ghost function Run(s: State, ops: seq<Op>): State
    requires LawfulRun(s, ops)
    decreases |ops|
  {
    if ops == [] then s else Run(Apply(s, ops[0]), ops[1..])
  }

  lemma {:induction false} RunsStayValid(s: State, ops: seq<Op>)
    requires Valid(s) && LawfulRun(s, ops)
    ensures Valid(Run(s, ops))
    decreases |ops|
  {
    if ops != [] {
      if ops[0].AllocOp? {
        AllocIsSound(s, ops[0].size, ops[0].align);
      } else {
        FreeIsSound(s, ops[0].block);
      }
      RunsStayValid(Apply(s, ops[0]), ops[1..]);
    }
  }

  // An allocation succeeds exactly when the next aligned place leaves room in
  // the heap. The new block is aligned and clear of every live block; a failed
  // allocation changes nothing.
  lemma AllocIsSound(s: State, size: nat, align: nat)
    requires Valid(s) && size > 0 && PowerOfTwo(align)
    ensures align > 0 && Valid(Alloc(s, size, align).0)
    ensures var (after, b) := Alloc(s, size, align);
            && (b.Some? <==> AlignUp(s.offset, align) + size <= 83_886_080)
            && (b.None? ==> after == s)
            && (b.Some? ==>
                  && after.live == s.live + {b.value} && b.value !in s.live
                  && b.value.size == size && Multiple(b.value.at, align)
                  && s.offset <= b.value.at && End(b.value) == after.offset <= HEAP_SIZE
                  && forall a :: a in s.live ==> Apart(a, b.value))
  {
    hide AlignUp, Multiple;
    AlignUpIsNextMultiple(s.offset, align);
  }

  // A free gives back exactly the topmost block, and then every block that
  // stays live lies below the new offset.
  lemma FreeIsSound(s: State, b: Block)
    requires Valid(s) && b in s.live
    ensures Valid(Free(s, b))
    ensures Free(s, b).offset < s.offset <==> End(b) == s.offset
    ensures End(b) == s.offset ==> forall a :: a in Free(s, b).live ==> End(a) <= Free(s, b).offset
  { }

  // ---- What is given back -------------------------------------------------

  lemma MultiplesAreFarApart(a: nat, b: nat, d: nat)
    requires Multiple(a, d) && Multiple(b, d) && a <= b < a + d
    ensures a == b
  {
    var p: nat :| a == p * d;
    var q: nat :| b == q * d;
    assert (q - p) * d == b - a;
    if q > p {
      Grows(q - p, d);
    } else if q < p {
      assert (p - q) * d == a - b;
      Grows(p - q, d);
    }
  }

  lemma Grows(k: nat, d: nat)
    requires k >= 1
    ensures k * d >= d
  { }

  lemma AlignedStays(current: nat, align: nat)
    requires PowerOfTwo(align)
    ensures align > 0
    ensures AlignUp(current, align) == current <==> Multiple(current, align)
  {
    hide AlignUp, Multiple;
    AlignUpIsNextMultiple(current, align);
    if Multiple(current, align) {
      MultiplesAreFarApart(current, AlignUp(current, align), align);
    }
  }

  datatype Layout = Layout(size: nat, align: nat)

  ghost predicate Proper(layouts: seq<Layout>) {
    forall i :: 0 <= i < |layouts| ==> layouts[i].size > 0 && PowerOfTwo(layouts[i].align) && layouts[i].align > 0
  }

  // Allocate each layout in turn, then free the blocks that were obtained in
  // the opposite order.
  ghost function Nested(s: State, layouts: seq<Layout>): State
    requires Proper(layouts)
    decreases |layouts|
  {
    if layouts == [] then s else
    var (after, b) := Alloc(s, layouts[0].size, layouts[0].align);
    var inner := Nested(after, layouts[1..]);
    if b.Some? then Free(inner, b.value) else inner
  }

  // Every block landed exactly where the one before it ended.
  ghost predicate Unpadded(s: State, layouts: seq<Layout>)
    requires Proper(layouts)
    decreases |layouts|
  {
    layouts == [] ||
    var (after, b) := Alloc(s, layouts[0].size, layouts[0].align);
    && (b.Some? ==> Multiple(s.offset, layouts[0].align))
    && Unpadded(after, layouts[1..])
  }

  // Alignment gaps are never recovered: freeing in the opposite order gives
  // all the space back exactly when no allocation needed padding. The blocks
  // themselves are always given up.
  lemma {:induction false} NestedRestoresIff(s: State, layouts: seq<Layout>)
    requires Valid(s) && Proper(layouts)
    ensures Nested(s, layouts).live == s.live && Nested(s, layouts).offset >= s.offset
    ensures Nested(s, layouts) == s <==> Unpadded(s, layouts)
    decreases |layouts|
  {
    hide AlignUp, Multiple, PowerOfTwo, Valid;
    if layouts != [] {
      var l := layouts[0];
      var (after, b) := Alloc(s, l.size, l.align);
      AllocIsSound(s, l.size, l.align);
      AlignUpIsNextMultiple(s.offset, l.align);
      NestedRestoresIff(after, layouts[1..]);
      if b.Some? {
        AlignedStays(s.offset, l.align);
      }
    }
  }

  // The order of frees matters too: freeing an older block before the topmost
  // one never gives back more, and gives back less when the two are adjacent.
  lemma WrongOrderLeaks(s: State, a: Block, b: Block)
    requires Valid(s) && a in s.live && b in s.live && a != b && End(b) == s.offset
    ensures Free(Free(s, b), a).offset <= Free(Free(s, a), b).offset
    ensures Free(Free(s, b), a).offset < Free(Free(s, a), b).offset <==> End(a) == b.at
  { }
}
