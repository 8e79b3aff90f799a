/**
 * Who drives each RP1 device after the handoff (rp1_dtb_policy.rs).
 *
 * A 64-bit ownership mask is the set of its bit positions, so `&`, `|` and `!`
 * are intersection, union and complement; MaskWords shows that this decides
 * what the operators on words decide. The device numbers come from the ABI
 * crate, which is not part of this model: `bit` is any assignment of distinct
 * positions below 64.
 */
module Policy {
  import opened Prelude

  datatype Device = Gpio | Uart0 | Uart1 | I2c0 | I2c1 | Spi0 | Pio0 | Pio1 | Dma | Timer

  type Mask = set<nat>

  type DeviceNumbers = Device -> nat

  ghost predicate Distinct(bit: DeviceNumbers) {
    && (forall d :: bit(d) < 64)
    && (forall d, e :: bit(d) == bit(e) ==> d == e)
  }

  // The order in which the device table lists its entries.
  const TABLE: seq<Device> := [Gpio, Uart0, Uart1, I2c0, I2c1, Spi0, Pio0, Pio1, Dma, Timer]

  datatype Owner = OwnedByRp1 | OwnedByLinux | OwnedByNobody | Unspecified

  datatype Source = FromNoteSource | FromConfigSource

  datatype Masks = Masks(rp1: Mask, linux: Mask, disabled: Mask)

  datatype Rp1DtbPolicy = Rp1DtbPolicy(masks: Masks, source: Source)

  datatype BootError =
    | Rp1DtbPolicyInvalid
    | Rp1DtbNodeNotFound
    | Rp1ConfigInvalid
    | MissingRp1Note
    | InvalidRp1Note

  function KnownMask(bit: DeviceNumbers): Mask {
    set d: Device | true :: bit(d)
  }

  function Validate(m: Masks, bit: DeviceNumbers): Result<(), BootError> {
    var overlap := m.rp1 * m.linux + m.rp1 * m.disabled + m.linux * m.disabled;
    if overlap != {} then Err(Rp1DtbPolicyInvalid) else
    var specified := m.rp1 + m.linux + m.disabled;
    if specified - KnownMask(bit) != {} then Err(Rp1DtbPolicyInvalid) else
    if specified * KnownMask(bit) != KnownMask(bit) then Err(Rp1DtbPolicyInvalid) else
    if m.linux * {bit(Pio0), bit(Pio1)} != {} then Err(Rp1DtbPolicyInvalid) else
    Ok(())
  }

  function OwnerOf(m: Masks, position: nat): Owner {
    if position in m.rp1 then OwnedByRp1
    else if position in m.linux then OwnedByLinux
    else if position in m.disabled then OwnedByNobody
    else Unspecified
  }

  function LinuxStatus(owner: Owner): Option<string> {
    match owner
    case OwnedByRp1 | OwnedByNobody => Some("disabled")
    case OwnedByLinux => Some("okay")
    case Unspecified => None
  }

  lemma EveryDeviceIsListed(d: Device)
    ensures d in TABLE
  {
    assert TABLE[0] == Gpio && TABLE[1] == Uart0 && TABLE[2] == Uart1 && TABLE[3] == I2c0 && TABLE[4] == I2c1;
    assert TABLE[5] == Spi0 && TABLE[6] == Pio0 && TABLE[7] == Pio1 && TABLE[8] == Dma && TABLE[9] == Timer;
  }

  // ---- What a valid policy is ---------------------------------------------

  // A decision for every device, and the masks that write it down.
  type Assignment = Device -> Owner

  function MasksOf(owner: Assignment, bit: DeviceNumbers): Masks {
    Masks(set d: Device | owner(d) == OwnedByRp1 :: bit(d),
          set d: Device | owner(d) == OwnedByLinux :: bit(d),
          set d: Device | owner(d) == OwnedByNobody :: bit(d))
  }

  function OwnersIn(m: Masks, bit: DeviceNumbers): Assignment {
    (d: Device) => OwnerOf(m, bit(d))
  }

  // Every device has an owner, and Linux does not get either PIO block.
  ghost predicate Acceptable(owner: Assignment) {
    && (forall d :: owner(d) != Unspecified)
    && owner(Pio0) != OwnedByLinux
    && owner(Pio1) != OwnedByLinux
  }

  // Writing a decision down and reading it back returns it.
  lemma MasksRecordOwners(owner: Assignment, bit: DeviceNumbers, d: Device)
    requires Distinct(bit)
    ensures OwnerOf(MasksOf(owner, bit), bit(d)) == owner(d)
  { }

  // Validation accepts exactly the masks of acceptable decisions: partitions
  // of the ten known devices, nothing else, without a Linux-owned PIO.
  lemma ValidateIsPartition(m: Masks, bit: DeviceNumbers)
    requires Distinct(bit)
    ensures Validate(m, bit).Ok? <==>
            m == MasksOf(OwnersIn(m, bit), bit) && Acceptable(OwnersIn(m, bit))
  {
    if Validate(m, bit).Ok? {
      ValidIsMasksOfOwners(m, bit);
    }
    if m == MasksOf(OwnersIn(m, bit), bit) && Acceptable(OwnersIn(m, bit)) {
      AcceptableValidates(OwnersIn(m, bit), bit);
    }
  }

  lemma ValidIsMasksOfOwners(m: Masks, bit: DeviceNumbers)
    requires Distinct(bit) && Validate(m, bit).Ok?
    ensures m == MasksOf(OwnersIn(m, bit), bit) && Acceptable(OwnersIn(m, bit))
  {
    var owner := OwnersIn(m, bit);
    var again := MasksOf(owner, bit);
    assert m.rp1 * m.linux == {} && m.rp1 * m.disabled == {} && m.linux * m.disabled == {};
    assert m.linux * {bit(Pio0), bit(Pio1)} == {};
    forall d ensures owner(d) != Unspecified {
      assert bit(d) in KnownMask(bit);
      assert bit(d) in (m.rp1 + m.linux + m.disabled) * KnownMask(bit);
    }
    assert bit(Pio0) in {bit(Pio0), bit(Pio1)} && bit(Pio1) in {bit(Pio0), bit(Pio1)};
    assert bit(Pio0) !in m.linux * {bit(Pio0), bit(Pio1)};
    assert bit(Pio1) !in m.linux * {bit(Pio0), bit(Pio1)};
    forall p: nat ensures (p in m.rp1 <==> p in again.rp1) && (p in m.linux <==> p in again.linux)
                    && (p in m.disabled <==> p in again.disabled) {
      if p in m.rp1 + m.linux + m.disabled {
        assert p !in (m.rp1 + m.linux + m.disabled) - KnownMask(bit);
        var d: Device :| bit(d) == p;
        assert OwnersIn(m, bit)(d) == OwnerOf(m, p);
        assert !(p in m.rp1 && p in m.linux) by { assert p !in m.rp1 * m.linux; }
        assert !(p in m.rp1 && p in m.disabled) by { assert p !in m.rp1 * m.disabled; }
        assert !(p in m.linux && p in m.disabled) by { assert p !in m.linux * m.disabled; }
        MasksRecordOwners(owner, bit, d);
        if p in again.linux { assert forall e :: bit(e) == p ==> e == d; }
        if p in again.disabled { assert forall e :: bit(e) == p ==> e == d; }
        if p in again.rp1 { assert forall e :: bit(e) == p ==> e == d; }
      }
    }
    assert m.rp1 == again.rp1 && m.linux == again.linux && m.disabled == again.disabled;
  }

  lemma AcceptableValidates(owner: Assignment, bit: DeviceNumbers)
    requires Distinct(bit) && Acceptable(owner)
    ensures Validate(MasksOf(owner, bit), bit) == Ok(())
  { }

  // ---- Where policies come from -------------------------------------------

  // The bit positions set in a number.
  function Positions(v: nat, low: nat := 0): Mask
    decreases v
  {
    if v == 0 then {} else (if v % 2 == 1 then {low} else {}) + Positions(v / 2, low + 1)
  }

  lemma {:induction false} PositionsAreBits(v: nat, low: nat, k: nat)
    ensures low + k in Positions(v, low) <==> (v / Pow2(k)) % 2 == 1
    ensures forall p :: p in Positions(v, low) ==> low <= p
    decreases v
  {
    if v == 0 {
      assert 0 / Pow2(k) == 0;
      return;
    }
    if k == 0 {
      PositionsAreBits(v / 2, low + 1, 0);
    } else {
      PositionsAreBits(v / 2, low + 1, k - 1);
      assert low + k == low + 1 + (k - 1);
      HalveFirst(v, Pow2(k - 1));
    }
  }

  lemma HalveFirst(v: nat, d: nat)
    requires d > 0
    ensures v / (2 * d) == (v / 2) / d
  {
    var q, r := (v / 2) / d, (v / 2) % d;
    assert v / 2 == q * d + r;
    var s := 2 * r + v % 2;
    assert v == q * (2 * d) + s && 0 <= s < 2 * d;
    Quotient(v, 2 * d, q, s);
  }

  lemma Quotient(v: nat, d: nat, q: nat, s: nat)
    requires d > 0 && v == q * d + s && s < d
    ensures v / d == q
  {
    var k := v / d - q;
    DistributeOver(v / d, q, d);
    assert k * d == s - v % d;
    if k >= 1 {
      Grows(k, d);
    } else if k <= -1 {
      Grows(-k, d);
    }
  }

  lemma DistributeOver(w: int, q: int, d: int)
    ensures (w - q) * d == w * d - q * d
  { }

  lemma Grows(k: int, d: nat)
    requires k >= 1
    ensures k * d >= d
  { }

  function FromNote(ownerRp1: nat, ownerLinux: nat, ownerDisabled: nat, bit: DeviceNumbers)
    : Result<Rp1DtbPolicy, BootError>
  {
    var m := Masks(Positions(ownerRp1), Positions(ownerLinux), Positions(ownerDisabled));
    match Validate(m, bit)
    case Err(e) => Err(e)
    case Ok(_) => Ok(Rp1DtbPolicy(m, FromNoteSource))
  }

  function FromConfig(ownerTableSeen: bool, m: Masks, bit: DeviceNumbers): Result<Rp1DtbPolicy, BootError> {
    if !ownerTableSeen then Err(Rp1ConfigInvalid) else
    match Validate(m, bit)
    case Err(e) => Err(e)
    case Ok(_) => Ok(Rp1DtbPolicy(m, FromConfigSource))
  }
}
