/** Applying the ownership policy to the device tree (dtb_patch.rs:111-175). */
module DtbPatch {
  import opened Prelude
  import opened Policy

  type Properties = map<string, string>

  // The tree as the patcher uses it: full node paths and their properties.
  type Nodes = map<string, Properties>

  // ---- The device table ---------------------------------------------------

  function UnitAddress(d: Device): (a: (string, string))
    requires d != Timer
    ensures |a.1| == 5
  {
    match d
    case Gpio => ("", "d0000")
    case Uart0 => ("", "30000")
    case Uart1 => ("", "34000")
    case I2c0 => ("", "70000")
    case I2c1 => ("", "74000")
    case Spi0 => ("", "50000")
    case Pio0 | Pio1 => ("1", "78000")
    case Dma => ("1", "88000")
  }

  function NodeName(d: Device, firmwareNaming: bool): string
    requires d != Timer
  {
    match d
    case Gpio => "gpio@"
    case Uart0 | Uart1 => if firmwareNaming then "serial@" else "uart@"
    case I2c0 | I2c1 => "i2c@"
    case Spi0 => "spi@"
    case Pio0 | Pio1 => "pio@"
    case Dma => "dma@"
  }

  function PathUnder(parent: string, d: Device, firmwareNaming: bool): string
    requires d != Timer
  {
    parent + NodeName(d, firmwareNaming) + UnitAddress(d).0 + UnitAddress(d).1
  }

  // The places where a device's node may be, in order; the timer has none.
  function FallbackPaths(d: Device): seq<string> {
    if d.Timer? then [] else
    [PathUnder("/axi/pcie@1000120000/rp1/", d, true),
     PathUnder("/axi/pcie@120000/rp1/", d, false),
     PathUnder("/soc/rp1/", d, false)]
  }

  function FindExistingNode(nodes: Nodes, paths: seq<string>): (r: Option<string>)
    ensures r.Some? ==> r.value in nodes && r.value in paths
    ensures r.None? ==> forall p :: p in paths ==> p !in nodes
  {
    if paths == [] then None
    else if paths[0] in nodes then Some(paths[0])
    else FindExistingNode(nodes, paths[1..])
  }

  function NodeOf(nodes: Nodes, d: Device): Option<string> {
    FindExistingNode(nodes, FallbackPaths(d))
  }

  function StatusProp(status: string): string {
    status + "\0"
  }

  // The property bytes a device's owner calls for.
  function Wanted(m: Masks, bit: DeviceNumbers, d: Device): Option<string> {
    match LinuxStatus(OwnerOf(m, bit(d)))
    case None => None
    case Some(status) => Some(StatusProp(status))
  }

  // ---- What applying a table does -----------------------------------------

  function WriteStatus(props: Properties, value: string): Properties {
    props["status" := value]
  }

  function SetStatus(nodes: Nodes, path: string, value: string): (r: Nodes)
    requires path in nodes
    ensures r.Keys == nodes.Keys
  {
    nodes[path := WriteStatus(nodes[path], value)]
  }

  // One pass over a table of devices: the tree it leaves and its verdict.
  function Apply(table: seq<Device>, nodes: Nodes, m: Masks, bit: DeviceNumbers): (Nodes, Result<(), BootError>) {
    if table == [] then (nodes, Ok(())) else
    var d := table[0];
    match Wanted(m, bit, d)
    case None => (nodes, Err(Rp1DtbPolicyInvalid))
    case Some(value) =>
      if FallbackPaths(d) == [] then Apply(table[1..], nodes, m, bit) else
      match NodeOf(nodes, d)
      case None => (nodes, Err(Rp1DtbNodeNotFound))
      case Some(path) => Apply(table[1..], SetStatus(nodes, path, value), m, bit)
  }

  class DeviceTree {
    var nodes: Nodes

    constructor (nodes: Nodes)
      ensures this.nodes == nodes
    {
      this.nodes := nodes;
    }

    method SetProperty(path: string, name: string, value: string)
      requires path in nodes
      modifies this
      ensures nodes == old(nodes)[path := old(nodes)[path][name := value]]
    {
      nodes := nodes[path := nodes[path][name := value]];
    }

    method FindNode(paths: seq<string>) returns (r: Option<string>)
      ensures r == FindExistingNode(nodes, paths)
    {
      var i := 0;
      while i < |paths|
        invariant i <= |paths|
        invariant FindExistingNode(nodes, paths[i..]) == FindExistingNode(nodes, paths)
      {
        assert paths[i..][1..] == paths[i + 1..];
        if paths[i] in nodes {
          return Some(paths[i]);
        }
        i := i + 1;
      }
      return None;
    }

    method ApplyRp1Policy(policy: Rp1DtbPolicy, bit: DeviceNumbers) returns (r: Result<(), BootError>)
      modifies this
      ensures (nodes, r) == ApplyPolicy(old(nodes), policy.masks, bit)
    {
      hide FindExistingNode, FallbackPaths, OwnerOf, LinuxStatus, Apply;
      r := Validate(policy.masks, bit);
      if r.Err? {
        return;
      }
      ApplyAtEnd(TABLE, nodes, policy.masks, bit);
      var i := 0;
      while i < |TABLE|
        invariant i <= |TABLE|
        invariant Apply(TABLE[i..], nodes, policy.masks, bit) == Apply(TABLE, old(nodes), policy.masks, bit)
      {
        ApplyAt(TABLE, i, nodes, policy.masks, bit);
        var d := TABLE[i];
        var status := LinuxStatus(OwnerOf(policy.masks, bit(d)));
        if status.None? {
          return Err(Rp1DtbPolicyInvalid);
        }
        if FallbackPaths(d) != [] {
          var path := FindNode(FallbackPaths(d));
          if path.None? {
            return Err(Rp1DtbNodeNotFound);
          }
          SetProperty(path.value, "status", StatusProp(status.value));
        }
        i := i + 1;
      }
      ApplyAtEnd(TABLE, nodes, policy.masks, bit);
    }
  }

  lemma ApplyAt(table: seq<Device>, i: nat, nodes: Nodes, m: Masks, bit: DeviceNumbers)
    requires i < |table|
    ensures var d := table[i];
            Apply(table[i..], nodes, m, bit) ==
            match Wanted(m, bit, d)
            case None => (nodes, Err(Rp1DtbPolicyInvalid))
            case Some(value) =>
              if FallbackPaths(d) == [] then Apply(table[i + 1..], nodes, m, bit) else
              match NodeOf(nodes, d)
              case None => (nodes, Err(Rp1DtbNodeNotFound))
              case Some(path) => Apply(table[i + 1..], SetStatus(nodes, path, value), m, bit)
  {
    hide FindExistingNode, FallbackPaths, Wanted, SetStatus;
    assert table[i..][0] == table[i] && table[i..][1..] == table[i + 1..];
  }

  lemma ApplyAtEnd(table: seq<Device>, nodes: Nodes, m: Masks, bit: DeviceNumbers)
    ensures Apply(table[|table|..], nodes, m, bit) == (nodes, Ok(())) && table[0..] == table
  { }

  // ---- Which devices share a node -----------------------------------------

  lemma FindUsesKeys(a: Nodes, b: Nodes, paths: seq<string>)
    requires a.Keys == b.Keys
    ensures FindExistingNode(a, paths) == FindExistingNode(b, paths)
  { }

  lemma PathEndsInAddress(d: Device, path: string)
    requires path in FallbackPaths(d)
    ensures d != Timer && |path| >= 5 && path[|path| - 5..] == UnitAddress(d).1
  { }

  // Only the two PIO blocks share a path.
  lemma SharedPath(d: Device, e: Device, path: string)
    requires path in FallbackPaths(d) && path in FallbackPaths(e)
    ensures d == e || (d in {Pio0, Pio1} && e in {Pio0, Pio1})
  {
    hide FallbackPaths;
    PathEndsInAddress(d, path);
    PathEndsInAddress(e, path);
    var a, b := UnitAddress(d).1, UnitAddress(e).1;
    assert a[0] == b[0] && a[1] == b[1];
  }

  // ---- What applying a policy achieves ------------------------------------

  // Every device of the table has its owner's status, and nothing else moved.
  ghost predicate Patched(table: seq<Device>, before: Nodes, after: Nodes, m: Masks, bit: DeviceNumbers) {
    && after.Keys == before.Keys
    && (forall d, path :: d in table && NodeOf(before, d) == Some(path) && Wanted(m, bit, d).Some? ==>
          after[path] == before[path]["status" := Wanted(m, bit, d).value])
    && (forall path :: path in before && (forall d :: d in table ==> NodeOf(before, d) != Some(path)) ==>
          after[path] == before[path])
  }

  ghost predicate Applicable(d: Device, nodes: Nodes, m: Masks, bit: DeviceNumbers) {
    Wanted(m, bit, d).Some? && (FallbackPaths(d) == [] || NodeOf(nodes, d).Some?)
  }

  ghost predicate PiosAgree(m: Masks, bit: DeviceNumbers) {
    Wanted(m, bit, Pio0) == Wanted(m, bit, Pio1)
  }

  lemma {:induction false} ApplySucceedsIff(table: seq<Device>, nodes: Nodes, m: Masks, bit: DeviceNumbers)
    ensures Apply(table, nodes, m, bit).1.Ok? <==> forall d :: d in table ==> Applicable(d, nodes, m, bit)
  {
    if table != [] {
      var d := table[0];
      assert d in table;
      if Applicable(d, nodes, m, bit) {
        var next := if FallbackPaths(d) == [] then nodes
                    else SetStatus(nodes, NodeOf(nodes, d).value, Wanted(m, bit, d).value);
        ApplySucceedsIff(table[1..], next, m, bit);
        forall e: Device ensures Applicable(e, next, m, bit) <==> Applicable(e, nodes, m, bit) {
          FindUsesKeys(next, nodes, FallbackPaths(e));
        }
        assert forall e :: e in table <==> e == d || e in table[1..];
      }
    }
  }

  lemma NodeOfUsesKeys(a: Nodes, b: Nodes, d: Device)
    requires a.Keys == b.Keys
    ensures NodeOf(a, d) == NodeOf(b, d)
  {
    FindUsesKeys(a, b, FallbackPaths(d));
  }

  lemma NoPathsNoNode(nodes: Nodes, d: Device)
    ensures FallbackPaths(d) == [] <==> d == Timer
    ensures FallbackPaths(d) == [] ==> NodeOf(nodes, d) == None
  { }

  lemma SharedNodeSharedStatus(nodes: Nodes, d: Device, e: Device, m: Masks, bit: DeviceNumbers)
    requires PiosAgree(m, bit) && NodeOf(nodes, d).Some? && NodeOf(nodes, d) == NodeOf(nodes, e)
    ensures Wanted(m, bit, d) == Wanted(m, bit, e)
  {
    hide FallbackPaths, Wanted;
    SharedPath(d, e, NodeOf(nodes, d).value);
  }

  lemma {:induction false} ApplyPatches(table: seq<Device>, nodes: Nodes, m: Masks, bit: DeviceNumbers)
    requires PiosAgree(m, bit) && Apply(table, nodes, m, bit).1.Ok?
    ensures Patched(table, nodes, Apply(table, nodes, m, bit).0, m, bit)
  {
    hide FindExistingNode, FallbackPaths, Wanted, PiosAgree;
    if table == [] {
      return;
    }
    var d := table[0];
    var rest := table[1..];
    assert forall e :: e in table <==> e == d || e in rest;
    if FallbackPaths(d) == [] {
      ApplyPatches(rest, nodes, m, bit);
      NoPathsNoNode(nodes, d);
      return;
    }
    var at, value := NodeOf(nodes, d).value, Wanted(m, bit, d).value;
    var next := SetStatus(nodes, at, value);
    ApplyPatches(rest, next, m, bit);
    var after := Apply(rest, next, m, bit).0;
    ApplySucceedsIff(rest, next, m, bit);
    forall e: Device ensures NodeOf(next, e) == NodeOf(nodes, e) {
      NodeOfUsesKeys(next, nodes, e);
    }
    forall e: Device | NodeOf(nodes, e) == Some(at) ensures Wanted(m, bit, e) == Some(value) {
      SharedNodeSharedStatus(nodes, d, e, m, bit);
    }
    hide NodeOf;
    forall path | path in nodes ensures
      && (forall e :: e in table && NodeOf(nodes, e) == Some(path) && Wanted(m, bit, e).Some? ==>
            after[path] == nodes[path]["status" := Wanted(m, bit, e).value])
      && ((forall e :: e in table ==> NodeOf(nodes, e) != Some(path)) ==> after[path] == nodes[path])
    {
      if path == at {
        assert nodes[path]["status" := value]["status" := value] == nodes[path]["status" := value];
        assert after[path] == nodes[path]["status" := value];
      } else {
        assert next[path] == nodes[path];
      }
    }
  }

  lemma PatchedIsUnique(table: seq<Device>, other: seq<Device>, before: Nodes, a: Nodes, b: Nodes, m: Masks, bit: DeviceNumbers)
    requires Patched(table, before, a, m, bit) && Patched(other, before, b, m, bit)
    requires forall d :: d in table <==> d in other
    requires forall d :: d in table ==> Applicable(d, before, m, bit)
    ensures a == b
  { }

  // ---- The policy as a whole ----------------------------------------------

  function ApplyPolicy(nodes: Nodes, m: Masks, bit: DeviceNumbers): (Nodes, Result<(), BootError>) {
    var validated := Validate(m, bit);
    if validated.Err? then (nodes, validated) else Apply(TABLE, nodes, m, bit)
  }

  lemma ValidPoliciesAgreeOnPio(m: Masks, bit: DeviceNumbers)
    requires Distinct(bit) && Validate(m, bit).Ok?
    ensures PiosAgree(m, bit) && forall d :: Wanted(m, bit, d).Some?
  {
    ValidIsMasksOfOwners(m, bit);
    forall d ensures Wanted(m, bit, d).Some? {
      assert OwnersIn(m, bit)(d) != Unspecified;
    }
    assert OwnersIn(m, bit)(Pio0) == OwnerOf(m, bit(Pio0));
    assert OwnersIn(m, bit)(Pio1) == OwnerOf(m, bit(Pio1));
  }

  // The property bytes of a device Linux may drive, and of any other.
  function ShownTo(owner: Owner): string {
    if owner == OwnedByLinux then "okay\0" else "disabled\0"
  }

  lemma WantedIsShown(m: Masks, bit: DeviceNumbers, d: Device)
    requires Distinct(bit) && Validate(m, bit).Ok?
    ensures Wanted(m, bit, d) == Some(ShownTo(OwnerOf(m, bit(d))))
  {
    ValidIsMasksOfOwners(m, bit);
    assert OwnersIn(m, bit)(d) != Unspecified;
    assert "okay" + "\0" == "okay\0" && "disabled" + "\0" == "disabled\0";
  }

  // The patch succeeds exactly when the policy is valid and the tree has a
  // node for every device but the timer.
  lemma PatchSucceedsIff(nodes: Nodes, m: Masks, bit: DeviceNumbers)
    requires Distinct(bit)
    ensures ApplyPolicy(nodes, m, bit).1.Ok? <==>
            Validate(m, bit).Ok? && forall d :: d != Timer ==> NodeOf(nodes, d).Some?
  {
    hide Validate, NodeOf, FallbackPaths, Wanted, Apply;
    if Validate(m, bit).Ok? {
      ApplySucceedsIff(TABLE, nodes, m, bit);
      forall d: Device ensures d in TABLE && (Applicable(d, nodes, m, bit) <==> d == Timer || NodeOf(nodes, d).Some?) {
        EveryDeviceIsListed(d);
        WantedIsShown(m, bit, d);
        NoPathsNoNode(nodes, d);
      }
    }
  }

  // After it, Linux sees exactly its own devices enabled and everything else
  // as it was.
  lemma PolicyReachesTheTree(nodes: Nodes, m: Masks, bit: DeviceNumbers)
    requires Distinct(bit) && ApplyPolicy(nodes, m, bit).1.Ok?
    ensures Patched(TABLE, nodes, ApplyPolicy(nodes, m, bit).0, m, bit)
    ensures forall d :: d != Timer ==> NodeOf(nodes, d).Some?
    ensures forall d :: d != Timer ==> 
              var after, at := ApplyPolicy(nodes, m, bit).0, NodeOf(nodes, d).value;
              at in nodes && at in after && after[at] == nodes[at]["status" := ShownTo(OwnerOf(m, bit(d)))]
  {
    hide Validate, FallbackPaths, Wanted, Apply, ShownTo, FindExistingNode;
    PatchSucceedsIff(nodes, m, bit);
    ValidPoliciesAgreeOnPio(m, bit);
    ApplyPatches(TABLE, nodes, m, bit);
    hide NodeOf;
    var after := ApplyPolicy(nodes, m, bit).0;
    forall d | d != Timer ensures
      var at := NodeOf(nodes, d).value;
      at in nodes && at in after && after[at] == nodes[at]["status" := ShownTo(OwnerOf(m, bit(d)))]
    {
      NodesAreInTheTree(nodes, d);
      EveryDeviceIsListed(d);
      WantedIsShown(m, bit, d);
      assert NodeOf(nodes, d) == Some(NodeOf(nodes, d).value);
    }
  }

  lemma NodesAreInTheTree(nodes: Nodes, d: Device)
    requires NodeOf(nodes, d).Some?
    ensures NodeOf(nodes, d).value in nodes
  { }

  // ---- The paths themselves -----------------------------------------------

  // Every device's places, written out: under the firmware's tree, under the other PCIe node, under the SoC.
  function FirmwarePlace(d: Device): string
    requires d != Timer
  {
    match d
    case Gpio => "/axi/pcie@1000120000/rp1/gpio@d0000"
    case Uart0 => "/axi/pcie@1000120000/rp1/serial@30000"
    case Uart1 => "/axi/pcie@1000120000/rp1/serial@34000"
    case I2c0 => "/axi/pcie@1000120000/rp1/i2c@70000"
    case I2c1 => "/axi/pcie@1000120000/rp1/i2c@74000"
    case Spi0 => "/axi/pcie@1000120000/rp1/spi@50000"
    case Pio0 => "/axi/pcie@1000120000/rp1/pio@178000"
    case Pio1 => "/axi/pcie@1000120000/rp1/pio@178000"
    case Dma => "/axi/pcie@1000120000/rp1/dma@188000"
  }

  function PciePlace(d: Device): string
    requires d != Timer
  {
    match d
    case Gpio => "/axi/pcie@120000/rp1/gpio@d0000"
    case Uart0 => "/axi/pcie@120000/rp1/uart@30000"
    case Uart1 => "/axi/pcie@120000/rp1/uart@34000"
    case I2c0 => "/axi/pcie@120000/rp1/i2c@70000"
    case I2c1 => "/axi/pcie@120000/rp1/i2c@74000"
    case Spi0 => "/axi/pcie@120000/rp1/spi@50000"
    case Pio0 => "/axi/pcie@120000/rp1/pio@178000"
    case Pio1 => "/axi/pcie@120000/rp1/pio@178000"
    case Dma => "/axi/pcie@120000/rp1/dma@188000"
  }

  function SocPlace(d: Device): string
    requires d != Timer
  {
    match d
    case Gpio => "/soc/rp1/gpio@d0000"
    case Uart0 => "/soc/rp1/uart@30000"
    case Uart1 => "/soc/rp1/uart@34000"
    case I2c0 => "/soc/rp1/i2c@70000"
    case I2c1 => "/soc/rp1/i2c@74000"
    case Spi0 => "/soc/rp1/spi@50000"
    case Pio0 => "/soc/rp1/pio@178000"
    case Pio1 => "/soc/rp1/pio@178000"
    case Dma => "/soc/rp1/dma@188000"
  }

  function Places(d: Device): (paths: seq<string>)
    requires d != Timer
    ensures |paths| == 3
  {
    [FirmwarePlace(d), PciePlace(d), SocPlace(d)]
  }

  // The last part of a device's path, by the firmware's name for it or the other.
  function Leaf(d: Device, firmwareNaming: bool): string
    requires d != Timer
  {
    match d
    case Gpio => "gpio@d0000"
    case Uart0 => if firmwareNaming then "serial@30000" else "uart@30000"
    case Uart1 => if firmwareNaming then "serial@34000" else "uart@34000"
    case I2c0 => "i2c@70000"
    case I2c1 => "i2c@74000"
    case Spi0 => "spi@50000"
    case Pio0 => "pio@178000"
    case Pio1 => "pio@178000"
    case Dma => "dma@188000"
  }

  lemma LeavesAreThese(d: Device, firmwareNaming: bool)
    requires d != Timer
    ensures NodeName(d, firmwareNaming) + (UnitAddress(d).0 + UnitAddress(d).1) == Leaf(d, firmwareNaming)
  {
    match d
    case Gpio => assert "gpio@" + ("" + "d0000") == "gpio@d0000";
    case Uart0 => assert "serial@" + ("" + "30000") == "serial@30000" && "uart@" + ("" + "30000") == "uart@30000";
    case Uart1 => assert "serial@" + ("" + "34000") == "serial@34000" && "uart@" + ("" + "34000") == "uart@34000";
    case I2c0 => assert "i2c@" + ("" + "70000") == "i2c@70000";
    case I2c1 => assert "i2c@" + ("" + "74000") == "i2c@74000";
    case Spi0 => assert "spi@" + ("" + "50000") == "spi@50000";
    case Pio0 => assert "pio@" + ("1" + "78000") == "pio@178000";
    case Pio1 => assert "pio@" + ("1" + "78000") == "pio@178000";
    case Dma => assert "dma@" + ("1" + "88000") == "dma@188000";
    case Timer =>
  }

  lemma FirmwareStrings()
    ensures "/axi/pcie@1000120000/rp1/gpio@d0000" == "/axi/pcie@1000120000/rp1/" + "gpio@d0000"
    ensures "/axi/pcie@1000120000/rp1/serial@30000" == "/axi/pcie@1000120000/rp1/" + "serial@30000"
    ensures "/axi/pcie@1000120000/rp1/serial@34000" == "/axi/pcie@1000120000/rp1/" + "serial@34000"
    ensures "/axi/pcie@1000120000/rp1/i2c@70000" == "/axi/pcie@1000120000/rp1/" + "i2c@70000"
  { }

  lemma MoreFirmwareStrings()
    ensures "/axi/pcie@1000120000/rp1/i2c@74000" == "/axi/pcie@1000120000/rp1/" + "i2c@74000"
    ensures "/axi/pcie@1000120000/rp1/spi@50000" == "/axi/pcie@1000120000/rp1/" + "spi@50000"
    ensures "/axi/pcie@1000120000/rp1/pio@178000" == "/axi/pcie@1000120000/rp1/" + "pio@178000"
    ensures "/axi/pcie@1000120000/rp1/dma@188000" == "/axi/pcie@1000120000/rp1/" + "dma@188000"
  { }

  lemma FirmwareLeaf(d: Device)
    requires d != Timer
    ensures FirmwarePlace(d) == "/axi/pcie@1000120000/rp1/" + Leaf(d, true)
  {
    FirmwareStrings();
    MoreFirmwareStrings();
  }

  lemma PcieStrings()
    ensures "/axi/pcie@120000/rp1/gpio@d0000" == "/axi/pcie@120000/rp1/" + "gpio@d0000"
    ensures "/axi/pcie@120000/rp1/uart@30000" == "/axi/pcie@120000/rp1/" + "uart@30000"
    ensures "/axi/pcie@120000/rp1/uart@34000" == "/axi/pcie@120000/rp1/" + "uart@34000"
    ensures "/axi/pcie@120000/rp1/i2c@70000" == "/axi/pcie@120000/rp1/" + "i2c@70000"
  { }

  lemma MorePcieStrings()
    ensures "/axi/pcie@120000/rp1/i2c@74000" == "/axi/pcie@120000/rp1/" + "i2c@74000"
    ensures "/axi/pcie@120000/rp1/spi@50000" == "/axi/pcie@120000/rp1/" + "spi@50000"
    ensures "/axi/pcie@120000/rp1/pio@178000" == "/axi/pcie@120000/rp1/" + "pio@178000"
    ensures "/axi/pcie@120000/rp1/dma@188000" == "/axi/pcie@120000/rp1/" + "dma@188000"
  { }

  lemma PcieLeaf(d: Device)
    requires d != Timer
    ensures PciePlace(d) == "/axi/pcie@120000/rp1/" + Leaf(d, false)
  {
    PcieStrings();
    MorePcieStrings();
  }

  lemma SocStrings()
    ensures "/soc/rp1/gpio@d0000" == "/soc/rp1/" + "gpio@d0000"
    ensures "/soc/rp1/uart@30000" == "/soc/rp1/" + "uart@30000"
    ensures "/soc/rp1/uart@34000" == "/soc/rp1/" + "uart@34000"
    ensures "/soc/rp1/i2c@70000" == "/soc/rp1/" + "i2c@70000"
    ensures "/soc/rp1/i2c@74000" == "/soc/rp1/" + "i2c@74000"
    ensures "/soc/rp1/spi@50000" == "/soc/rp1/" + "spi@50000"
    ensures "/soc/rp1/pio@178000" == "/soc/rp1/" + "pio@178000"
    ensures "/soc/rp1/dma@188000" == "/soc/rp1/" + "dma@188000"
  { }

  lemma SocLeaf(d: Device)
    requires d != Timer
    ensures SocPlace(d) == "/soc/rp1/" + Leaf(d, false)
  {
    SocStrings();
  }

  lemma PathsAreThese(d: Device)
    requires d != Timer
    ensures FallbackPaths(d) == Places(d)
  {
    hide NodeName, UnitAddress, Leaf, FirmwarePlace, PciePlace, SocPlace;
    LeavesAreThese(d, true);
    LeavesAreThese(d, false);
    FirmwareLeaf(d);
    PcieLeaf(d);
    SocLeaf(d);
    Joined("/axi/pcie@1000120000/rp1/", NodeName(d, true), UnitAddress(d).0, UnitAddress(d).1);
    Joined("/axi/pcie@120000/rp1/", NodeName(d, false), UnitAddress(d).0, UnitAddress(d).1);
    Joined("/soc/rp1/", NodeName(d, false), UnitAddress(d).0, UnitAddress(d).1);
  }

  lemma Joined(a: string, b: string, c: string, d: string)
    ensures a + b + c + d == a + (b + (c + d))
  { }

  // Of a device's places the first that exists is its node, in this order.
  lemma FirstPlaceIsTheNode(nodes: Nodes, d: Device)
    requires d != Timer
    ensures NodeOf(nodes, d) ==
            if Places(d)[0] in nodes then Some(Places(d)[0])
            else if Places(d)[1] in nodes then Some(Places(d)[1])
            else if Places(d)[2] in nodes then Some(Places(d)[2])
            else None
  {
    PathsAreThese(d);
    hide FallbackPaths, Places;
    FirstOfThree(nodes, Places(d));
  }

  lemma FirstOfThree(nodes: Nodes, ps: seq<string>)
    requires |ps| == 3
    ensures FindExistingNode(nodes, ps) ==
            if ps[0] in nodes then Some(ps[0]) else if ps[1] in nodes then Some(ps[1])
            else if ps[2] in nodes then Some(ps[2]) else None
  {
    assert FindExistingNode(nodes, ps[3..]) == None;
    assert ps[2..][1..] == ps[3..] && ps[1..][1..] == ps[2..];
    assert FindExistingNode(nodes, ps[2..]) == if ps[2] in nodes then Some(ps[2]) else None;
  }

  // Main result: a patch that succeeds leaves, at the first existing place of each device, its owner's status.
  lemma PlacesShowOwners(nodes: Nodes, m: Masks, bit: DeviceNumbers, d: Device)
    requires Distinct(bit) && ApplyPolicy(nodes, m, bit).1.Ok? && d != Timer
    ensures exists i :: 0 <= i < 3 && Places(d)[i] in nodes
    ensures forall i :: 0 <= i < 3 && Places(d)[i] in nodes && (forall j :: 0 <= j < i ==> Places(d)[j] !in nodes) ==>
              var at, after := Places(d)[i], ApplyPolicy(nodes, m, bit).0;
              && at in after
              && after[at] == nodes[at]["status" := if OwnerOf(m, bit(d)) == OwnedByLinux then "okay\0" else "disabled\0"]
  {
    hide ApplyPolicy, NodeOf, Places;
    PolicyReachesTheTree(nodes, m, bit);
    FirstPlaceIsTheNode(nodes, d);
  }

  // Listing the devices in another order, or some of them twice, gives the
  // same verdict and the same tree, although both PIO blocks have one node.
  lemma OrderDoesNotMatter(other: seq<Device>, nodes: Nodes, m: Masks, bit: DeviceNumbers)
    requires Distinct(bit) && Validate(m, bit).Ok?
    requires forall d :: d in TABLE <==> d in other
    ensures Apply(other, nodes, m, bit).1 == ApplyPolicy(nodes, m, bit).1
    ensures ApplyPolicy(nodes, m, bit).1.Ok? ==> Apply(other, nodes, m, bit) == ApplyPolicy(nodes, m, bit)
  {
    ValidPoliciesAgreeOnPio(m, bit);
    ApplySucceedsIff(TABLE, nodes, m, bit);
    ApplySucceedsIff(other, nodes, m, bit);
    OnlyNodeErrors(TABLE, nodes, m, bit);
    OnlyNodeErrors(other, nodes, m, bit);
    if Apply(TABLE, nodes, m, bit).1.Ok? {
      ApplyPatches(TABLE, nodes, m, bit);
      ApplyPatches(other, nodes, m, bit);
      PatchedIsUnique(TABLE, other, nodes, Apply(TABLE, nodes, m, bit).0, Apply(other, nodes, m, bit).0, m, bit);
    }
  }

  lemma {:induction false} OnlyNodeErrors(table: seq<Device>, nodes: Nodes, m: Masks, bit: DeviceNumbers)
    requires forall d :: Wanted(m, bit, d).Some?
    ensures Apply(table, nodes, m, bit).1 in {Ok(()), Err(Rp1DtbNodeNotFound)}
  {
    if table != [] {
      var d := table[0];
      if FallbackPaths(d) == [] {
        OnlyNodeErrors(table[1..], nodes, m, bit);
      } else if NodeOf(nodes, d).Some? {
        OnlyNodeErrors(table[1..], SetStatus(nodes, NodeOf(nodes, d).value, Wanted(m, bit, d).value), m, bit);
      }
    }
  }

  // The rule against a Linux-owned PIO is what makes that true: for masks that
  // specify both PIO blocks, swapping the two entries leaves the same tree
  // exactly when their statuses agree.
  lemma PioOrderMattersIffStatusesDiffer(nodes: Nodes, m: Masks, bit: DeviceNumbers)
    requires Wanted(m, bit, Pio0).Some? && Wanted(m, bit, Pio1).Some? && NodeOf(nodes, Pio0).Some?
    ensures Apply([Pio0, Pio1], nodes, m, bit) == Apply([Pio1, Pio0], nodes, m, bit) <==> PiosAgree(m, bit)
  {
    assert FallbackPaths(Pio0) == FallbackPaths(Pio1);
    LastOfTwoWins(Pio0, Pio1, nodes, m, bit);
    LastOfTwoWins(Pio1, Pio0, nodes, m, bit);
    var at := NodeOf(nodes, Pio0).value;
    var x, y := Wanted(m, bit, Pio0).value, Wanted(m, bit, Pio1).value;
    if x != y {
      assert SetStatus(nodes, at, x)[at]["status"] == x;
      assert SetStatus(nodes, at, y)[at]["status"] == y;
    }
  }

  lemma LastOfTwoWins(d: Device, e: Device, nodes: Nodes, m: Masks, bit: DeviceNumbers)
    requires d != Timer && FallbackPaths(d) == FallbackPaths(e)
    requires Wanted(m, bit, d).Some? && Wanted(m, bit, e).Some? && NodeOf(nodes, d).Some?
    ensures Apply([d, e], nodes, m, bit) == (SetStatus(nodes, NodeOf(nodes, d).value, Wanted(m, bit, e).value), Ok(()))
  {
    hide FindExistingNode, FallbackPaths, Wanted;
    var at := NodeOf(nodes, d).value;
    var first := SetStatus(nodes, at, Wanted(m, bit, d).value);
    NoPathsNoNode(nodes, d);
    FindUsesKeys(first, nodes, FallbackPaths(e));
    assert [d, e][1..] == [e] && [e][1..] == [];
    SetTwice(nodes, at, Wanted(m, bit, d).value, Wanted(m, bit, e).value);
    hide SetStatus;
    var last := SetStatus(first, at, Wanted(m, bit, e).value);
    assert Apply([], last, m, bit) == (last, Ok(()));
    assert Apply([e], first, m, bit) == Apply([], last, m, bit);
  }

  lemma SetTwice(nodes: Nodes, at: string, first: string, last: string)
    requires at in nodes
    ensures SetStatus(SetStatus(nodes, at, first), at, last) == SetStatus(nodes, at, last)
  {
    var a, b := SetStatus(SetStatus(nodes, at, first), at, last), SetStatus(nodes, at, last);
    WriteTwice(nodes[at], first, last);
    hide WriteStatus;
    forall path | path in a ensures a[path] == b[path] { }
  }

  lemma WriteTwice(props: Properties, first: string, last: string)
    ensures WriteStatus(WriteStatus(props, first), last) == WriteStatus(props, last)
  { }

  // Patching a patched tree changes nothing.
  lemma PatchingTwiceIsPatchingOnce(nodes: Nodes, m: Masks, bit: DeviceNumbers)
    requires Distinct(bit) && ApplyPolicy(nodes, m, bit).1.Ok?
    ensures ApplyPolicy(ApplyPolicy(nodes, m, bit).0, m, bit) == ApplyPolicy(nodes, m, bit)
  {
    hide Validate, FallbackPaths, Wanted, Apply, ShownTo, NodeOf;
    var once := ApplyPolicy(nodes, m, bit).0;
    PolicyReachesTheTree(nodes, m, bit);
    forall d: Device ensures NodeOf(once, d) == NodeOf(nodes, d) {
      NodeOfUsesKeys(once, nodes, d);
    }
    PatchSucceedsIff(nodes, m, bit);
    PatchSucceedsIff(once, m, bit);
    ApplySucceedsIff(TABLE, nodes, m, bit);
    PolicyReachesTheTree(once, m, bit);
    StatusesSettle(nodes, once, ApplyPolicy(once, m, bit).0, m, bit);
    var again, first := ApplyPolicy(once, m, bit).1, ApplyPolicy(nodes, m, bit).1;
    assert again.value == () && first.value == ();
  }

  lemma StatusesSettle(nodes: Nodes, once: Nodes, twice: Nodes, m: Masks, bit: DeviceNumbers)
    requires Patched(TABLE, nodes, once, m, bit) && Patched(TABLE, once, twice, m, bit)
    requires forall d :: NodeOf(once, d) == NodeOf(nodes, d)
    requires forall d :: d in TABLE ==> Applicable(d, nodes, m, bit)
    ensures twice == once
  {
    hide NodeOf, Wanted, FallbackPaths;
    forall path | path in nodes ensures twice[path] == once[path] {
      if d :| d in TABLE && NodeOf(nodes, d) == Some(path) {
        assert NodeOf(once, d) == Some(path) && Applicable(d, nodes, m, bit);
        var v := Wanted(m, bit, d).value;
        assert once[path] == nodes[path]["status" := v];
        assert once[path]["status" := v] == once[path];
      } else {
        forall d | d in TABLE ensures NodeOf(once, d) != Some(path) {
          assert NodeOf(nodes, d) != Some(path);
        }
      }
    }
  }

  // Even a patch that stops half way has touched only status properties.
  lemma {:induction false} OnlyStatusChanges(table: seq<Device>, nodes: Nodes, m: Masks, bit: DeviceNumbers, path: string, name: string)
    requires path in nodes && name != "status"
    ensures path in Apply(table, nodes, m, bit).0
    ensures name in nodes[path] <==> name in Apply(table, nodes, m, bit).0[path]
    ensures name in nodes[path] ==> Apply(table, nodes, m, bit).0[path][name] == nodes[path][name]
  {
    if table != [] {
      var d := table[0];
      if Wanted(m, bit, d).Some? {
        if FallbackPaths(d) == [] {
          OnlyStatusChanges(table[1..], nodes, m, bit, path, name);
        } else if NodeOf(nodes, d).Some? {
          OnlyStatusChanges(table[1..], SetStatus(nodes, NodeOf(nodes, d).value, Wanted(m, bit, d).value), m, bit, path, name);
        }
      }
    }
  }
}
