/**
 * The /config_rp1.txt override file (rp1_config.rs). Of its contents the last
 * `force_boot` line decides whether it is heard at all, and the `[owner]` table
 * which devices Linux gets.
 */
module ConfigText {
  import opened Prelude
  import opened Policy
  import opened LittleEndian
  import Utf8

  datatype Rp1Config = Rp1Config(
    forceBoot: bool,
    linuxPio: bool,
    startContractExplicit: bool,
    entryOverride: Option<u32>,
    stackOverride: Option<u32>,
    ownerTableSeen: bool,
    owners: Masks
  )

  const DEFAULT_CONFIG := Rp1Config(false, false, false, None, None, false, Masks({}, {}, {}))

  // ---- Text helpers -------------------------------------------------------

  // Where a character first occurs, or the length of the text.
  function Find(s: string, c: char): (r: nat)
    ensures r <= |s|
    ensures r < |s| ==> s[r] == c
    ensures forall k :: 0 <= k < r ==> s[k] != c
  {
    if s == [] || s[0] == c then 0 else 1 + Find(s[1..], c)
  }

  // The lines of a text, as `str::lines` gives them: the carriage return of a
  // CR LF ending goes too, and a text ending in a line feed has no extra line.
  function Lines(text: string): seq<string>
    decreases |text|
  {
    if text == "" then [] else
    var n := Find(text, '\n');
    if n == |text| then [text] else
    [if n > 0 && text[n - 1] == '\r' then text[..n - 1] else text[..n]] + Lines(text[n + 1..])
  }

  // The White_Space property of Unicode.
  predicate IsWhite(c: char) {
    || '\U{0009}' <= c <= '\U{000D}' || c == ' ' || c == '\U{0085}' || c == '\U{00A0}' || c == '\U{1680}'
    || '\U{2000}' <= c <= '\U{200A}' || c == '\U{2028}' || c == '\U{2029}' || c == '\U{202F}'
    || c == '\U{205F}' || c == '\U{3000}'
  }

  function TrimStart(s: string): string {
    if s != [] && IsWhite(s[0]) then TrimStart(s[1..]) else s
  }

  function TrimEnd(s: string): string {
    if s != [] && IsWhite(s[|s| - 1]) then TrimEnd(s[..|s| - 1]) else s
  }

  function Trim(s: string): string {
    TrimEnd(TrimStart(s))
  }

  function StripComment(line: string): string {
    line[..Find(line, '#')]
  }

  function TrimValue(v: string): string {
    if |v| >= 2 && v[0] == '"' && v[|v| - 1] == '"' then v[1..|v| - 1] else v
  }

  // ---- Numbers ------------------------------------------------------------

  function Digit(c: char, base: nat): Option<nat> {
    var v := if '0' <= c <= '9' then c as int - '0' as int
             else if 'a' <= c <= 'f' then c as int - 'a' as int + 10
             else if 'A' <= c <= 'F' then c as int - 'A' as int + 10
             else base;
    if v < base then Some(v) else None
  }

  function Numeral(s: string, base: nat): Option<nat> {
    if s == "" then Some(0) else
    match (Numeral(s[..|s| - 1], base), Digit(s[|s| - 1], base))
    case (Some(high), Some(low)) => Some(base * high + low)
    case _ => None
  }

  // An optional plus sign, at least one digit, and a value below 2^32.
  function FromStrRadix(s: string, base: nat): Option<u32> {
    var digits := if s != "" && s[0] == '+' then s[1..] else s;
    if digits == "" then None else
    match Numeral(digits, base)
    case Some(v) => if v < TWO_32 then Some(v) else None
    case None => None
  }

  function ParseU32(v: string): Option<u32> {
    if |v| >= 2 && v[0] == '0' && (v[1] == 'x' || v[1] == 'X') then FromStrRadix(v[2..], 16)
    else FromStrRadix(v, 10)
  }

  // ---- One line -----------------------------------------------------------

  datatype Section = Root | OwnerTable

  datatype Line = Blank | OwnerHeader | Setting(key: string, value: string) | Malformed

  function Classify(raw: string): Line {
    var line := Trim(StripComment(raw));
    if line == "" then Blank
    else if line == "[owner]" then OwnerHeader
    else if line[0] == '[' then Malformed
    else
      var e := Find(line, '=');
      if e == |line| then Malformed
      else Setting(Trim(line[..e]), TrimValue(Trim(line[e + 1..])))
  }

  lemma {:induction false} FindInFront(s: string, t: string, c: char)
    requires t != [] && t[0] == c
    ensures Find(s + t, c) == Find(s, c)
  {
    if s == [] {
      assert s + t == t;
    } else {
      assert (s + t)[1..] == s[1..] + t;
      FindInFront(s[1..], t, c);
    }
  }

  // A comment at the end of a line, or a second one, changes nothing.
  lemma CommentIsIgnored(line: string, comment: string)
    ensures Classify(line + "#" + comment) == Classify(line)
  {
    hide Find;
    assert line + "#" + comment == line + ("#" + comment);
    FindInFront(line, "#" + comment, '#');
    assert StripComment(line + "#" + comment) == StripComment(line);
  }

  function DeviceName(d: Device): string {
    match d
    case Gpio => "gpio"
    case Uart0 => "uart0"
    case Uart1 => "uart1"
    case I2c0 => "i2c0"
    case I2c1 => "i2c1"
    case Spi0 => "spi0"
    case Pio0 => "pio0"
    case Pio1 => "pio1"
    case Dma => "dma"
    case Timer => "timer"
  }

  function OwnerKey(key: string): Option<Device> {
    if key == "gpio" then Some(Gpio)
    else if key == "uart0" then Some(Uart0)
    else if key == "uart1" then Some(Uart1)
    else if key == "i2c0" then Some(I2c0)
    else if key == "i2c1" then Some(I2c1)
    else if key == "spi0" then Some(Spi0)
    else if key == "pio0" then Some(Pio0)
    else if key == "pio1" then Some(Pio1)
    else if key == "dma" then Some(Dma)
    else if key == "timer" then Some(Timer)
    else None
  }

  function OwnerWord(owner: Owner): string {
    match owner
    case OwnedByRp1 => "rp1"
    case OwnedByLinux => "linux"
    case OwnedByNobody => "disabled"
    case Unspecified => ""
  }

  function OwnerNamed(word: string): Owner {
    if word == "rp1" then OwnedByRp1
    else if word == "linux" then OwnedByLinux
    else if word == "disabled" then OwnedByNobody
    else Unspecified
  }

  function Specified(m: Masks): Mask {
    m.rp1 + m.linux + m.disabled
  }

  function With(m: Masks, position: nat, owner: Owner): Masks {
    match owner
    case OwnedByRp1 => m.(rp1 := m.rp1 + {position})
    case OwnedByLinux => m.(linux := m.linux + {position})
    case OwnedByNobody => m.(disabled := m.disabled + {position})
    case Unspecified => m
  }

  function SetOwner(config: Rp1Config, position: nat, word: string): Result<Rp1Config, ()> {
    if position in Specified(config.owners) then Err(())
    else if OwnerNamed(word) == Unspecified then Err(())
    else Ok(config.(owners := With(config.owners, position, OwnerNamed(word))))
  }

  function ForceBoot(): string { "force_boot" }

  function LinuxPio(): string { "linux_pio" }

  function StartContract(): string { "rp1_start_contract" }

  function EntryOverride(): string { "rp1_entry_override" }

  function StackOverride(): string { "rp1_stack_override" }

  function RootSetting(config: Rp1Config, key: string, value: string): Result<Rp1Config, ()> {
    if key == ForceBoot() && value == "true" then Ok(config.(forceBoot := true))
    else if key == ForceBoot() && value == "false" then Ok(config.(forceBoot := false))
    else if key == LinuxPio() && value == "false" then Ok(config.(linuxPio := false))
    else if key == LinuxPio() && value == "true" then Err(())
    else if key == StartContract() && value == "explicit" then Ok(config.(startContractExplicit := true))
    else if key == StartContract() && value == "default" then Ok(config.(startContractExplicit := false))
    else if key == EntryOverride() then
      (match ParseU32(value) case Some(v) => Ok(config.(entryOverride := Some(v))) case None => Err(()))
    else if key == StackOverride() then
      (match ParseU32(value) case Some(v) => Ok(config.(stackOverride := Some(v))) case None => Err(()))
    else Err(())
  }

  lemma KeysDiffer()
    ensures ForceBoot() !in {LinuxPio(), StartContract(), EntryOverride(), StackOverride()}
  {
    assert |ForceBoot()| == 10 && |LinuxPio()| == 9;
    assert |StartContract()| == 18 && |EntryOverride()| == 18 && |StackOverride()| == 18;
  }

  // ---- The whole file -----------------------------------------------------

  datatype Reading = Reading(config: Rp1Config, section: Section)

  function Step(st: Reading, raw: string, bit: DeviceNumbers): Result<Reading, ()> {
    match Classify(raw)
    case Blank => Ok(st)
    case OwnerHeader => Ok(Reading(st.config.(ownerTableSeen := true), OwnerTable))
    case Malformed => Err(())
    case Setting(key, value) =>
      if st.section == Root then
        match RootSetting(st.config, key, value)
        case Ok(config) => Ok(st.(config := config))
        case Err(_) => Err(())
      else
        match OwnerKey(key)
        case None => Err(())
        case Some(d) =>
          match SetOwner(st.config, bit(d), value)
          case Ok(config) => Ok(st.(config := config))
          case Err(_) => Err(())
  }

  function Read(lines: seq<string>, st: Reading, bit: DeviceNumbers): Result<Reading, ()> {
    if lines == [] then Ok(st) else
    match Step(st, lines[0], bit)
    case Err(_) => Err(())
    case Ok(next) => Read(lines[1..], next, bit)
  }

  function Parse(text: string, bit: DeviceNumbers): Result<Rp1Config, ()> {
    match Read(Lines(text), Reading(DEFAULT_CONFIG, Root), bit)
    case Err(_) => Err(())
    case Ok(st) => Ok(st.config)
  }

  // A file that may be absent, and may not be a text at all.
  function ParseFile(bytes: Option<Bytes>, bit: DeviceNumbers): Result<Rp1Config, ()> {
    if bytes.None? then Ok(DEFAULT_CONFIG) else
    match Utf8.Decode(bytes.value)
    case None => Err(())
    case Some(text) => Parse(text, bit)
  }

  method ParseOptionalConfig(bytes: Option<Bytes>, bit: DeviceNumbers) returns (r: Result<Rp1Config, ()>)
    ensures r == ParseFile(bytes, bit)
  {
    hide Classify, RootSetting, OwnerKey, SetOwner, Lines;
    var config := DEFAULT_CONFIG;
    if bytes.None? {
      return Ok(config);
    }
    var text := Utf8.Decode(bytes.value);
    if text.None? {
      return Err(());
    }
    var section := Root;
    var lines := Lines(text.value);
    var i := 0;
    while i < |lines|
      invariant i <= |lines|
      invariant Read(lines[i..], Reading(config, section), bit) == Read(lines, Reading(DEFAULT_CONFIG, Root), bit)
    {
      assert lines[i..][0] == lines[i] && lines[i..][1..] == lines[i + 1..];
      match Classify(lines[i]) {
        case Blank =>
        case OwnerHeader =>
          section := OwnerTable;
          config := config.(ownerTableSeen := true);
        case Malformed =>
          return Err(());
        case Setting(key, value) =>
          if section == Root {
            var updated := RootSetting(config, key, value);
            if updated.Err? { return Err(()); }
            config := updated.value;
          } else {
            var device := OwnerKey(key);
            if device.None? { return Err(()); }
            var updated := SetOwner(config, bit(device.value), value);
            if updated.Err? { return Err(()); }
            config := updated.value;
          }
      }
      i := i + 1;
    }
    r := Ok(config);
  }

  // ---- What a file says ---------------------------------------------------

  datatype Naming = Naming(device: Device, owner: Owner)

  function SectionAfter(line: Line, section: Section): Section {
    if line == OwnerHeader then OwnerTable else section
  }

  // A line that can be accepted where it stands, whatever came before it.
  predicate Readable(line: Line, section: Section) {
    match line
    case Blank => true
    case OwnerHeader => true
    case Malformed => false
    case Setting(key, value) =>
      if section == Root then RootSetting(DEFAULT_CONFIG, key, value).Ok?
      else OwnerKey(key).Some? && OwnerNamed(value) != Unspecified
  }

  predicate AllReadable(lines: seq<string>, section: Section) {
    lines == [] ||
    var line := Classify(lines[0]);
    Readable(line, section) && AllReadable(lines[1..], SectionAfter(line, section))
  }

  // The owners the file names, in order.
  function Namings(lines: seq<string>, section: Section): seq<Naming> {
    if lines == [] then [] else
    var line := Classify(lines[0]);
    (if section == OwnerTable && line.Setting? && OwnerKey(line.key).Some?
     then [Naming(OwnerKey(line.key).value, OwnerNamed(line.value))] else [])
    + Namings(lines[1..], SectionAfter(line, section))
  }

  function Forcing(line: Line, section: Section): seq<bool> {
    if section == Root && line.Setting? && line.key == ForceBoot() then [line.value == "true"] else []
  }

  // The values its `force_boot` lines give, in order: they stand before the owner table.
  function Forcings(lines: seq<string>, section: Section): seq<bool> {
    if lines == [] then [] else
    var line := Classify(lines[0]);
    Forcing(line, section) + Forcings(lines[1..], SectionAfter(line, section))
  }

  function LastOf(values: seq<bool>, default: bool): bool {
    if values == [] then default else values[|values| - 1]
  }

  predicate HasOwnerHeader(lines: seq<string>) {
    exists i :: 0 <= i < |lines| && Classify(lines[i]) == OwnerHeader
  }

  predicate NamedOnce(names: seq<Naming>) {
    forall i, j :: 0 <= i < j < |names| ==> names[i].device != names[j].device
  }

  // The masks that a list of namings amounts to.
  function MasksNamed(names: seq<Naming>, bit: DeviceNumbers): Masks {
    Masks(set n | n in names && n.owner == OwnedByRp1 :: bit(n.device),
          set n | n in names && n.owner == OwnedByLinux :: bit(n.device),
          set n | n in names && n.owner == OwnedByNobody :: bit(n.device))
  }

  function Join(a: Masks, b: Masks): Masks {
    Masks(a.rp1 + b.rp1, a.linux + b.linux, a.disabled + b.disabled)
  }

  predicate NoneSpecified(names: seq<Naming>, m: Masks, bit: DeviceNumbers) {
    forall n :: n in names ==> bit(n.device) !in Specified(m)
  }

  lemma RootSettingsIgnoreHistory(config: Rp1Config, key: string, value: string)
    ensures RootSetting(config, key, value).Ok? <==> RootSetting(DEFAULT_CONFIG, key, value).Ok?
    ensures RootSetting(config, key, value).Ok? ==>
              && RootSetting(config, key, value).value.owners == config.owners
              && RootSetting(config, key, value).value.ownerTableSeen == config.ownerTableSeen
              && RootSetting(config, key, value).value.forceBoot ==
                 if key == ForceBoot() then value == "true" else config.forceBoot
  {
    KeysDiffer();
    assert "false" != "true";
    hide ParseU32, ForceBoot, LinuxPio, StartContract, EntryOverride, StackOverride;
  }

  // One line, told apart from what came before it.
  lemma StepSplits(st: Reading, raw: string, bit: DeviceNumbers)
    ensures var line := Classify(raw); var here := Namings([raw], st.section);
            && (Step(st, raw, bit).Ok? <==> Readable(line, st.section) && NoneSpecified(here, st.config.owners, bit))
            && (Step(st, raw, bit).Ok? ==>
                  var next := Step(st, raw, bit).value;
                  && next.section == SectionAfter(line, st.section)
                  && next.config.owners == Join(st.config.owners, MasksNamed(here, bit))
                  && next.config.forceBoot == LastOf(Forcing(line, st.section), st.config.forceBoot)
                  && next.config.ownerTableSeen == (st.config.ownerTableSeen || line == OwnerHeader))
  {
    hide Classify, RootSetting, OwnerKey, OwnerNamed;
    var line := Classify(raw);
    assert [raw][1..] == [] && Namings([], SectionAfter(line, st.section)) == [];
    var here := Namings([raw], st.section);
    if line.Setting? && st.section == Root {
      RootSettingsIgnoreHistory(st.config, line.key, line.value);
    }
    if here == [] {
      assert Join(st.config.owners, MasksNamed(here, bit)) == st.config.owners;
    } else {
      var n := here[0];
      assert here == [n];
      assert n in here;
      if Step(st, raw, bit).Ok? {
        var m := st.config.owners;
        assert Step(st, raw, bit).value.config.owners == With(m, bit(n.device), n.owner);
        assert Join(m, MasksNamed([n], bit)) == With(m, bit(n.device), n.owner);
      }
    }
  }

  lemma FirstNaming(here: seq<Naming>, after: seq<Naming>, m: Masks, bit: DeviceNumbers)
    requires Distinct(bit) && |here| <= 1 && (here != [] ==> here[0].owner != Unspecified)
    ensures NamedOnce(here + after) && NoneSpecified(here + after, m, bit) <==>
            NoneSpecified(here, m, bit) && NamedOnce(after) && NoneSpecified(after, Join(m, MasksNamed(here, bit)), bit)
  {
    if here == [] {
      assert here + after == after;
      assert Join(m, MasksNamed(here, bit)) == m;
    } else {
      var n := here[0];
      assert here == [n];
      OneMoreNaming(n, after);
      OneSpecified(n, m, bit);
      hide NamedOnce, Join, MasksNamed, Specified;
      assert forall a :: a in here + after <==> a == n || a in after;
    }
  }

  // A first naming is apart from the others exactly when none of them names its device.
  lemma OneMoreNaming(n: Naming, after: seq<Naming>)
    ensures NamedOnce([n] + after) <==> NamedOnce(after) && forall a :: a in after ==> a.device != n.device
  {
    var all := [n] + after;
    assert forall k :: 0 <= k < |after| ==> all[k + 1] == after[k];
    if NamedOnce(all) {
      forall i, j | 0 <= i < j < |after| ensures after[i].device != after[j].device {
        assert all[i + 1] == after[i] && all[j + 1] == after[j];
      }
      forall a | a in after ensures a.device != n.device {
        var k :| 0 <= k < |after| && after[k] == a;
        assert all[0] == n && all[k + 1] == a;
      }
    }
    if NamedOnce(after) && forall a :: a in after ==> a.device != n.device {
      forall i, j | 0 <= i < j < |all| ensures all[i].device != all[j].device {
        assert all[j] == after[j - 1];
        if i > 0 { assert all[i] == after[i - 1]; }
      }
    }
  }

  lemma OneSpecified(n: Naming, m: Masks, bit: DeviceNumbers)
    requires n.owner != Unspecified
    ensures Specified(Join(m, MasksNamed([n], bit))) == Specified(m) + {bit(n.device)}
  {
    assert n in [n];
    assert Specified(MasksNamed([n], bit)) == {bit(n.device)};
  }

  lemma MasksNamedSplits(here: seq<Naming>, after: seq<Naming>, m: Masks, bit: DeviceNumbers)
    ensures Join(Join(m, MasksNamed(here, bit)), MasksNamed(after, bit)) == Join(m, MasksNamed(here + after, bit))
  { }

  lemma HeaderSplits(lines: seq<string>)
    requires lines != []
    ensures HasOwnerHeader(lines) <==> Classify(lines[0]) == OwnerHeader || HasOwnerHeader(lines[1..])
  { }

  // A file is accepted exactly when every line is readable where it stands and
  // no device is named twice; the masks are then what it names, no more.
  lemma {:induction false} ReadIff(lines: seq<string>, st: Reading, bit: DeviceNumbers)
    requires Distinct(bit)
    ensures var names := Namings(lines, st.section);
            && (Read(lines, st, bit).Ok? <==>
                  AllReadable(lines, st.section) && NamedOnce(names) && NoneSpecified(names, st.config.owners, bit))
            && (Read(lines, st, bit).Ok? ==>
                  var end := Read(lines, st, bit).value.config;
                  && end.owners == Join(st.config.owners, MasksNamed(names, bit))
                  && end.forceBoot == LastOf(Forcings(lines, st.section), st.config.forceBoot)
                  && end.ownerTableSeen == (st.config.ownerTableSeen || HasOwnerHeader(lines)))
  {
    hide Classify, Step, OwnerKey, OwnerNamed, NamedOnce, NoneSpecified, MasksNamed, Join, HasOwnerHeader, Forcing;
    if lines == [] {
      EmptyFile(st.config.owners, bit);
      return;
    }
    var line := Classify(lines[0]);
    var here := Namings([lines[0]], st.section);
    var after := Namings(lines[1..], SectionAfter(line, st.section));
    assert [lines[0]][1..] == [] && Namings([], SectionAfter(line, st.section)) == [];
    assert Namings(lines, st.section) == here + after;
    StepSplits(st, lines[0], bit);
    HeaderSplits(lines);
    if Readable(line, st.section) {
      FirstNaming(here, after, st.config.owners, bit);
      MasksNamedSplits(here, after, st.config.owners, bit);
      if Step(st, lines[0], bit).Ok? {
        ReadIff(lines[1..], Step(st, lines[0], bit).value, bit);
      }
    }
  }

  lemma EmptyFile(m: Masks, bit: DeviceNumbers)
    ensures NamedOnce([]) && NoneSpecified([], m, bit) && !HasOwnerHeader([])
    ensures Join(m, MasksNamed([], bit)) == m
  { }

  // The same for a whole file.
  lemma ParseIff(text: string, bit: DeviceNumbers)
    requires Distinct(bit)
    ensures var names := Namings(Lines(text), Root); var r := Parse(text, bit);
            && (r.Ok? <==> AllReadable(Lines(text), Root) && NamedOnce(names))
            && (r.Ok? ==>
                  && r.value.owners == MasksNamed(names, bit)
                  && r.value.ownerTableSeen == HasOwnerHeader(Lines(text))
                  && r.value.forceBoot == LastOf(Forcings(Lines(text), Root), false))
  {
    hide Lines, Read, AllReadable, Namings, Forcings, HasOwnerHeader, NamedOnce;
    ReadIff(Lines(text), Reading(DEFAULT_CONFIG, Root), bit);
    var m := MasksNamed(Namings(Lines(text), Root), bit);
    assert Join(DEFAULT_CONFIG.owners, m) == m;
  }

  lemma {:induction false} ReadableNamesOwners(lines: seq<string>, section: Section)
    requires AllReadable(lines, section)
    ensures forall n :: n in Namings(lines, section) ==> n.owner != Unspecified
  {
    hide Classify, OwnerKey, OwnerNamed;
    if lines != [] {
      ReadableNamesOwners(lines[1..], SectionAfter(Classify(lines[0]), section));
    }
  }

  // No successful parse gives a device to two owners.
  lemma ParsedOwnersAreDisjoint(text: string, bit: DeviceNumbers)
    requires Distinct(bit) && Parse(text, bit).Ok?
    ensures var m := Parse(text, bit).value.owners;
            && m.rp1 !! m.linux && m.rp1 !! m.disabled && m.linux !! m.disabled
            && Specified(m) <= KnownMask(bit)
  {
    hide Lines, AllReadable, Namings, Parse;
    ParseIff(text, bit);
    var names := Namings(Lines(text), Root);
    forall a, b | a in names && b in names && a.device == b.device ensures a == b {
      var i :| 0 <= i < |names| && names[i] == a;
      var j :| 0 <= j < |names| && names[j] == b;
      assert i == j;
    }
  }

  predicate IsNamed(d: Device, names: seq<Naming>) {
    exists n :: n in names && n.device == d
  }

  lemma DisjointMasksValidateIff(m: Masks, bit: DeviceNumbers)
    requires m.rp1 !! m.linux && m.rp1 !! m.disabled && m.linux !! m.disabled
    requires Specified(m) <= KnownMask(bit)
    ensures Validate(m, bit).Ok? <==>
            (forall d :: bit(d) in Specified(m)) && bit(Pio0) !in m.linux && bit(Pio1) !in m.linux
  {
    assert m.rp1 * m.linux + m.rp1 * m.disabled + m.linux * m.disabled == {};
    var specified := m.rp1 + m.linux + m.disabled;
    assert specified - KnownMask(bit) == {} && specified * KnownMask(bit) == specified;
    if forall d :: bit(d) in specified {
      assert specified == KnownMask(bit);
    }
    forall d: Device ensures bit(d) in KnownMask(bit) { }
    assert bit(Pio0) in m.linux ==> bit(Pio0) in m.linux * {bit(Pio0), bit(Pio1)};
    assert bit(Pio1) in m.linux ==> bit(Pio1) in m.linux * {bit(Pio0), bit(Pio1)};
  }

  // What the owner table must say to be a policy: it is there, names all ten devices and leaves both PIO
  // blocks from Linux.
  predicate NamesAPolicy(lines: seq<string>) {
    var names := Namings(lines, Root);
    && HasOwnerHeader(lines)
    && (forall d :: IsNamed(d, names))
    && Naming(Pio0, OwnedByLinux) !in names && Naming(Pio1, OwnedByLinux) !in names
  }

  // An accepted file amounts to a policy exactly then.
  lemma ConfigIsPolicyIff(text: string, bit: DeviceNumbers)
    requires Distinct(bit) && Parse(text, bit).Ok?
    ensures var c := Parse(text, bit).value;
            FromConfig(c.ownerTableSeen, c.owners, bit).Ok? <==> NamesAPolicy(Lines(text))
  {
    hide Lines, AllReadable, Namings, Parse, HasOwnerHeader;
    ParseIff(text, bit);
    ParsedOwnersAreDisjoint(text, bit);
    ReadableNamesOwners(Lines(text), Root);
    var names := Namings(Lines(text), Root);
    var m := MasksNamed(names, bit);
    hide Validate;
    DisjointMasksValidateIff(m, bit);
    assert bit(Pio0) in m.linux <==> Naming(Pio0, OwnedByLinux) in names;
    assert bit(Pio1) in m.linux <==> Naming(Pio1, OwnedByLinux) in names;
    forall d: Device ensures bit(d) in Specified(m) <==> IsNamed(d, names) {
      if n :| n in names && n.device == d {
        assert n.owner != Unspecified;
      }
    }
  }
}
