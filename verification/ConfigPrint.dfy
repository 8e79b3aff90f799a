/** Writing an ownership decision as a configuration file, and reading it back. */
module ConfigPrint {
  import opened Prelude
  import opened Policy
  import opened ConfigText

  // `key = value`, with the value in quotes or not.
  function PrintSetting(key: string, value: string, quoted: bool): string {
    key + " = " + (if quoted then "\"" + value + "\"" else value)
  }

  function PrintNaming(d: Device, owner: Owner): string {
    PrintSetting(DeviceName(d), OwnerWord(owner), true)
  }

  function PrintNamings(order: seq<Device>, owner: Assignment): string {
    if order == [] then "" else PrintNaming(order[0], owner(order[0])) + "\n" + PrintNamings(order[1..], owner)
  }

  // A file that asks for the override and names the devices in some order.
  function Print(order: seq<Device>, owner: Assignment): string {
    PrintSetting("force_boot", "true", false) + "\n" + ("[owner]" + "\n" + PrintNamings(order, owner))
  }

  predicate PlainChar(c: char) {
    'a' <= c <= 'z' || '0' <= c <= '9' || c == '_'
  }

  predicate Plain(s: string) {
    s != "" && forall k :: 0 <= k < |s| ==> PlainChar(s[k])
  }

  // A text in one line, without comments, that neither starts nor ends blank.
  predicate Solid(s: string) {
    && (forall k :: 0 <= k < |s| ==> s[k] != '#' && s[k] != '\n' && s[k] != '\r')
    && (s != "" ==> !IsWhite(s[0]) && !IsWhite(s[|s| - 1]))
  }

  lemma SolidIsKept(s: string)
    requires Solid(s)
    ensures StripComment(s) == s && Trim(s) == s
  { }

  lemma SolidIsOneLine(s: string, rest: string)
    requires Solid(s)
    ensures Lines(s + "\n" + rest) == [s] + Lines(rest)
  {
    var text := s + "\n" + rest;
    var n := Find(text, '\n');
    assert text[|s|] == '\n';
    assert forall k :: 0 <= k < |s| ==> text[k] == s[k];
    assert n == |s|;
    assert text[..n] == s && text[n + 1..] == rest;
    assert n > 0 ==> text[n - 1] == s[n - 1];
  }

  // One blank on either side goes away.
  lemma BlanksAreTrimmed(s: string)
    requires Solid(s) && s != ""
    ensures Trim(s + " ") == s && Trim(" " + s) == s
  {
    var after, before := s + " ", " " + s;
    assert after[0] == s[0] && after[|after| - 1] == ' ' && after[..|after| - 1] == s;
    assert before[0] == ' ' && before[1..] == s;
    assert TrimStart(after) == after && TrimEnd(after) == TrimEnd(s) == s;
    assert TrimStart(before) == TrimStart(s) == s;
  }

  lemma ValueIsRead(value: string, quoted: bool)
    requires Plain(value)
    ensures var text := if quoted then "\"" + value + "\"" else value;
            Solid(text) && text != "" && TrimValue(text) == value
  { }

  lemma SettingParts(key: string, text: string)
    ensures var line := key + " = " + text; var n := |key|;
            && line[..n] == key && line[n] == ' ' && line[n + 1] == '=' && line[n + 2] == ' '
            && line[..n + 1] == key + " " && line[n + 2..] == " " + text && line[n + 3..] == text
  { }

  lemma SettingIsSolid(key: string, text: string)
    requires Plain(key) && Solid(text) && text != ""
    ensures var line := key + " = " + text;
            Solid(line) && line[0] == key[0] && Find(line, '=') == |key| + 1
  {
    var line, n := key + " = " + text, |key|;
    SettingParts(key, text);
    forall k | 0 <= k < |line| ensures line[k] != '#' && line[k] != '\n' && line[k] != '\r' && (k <= n ==> line[k] != '=') {
      if k < n {
        assert line[k] == line[..n][k] && PlainChar(key[k]);
      } else if k >= n + 3 {
        assert line[k] == line[n + 3..][k - n - 3];
      }
    }
    assert PlainChar(key[0]) && line[0] == line[..n][0];
    assert line[|line| - 1] == line[n + 3..][|text| - 1];
  }

  lemma PlainIsSolid(s: string)
    requires Plain(s)
    ensures Solid(s)
  { }

  lemma PrintedSettingIsRead(key: string, value: string, quoted: bool)
    requires Plain(key) && Plain(value)
    ensures Solid(PrintSetting(key, value, quoted))
    ensures Classify(PrintSetting(key, value, quoted)) == Setting(key, value)
  {
    hide TrimStart, TrimEnd, TrimValue, Solid;
    var text := if quoted then "\"" + value + "\"" else value;
    var line := key + " = " + text;
    ValueIsRead(value, quoted);
    PlainIsSolid(key);
    SettingParts(key, text);
    SettingIsSolid(key, text);
    SolidIsKept(line);
    BlanksAreTrimmed(key);
    BlanksAreTrimmed(text);
    assert PlainChar(line[0]);
  }

  lemma HeaderIsRead()
    ensures Solid("[owner]") && Classify("[owner]") == OwnerHeader
  {
    hide TrimStart, TrimEnd;
    var s := "[owner]";
    assert s[0] == '[' && s[1] == 'o' && s[2] == 'w' && s[3] == 'n' && s[4] == 'e' && s[5] == 'r' && s[6] == ']';
    SolidIsKept(s);
  }

  lemma NamesArePlain(d: Device)
    ensures Plain(DeviceName(d)) && OwnerKey(DeviceName(d)) == Some(d)
  {
    var s := DeviceName(d);
    assert s == "gpio" || s == "dma" || (|s| == 4 && s[0] != 'g') || |s| == 5;
  }

  lemma WordsArePlain(owner: Owner)
    requires owner != Unspecified
    ensures Plain(OwnerWord(owner)) && OwnerNamed(OwnerWord(owner)) == owner
  { }

  function NamingsOf(order: seq<Device>, owner: Assignment): seq<Naming> {
    seq(|order|, i requires 0 <= i < |order| => Naming(order[i], owner(order[i])))
  }

  lemma {:induction false} PrintedNamingsAreRead(order: seq<Device>, owner: Assignment)
    requires forall d :: d in order ==> owner(d) != Unspecified
    ensures AllReadable(Lines(PrintNamings(order, owner)), OwnerTable)
    ensures Namings(Lines(PrintNamings(order, owner)), OwnerTable) == NamingsOf(order, owner)
  {
    hide Classify, OwnerKey, OwnerNamed, Lines, Plain, Solid, PrintSetting;
    if order == [] {
      EmptyTextHasNoLines();
    } else {
      var d := order[0];
      var line := PrintNaming(d, owner(d));
      NamesArePlain(d);
      WordsArePlain(owner(d));
      PrintedSettingIsRead(DeviceName(d), OwnerWord(owner(d)), true);
      SolidIsOneLine(line, PrintNamings(order[1..], owner));
      var lines := Lines(PrintNamings(order, owner));
      assert lines[0] == line && lines[1..] == Lines(PrintNamings(order[1..], owner));
      PrintedNamingsAreRead(order[1..], owner);
      assert NamingsOf(order, owner) == [Naming(d, owner(d))] + NamingsOf(order[1..], owner);
    }
  }

  lemma EmptyTextHasNoLines()
    ensures Lines("") == []
  { }

  lemma {:induction false} OwnerLinesKeepTheRest(lines: seq<string>, st: Reading, bit: DeviceNumbers)
    requires st.section == OwnerTable && st.config.ownerTableSeen && Read(lines, st, bit).Ok?
    ensures var end := Read(lines, st, bit).value.config;
            end == st.config.(owners := end.owners)
  {
    hide Classify, OwnerKey;
    if lines != [] {
      OwnerLinesKeepTheRest(lines[1..], Step(st, lines[0], bit).value, bit);
    }
  }

  lemma PrintedHead(order: seq<Device>, owner: Assignment, bit: DeviceNumbers)
    ensures var config := DEFAULT_CONFIG.(forceBoot := true, ownerTableSeen := true);
            Read(Lines(Print(order, owner)), Reading(DEFAULT_CONFIG, Root), bit) ==
            Read(Lines(PrintNamings(order, owner)), Reading(config, OwnerTable), bit)
  {
    hide Classify, Lines, Solid, PrintNamings, PrintSetting;
    var first := PrintSetting("force_boot", "true", false);
    assert Plain("force_boot") && Plain("true");
    PrintedSettingIsRead("force_boot", "true", false);
    HeaderIsRead();
    var body := PrintNamings(order, owner);
    SolidIsOneLine(first, "[owner]" + "\n" + body);
    SolidIsOneLine("[owner]", body);
    var lines := Lines(Print(order, owner));
    assert Print(order, owner) == first + "\n" + ("[owner]" + "\n" + body);
    assert lines == [first] + (["[owner]"] + Lines(body));
    assert lines[0] == first && lines[1..] == ["[owner]"] + Lines(body);
    assert lines[1..][0] == "[owner]" && lines[1..][1..] == Lines(body);
    var st := Reading(DEFAULT_CONFIG, Root);
    var forced := Reading(DEFAULT_CONFIG.(forceBoot := true), Root);
    assert Step(st, first, bit) == Ok(forced);
    assert Read(lines, st, bit) == Read(lines[1..], forced, bit);
  }

  // Reading a printed decision returns its masks, whatever the order.
  lemma PrintThenParse(order: seq<Device>, owner: Assignment, bit: DeviceNumbers)
    requires Distinct(bit)
    requires forall i, j :: 0 <= i < j < |order| ==> order[i] != order[j]
    requires forall d :: d in order <==> owner(d) != Unspecified
    ensures Parse(Print(order, owner), bit) ==
            Ok(DEFAULT_CONFIG.(forceBoot := true, ownerTableSeen := true, owners := MasksOf(owner, bit)))
  {
    hide Read, Lines, AllReadable, Namings, Print, PrintNamings;
    PrintedHead(order, owner, bit);
    PrintedNamingsAreRead(order, owner);
    var st := Reading(DEFAULT_CONFIG.(forceBoot := true, ownerTableSeen := true), OwnerTable);
    var lines := Lines(PrintNamings(order, owner));
    ReadIff(lines, st, bit);
    OwnerLinesKeepTheRest(lines, st, bit);
    NamingsCarryMasks(order, owner, bit);
    var names := NamingsOf(order, owner);
    assert Join(st.config.owners, MasksNamed(names, bit)) == MasksNamed(names, bit);
  }

  lemma NamingsCarryMasks(order: seq<Device>, owner: Assignment, bit: DeviceNumbers)
    requires forall d :: d in order <==> owner(d) != Unspecified
    ensures MasksNamed(NamingsOf(order, owner), bit) == MasksOf(owner, bit)
  {
    var names := NamingsOf(order, owner);
    forall d: Device ensures owner(d) != Unspecified <==> Naming(d, owner(d)) in names {
      if d in order {
        var i :| 0 <= i < |order| && order[i] == d;
        assert names[i] == Naming(d, owner(d));
      }
    }
    forall n | n in names ensures n.owner == owner(n.device) {
      var i :| 0 <= i < |names| && names[i] == n;
    }
    var a, b := MasksNamed(names, bit), MasksOf(owner, bit);
    forall p ensures (p in a.rp1 <==> p in b.rp1) && (p in a.linux <==> p in b.linux) && (p in a.disabled <==> p in b.disabled) {
      if p in b.rp1 {
        var d: Device :| owner(d) == OwnedByRp1 && bit(d) == p;
        assert Naming(d, OwnedByRp1) in names;
      }
      if p in b.linux {
        var d: Device :| owner(d) == OwnedByLinux && bit(d) == p;
        assert Naming(d, OwnedByLinux) in names;
      }
      if p in b.disabled {
        var d: Device :| owner(d) == OwnedByNobody && bit(d) == p;
        assert Naming(d, OwnedByNobody) in names;
      }
    }
  }

  // A valid policy written to the file, as bytes, comes back as the same policy.
  lemma PolicySurvivesTheFile(order: seq<Device>, m: Masks, bit: DeviceNumbers)
    requires Distinct(bit) && Validate(m, bit).Ok?
    requires forall i, j :: 0 <= i < j < |order| ==> order[i] != order[j]
    requires forall d: Device :: d in order
    ensures var r := ParseFile(Some(Utf8.Encode(Print(order, OwnersIn(m, bit)))), bit);
            r.Ok? && FromConfig(r.value.ownerTableSeen, r.value.owners, bit) == Ok(Rp1DtbPolicy(m, FromConfigSource))
  {
    hide Parse, Print, Validate;
    ValidIsMasksOfOwners(m, bit);
    PrintThenParse(order, OwnersIn(m, bit), bit);
    Utf8.EncodeThenDecode(Print(order, OwnersIn(m, bit)));
  }
}
