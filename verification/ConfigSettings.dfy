/** What the lines of a configuration file are, and what the settings in front of its owner table come to. */
module ConfigSettings {
  import opened Prelude
  import opened Policy
  import opened ConfigText

  // ---- Lines and blanks ---------------------------------------------------

  lemma {:induction false} FindIs(s: string, c: char, n: nat)
    requires n < |s| && s[n] == c && forall k :: 0 <= k < n ==> s[k] != c
    ensures Find(s, c) == n
  {
    assert Find(s, c) <= n;
  }

  // A line ends with LF or CR LF, or with the text; nothing else is taken from it.
  lemma LineEnds(line: string, rest: string)
    requires '\n' !in line
    ensures Lines(line + "\r\n" + rest) == [line] + Lines(rest)
    ensures line == "" || line[|line| - 1] != '\r' ==> Lines(line + "\n" + rest) == [line] + Lines(rest)
    ensures line != "" ==> Lines(line) == [line]
    ensures Lines("") == []
  {
    hide Find;
    var crlf, lf := line + "\r\n" + rest, line + "\n" + rest;
    FindIs(crlf, '\n', |line| + 1);
    assert crlf[|line|] == '\r' && crlf[..|line|] == line && crlf[|line| + 2..] == rest;
    FindIs(lf, '\n', |line|);
    assert lf[..|line|] == line && lf[|line| + 1..] == rest;
    assert line != "" ==> lf[|line| - 1] == line[|line| - 1];
    assert Find(line, '\n') == |line|;
  }

  lemma WhiteSpaceIs(c: char)
    ensures IsWhite(c) <==>
            c as int in {9, 10, 11, 12, 13, 32, 0x85, 0xA0, 0x1680, 0x2000, 0x2001, 0x2002, 0x2003, 0x2004, 0x2005, 0x2006,
                         0x2007, 0x2008, 0x2009, 0x200A, 0x2028, 0x2029, 0x202F, 0x205F, 0x3000}
  { }

  predicate AllWhite(s: string) {
    forall k :: 0 <= k < |s| ==> IsWhite(s[k])
  }

  lemma {:induction false} StartIsTrimmed(blank: string, s: string)
    requires AllWhite(blank) && (s == "" || !IsWhite(s[0]))
    ensures TrimStart(blank + s) == s
    decreases |blank|
  {
    hide IsWhite;
    if blank == "" {
      assert blank + s == s;
    } else {
      assert (blank + s)[0] == blank[0] && (blank + s)[1..] == blank[1..] + s;
      StartIsTrimmed(blank[1..], s);
    }
  }

  lemma {:induction false} EndIsTrimmed(s: string, blank: string)
    requires AllWhite(blank) && (s == "" || !IsWhite(s[|s| - 1]))
    ensures TrimEnd(s + blank) == s
    decreases |blank|
  {
    hide IsWhite;
    if blank == "" {
      assert s + blank == s;
    } else {
      var t := s + blank;
      assert t[|t| - 1] == blank[|blank| - 1] && t[..|t| - 1] == s + blank[..|blank| - 1];
      EndIsTrimmed(s, blank[..|blank| - 1]);
    }
  }

  // Blanks of any kind and number go away on both sides, and those in between stay.
  lemma BlanksGoAway(before: string, s: string, after: string)
    requires AllWhite(before) && AllWhite(after) && (s != "" ==> !IsWhite(s[0]) && !IsWhite(s[|s| - 1]))
    ensures Trim(before + s + after) == s
  {
    hide IsWhite, TrimStart, TrimEnd, AllWhite;
    if s == "" {
      assert before + s + after == (before + after) + "" && "" + "" == "";
      OnlyBlanks(before, after);
      StartIsTrimmed(before + after, "");
      EndIsTrimmed("", "");
    } else {
      assert before + s + after == before + (s + after) && (s + after)[0] == s[0];
      StartIsTrimmed(before, s + after);
      EndIsTrimmed(s, after);
    }
  }

  lemma OnlyBlanks(a: string, b: string)
    requires AllWhite(a) && AllWhite(b)
    ensures AllWhite(a + b) && AllWhite("")
  { }

  // One pair of double quotes around a value is dropped.
  lemma QuotesAreDropped(v: string)
    ensures TrimValue("\"" + v + "\"") == v
    ensures v == "" || v[0] != '"' || v[|v| - 1] != '"' || |v| == 1 ==> TrimValue(v) == v
  {
    var q := "\"" + v + "\"";
    assert q[1..|q| - 1] == v;
  }

  // ---- Numbers ------------------------------------------------------------

  lemma DigitsAre(c: char, v: nat)
    ensures Digit(c, 10) == Some(v) <==> v < 10 && c == "0123456789"[v]
    ensures Digit(c, 16) == Some(v) <==> v < 16 && (c == "0123456789abcdef"[v] || c == "0123456789ABCDEF"[v])
  { }

  function Spell(n: nat, base: nat): (s: string)
    requires 2 <= base <= 16
    ensures s != ""
  {
    var digit := ["0123456789abcdef"[n % base]];
    if n < base then digit else Spell(n / base, base) + digit
  }

  predicate AllDigits(s: string, base: nat) {
    forall k :: 0 <= k < |s| ==> Digit(s[k], base).Some?
  }

  lemma SpelledParts(n: nat, base: nat)
    requires base in {10, 16}
    ensures var s := Spell(n, base); var d := "0123456789abcdef"[n % base];
            && s[|s| - 1] == d && Digit(d, base) == Some(n % base)
            && s[..|s| - 1] == if n < base then "" else Spell(n / base, base)
    ensures n == base * (n / base) + n % base && (n >= base ==> n / base < n)
  {
    DigitsAre("0123456789abcdef"[n % base], n % base);
  }

  lemma {:induction false} SpelledIsRead(n: nat, base: nat)
    requires base in {10, 16}
    ensures Numeral(Spell(n, base), base) == Some(n) && AllDigits(Spell(n, base), base)
    decreases n
  {
    hide Digit, Spell;
    SpelledParts(n, base);
    if n >= base {
      SpelledIsRead(n / base, base);
    }
  }

  lemma {:induction false} NumeralIff(s: string, base: nat)
    ensures Numeral(s, base).Some? <==> AllDigits(s, base)
    decreases |s|
  {
    hide Digit;
    if s != "" {
      var front := s[..|s| - 1];
      NumeralIff(front, base);
      assert forall k :: 0 <= k < |front| ==> front[k] == s[k];
    }
  }

  lemma SignsAreNoDigits(c: char)
    requires c in {'+', 'x', 'X'}
    ensures Digit(c, 10) == None && Digit(c, 16) == None
  { }

  lemma RadixReads(n: nat, base: nat)
    requires base in {10, 16}
    ensures var r := if n < 0x1_0000_0000 then Some(n) else None;
            FromStrRadix(Spell(n, base), base) == r && FromStrRadix("+" + Spell(n, base), base) == r
  {
    hide Numeral, Spell, Digit;
    var s := Spell(n, base);
    SpelledIsRead(n, base);
    SignsAreNoDigits('+');
    assert s[0] != '+';
    assert ("+" + s)[1..] == s;
  }

  // A number is written in decimal, or in hexadecimal after 0x or 0X, with a plus sign or without, and
  // must fit 32 bits.
  lemma NumbersAreRead(n: nat)
    ensures var r := if n < 0x1_0000_0000 then Some(n) else None;
            && ParseU32(Spell(n, 10)) == r && ParseU32("+" + Spell(n, 10)) == r
            && ParseU32("0x" + Spell(n, 16)) == r && ParseU32("0X" + Spell(n, 16)) == r
  {
    hide FromStrRadix, Spell, Digit;
    var d, h := Spell(n, 10), Spell(n, 16);
    RadixReads(n, 10);
    RadixReads(n, 16);
    SpelledIsRead(n, 10);
    SignsAreNoDigits('x');
    SignsAreNoDigits('X');
    assert |d| >= 2 ==> d[1] != 'x' && d[1] != 'X';
    assert ("0x" + h)[2..] == h && ("0X" + h)[2..] == h && ("+" + d)[0] == '+';
  }

  // Nothing else is a number.
  lemma NumberHasDigits(v: string)
    requires ParseU32(v).Some?
    ensures var hex := |v| >= 2 && v[0] == '0' && v[1] in {'x', 'X'};
            var tail := if hex then v[2..] else v;
            var digits := if tail != "" && tail[0] == '+' then tail[1..] else tail;
            digits != "" && AllDigits(digits, if hex then 16 else 10)
  {
    hide Numeral, Digit;
    var hex := |v| >= 2 && v[0] == '0' && v[1] in {'x', 'X'};
    var tail := if hex then v[2..] else v;
    NumeralIff(if tail != "" && tail[0] == '+' then tail[1..] else tail, if hex then 16 else 10);
  }

  // ---- Settings -----------------------------------------------------------

  // The settings that may stand in front of the owner table.
  lemma SettingIff(key: string, value: string)
    ensures Readable(Setting(key, value), Root)
       <==> || (key == "force_boot" && (value == "true" || value == "false"))
            || (key == "linux_pio" && value == "false")
            || (key == "rp1_start_contract" && (value == "explicit" || value == "default"))
            || ((key == "rp1_entry_override" || key == "rp1_stack_override") && ParseU32(value).Some?)
  {
    hide ParseU32;
    KeysApart();
  }

  lemma KeysApart()
    ensures "force_boot" != "linux_pio" && "force_boot" != "rp1_start_contract" && "linux_pio" != "rp1_start_contract"
    ensures "rp1_entry_override" !in {"force_boot", "linux_pio", "rp1_start_contract"}
    ensures "rp1_stack_override" !in {"force_boot", "linux_pio", "rp1_start_contract", "rp1_entry_override"}
  {
    assert "rp1_start_contract"[4] == 's' && "rp1_entry_override"[4] == 'e' && "rp1_stack_override"[4] == 's';
    assert "rp1_start_contract"[7] == 'r' && "rp1_stack_override"[7] == 'c';
  }

  // The values given to a key in front of the owner table, in order.
  function Values(lines: seq<string>, section: Section, key: string): seq<string> {
    if lines == [] then [] else
    var line := Classify(lines[0]);
    Given(line, section, key) + Values(lines[1..], SectionAfter(line, section), key)
  }

  function Latest(values: seq<string>): string
    requires values != []
  {
    values[|values| - 1]
  }

  // The start contract, the entry and the stack as they stand after some lines.
  ghost predicate Says(before: Rp1Config, after: Rp1Config, contract: seq<string>, entry: seq<string>, stack: seq<string>) {
    && (after.linuxPio ==> before.linuxPio)
    && after.startContractExplicit == (if contract == [] then before.startContractExplicit else Latest(contract) == "explicit")
    && after.entryOverride == (if entry == [] then before.entryOverride else ParseU32(Latest(entry)))
    && after.stackOverride == (if stack == [] then before.stackOverride else ParseU32(Latest(stack)))
  }

  lemma SaysInOrder(a: Rp1Config, b: Rp1Config, c: Rp1Config, c1: seq<string>, c2: seq<string>,
                    e1: seq<string>, e2: seq<string>, s1: seq<string>, s2: seq<string>)
    requires Says(a, b, c1, e1, s1) && Says(b, c, c2, e2, s2)
    ensures Says(a, c, c1 + c2, e1 + e2, s1 + s2)
  {
    hide ParseU32;
  }

  function Given(line: Line, section: Section, key: string): seq<string> {
    if section == Root && line.Setting? && line.key == key then [line.value] else []
  }

  lemma StepSays(st: Reading, raw: string, bit: DeviceNumbers)
    requires Step(st, raw, bit).Ok?
    ensures var line := Classify(raw); var after := Step(st, raw, bit).value;
            && after.section == SectionAfter(line, st.section)
            && Says(st.config, after.config, Given(line, st.section, "rp1_start_contract"),
                    Given(line, st.section, "rp1_entry_override"), Given(line, st.section, "rp1_stack_override"))
  {
    hide ParseU32, Classify, RootSetting, OwnerKey;
    var line := Classify(raw);
    if st.section == Root && line.Setting? {
      SettingSays(st.config, line.key, line.value);
    }
  }

  lemma SettingSays(config: Rp1Config, key: string, value: string)
    requires RootSetting(config, key, value).Ok?
    ensures var line := Setting(key, value);
            Says(config, RootSetting(config, key, value).value, Given(line, Root, "rp1_start_contract"),
                 Given(line, Root, "rp1_entry_override"), Given(line, Root, "rp1_stack_override"))
  {
    hide ParseU32;
    KeysApart();
    assert |"explicit"| == 8 && |"default"| == 7;
  }

  lemma {:induction false} LinesSay(lines: seq<string>, st: Reading, bit: DeviceNumbers)
    requires Read(lines, st, bit).Ok?
    ensures Says(st.config, Read(lines, st, bit).value.config, Values(lines, st.section, "rp1_start_contract"),
                 Values(lines, st.section, "rp1_entry_override"), Values(lines, st.section, "rp1_stack_override"))
    decreases |lines|
  {
    hide Step, Classify, Says, Given;
    if lines == [] {
      NothingSaid(st.config);
    } else {
      var line, next := Classify(lines[0]), Step(st, lines[0], bit).value;
      StepSays(st, lines[0], bit);
      LinesSay(lines[1..], next, bit);
      var c, e, s := "rp1_start_contract", "rp1_entry_override", "rp1_stack_override";
      SaysInOrder(st.config, next.config, Read(lines, st, bit).value.config,
                  Given(line, st.section, c), Values(lines[1..], next.section, c),
                  Given(line, st.section, e), Values(lines[1..], next.section, e),
                  Given(line, st.section, s), Values(lines[1..], next.section, s));
    }
  }

  lemma NothingSaid(config: Rp1Config)
    ensures Says(config, config, [], [], [])
  { }

  // The last line of each kind decides; a kind without a line leaves the default, and the PIO blocks are
  // never Linux's.
  lemma LastSettingsDecide(text: string, bit: DeviceNumbers)
    requires Parse(text, bit).Ok?
    ensures var config, lines := Parse(text, bit).value, Lines(text);
            var contract := Values(lines, Root, "rp1_start_contract");
            var entry, stack := Values(lines, Root, "rp1_entry_override"), Values(lines, Root, "rp1_stack_override");
            && !config.linuxPio
            && (config.startContractExplicit <==> contract != [] && Latest(contract) == "explicit")
            && config.entryOverride == (if entry == [] then None else ParseU32(Latest(entry)))
            && config.stackOverride == (if stack == [] then None else ParseU32(Latest(stack)))
  {
    hide Lines, Read, Values, ParseU32;
    LinesSay(Lines(text), Reading(DEFAULT_CONFIG, Root), bit);
  }
}
