/** A reader of the firmware's configuration file with its conditional sections: what it
    makes of the text the guard writes (edge/pi-resilience/boot_guard.py:188-200). */
module BootText {
  import opened Collections
  import opened BootSpec
  import opened Decimals
  import opened Texts

  /** A section named `all` always applies, one named `tryboot` in a tryboot boot. */
  predicate Applies(section: string, tryboot: bool) {
    section == "all" || (section == "tryboot" && tryboot)
  }

  /** The name between the brackets of a section line. */
  function SectionOf(line: string): Option<string> {
    if |line| >= 2 && line[0] == '[' && line[|line| - 1] == ']' then Some(line[1..|line| - 1]) else None
  }

  /** The value of a line `name=value`. */
  function ValueOf(line: string, name: string): Option<string> {
    if |line| > |name| && line[..|name|] == name && line[|name|] == '=' then Some(line[|name| + 1..]) else None
  }

  /** The last value of a setting that applies; `section` is the one the lines begin in. */
  function Setting(lines: seq<string>, section: string, name: string, tryboot: bool): Option<string> {
    if lines == [] then None
    else if SectionOf(lines[0]).Some? then Setting(lines[1..], SectionOf(lines[0]).value, name, tryboot)
    else
      var later := Setting(lines[1..], section, name, tryboot);
      if later.Some? then later
      else if Applies(section, tryboot) then ValueOf(lines[0], name)
      else None
  }

  function ReadSetting(text: string, name: string, tryboot: bool): Option<string> {
    Setting(Split(text, '\n'), "all", name, tryboot)
  }

  lemma DigitsHaveNoLine(n: int)
    ensures '\n' !in Integer(n)
  {
    var s := Integer(n);
    forall i | 0 <= i < |s| ensures s[i] != '\n' { assert IsDigit(s[i]) || s[i] == '-'; }
  }

  function PartitionLine(n: int): string {
    "boot_partition=" + Integer(n)
  }

  lemma LinesOf(d: int, t: int)
    ensures Split(AutobootText(d, t), '\n') ==
            ["[all]", "tryboot_a_b=1", PartitionLine(d), "[tryboot]", PartitionLine(t), ""]
  {
    hide Split, Integer;
    DigitsHaveNoLine(d);
    DigitsHaveNoLine(t);
    var a, b, c, e, f := "[all]", "tryboot_a_b=1", PartitionLine(d), "[tryboot]", PartitionLine(t);
    var r4 := f + "\n" + "";
    var r3 := e + "\n" + r4;
    var r2 := c + "\n" + r3;
    var r1 := b + "\n" + r2;
    assert AutobootText(d, t) == a + "\n" + r1;
    SplitCons(a, r1, '\n');
    SplitCons(b, r2, '\n');
    SplitCons(c, r3, '\n');
    SplitCons(e, r4, '\n');
    SplitCons(f, "", '\n');
    SplitNone("", '\n');
  }

  lemma PartitionLineIs(n: int)
    ensures SectionOf(PartitionLine(n)).None? && ValueOf(PartitionLine(n), "boot_partition") == Some(Integer(n))
    ensures ValueOf(PartitionLine(n), "tryboot_a_b").None?
  {
    hide Integer;
    var line := PartitionLine(n);
    assert line[0] == 'b';
    assert line[..14] == "boot_partition" && line[15..] == Integer(n);
    assert line[..11][0] == 'b';
  }

  lemma FixedLinesAre()
    ensures SectionOf("[all]") == Some("all") && SectionOf("[tryboot]") == Some("tryboot")
    ensures SectionOf("tryboot_a_b=1").None? && SectionOf("").None?
    ensures ValueOf("tryboot_a_b=1", "tryboot_a_b") == Some("1")
    ensures ValueOf("tryboot_a_b=1", "boot_partition").None?
    ensures ValueOf("", "tryboot_a_b").None? && ValueOf("", "boot_partition").None?
  {
    assert "[all]"[1..4] == "all" && "[tryboot]"[1..8] == "tryboot";
    assert "tryboot_a_b=1"[..11] == "tryboot_a_b" && "tryboot_a_b=1"[12..] == "1";
  }

  lemma SettingStep(lines: seq<string>, section: string, name: string, tryboot: bool)
    ensures lines != [] && SectionOf(lines[0]).Some? ==>
      Setting(lines, section, name, tryboot) == Setting(lines[1..], SectionOf(lines[0]).value, name, tryboot)
    ensures lines != [] && SectionOf(lines[0]).None? ==>
      Setting(lines, section, name, tryboot) ==
      var later := Setting(lines[1..], section, name, tryboot);
      if later.Some? then later else if Applies(section, tryboot) then ValueOf(lines[0], name) else None
    ensures Setting([], section, name, tryboot) == None
  {
  }

  /** The firmware boots the default partition, and in a tryboot boot the one on trial; the
      switch for A/B tryboot is on either way. */
  lemma TextReadsBack(d: int, t: int)
    ensures ReadSetting(AutobootText(d, t), "boot_partition", false) == Some(Integer(d))
    ensures ReadSetting(AutobootText(d, t), "boot_partition", true) == Some(Integer(t))
    ensures forall tryboot :: ReadSetting(AutobootText(d, t), "tryboot_a_b", tryboot) == Some("1")
  {
    hide Setting, SectionOf, ValueOf, PartitionLine, Split, AutobootText;
    LinesOf(d, t);
    PartitionLineIs(d);
    PartitionLineIs(t);
    FixedLinesAre();
    forall name: string, tryboot: bool | name == "boot_partition" || name == "tryboot_a_b"
      ensures ReadSetting(AutobootText(d, t), name, tryboot) ==
              if name == "tryboot_a_b" then Some("1") else Some(Integer(if tryboot then t else d))
    {
      SixLines(d, t, name, tryboot);
    }
  }

  lemma SixLines(d: int, t: int, name: string, tryboot: bool)
    requires name == "boot_partition" || name == "tryboot_a_b"
    ensures Setting(
      ["[all]", "tryboot_a_b=1", PartitionLine(d), "[tryboot]", PartitionLine(t), ""], "all", name, tryboot)
            == if name == "tryboot_a_b" then Some("1") else Some(Integer(if tryboot then t else d))
  {
    hide Setting, SectionOf, ValueOf, PartitionLine, Integer;
    PartitionLineIs(d);
    PartitionLineIs(t);
    FixedLinesAre();
    var l5: seq<string> := [""];
    var l4, l3 := [PartitionLine(t)] + l5, ["[tryboot]"] + ([PartitionLine(t)] + l5);
    var l2, l1 := [PartitionLine(d)] + l3, ["tryboot_a_b=1"] + ([PartitionLine(d)] + l3);
    var l0 := ["[all]"] + l1;
    assert l5[1..] == [] && l4[1..] == l5 && l3[1..] == l4 && l2[1..] == l3 && l1[1..] == l2 && l0[1..] == l1;
    SettingStep(l5, "tryboot", name, tryboot);
    SettingStep(l4, "tryboot", name, tryboot);
    SettingStep(l3, "all", name, tryboot);
    SettingStep(l2, "all", name, tryboot);
    SettingStep(l1, "all", name, tryboot);
    SettingStep(l0, "all", name, tryboot);
    assert Setting(l5, "tryboot", name, tryboot) == None;
    assert l0 == ["[all]", "tryboot_a_b=1", PartitionLine(d), "[tryboot]", PartitionLine(t), ""];
  }

  /** A file is refused exactly for partitions that are not two different positive ones,
      or that take more than 450 digits together, 62 characters being fixed. */
  lemma RenderIff(d: int, t: int)
    ensures Render(d, t).Ok? <==> d >= 1 && t >= 1 && d != t && |Integer(d)| + |Integer(t)| <= 450
    ensures Render(d, t).Ok? ==> Render(d, t) == Ok(AutobootText(d, t))
    ensures Render(d, t) == Err(BadPartitions) <==> d < 1 || t < 1 || d == t
  {
    hide Integer;
    assert |AutobootText(d, t)| == 62 + |Integer(d)| + |Integer(t)|;
  }
}
