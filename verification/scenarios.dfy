/** Concrete runs of uCiniParse on small configurations. */
module Scenarios {
  import opened Options
  import opened CString
  import opened Bytes
  import opened Decimal
  import opened Tokenizer
  import opened Schema
  import opened Parser

  /** A "net" section with an unsigned short "port" at address 7. */
  function NetIni(): Ini {
    Ini([Section("net", [Entry("port", 7, ShortTag)])])
  }

  lemma PortLineTokens()
    ensures !IsSectionLine("port=8080\n")
    ensures SplitKeyValue("port=8080\n") == KeyValue(Some("port"), Some("8080"))
  {
    var key, value := "port", "8080";
    assert NoneIn(key, KeyDelims) && NoneIn(value, ValueDelims);
    EntryTokens(key, value);
    assert key + "=" + value + "\n" == "port=8080\n";
  }

  lemma Scan8080()
    ensures ScanAsWritten("8080") == Some(8080) && Scan("8080") == Some(8080)
  {
    assert "8080"[..3] == "808" && "808"[..2] == "80" && "80"[..1] == "8" && "8"[..0] == "";
    assert Accumulate("8080") == 8080;
    PositionalScans("8080");
    YesScansAsZero("8080");
  }

  /** The value "y" on a char field: sscand reports success but leaves 0
      in `number`, so memcpy stores 0 whatever the field held. */
  lemma YesStoresZero(mem: Memory)
    requires 3 in mem && mem[3] == Bytes([7])
    ensures Assign(Entry("dhcp", 3, CharTag), Some("y"), State(mem, None, [])).mem == mem[3 := Bytes([0])]
  {
    assert KindOf(CharTag) == Int(1);
    YesScansAsZero("y");
    assert LowBytes(0, 1) == [0] by {
      assert Encode(0, 1) == [0] + Encode(0, 0);
    }
    assert mem[3].bytes[1..] == [];
  }

  lemma Bytes8080()
    ensures LowBytes(8080, 2) == [0x90, 0x1F]
  {
    assert 8080 % Pow256(2) == 8080;
    assert Encode(8080, 2) == [0x90] + Encode(31, 1);
    assert Encode(31, 1) == [0x1F] + Encode(0, 0);
  }

  lemma NetHeader(mem: Memory)
    ensures Step(NetIni(), State(mem, None, []), "[net]\n") == State(mem, Some(NetIni().sections[0]), [])
  {
    var ini := NetIni();
    var line := "[net]\n";
    HeaderToken("net");
    assert line == "[" + "net" + "]\n";
    assert Selects(Some("net"), ini.sections[0].name);
    assert FindSection(ini.sections, SectionToken(line), 0) == Some(0);
  }

  lemma PortAssigned(mem: Memory)
    requires 7 in mem && mem[7] == Bytes([0, 0])
    ensures Step(NetIni(), State(mem, Some(NetIni().sections[0]), []), "port=8080\n").mem
            == mem[7 := Bytes([0x90, 0x1F])]
  {
    var sec := NetIni().sections[0];
    var st := State(mem, Some(sec), []);
    PortSelected(st);
    PortStored(mem);
  }

  /** The "port" line selects the one entry of the section. */
  lemma PortSelected(st: State)
    requires st.active == Some(NetIni().sections[0])
    ensures Step(NetIni(), st, "port=8080\n") == Assign(Entry("port", 7, ShortTag), Some("8080"), st)
  {
    PortLineTokens();
    var es := NetIni().sections[0].entries;
    assert Selects(Some("port"), es[0].name);
    UniqueMatch(es, Some("port"), Some("8080"), st, 0);
  }

  /** Assigning "8080" to the short at 7 writes 0x90 0x1F there. */
  lemma PortStored(mem: Memory)
    requires 7 in mem && mem[7] == Bytes([0, 0])
    ensures Assign(Entry("port", 7, ShortTag), Some("8080"), State(mem, Some(NetIni().sections[0]), [])).mem
            == mem[7 := Bytes([0x90, 0x1F])]
  {
    assert KindOf(ShortTag) == Int(2);
    Scan8080();
    Bytes8080();
    assert mem[7].bytes[2..] == [];
    assert [0x90, 0x1F] + [] == [0x90, 0x1F];
  }

  /** "[net]" then "port=8080" stores 8080 little-endian, 0x90 0x1F, into the
      short and touches nothing else. */
  lemma NetPort(mem: Memory)
    requires 7 in mem && mem[7] == Bytes([0, 0])
    ensures Parse(NetIni(), mem, ["[net]\n", "port=8080\n"]).mem == mem[7 := Bytes([0x90, 0x1F])]
  {
    var lines := ["[net]\n", "port=8080\n"];
    NetHeader(mem);
    PortAssigned(mem);
    assert lines[1..] == ["port=8080\n"] && lines[1..][1..] == [];
  }

  /** "[wifi]" names no section, so the "port" line after it changes nothing. */
  lemma UnknownSectionExample(mem: Memory)
    ensures Parse(NetIni(), mem, ["[wifi]\n", "port=80\n"]) == State(mem, None, [])
  {
    var ini := NetIni();
    assert IsTokenOf("[wifi]\n", SectionDelims, "[", "wifi", "]\n");
    StrtokOf("[wifi]\n", SectionDelims, "[", "wifi", "]\n");
    assert !Selects(Some("wifi"), "net");
    UnknownSectionIgnored(ini, mem, "[wifi]\n", ["port=80\n"]);
    assert ["[wifi]\n"] + ["port=80\n"] == ["[wifi]\n", "port=80\n"];
  }

  /** A schema with one section whose name holds a space. */
  function SpacedIni(): Ini {
    Ini([Section("my net", [])])
  }

  /** Section names may hold whitespace, and matching is exact and case
      sensitive: "[my net]" selects the section, "[My net]" selects none. */
  lemma SpacedSectionName(mem: Memory)
    ensures Step(SpacedIni(), State(mem, None, []), "[my net]\n").active == Some(SpacedIni().sections[0])
    ensures Step(SpacedIni(), State(mem, None, []), "[My net]\n").active == None
  {
    SpacedSelected(mem);
    CaseMismatch(mem);
  }

  lemma SpacedSelected(mem: Memory)
    ensures Step(SpacedIni(), State(mem, None, []), "[my net]\n").active == Some(SpacedIni().sections[0])
  {
    var name := "my net";
    assert "[my net]\n" == "[" + name + "]\n";
    assert Selects(Some(name), SpacedIni().sections[0].name);
    HeaderStep(SpacedIni(), State(mem, None, []), name);
  }

  lemma CaseMismatch(mem: Memory)
    ensures Step(SpacedIni(), State(mem, None, []), "[My net]\n").active == None
  {
    var name := "My net";
    assert "[My net]\n" == "[" + name + "]\n";
    StrnEqShort(name, "my net", NameWindow);
    assert name[0] != "my net"[0];
    assert !Selects(Some(name), SpacedIni().sections[0].name);
    HeaderStep(SpacedIni(), State(mem, None, []), name);
  }

  /** A header line written for `name` activates the first section `name`
      selects, or none. */
  lemma HeaderStep(ini: Ini, st: State, name: string)
    requires |name| > 0 && NoneIn(name, SectionDelims)
    ensures var found := FindSection(ini.sections, Some(name), 0);
            Step(ini, st, "[" + name + "]\n").active
            == if found.Some? then Some(ini.sections[found.value]) else None
  {
    HeaderToken(name);
  }
}
