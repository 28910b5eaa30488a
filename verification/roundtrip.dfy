/** What uCiniDump writes, uCiniParse reads back: the host fields come out
    as they went in. */
module RoundTrip {
  import opened Options
  import opened CString
  import opened Bytes
  import opened Decimal
  import opened Tokenizer
  import opened Schema
  import opened Parser
  import opened Dumper
  import opened TextFile

  /** A section name the header line gives back: no brackets in it, and no
      '\n' (`fgets_` would end the line there). */
  predicate HeaderSafe(name: string) {
    |name| > 0 && NoneIn(name, SectionDelims) && '\n' !in name
  }

  /** An entry name the key scan gives back: no ' ', '\t' or '=', no
      leading '[' (the line would be taken for a header), and no '\n'. */
  predicate KeySafe(name: string) {
    |name| > 0 && NoneIn(name, KeyDelims) && name[0] != '[' && '\n' !in name
  }

  /** What a FUNC callback writes stays on its own line. */
  predicate RenderSafe(e: Entry, render: Render) {
    KindOf(e.tag).Func? ==> '\n' !in render(e.addr)
  }

  predicate RendersSafe(ss: seq<Section>, render: Render) {
    forall i, j | 0 <= i < |ss| && 0 <= j < |ss[i].entries| :: RenderSafe(ss[i].entries[j], render)
  }

  /** Section names, and entry names within a section, are safe and differ
      within the strncmp window. */
  predicate Distinguishable(ss: seq<Section>) {
    && (forall i | 0 <= i < |ss| :: HeaderSafe(ss[i].name))
    && (forall i, k | 0 <= i < |ss| && 0 <= k < |ss| && i != k ::
          !StrnEq(ss[i].name, ss[k].name, NameWindow))
    && (forall i, j | 0 <= i < |ss| && 0 <= j < |ss[i].entries| :: KeySafe(ss[i].entries[j].name))
    && (forall i, j, m | 0 <= i < |ss| && 0 <= j < |ss[i].entries| && 0 <= m < |ss[i].entries| && j != m ::
          !StrnEq(ss[i].entries[j].name, ss[i].entries[m].name, NameWindow))
  }

  /** A string field's text is a value token: not empty (strtok would find
      no token, and strcpy from NULL is undefined) and no '\r' or '\n'. */
  predicate TextSafe(e: Entry, mem: Memory) {
    KindOf(e.tag).Sz? && e.addr in mem && mem[e.addr].Text? ==>
      |mem[e.addr].text| > 0 && NoneIn(mem[e.addr].text, ValueDelims)
  }

  predicate TextsSafe(ss: seq<Section>, mem: Memory) {
    forall i, j | 0 <= i < |ss| && 0 <= j < |ss[i].entries| :: TextSafe(ss[i].entries[j], mem)
  }

  lemma CanonicalIsToken(t: string)
    requires Canonical(t)
    ensures |t| > 0 && NoneIn(t, ValueDelims)
  {
    forall k | 0 <= k < |t| ensures t[k] !in ValueDelims {
      if t[0] == '-' && t != "0" && k > 0 {
        assert t[k] == t[1..][k - 1];
      }
    }
  }

  /** Assigning an entry the value its own dump line carries changes no memory. */
  lemma AssignDumped(e: Entry, mem: Memory, render: Render, st: State)
    requires Readable(e, mem) && TextSafe(e, mem) && KeySafe(e.name) && st.mem == mem
    ensures Assign(e, SplitKeyValue(LineText(EntryLine(e, mem, render))).value, st).mem == mem
  {
    var text := EntryText(e, mem, render);
    match KindOf(e.tag)
    case Sz =>
      EntryTokens(e.name, text);
      assert mem[e.addr := Text(text)] == mem;
    case Int(w) =>
      if IntValue(e, mem) == LongMin {
        LongMinIsToken();
        EntryTokens(e.name, text);
      } else {
        CanonicalIsToken(text);
        EntryTokens(e.name, text);
        IntRestored(e, mem, st);
      }
    case Func =>
    case Other =>
  }

  /** LONG_MIN's text as written is one value token: the scan of the dumped
      line hands all of it to sscand, which rejects it, so the field keeps
      its value. */
  lemma LongMinIsToken()
    ensures |PrintAsWritten(LongMin)| > 0 && NoneIn(PrintAsWritten(LongMin), ValueDelims)
  {
    LongMinStep();
    PrintAsWrittenAgrees(-214748364);
    var p := Print(-214748364);
    CanonicalIsToken(p);
    var t := "-" + p + "(";
    assert t == PrintAsWritten(LongMin);
    forall k | 0 <= k < |t| ensures t[k] !in ValueDelims {
      if 0 < k < |t| - 1 {
        assert t[k] == p[k - 1];
      }
    }
  }

  /** Storing the value an Int field reads leaves the field as it was. */
  lemma IntRestored(e: Entry, mem: Memory, st: State)
    requires KindOf(e.tag).Int? && Readable(e, mem) && st.mem == mem
    ensures StoreInt(st.mem, e.addr, KindOf(e.tag).width, IntValue(e, mem)) == mem
  {
    var w := KindOf(e.tag).width;
    var bytes := mem[e.addr].bytes;
    LowBytesSigned(bytes[..w]);
    assert LowBytes(IntValue(e, mem), w) + bytes[w..] == bytes;
    assert mem[e.addr := Bytes(bytes)] == mem;
  }

  /** A selected name is selected by itself. */
  lemma SelectsItself(name: string)
    ensures Selects(Some(name), name)
  {
  }

  /** The entry lines of the active section leave memory and the active
      section as they were. */
  lemma {:induction false} EntriesRoundTrip(ini: Ini, sec: Section, mem: Memory, render: Render,
                                            st: State, k: nat)
    requires st.active == Some(sec) && st.mem == mem
    requires k <= |sec.entries|
    requires forall j | 0 <= j < |sec.entries| ::
               Readable(sec.entries[j], mem) && TextSafe(sec.entries[j], mem) && KeySafe(sec.entries[j].name)
    requires forall j, m | 0 <= j < |sec.entries| && 0 <= m < |sec.entries| && j != m ::
               !StrnEq(sec.entries[j].name, sec.entries[m].name, NameWindow)
    ensures var r := Run(ini, st, Texts(EntryLines(sec.entries[k..], mem, render)));
            r.mem == mem && r.active == Some(sec)
    decreases |sec.entries| - k
  {
    var es := sec.entries;
    var texts := Texts(EntryLines(es[k..], mem, render));
    if k < |es| {
      var e := es[k];
      var line := LineText(EntryLine(e, mem, render));
      assert es[k..][1..] == es[k + 1..];
      assert EntryLines(es[k..], mem, render) == [EntryLine(e, mem, render)] + EntryLines(es[k + 1..], mem, render);
      assert texts[0] == line && texts[1..] == Texts(EntryLines(es[k + 1..], mem, render));
      var next := EntryStep(ini, sec, e, mem, render, st, k);
      EntriesRoundTrip(ini, sec, mem, render, next, k + 1);
    }
  }

  /** One entry line of the active section: the step assigns that entry and
      leaves memory and the active section as they were. */
  lemma EntryStep(ini: Ini, sec: Section, e: Entry, mem: Memory, render: Render, st: State, k: nat)
      returns (next: State)
    requires st.active == Some(sec) && st.mem == mem
    requires k < |sec.entries| && e == sec.entries[k]
    requires Readable(e, mem) && TextSafe(e, mem) && KeySafe(e.name)
    requires forall m | 0 <= m < |sec.entries| && m != k ::
               !StrnEq(e.name, sec.entries[m].name, NameWindow)
    ensures next == Step(ini, st, LineText(EntryLine(e, mem, render)))
    ensures next.mem == mem && next.active == Some(sec)
  {
    var text := EntryText(e, mem, render);
    var line := LineText(EntryLine(e, mem, render));
    assert line == [] + e.name + ['='] + (text + "\n");
    assert line[0] == e.name[0];
    KeyLine([], e.name, '=', text + "\n");
    var kv := SplitKeyValue(line);
    SelectsItself(e.name);
    UniqueMatch(sec.entries, kv.key, kv.value, st, k);
    AssignDumped(e, mem, render, st);
    next := Step(ini, st, line);
  }

  /** A section's lines select that section and leave memory as it was. */
  lemma SectionRoundTrip(ini: Ini, mem: Memory, render: Render, st: State, i: nat)
    requires i < |ini.sections| && st.mem == mem
    requires Backed(ini.sections, mem) && Distinguishable(ini.sections) && TextsSafe(ini.sections, mem)
    ensures var r := Run(ini, st, Texts(SectionLines(ini.sections[i], mem, render)));
            r.mem == mem && r.active == Some(ini.sections[i])
  {
    var ss := ini.sections;
    var sec := ss[i];
    var header := LineText(HeaderLine(sec));
    HeaderToken(sec.name);
    SelectsItself(sec.name);
    var found := FindSection(ss, SectionToken(header), 0);
    assert found == Some(i);
    var next := Step(ini, st, header);
    assert next.active == Some(sec) && next.mem == mem;
    var texts := Texts(SectionLines(sec, mem, render));
    assert sec.entries[0..] == sec.entries;
    assert SectionLines(sec, mem, render) == [HeaderLine(sec)] + EntryLines(sec.entries[0..], mem, render);
    assert texts[0] == header && texts[1..] == Texts(EntryLines(sec.entries[0..], mem, render));
    EntriesRoundTrip(ini, sec, mem, render, next, 0);
  }

  /** The first n sections' lines leave memory as it was. */
  lemma {:induction false} PrefixRoundTrip(ini: Ini, mem: Memory, render: Render, st: State, n: nat)
    requires n <= |ini.sections| && st.mem == mem
    requires Backed(ini.sections, mem) && Distinguishable(ini.sections) && TextsSafe(ini.sections, mem)
    requires Backed(ini.sections[..n], mem)
    ensures Run(ini, st, Texts(Dump(ini.sections[..n], mem, render))).mem == mem
    decreases n
  {
    var ss := ini.sections;
    if n > 0 {
      var pre := ss[..n];
      var front := ss[..n - 1];
      assert pre[..n - 1] == front && pre[n - 1] == ss[n - 1];
      BackedPrefix(ss, mem, n - 1);
      PrefixRoundTrip(ini, mem, render, st, n - 1);
      var a := Dump(front, mem, render);
      var b := SectionLines(ss[n - 1], mem, render);
      assert Dump(pre, mem, render) == a + b;
      TextsAppend(a, b);
      RunAppend(ini, st, Texts(a), Texts(b));
      SectionRoundTrip(ini, mem, render, Run(ini, st, Texts(a)), n - 1);
    }
  }

  /** Dumping the whole schema and parsing the lines back restores every
      host field: the memory after parsing is the memory dumped. */
  lemma DumpThenParse(ini: Ini, mem: Memory, render: Render)
    requires Backed(ini.sections, mem) && Distinguishable(ini.sections) && TextsSafe(ini.sections, mem)
    requires AllFit(Dump(ini.sections, mem, render))
    ensures Parse(ini, mem, Texts(Dump(ini.sections, mem, render))).mem == mem
  {
    assert ini.sections[..|ini.sections|] == ini.sections;
    PrefixRoundTrip(ini, mem, render, State(mem, None, []), |ini.sections|);
  }

  /** An entry's value text holds no '\n'. */
  lemma EntryTextInLine(e: Entry, mem: Memory, render: Render)
    requires Readable(e, mem) && TextSafe(e, mem) && RenderSafe(e, render)
    ensures '\n' !in EntryText(e, mem, render)
  {
    var text := EntryText(e, mem, render);
    match KindOf(e.tag)
    case Sz =>
    case Int(_) =>
      if IntValue(e, mem) == LongMin {
        LongMinIsToken();
      } else {
        CanonicalIsToken(text);
      }
    case Func =>
    case Other =>
  }

  /** A line whose parts hold no '\n' is written as exactly one file line. */
  lemma LineTextIsLine(l: Line)
    requires l.Header? ==> '\n' !in l.name
    requires l.Assignment? ==> '\n' !in l.key && '\n' !in l.value
    ensures IsLine(LineText(l))
  {
  }

  /** A section's names, texts and rendered values fit on their lines. */
  predicate Writable(sec: Section, mem: Memory, render: Render) {
    && '\n' !in sec.name
    && forall j | 0 <= j < |sec.entries| ::
         && Readable(sec.entries[j], mem) && TextSafe(sec.entries[j], mem)
         && RenderSafe(sec.entries[j], render) && '\n' !in sec.entries[j].name
  }

  /** Every text a writable section dumps is one file line. */
  lemma SectionIsLines(sec: Section, mem: Memory, render: Render)
    requires Writable(sec, mem, render)
    ensures AllLines(SectionLines(sec, mem, render))
  {
    var ls := SectionLines(sec, mem, render);
    forall k | 0 <= k < |ls| ensures IsLine(LineText(ls[k])) {
      if k > 0 {
        EntryTextInLine(sec.entries[k - 1], mem, render);
      }
      LineTextIsLine(ls[k]);
    }
  }

  /** Each of the lines, with its NUL, fits the `char line[20]` buffer that
      uCiniDump builds it in and uCiniParse reads it into. */
  predicate AllFit(ls: seq<Line>) {
    forall k | 0 <= k < |ls| :: Fits(LineText(ls[k]))
  }

  /** Each of the lines is written as exactly one file line. */
  predicate AllLines(ls: seq<Line>) {
    forall k | 0 <= k < |ls| :: IsLine(LineText(ls[k]))
  }

  lemma AllLinesAppend(a: seq<Line>, b: seq<Line>)
    requires AllLines(a) && AllLines(b)
    ensures AllLines(a + b)
  {
    assert forall k | |a| <= k < |a| + |b| :: (a + b)[k] == b[k - |a|];
  }

  /** Every text of the dump of writable sections is one file line. */
  lemma {:induction false} DumpIsLines(ss: seq<Section>, mem: Memory, render: Render)
    requires Backed(ss, mem)
    requires forall i | 0 <= i < |ss| :: Writable(ss[i], mem, render)
    ensures AllLines(Dump(ss, mem, render))
    decreases |ss|
  {
    if |ss| > 0 {
      var n := |ss| - 1;
      var init := ss[..n];
      DumpSnoc(ss, mem, render, n);
      assert ss[..n + 1] == ss;
      assert forall i | 0 <= i < |init| :: init[i] == ss[i];
      DumpIsLines(init, mem, render);
      SectionIsLines(ss[n], mem, render);
      AllLinesAppend(Dump(init, mem, render), SectionLines(ss[n], mem, render));
    }
  }

  /** The file uCiniDump writes, cut into lines by uCiniParse's `fgets_`,
      gives back the dumped texts, and parsing it into the memory it was
      dumped from changes nothing. */
  lemma FileRoundTrip(ini: Ini, mem: Memory, render: Render)
    requires Backed(ini.sections, mem) && Distinguishable(ini.sections) && TextsSafe(ini.sections, mem)
    requires RendersSafe(ini.sections, render)
    requires AllFit(Dump(ini.sections, mem, render))
    ensures ReadLines(Written(Texts(Dump(ini.sections, mem, render)))) == Texts(Dump(ini.sections, mem, render))
    ensures Parse(ini, mem, ReadLines(Written(Texts(Dump(ini.sections, mem, render))))).mem == mem
  {
    var ss := ini.sections;
    forall i | 0 <= i < |ss| ensures Writable(ss[i], mem, render) {
      assert HeaderSafe(ss[i].name);
      forall j | 0 <= j < |ss[i].entries| ensures '\n' !in ss[i].entries[j].name {
        assert KeySafe(ss[i].entries[j].name);
      }
    }
    DumpIsLines(ss, mem, render);
    var ls := Dump(ss, mem, render);
    var ts := Texts(ls);
    assert forall k | 0 <= k < |ts| :: IsLine(ts[k]) && Fits(ts[k]) by {
      forall k | 0 <= k < |ts| ensures IsLine(ts[k]) && Fits(ts[k]) {
        assert ts[k] == LineText(ls[k]);
      }
    }
    ReadWritten(ts);
    DumpThenParse(ini, mem, render);
  }

  /** The header's note: an unsigned long holding 4294967295 (all ones)
      dumps in signed form as "-1", and reading "-1" back restores it, as
      does reading "4294967295". */
  lemma AllOnesLong(e: Entry, mem: Memory, render: Render, st: State)
    requires KindOf(e.tag) == Int(4)
    requires e.addr in mem && mem[e.addr] == Bytes([255, 255, 255, 255])
    requires st.mem == mem
    ensures EntryText(e, mem, render) == "-1"
    ensures Assign(e, Some("-1"), st).mem == mem
    ensures Assign(e, Some("4294967295"), st).mem == mem
  {
    AllOnesDecimal();
    assert Pow256(4) == 0x1_0000_0000 by {
      assert Pow256(1) == 256 && Pow256(2) == 0x1_0000 && Pow256(3) == 0x100_0000;
    }
    LowBytesModular(4294967295, -1, 4);
    var bs: seq<byte> := [255, 255, 255, 255];
    assert bs[..4] == bs;
    AllOnesSigned();
    assert IntValue(e, mem) == -1;
    MinusOneText();
    assert EntryText(e, mem, render) == PrintAsWritten(-1);
    IntRestored(e, mem, st);
  }

  /** The decimal text of 2^32 - 1 scans to that value. */
  lemma AllOnesDecimal()
    ensures ScanAsWritten("4294967295") == Some(4294967295)
  {
    var s := "4294967295";
    assert Positional(s);
    PositionalScans(s);
    YesScansAsZero(s);
    AllOnesDigits();
  }

  /** The positional value of "4294967295", one digit at a time. */
  lemma AllOnesDigits()
    ensures Accumulate("4294967295") == 4294967295
  {
    assert Accumulate("4") == 4 by {
      AccumulateSnoc("", '4');
      assert "" + ['4'] == "4";
    }
    assert Accumulate("42") == 42 by {
      AccumulateSnoc("4", '2');
      assert "4" + ['2'] == "42";
    }
    assert Accumulate("429") == 429 by {
      AccumulateSnoc("42", '9');
      assert "42" + ['9'] == "429";
    }
    assert Accumulate("4294") == 4294 by {
      AccumulateSnoc("429", '4');
      assert "429" + ['4'] == "4294";
    }
    assert Accumulate("42949") == 42949 by {
      AccumulateSnoc("4294", '9');
      assert "4294" + ['9'] == "42949";
    }
    assert Accumulate("429496") == 429496 by {
      AccumulateSnoc("42949", '6');
      assert "42949" + ['6'] == "429496";
    }
    assert Accumulate("4294967") == 4294967 by {
      AccumulateSnoc("429496", '7');
      assert "429496" + ['7'] == "4294967";
    }
    assert Accumulate("42949672") == 42949672 by {
      AccumulateSnoc("4294967", '2');
      assert "4294967" + ['2'] == "42949672";
    }
    assert Accumulate("429496729") == 429496729 by {
      AccumulateSnoc("42949672", '9');
      assert "42949672" + ['9'] == "429496729";
    }
    assert Accumulate("4294967295") == 4294967295 by {
      AccumulateSnoc("429496729", '5');
      assert "429496729" + ['5'] == "4294967295";
    }
  }

  lemma AllOnesSigned()
    ensures Signed([255, 255, 255, 255]) == -1
  {
    var bs: seq<byte> := [255, 255, 255, 255];
    assert bs[1..] == [255, 255, 255] && bs[1..][1..] == [255, 255] && bs[1..][1..][1..] == [255];
    assert Unsigned([255]) == 255;
    assert Unsigned([255, 255]) == 65535;
    assert Unsigned([255, 255, 255]) == 16777215;
    assert Unsigned(bs) == 4294967295;
  }

  /** -1 prints as "-1", as written and corrected, and scans back. */
  lemma MinusOneText()
    ensures Print(-1) == "-1" && PrintAsWritten(-1) == "-1"
    ensures Scan("-1") == Some(-1) && ScanAsWritten("-1") == Some(-1)
  {
    assert Digits(1) == "1";
    PrintScan(-1);
    PrintAsWrittenAgrees(-1);
    YesScansAsZero("-1");
  }
}
