/** uCiniDump: one "[name]\n" line per section and one "name=value\n" line
    per entry, in declared order. */
module Dumper {
  import opened Options
  import opened Bytes
  import opened Decimal
  import opened Schema

  /** The text a callback entry appends after "name=": `((tIniFunc)data)(line, 1)`
      is outside the model, so what it writes is a parameter. */
  type Render = Addr -> string

  /** The value after '=' for one entry: sprintd, as written, of the
      signed field for Int, the stored string for Sz, the callback's text
      for Func, and nothing for a tag the switch has no case for. Every
      Int value but LONG_MIN prints canonically and scans back; LONG_MIN
      prints as text that sscand rejects. */
  function EntryText(e: Entry, mem: Memory, render: Render): (r: string)
    requires Readable(e, mem)
    ensures KindOf(e.tag).Int? && IntValue(e, mem) != LongMin ==>
              Canonical(r) && ScanAsWritten(r) == Some(IntValue(e, mem))
    ensures KindOf(e.tag).Int? && IntValue(e, mem) == LongMin ==>
              r == PrintAsWritten(LongMin) && ScanAsWritten(r) == None
    ensures KindOf(e.tag).Sz? ==> r == mem[e.addr].text
    ensures KindOf(e.tag).Func? ==> r == render(e.addr)
    ensures KindOf(e.tag).Other? ==> r == ""
  {
    match KindOf(e.tag)
    case Int(_) =>
      var v := IntValue(e, mem);
      if v == LongMin then
        LongMinAsWritten();
        PrintAsWritten(v)
      else
        PrintAsWrittenAgrees(v);
        PrintScan(v);
        YesScansAsZero(Print(v));
        PrintAsWritten(v)
    case Sz => mem[e.addr].text
    case Func => render(e.addr)
    case Other => ""
  }

  /** A line uCiniDump writes: a section header, or an entry's
      "name=value" assignment. */
  datatype Line = Header(name: string) | Assignment(key: string, value: string)

  /** The characters of a line as `fputs` writes them. */
  function LineText(l: Line): (r: string)
    ensures |r| > 0 && r[|r| - 1] == '\n'
    ensures l.Header? ==>
              |r| == |l.name| + 3 && r[0] == '[' && r[1..|r| - 2] == l.name && r[|r| - 2] == ']'
    ensures l.Assignment? ==>
              |r| == |l.key| + |l.value| + 2 &&
              r[..|l.key|] == l.key && r[|l.key|] == '=' && r[|l.key| + 1..|r| - 1] == l.value
  {
    match l
    case Header(name) => "[" + name + "]\n"
    case Assignment(key, value) => key + "=" + value + "\n"
  }

  /** The texts of a run of lines, one string per line. */
  function Texts(ls: seq<Line>): (ts: seq<string>)
    ensures |ts| == |ls|
    ensures forall k | 0 <= k < |ls| :: ts[k] == LineText(ls[k])
  {
    if |ls| == 0 then [] else [LineText(ls[0])] + Texts(ls[1..])
  }

  /** Writing two runs of lines writes their texts one after the other. */
  lemma TextsAppend(a: seq<Line>, b: seq<Line>)
    ensures Texts(a + b) == Texts(a) + Texts(b)
  {
  }

  function EntryLine(e: Entry, mem: Memory, render: Render): Line
    requires Readable(e, mem)
  {
    Assignment(e.name, EntryText(e, mem, render))
  }

  function HeaderLine(s: Section): Line {
    Header(s.name)
  }

  /** The entry loop: line j is entry j's line. */
  function EntryLines(es: seq<Entry>, mem: Memory, render: Render): (lines: seq<Line>)
    requires forall j | 0 <= j < |es| :: Readable(es[j], mem)
    ensures |lines| == |es|
    ensures forall j | 0 <= j < |es| :: lines[j] == EntryLine(es[j], mem, render)
    decreases |es|
  {
    if |es| == 0 then []
    else [EntryLine(es[0], mem, render)] + EntryLines(es[1..], mem, render)
  }

  /** A section's lines: its header, then its entries' lines. */
  function SectionLines(s: Section, mem: Memory, render: Render): (lines: seq<Line>)
    requires forall j | 0 <= j < |s.entries| :: Readable(s.entries[j], mem)
    ensures |lines| == 1 + |s.entries| && lines[0] == HeaderLine(s)
    ensures forall j | 0 <= j < |s.entries| :: lines[1 + j] == EntryLine(s.entries[j], mem, render)
  {
    [HeaderLine(s)] + EntryLines(s.entries, mem, render)
  }

  /** The number of lines the sections take: a header each, plus a line per entry. */
  function LineCount(ss: seq<Section>): nat {
    if |ss| == 0 then 0 else LineCount(ss[..|ss| - 1]) + 1 + |ss[|ss| - 1].entries|
  }

  /** The section loop, as lines; `Texts` of them is what uCiniDump writes. */
  function Dump(ss: seq<Section>, mem: Memory, render: Render): (lines: seq<Line>)
    requires Backed(ss, mem)
    ensures |lines| == LineCount(ss)
    decreases |ss|
  {
    if |ss| == 0 then []
    else
      var init := ss[..|ss| - 1];
      var last := ss[|ss| - 1];
      BackedPrefix(ss, mem, |ss| - 1);
      assert forall j | 0 <= j < |last.entries| :: Readable(last.entries[j], mem);
      Dump(init, mem, render) + SectionLines(last, mem, render)
  }

  /** Dumping the first n sections writes the first lines of the whole dump. */
  lemma {:induction false} DumpPrefix(ss: seq<Section>, mem: Memory, render: Render, n: nat)
    requires Backed(ss, mem) && n <= |ss|
    ensures Backed(ss[..n], mem)
    ensures LineCount(ss[..n]) <= LineCount(ss)
    ensures Dump(ss[..n], mem, render) == Dump(ss, mem, render)[..LineCount(ss[..n])]
    decreases |ss|
  {
    BackedPrefix(ss, mem, n);
    if n == |ss| {
      assert ss[..n] == ss;
    } else {
      var init := ss[..|ss| - 1];
      BackedPrefix(ss, mem, |ss| - 1);
      assert init[..n] == ss[..n];
      DumpPrefix(init, mem, render, n);
      var d := Dump(init, mem, render);
      assert Dump(ss, mem, render) == d + SectionLines(ss[|ss| - 1], mem, render);
      assert LineCount(init) <= LineCount(ss);
      assert (d + SectionLines(ss[|ss| - 1], mem, render))[..LineCount(ss[..n])] == d[..LineCount(ss[..n])];
    }
  }

  /** Section i's lines sit, contiguous and in declared order, right after
      the lines of the sections before it. */
  lemma {:induction false} DumpLayout(ss: seq<Section>, mem: Memory, render: Render, i: nat)
    requires Backed(ss, mem)
    requires i < |ss|
    ensures forall j | 0 <= j < |ss[i].entries| :: Readable(ss[i].entries[j], mem)
    ensures LineCount(ss[..i]) + 1 + |ss[i].entries| <= |Dump(ss, mem, render)|
    ensures Dump(ss, mem, render)[LineCount(ss[..i])..LineCount(ss[..i]) + 1 + |ss[i].entries|]
            == SectionLines(ss[i], mem, render)
  {
    DumpPrefix(ss, mem, render, i + 1);
    DumpSnoc(ss, mem, render, i);
    SliceOfPrefix(Dump(ss, mem, render), Dump(ss[..i + 1], mem, render), LineCount(ss[..i + 1]),
                  Dump(ss[..i], mem, render), SectionLines(ss[i], mem, render));
  }

  /** Dumping one more section appends that section's lines. */
  lemma DumpSnoc(ss: seq<Section>, mem: Memory, render: Render, i: nat)
    requires Backed(ss, mem) && i < |ss|
    ensures Backed(ss[..i], mem) && Backed(ss[..i + 1], mem)
    ensures forall j | 0 <= j < |ss[i].entries| :: Readable(ss[i].entries[j], mem)
    ensures Dump(ss[..i + 1], mem, render) == Dump(ss[..i], mem, render) + SectionLines(ss[i], mem, render)
  {
    var pre := ss[..i + 1];
    BackedPrefix(ss, mem, i);
    BackedPrefix(ss, mem, i + 1);
    assert pre[..i] == ss[..i] && pre[i] == ss[i];
  }

  /** When the first `n` elements of `d` are `front + lines`, `lines`
      follows `front` in `d`. */
  lemma SliceOfPrefix<T>(d: seq<T>, pre: seq<T>, n: nat, front: seq<T>, lines: seq<T>)
    requires n <= |d| && pre == d[..n] && pre == front + lines
    ensures |front| + |lines| <= |d| && d[|front|..|front| + |lines|] == lines
  {
    assert d[|front|..|front| + |lines|] == pre[|front|..];
  }
}
