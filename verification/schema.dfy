/** The mapping tables of uCini.h (tEntry, tSection, tIni), the host memory
    they point into, and how uCini.c's `switch (entry->type)` reads a tag. */
module Schema {
  import opened Bytes
  import Tags

  /** A host address: where `tEntry::data` points. Distinct addresses are
      distinct objects. */
  type Addr = nat

  /** tEntry: the key before '=', the host field, the raw `eType` tag. */
  datatype Entry = Entry(name: string, addr: Addr, tag: bv8)

  /** tSection: the name between '[' and ']' and its `nEntry` entries. */
  datatype Section = Section(name: string, entries: seq<Entry>)

  /** tIni: the `nSection` sections. */
  datatype Ini = Ini(sections: seq<Section>)

  /** What a host field holds: the bytes of an integer, or a C string. */
  datatype Cell = Bytes(bytes: seq<byte>) | Text(text: string)

  type Memory = map<Addr, Cell>

  /** The integer widths uCini.c switches on. */
  type Width = w: nat | w == 1 || w == 2 || w == 4 witness 1

  /** eType_CHAR, eType_SHORT and eType_LONG: uCini.c uses them as case
      labels and as memcpy lengths, so they are the byte widths. */
  const CharTag: bv8 := 1
  const ShortTag: bv8 := 2
  const LongTag: bv8 := 4

  /** The branch of the parse and dump switches a tag selects. */
  datatype Kind = Sz | Int(width: Width) | Func | Other

  function KindOf(tag: bv8): (k: Kind)
    ensures k.Sz? ==> tag == Tags.TypeSz
    ensures k.Int? ==> tag == k.width as bv8
    ensures k.Func? ==> tag == Tags.TypeFunc
  {
    if tag == Tags.TypeSz then Sz
    else if tag == CharTag then Int(1)
    else if tag == ShortTag then Int(2)
    else if tag == LongTag then Int(4)
    else if tag == Tags.TypeFunc then Func
    else Other
  }

  /** The tag a schema table writes for each dispatched kind. */
  function TagOf(k: Kind): (tag: bv8)
    requires !k.Other?
    ensures KindOf(tag) == k
  {
    match k
    case Sz => Tags.TypeSz
    case Int(w) => if w == 1 then CharTag else if w == 2 then ShortTag else LongTag
    case Func => Tags.TypeFunc
  }

  /** Tags built from the header's own INT and FLAG selectors reach no case
      of either switch: uCini.c handles neither. */
  lemma HeaderTagsUnhandled(f: Tags.Fields)
    requires Tags.ValidFields(f)
    requires f.selector == Tags.TypeInt || f.selector == Tags.TypeFlag
    ensures KindOf(Tags.Join(f)) == Other
  {
  }

  /** The addresses of the entries of `s`. */
  function SectionAddrs(s: Section): set<Addr> {
    set j | 0 <= j < |s.entries| :: s.entries[j].addr
  }

  /** The host field of `e` holds what its kind reads: a string for Sz, at
      least `width` bytes for Int. */
  predicate Readable(e: Entry, mem: Memory) {
    match KindOf(e.tag)
    case Sz => e.addr in mem && mem[e.addr].Text?
    case Int(w) => e.addr in mem && mem[e.addr].Bytes? && |mem[e.addr].bytes| >= w
    case _ => true
  }

  /** Every entry of every section points at a readable field. */
  predicate Backed(sections: seq<Section>, mem: Memory) {
    forall i, j | 0 <= i < |sections| && 0 <= j < |sections[i].entries| ::
      Readable(sections[i].entries[j], mem)
  }

  /** The fields of a schema's first sections are backed when the whole
      schema's are. */
  lemma BackedPrefix(ss: seq<Section>, mem: Memory, n: nat)
    requires Backed(ss, mem) && n <= |ss|
    ensures Backed(ss[..n], mem)
  {
    forall a, j | 0 <= a < n && 0 <= j < |ss[..n][a].entries|
      ensures Readable(ss[..n][a].entries[j], mem)
    {
      assert ss[..n][a] == ss[a];
    }
  }

  /** The value an Int field holds: `*(char*)`, `*(short*)` and `*(long*)`
      are all signed reads (plain char taken as signed). */
  function IntValue(e: Entry, mem: Memory): (v: int)
    requires KindOf(e.tag).Int? && Readable(e, mem)
    ensures -0x8000_0000 <= v < 0x8000_0000
    ensures LowBytes(v, KindOf(e.tag).width) == mem[e.addr].bytes[..KindOf(e.tag).width]
  {
    var bs := mem[e.addr].bytes[..KindOf(e.tag).width];
    LowBytesSigned(bs);
    assert Pow256(0) == 1 && Pow256(1) == 256 && Pow256(3) == 0x100_0000;
    Signed(bs)
  }

  /** `m1` and `m2` hold the same at `a`, or both nothing. */
  predicate SameAt(m1: Memory, m2: Memory, a: Addr) {
    (a in m1 <==> a in m2) && (a in m1 ==> m1[a] == m2[a])
  }

  /** `m2` agrees with `m1` on every address outside `addrs`. */
  ghost predicate Frame(m1: Memory, m2: Memory, addrs: set<Addr>) {
    forall a | a !in addrs :: SameAt(m1, m2, a)
  }

  /** The addresses of every entry of the schema. */
  function SchemaAddrs(ini: Ini): set<Addr> {
    set i, j | 0 <= i < |ini.sections| && 0 <= j < |ini.sections[i].entries| ::
      ini.sections[i].entries[j].addr
  }
}
