/** uCiniParse: a two-state machine (no section, or an active section) run
    over the input lines, assigning host fields from key lines. */
module Parser {
  import opened Options
  import opened CString
  import opened Bytes
  import opened Decimal
  import opened Tokenizer
  import opened Schema

  /** The length bound of both strncmp name comparisons: the line buffer. */
  const NameWindow: nat := 20

  /** A token names `name` when strncmp over the window finds them equal; a
      NULL token (strncmp on NULL is undefined in C) names nothing. */
  predicate Selects(token: Option<string>, name: string) {
    token.Some? && StrnEq(token.value, name, NameWindow)
  }

  /** A callback invoked as `((tIniFunc)data)(token2, 0)`. What it does is
      outside the model; the invocation is recorded. */
  datatype Call = Call(addr: Addr, arg: Option<string>)

  /** The parse state: host memory, the active section (`sectionAct`), and
      the callbacks invoked so far. */
  datatype State = State(mem: Memory, active: Option<Section>, calls: seq<Call>)

  /** The section loop: the first section, from `from` on, whose name the
      token selects. */
  function FindSection(sections: seq<Section>, token: Option<string>, from: nat): (r: Option<nat>)
    requires from <= |sections|
    ensures r.Some? ==> from <= r.value < |sections| && Selects(token, sections[r.value].name)
    ensures forall i | from <= i < (if r.Some? then r.value else |sections|) ::
              !Selects(token, sections[i].name)
    decreases |sections| - from
  {
    if from == |sections| then None
    else if Selects(token, sections[from].name) then Some(from)
    else FindSection(sections, token, from + 1)
  }

  /** memcpy(data, &number, width): the low `width` bytes of the value
      replace the first `width` bytes of the field; any bytes beyond stay. */
  function StoreInt(mem: Memory, addr: Addr, w: Width, v: int): (m: Memory)
    ensures addr in m && m[addr].Bytes? && |m[addr].bytes| >= w
    ensures Unsigned(m[addr].bytes[..w]) == v % Pow256(w)
    ensures addr in mem && mem[addr].Bytes? && |mem[addr].bytes| >= w ==>
              m[addr].bytes[w..] == mem[addr].bytes[w..]
    ensures Frame(mem, m, {addr})
  {
    var tail := if addr in mem && mem[addr].Bytes? && |mem[addr].bytes| >= w
                then mem[addr].bytes[w..] else [];
    var bytes := LowBytes(v, w) + tail;
    assert bytes[..w] == LowBytes(v, w) && bytes[w..] == tail;
    mem[addr := Bytes(bytes)]
  }

  /** The type switch for one matching entry and the value token. */
  function Assign(e: Entry, value: Option<string>, st: State): (r: State)
    ensures r.active == st.active
    ensures Frame(st.mem, r.mem, {e.addr})
    ensures KindOf(e.tag).Sz? && value.Some? ==>
              e.addr in r.mem && r.mem[e.addr] == Text(value.value) && r.calls == st.calls
    ensures KindOf(e.tag).Int? && value.Some? && ScanAsWritten(value.value).Some? ==>
              var w := KindOf(e.tag).width;
              e.addr in r.mem && r.mem[e.addr].Bytes? && |r.mem[e.addr].bytes| >= w
              && Unsigned(r.mem[e.addr].bytes[..w]) == ScanAsWritten(value.value).value % Pow256(w)
              && r.calls == st.calls
    ensures KindOf(e.tag).Int? && (value.None? || ScanAsWritten(value.value).None?) ==> r == st
    ensures KindOf(e.tag).Func? ==> r.mem == st.mem && r.calls == st.calls + [Call(e.addr, value)]
    ensures KindOf(e.tag).Other? || (KindOf(e.tag).Sz? && value.None?) ==> r == st
  {
    match KindOf(e.tag)
    case Sz =>
      if value.Some? then st.(mem := st.mem[e.addr := Text(value.value)]) else st
    case Int(w) =>
      var n := if value.Some? then ScanAsWritten(value.value) else None;
      if n.Some? then st.(mem := StoreInt(st.mem, e.addr, w, n.value)) else st
    case Func =>
      st.(calls := st.calls + [Call(e.addr, value)])
    case Other =>
      st
  }

  /** The addresses of the entries of `es` the key selects. */
  function MatchedAddrs(es: seq<Entry>, key: Option<string>): set<Addr> {
    set j | 0 <= j < |es| && Selects(key, es[j].name) :: es[j].addr
  }

  lemma FrameTrans(m1: Memory, m2: Memory, m3: Memory, a: set<Addr>, b: set<Addr>)
    requires Frame(m1, m2, a) && Frame(m2, m3, b)
    ensures Frame(m1, m3, a + b)
  {
  }

  lemma FrameWiden(m1: Memory, m2: Memory, a: set<Addr>, b: set<Addr>)
    requires Frame(m1, m2, a) && a <= b
    ensures Frame(m1, m2, b)
  {
  }

  /** The entry loop: every entry the key selects is assigned, in declared
      order (there is no break); nothing else changes. */
  function ApplyEntries(es: seq<Entry>, key: Option<string>, value: Option<string>, st: State): (r: State)
    ensures r.active == st.active
    ensures Frame(st.mem, r.mem, MatchedAddrs(es, key))
    ensures (forall j | 0 <= j < |es| :: !Selects(key, es[j].name)) ==> r == st
    ensures st.calls <= r.calls
    decreases |es|
  {
    if |es| == 0 then st
    else
      var next := if Selects(key, es[0].name) then Assign(es[0], value, st) else st;
      var r := ApplyEntries(es[1..], key, value, next);
      assert MatchedAddrs(es, key)
             == (if Selects(key, es[0].name) then {es[0].addr} else {}) + MatchedAddrs(es[1..], key) by {
        forall j | 1 <= j < |es| ensures es[j] == es[1..][j - 1] { }
      }
      FrameTrans(st.mem, next.mem, r.mem,
                 if Selects(key, es[0].name) then {es[0].addr} else {}, MatchedAddrs(es[1..], key));
      assert (forall j | 0 <= j < |es| :: !Selects(key, es[j].name)) ==>
             (forall j | 0 <= j < |es[1..]| :: !Selects(key, es[1..][j].name));
      PrefixTrans(st.calls, next.calls, r.calls);
      r
  }

  /** One input line. */
  function Step(ini: Ini, st: State, line: string): (r: State)
    ensures IsSectionLine(line) ==> r.mem == st.mem && r.calls == st.calls
    ensures IsSectionLine(line) && r.active.Some? ==>
              exists i | 0 <= i < |ini.sections| ::
                && r.active.value == ini.sections[i]
                && Selects(SectionToken(line), ini.sections[i].name)
                && forall k | 0 <= k < i :: !Selects(SectionToken(line), ini.sections[k].name)
    ensures IsSectionLine(line) ==>
              (r.active.None? <==>
               forall i | 0 <= i < |ini.sections| :: !Selects(SectionToken(line), ini.sections[i].name))
    ensures !IsSectionLine(line) ==> r.active == st.active
    ensures !IsSectionLine(line) && st.active.None? ==> r == st
    ensures Frame(st.mem, r.mem, if st.active.Some? then SectionAddrs(st.active.value) else {})
    ensures st.calls <= r.calls
  {
    if IsSectionLine(line) then
      var found := FindSection(ini.sections, SectionToken(line), 0);
      st.(active := if found.Some? then Some(ini.sections[found.value]) else None)
    else if st.active.Some? then
      var kv := SplitKeyValue(line);
      var r := ApplyEntries(st.active.value.entries, kv.key, kv.value, st);
      assert MatchedAddrs(st.active.value.entries, kv.key) <= SectionAddrs(st.active.value);
      r
    else
      st
  }

  /** The read loop over the lines, from a given state. */
  function Run(ini: Ini, st: State, lines: seq<string>): (r: State)
    ensures r.active == st.active || r.active.None? || r.active.value in ini.sections
    ensures st.calls <= r.calls
    decreases |lines|
  {
    if |lines| == 0 then st
    else
      var next := Step(ini, st, lines[0]);
      var r := Run(ini, next, lines[1..]);
      PrefixTrans(st.calls, next.calls, r.calls);
      r
  }

  lemma PrefixTrans<T>(a: seq<T>, b: seq<T>, c: seq<T>)
    requires a <= b && b <= c
    ensures a <= c
  {
    assert c[..|b|][..|a|] == c[..|a|];
  }

  /** uCiniParse: start with no active section and run every line. */
  function Parse(ini: Ini, mem: Memory, lines: seq<string>): (r: State)
    ensures r.active.None? || r.active.value in ini.sections
    ensures Frame(mem, r.mem, SchemaAddrs(ini))
  {
    RunFrame(ini, State(mem, None, []), lines);
    Run(ini, State(mem, None, []), lines)
  }

  /** Reading lines in two pieces is reading them in one go. */
  lemma {:induction false} RunAppend(ini: Ini, st: State, a: seq<string>, b: seq<string>)
    ensures Run(ini, st, a + b) == Run(ini, Run(ini, st, a), b)
    decreases |a|
  {
    if |a| > 0 {
      assert (a + b)[0] == a[0] && (a + b)[1..] == a[1..] + b;
      RunAppend(ini, Step(ini, st, a[0]), a[1..], b);
    } else {
      assert a + b == b;
    }
  }

  /** The active section, if any, is one of the schema's. */
  predicate InSchema(ini: Ini, st: State) {
    st.active.Some? ==> st.active.value in ini.sections
  }

  /** Parsing writes nowhere but the schema's fields. */
  lemma {:induction false} RunFrame(ini: Ini, st: State, lines: seq<string>)
    requires InSchema(ini, st)
    ensures InSchema(ini, Run(ini, st, lines))
    ensures Frame(st.mem, Run(ini, st, lines).mem, SchemaAddrs(ini))
    decreases |lines|
  {
    if |lines| > 0 {
      var next := Step(ini, st, lines[0]);
      var touched := if st.active.Some? then SectionAddrs(st.active.value) else {};
      if st.active.Some? {
        var i :| 0 <= i < |ini.sections| && ini.sections[i] == st.active.value;
        assert touched <= SchemaAddrs(ini) by {
          forall j | 0 <= j < |ini.sections[i].entries|
            ensures ini.sections[i].entries[j].addr in SchemaAddrs(ini) { }
        }
      }
      FrameWiden(st.mem, next.mem, touched, SchemaAddrs(ini));
      RunFrame(ini, next, lines[1..]);
      FrameTrans(st.mem, next.mem, Run(ini, next, lines[1..]).mem, SchemaAddrs(ini), SchemaAddrs(ini));
    }
  }

  lemma ParseFrame(ini: Ini, mem: Memory, lines: seq<string>)
    ensures Frame(mem, Parse(ini, mem, lines).mem, SchemaAddrs(ini))
  {
    RunFrame(ini, State(mem, None, []), lines);
  }

  /** With no section active, key lines change nothing until a '[' line. */
  lemma {:induction false} KeysOutsideSectionIgnored(ini: Ini, st: State, lines: seq<string>)
    requires st.active.None?
    requires forall k | 0 <= k < |lines| :: !IsSectionLine(lines[k])
    ensures Run(ini, st, lines) == st
    decreases |lines|
  {
    if |lines| > 0 {
      KeysOutsideSectionIgnored(ini, st, lines[1..]);
    }
  }

  /** A header naming no section of the schema deactivates the section, and
      the key lines after it change nothing. */
  lemma UnknownSectionIgnored(ini: Ini, mem: Memory, header: string, lines: seq<string>)
    requires IsSectionLine(header)
    requires forall i | 0 <= i < |ini.sections| :: !Selects(SectionToken(header), ini.sections[i].name)
    requires forall k | 0 <= k < |lines| :: !IsSectionLine(lines[k])
    ensures Parse(ini, mem, [header] + lines) == State(mem, None, [])
  {
    var st := State(mem, None, []);
    assert ([header] + lines)[0] == header && ([header] + lines)[1..] == lines;
    KeysOutsideSectionIgnored(ini, Step(ini, st, header), lines);
  }

  /** What Assign leaves at the entry's own address depends only on what was
      there before. */
  lemma AssignLocal(e: Entry, value: Option<string>, st1: State, st2: State)
    requires SameAt(st1.mem, st2.mem, e.addr)
    ensures SameAt(Assign(e, value, st1).mem, Assign(e, value, st2).mem, e.addr)
  {
  }

  /** Assigning one entry in two states that agree on `addrs`, its own
      address among them, leaves states that still agree there. */
  lemma AssignAgreeing(e: Entry, value: Option<string>, st1: State, st2: State, addrs: set<Addr>)
    requires e.addr in addrs
    requires forall a | a in addrs :: SameAt(st1.mem, st2.mem, a)
    ensures forall a | a in addrs :: SameAt(Assign(e, value, st1).mem, Assign(e, value, st2).mem, a)
  {
    var m1, m2 := Assign(e, value, st1).mem, Assign(e, value, st2).mem;
    forall a | a in addrs
      ensures SameAt(m1, m2, a)
    {
      if a == e.addr {
        AssignLocal(e, value, st1, st2);
      } else {
        assert SameAt(st1.mem, m1, a) && SameAt(st2.mem, m2, a);
      }
    }
  }

  /** What the entry loop leaves at the selected addresses depends only on
      what was there before. */
  lemma {:induction false} ApplyLocal(es: seq<Entry>, key: Option<string>, value: Option<string>,
                                      st1: State, st2: State)
    requires forall a | a in MatchedAddrs(es, key) :: SameAt(st1.mem, st2.mem, a)
    ensures forall a | a in MatchedAddrs(es, key) ::
              SameAt(ApplyEntries(es, key, value, st1).mem, ApplyEntries(es, key, value, st2).mem, a)
    decreases |es|
  {
    if |es| > 0 {
      var hit := Selects(key, es[0].name);
      var next1 := if hit then Assign(es[0], value, st1) else st1;
      var next2 := if hit then Assign(es[0], value, st2) else st2;
      var rest := MatchedAddrs(es[1..], key);
      assert rest <= MatchedAddrs(es, key) by {
        forall j | 0 <= j < |es[1..]| && Selects(key, es[1..][j].name)
          ensures es[1..][j].addr in MatchedAddrs(es, key)
        {
          assert es[1..][j] == es[j + 1];
        }
      }
      if hit {
        assert es[0].addr in MatchedAddrs(es, key);
        AssignAgreeing(es[0], value, st1, st2, MatchedAddrs(es, key));
      }
      ApplyLocal(es[1..], key, value, next1, next2);
    }
  }

  /** No break in the entry loop: every selected entry whose address no
      other selected entry shares ends up assigned, as if it were the only
      one. */
  lemma {:induction false} EveryMatchAssigned(es: seq<Entry>, key: Option<string>, value: Option<string>,
                                              st: State, j: nat)
    requires j < |es| && Selects(key, es[j].name)
    requires forall m | 0 <= m < |es| && m != j && Selects(key, es[m].name) :: es[m].addr != es[j].addr
    ensures SameAt(ApplyEntries(es, key, value, st).mem, Assign(es[j], value, st).mem, es[j].addr)
    decreases j
  {
    var a := es[j].addr;
    var hit := Selects(key, es[0].name);
    var next := if hit then Assign(es[0], value, st) else st;
    var r := ApplyEntries(es[1..], key, value, next);
    assert forall m | 0 <= m < |es[1..]| :: es[1..][m] == es[m + 1];
    if j == 0 {
      assert a !in MatchedAddrs(es[1..], key);
    } else {
      assert SameAt(next.mem, st.mem, a);
      EveryMatchAssigned(es[1..], key, value, next, j - 1);
      AssignLocal(es[j], value, next, st);
    }
  }

  /** When one entry alone is selected, the loop is that entry's assignment. */
  lemma {:induction false} UniqueMatch(es: seq<Entry>, key: Option<string>, value: Option<string>,
                                       st: State, j: nat)
    requires j < |es| && Selects(key, es[j].name)
    requires forall m | 0 <= m < |es| && m != j :: !Selects(key, es[m].name)
    ensures ApplyEntries(es, key, value, st) == Assign(es[j], value, st)
    decreases j
  {
    assert forall m | 0 <= m < |es[1..]| :: es[1..][m] == es[m + 1];
    if j > 0 {
      UniqueMatch(es[1..], key, value, st, j - 1);
    }
  }

  lemma SameEverywhere(m1: Memory, m2: Memory)
    requires forall a :: SameAt(m1, m2, a)
    ensures m1 == m2
  {
    forall a | a in m1 ensures a in m2 && m1[a] == m2[a] { assert SameAt(m1, m2, a); }
    forall a | a in m2 ensures a in m1 { assert SameAt(m1, m2, a); }
    assert m1.Keys == m2.Keys;
  }

  /** Two key lines of the active section whose selected entries lie at
      disjoint addresses may come in either order: the memory is the same. */
  lemma KeyLinesCommute(ini: Ini, st: State, l1: string, l2: string)
    requires !IsSectionLine(l1) && !IsSectionLine(l2) && st.active.Some?
    requires MatchedAddrs(st.active.value.entries, SplitKeyValue(l1).key)
             !! MatchedAddrs(st.active.value.entries, SplitKeyValue(l2).key)
    ensures Step(ini, Step(ini, st, l1), l2).mem == Step(ini, Step(ini, st, l2), l1).mem
  {
    var es := st.active.value.entries;
    var kv1, kv2 := SplitKeyValue(l1), SplitKeyValue(l2);
    var A, B := MatchedAddrs(es, kv1.key), MatchedAddrs(es, kv2.key);
    var s1, s2 := Step(ini, st, l1), Step(ini, st, l2);
    var s12, s21 := Step(ini, s1, l2), Step(ini, s2, l1);
    assert s1 == ApplyEntries(es, kv1.key, kv1.value, st);
    assert s2 == ApplyEntries(es, kv2.key, kv2.value, st);
    assert s12 == ApplyEntries(es, kv2.key, kv2.value, s1);
    assert s21 == ApplyEntries(es, kv1.key, kv1.value, s2);
    ApplyLocal(es, kv1.key, kv1.value, st, s2);
    ApplyLocal(es, kv2.key, kv2.value, st, s1);
    forall a ensures SameAt(s12.mem, s21.mem, a) {
      if a in A {
        assert SameAt(s12.mem, s1.mem, a);
      } else if a in B {
        assert SameAt(s21.mem, s2.mem, a);
      }
    }
    SameEverywhere(s12.mem, s21.mem);
  }
}
