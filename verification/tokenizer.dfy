/** The line tokenizer inside uCiniParse: a line starting with '[' names a
    section through `strtok(line, "[]")`; any other line gives a key through
    `strtok(line, " \t=")` and a value through `strtok(NULL, "\r\n")`. */
module Tokenizer {
  import opened Options
  import opened CString

  const SectionDelims: set<char> := {'[', ']'}
  const KeyDelims: set<char> := {' ', '\t', '='}
  const ValueDelims: set<char> := {'\r', '\n'}

  /** The test that sends a line to the section branch: its first character. */
  predicate IsSectionLine(line: string) {
    |line| > 0 && line[0] == '['
  }

  /** The section name: the first run of characters other than '[' and ']'. */
  function SectionToken(line: string): (t: Option<string>)
    ensures t.None? <==> AllIn(line, SectionDelims)
    ensures t.Some? ==> |t.value| > 0 && NoneIn(t.value, SectionDelims)
  {
    Strtok(line, SectionDelims).token
  }

  datatype KeyValue = KeyValue(key: Option<string>, value: Option<string>)

  /** The key, then the value taken from where the key's scan stopped. */
  function SplitKeyValue(line: string): (kv: KeyValue)
    ensures kv.key.None? ==> kv.value.None?
    ensures kv.key.Some? ==> |kv.key.value| > 0 && NoneIn(kv.key.value, KeyDelims)
    ensures kv.value.Some? ==> |kv.value.value| > 0 && NoneIn(kv.value.value, ValueDelims)
  {
    var first := Strtok(line, KeyDelims);
    KeyValue(first.token, Strtok(first.rest, ValueDelims).token)
  }

  /** The section token is `t` exactly when the line is bracket characters,
      then `t` (no brackets in it), then the end or a bracket. */
  lemma SectionTokenIs(line: string, t: string)
    ensures SectionToken(line) == Some(t) <==>
            exists p, q :: IsTokenOf(line, SectionDelims, p, t, q)
  {
    if SectionToken(line) == Some(t) {
      StrtokSplits(line, SectionDelims);
      var k := SpanLength(line, SectionDelims);
      assert IsTokenOf(line, SectionDelims, line[..k], t, line[k + |t|..]);
    }
    if exists p, q :: IsTokenOf(line, SectionDelims, p, t, q) {
      var p, q :| IsTokenOf(line, SectionDelims, p, t, q);
      StrtokOf(line, SectionDelims, p, t, q);
    }
  }

  /** A header as uCiniDump writes it yields its name. */
  lemma HeaderToken(name: string)
    requires |name| > 0 && NoneIn(name, SectionDelims)
    ensures IsSectionLine("[" + name + "]\n")
    ensures SectionToken("[" + name + "]\n") == Some(name)
  {
    var line := "[" + name + "]\n";
    assert IsTokenOf(line, SectionDelims, "[", name, "]\n");
    StrtokOf(line, SectionDelims, "[", name, "]\n");
  }

  /** After any run of ' ', '\t' and '=', the key is the maximal run of other
      characters; the value scan starts right after the character that ended
      the key, skips '\r' and '\n', and keeps everything else, blanks
      included, up to the next '\r' or '\n'. */
  lemma KeyLine(p: string, key: string, c: char, r: string)
    requires AllIn(p, KeyDelims) && |key| > 0 && NoneIn(key, KeyDelims) && c in KeyDelims
    ensures SplitKeyValue(p + key + [c] + r) == KeyValue(Some(key), Strtok(r, ValueDelims).token)
  {
    var line := p + key + [c] + r;
    assert line == p + key + ([c] + r);
    StrtokOf(line, KeyDelims, p, key, [c] + r);
    assert After([c] + r) == r;
  }

  /** An entry line as uCiniDump writes it yields its key and value; an empty
      value yields no value token at all. */
  lemma EntryTokens(key: string, value: string)
    requires |key| > 0 && NoneIn(key, KeyDelims)
    requires NoneIn(value, ValueDelims)
    ensures !IsSectionLine(key + "=" + value + "\n") <==> key[0] != '['
    ensures SplitKeyValue(key + "=" + value + "\n")
            == KeyValue(Some(key), if |value| == 0 then None else Some(value))
  {
    var line := key + "=" + value + "\n";
    assert line == [] + key + ['='] + (value + "\n");
    assert line[0] == key[0];
    KeyLine([], key, '=', value + "\n");
    if |value| == 0 {
      assert value + "\n" == "\n";
    } else {
      assert IsTokenOf(value + "\n", ValueDelims, [], value, "\n");
      StrtokOf(value + "\n", ValueDelims, [], value, "\n");
    }
  }
}
