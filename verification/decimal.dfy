/** The decimal codec of uCini.c: `sscand` scans a token into a `long`,
    `sprintd` appends the decimal text of a `long` to a buffer. Values are
    unbounded integers; the 32-bit `long` appears where the code depends on
    it (the overflowing negation in `sprintd`). */
module Decimal {
  import opened Options
  import opened CString

  predicate IsDigit(c: char) {
    '0' <= c <= '9'
  }

  predicate AllDigits(s: string) {
    forall k | 0 <= k < |s| :: IsDigit(s[k])
  }

  /** The value of a plain `char`, which is signed: the bytes 0x80 to 0xFF
      read as -128 to -1. */
  function CharCode(c: char): (v: int)
    ensures c as int < 0x100 ==> -0x80 <= v < 0x80 && (c as int - v) % 0x100 == 0
    ensures c as int < 0x80 ==> v == c as int
  {
    if 0x80 <= c as int < 0x100 then c as int - 0x100 else c as int
  }

  /** `*str - '0'`: computed for every character, digit or not. */
  function DigitValue(c: char): int {
    CharCode(c) - '0' as int
  }

  function DigitChar(d: nat): (c: char)
    requires d < 10
    ensures IsDigit(c) && DigitValue(c) == d
  {
    ('0' as int + d) as char
  }

  function Abs(n: int): nat {
    if n < 0 then -n else n
  }

  /** The accumulator of sscand's loop after `s`: `number = number * 10 + digit`
      once per character, left to right, with no check after the first one. */
  function Accumulate(s: string): int {
    if |s| == 0 then 0 else Accumulate(s[..|s| - 1]) * 10 + DigitValue(s[|s| - 1])
  }

  // ---------------------------------------------------------------- sscand

  /** Where the digits start in `s`, past one optional '+' and then one
      optional '-'. */
  function DigitsStart(s: string): (j: nat)
    ensures j <= |s| && j <= 2
  {
    var i := if |s| > 0 && s[0] == '+' then 1 else 0;
    if i < |s| && s[i] == '-' then i + 1 else i
  }

  /** Whether the '-' was there. */
  predicate Negated(s: string) {
    var i := if |s| > 0 && s[0] == '+' then 1 else 0;
    i < |s| && s[i] == '-'
  }

  /** sscand without its y/n literals: one optional '+', then one optional
      '-', then a digit must follow; every later character is accumulated
      unchecked. */
  function ScanNumber(s: string): (r: Option<int>)
    ensures r.Some? ==> DigitsStart(s) < |s| && IsDigit(s[DigitsStart(s)])
    ensures |s| > 0 && AllDigits(s) ==> r == Some(Accumulate(s))
  {
    var j := DigitsStart(s);
    assert |s| > 0 && AllDigits(s) ==> j == 0 && s[j..] == s;
    if j == |s| || !IsDigit(s[j]) then None
    else if Negated(s) then Some(-Accumulate(s[j..]))
    else Some(Accumulate(s[j..]))
  }

  /** sscand as written: "y" and "n" (strncmp over two characters, so the
      whole token) succeed, but the final `*pNum = number` overwrites the 1
      stored for "y" with the untouched 0. */
  function ScanAsWritten(s: string): (r: Option<int>)
    ensures s == "y" || s == "n" ==> r == Some(0)
    ensures s != "y" && s != "n" ==> r == ScanNumber(s)
  {
    if StrnEq(s, "y", 2) || StrnEq(s, "n", 2) then Some(0) else ScanNumber(s)
  }

  /** sscand as intended: "y" scans as 1 and "n" as 0. */
  function Scan(s: string): (r: Option<int>)
    ensures s == "y" ==> r == Some(1)
    ensures s == "n" ==> r == Some(0)
    ensures s != "y" && s != "n" ==> r == ScanNumber(s)
  {
    if StrnEq(s, "y", 2) then Some(1)
    else if StrnEq(s, "n", 2) then Some(0)
    else ScanNumber(s)
  }

  /** The two scanners differ on the token "y" alone. */
  lemma YesScansAsZero(s: string)
    ensures ScanAsWritten("y") == Some(0) && Scan("y") == Some(1)
    ensures s != "y" ==> ScanAsWritten(s) == Scan(s)
  {
    assert StrnEq("y", "y", 2);
    if StrnEq(s, "y", 2) { StrnEqShort("y", s, 2); }
    if StrnEq(s, "n", 2) { StrnEqShort("n", s, 2); }
  }

  /** Only the character after the signs is checked: once it is a digit,
      the token is accepted whatever follows, every later character adding
      its code minus '0'. */
  lemma FirstDigitOnly(d: char, rest: string)
    requires IsDigit(d)
    ensures ScanNumber([d] + rest) == Some(Accumulate([d] + rest))
    ensures ScanNumber("-" + [d] + rest) == Some(-Accumulate([d] + rest))
  {
    var t := [d] + rest;
    assert t[0] == d && t[0..] == t;
    var u := "-" + t;
    assert u == "-" + [d] + rest;
    assert u[0] == '-' && u[1] == d && u[1..] == t;
  }

  /** The same after a leading '+', which is skipped, '-' or not. */
  lemma PlusFirstDigitOnly(d: char, rest: string)
    requires IsDigit(d)
    ensures ScanNumber("+" + [d] + rest) == Some(Accumulate([d] + rest))
    ensures ScanNumber("+-" + [d] + rest) == Some(-Accumulate([d] + rest))
  {
    var t := [d] + rest;
    assert t[0] == d;
    var p := "+" + t;
    assert p == "+" + [d] + rest;
    assert p[0] == '+' && p[1] == d && p[1..] == t;
    var q := "+-" + t;
    assert q == "+-" + [d] + rest;
    assert q[0] == '+' && q[1] == '-' && q[2] == d && q[2..] == t;
  }

  /** A byte from 0x80 up counts as negative: "1" followed by 0xE9 reads as
      10 + (-23 - 48). */
  lemma HighByteScan()
    ensures ScanAsWritten(['1', 0xE9 as char]) == Some(-61)
  {
    var s := ['1', 0xE9 as char];
    assert !StrnEq(s, "y", 2) && !StrnEq(s, "n", 2);
    assert s != "y" && s != "n";
    assert DigitsStart(s) == 0 && !Negated(s) && s[0..] == s;
    assert s[..1] == "1" && "1"[..0] == "";
    assert Accumulate("1") == 1;
    assert DigitValue(s[1]) == -71;
  }

  /** What sscand accepts and rejects at the edges: no token, a lone sign,
      "+-5", and a digit followed by a letter. */
  lemma ScanEdges()
    ensures Scan("") == None
    ensures Scan("-") == None && Scan("+") == None && Scan("+-") == None
    ensures Scan("+-5") == Some(-5)
    ensures Scan("1x") == Some(10 + DigitValue('x'))
  {
    assert "+-5"[2..] == "5" && "5"[..0] == "";
    assert "1x"[0..] == "1x" && "1x"[..1] == "1" && "1"[..0] == "";
  }

  /** sscand(str, pNum) as written, walking the string as the C loop does:
      it reports success, and on failure hands back `num` (what *pNum held)
      untouched. For "y" the 1 stored first is overwritten by the 0 in
      `number`. */
  method Sscand(str: string, num: int) returns (ok: bool, result: int)
    ensures ok <==> ScanAsWritten(str).Some?
    ensures ok ==> result == ScanAsWritten(str).value
    ensures !ok ==> result == num
  {
    var number := 0;
    if StrnEq(str, "y", 2) { result := 1; return true, number; }
    if StrnEq(str, "n", 2) { result := 0; return true, number; }
    var i := 0;
    var sign := 1;
    if i < |str| && str[i] == '+' { i := i + 1; }
    if i < |str| && str[i] == '-' { i := i + 1; sign := -1; }
    assert i == DigitsStart(str) && (sign == -1 <==> Negated(str));
    if i == |str| || !IsDigit(str[i]) { return false, num; }
    number := ScanDigits(str, i, sign);
    return true, number;
  }

  /** The digit loop of sscand from `start` to the terminator, the sign
      folded into every step. */
  method ScanDigits(str: string, start: nat, sign: int) returns (number: int)
    requires start <= |str|
    ensures number == sign * Accumulate(str[start..])
  {
    var i := start;
    number := 0;
    while i < |str|
      invariant start <= i <= |str|
      invariant number == sign * Accumulate(str[start..i])
    {
      var before, c := str[start..i], str[i];
      assert str[start..i + 1] == before + [c];
      AccumulateSnoc(before, c);
      Distribute(sign, Accumulate(before), DigitValue(c));
      number := number * 10 + DigitValue(c) * sign;
      i := i + 1;
    }
    assert str[start..] == str[start..i];
  }

  // --------------------------------------------------------------- sprintd

  /** Canonical decimal text: "0", or an optional '-' and digits without a
      leading zero. */
  predicate Canonical(t: string) {
    || t == "0"
    || (|t| > 0 && t[0] != '-' && Positional(t))
    || (|t| > 1 && t[0] == '-' && Positional(t[1..]))
  }

  /** Digits only, the first of them not '0'. */
  predicate Positional(d: string) {
    |d| > 0 && AllDigits(d) && d[0] != '0'
  }

  /** The digits sprintd appends for a positive `m`: those of `m / 10` by the
      recursive call when that is not 0, then the digit `m % 10`. */
  function Digits(m: int): (d: string)
    requires m > 0
    ensures Positional(d)
    decreases m
  {
    var high := if m / 10 != 0 then Digits(m / 10) else "";
    var d := high + [DigitChar(m % 10)];
    assert d[0] != '0' && AllDigits(d) by {
      if high == "" {
        assert d == [DigitChar(m)];
      } else {
        assert d[0] == high[0];
        assert forall k | 0 <= k < |high| :: d[k] == high[k];
      }
    }
    d
  }

  /** The text sprintd appends for `num`, with the negation done exactly:
      a '-' first for a negative number, whose magnitude is then printed. */
  function Print(num: int): (r: string)
    ensures Canonical(r)
    ensures r[0] == '-' <==> num < 0
  {
    if num == 0 then "0"
    else if num < 0 then
      var r := "-" + Digits(-num);
      assert r[1..] == Digits(-num);
      r
    else Digits(num)
  }

  lemma AccumulateSnoc(s: string, c: char)
    ensures Accumulate(s + [c]) == Accumulate(s) * 10 + DigitValue(c)
  {
    assert (s + [c])[..|s|] == s;
  }

  /** The digits of a positive number accumulate back to it. */
  lemma {:induction false} AccumulateDigits(m: int)
    requires m > 0
    ensures Accumulate(Digits(m)) == m
    decreases m
  {
    var high := if m / 10 != 0 then Digits(m / 10) else "";
    assert Digits(m) == high + [DigitChar(m % 10)];
    AccumulateSnoc(high, DigitChar(m % 10));
    if m / 10 != 0 {
      AccumulateDigits(m / 10);
    }
  }

  /** sscand reads back exactly what sprintd wrote, for every value. */
  lemma PrintScan(n: int)
    ensures Scan(Print(n)) == Some(n)
  {
    if n > 0 {
      PositivePrintScans(n);
    } else if n < 0 {
      NegativePrintScans(n);
    } else {
      ZeroScans();
    }
  }

  lemma PositivePrintScans(n: int)
    requires n > 0
    ensures Scan(Print(n)) == Some(n)
  {
    var d := Digits(n);
    assert Print(n) == d;
    AccumulateDigits(n);
    PositionalScans(d);
  }

  lemma NegativePrintScans(n: int)
    requires n < 0
    ensures Scan(Print(n)) == Some(n)
  {
    var d := Digits(-n);
    assert Print(n) == "-" + d;
    AccumulateDigits(-n);
    NegativeScans(d);
  }

  lemma ZeroScans()
    ensures Scan(Print(0)) == Some(0)
  {
    var z := Print(0);
    assert z == "0";
    assert z[0..] == z;
    assert Accumulate(z) == 0 by { assert z[..0] == ""; }
    assert z != "y" && z != "n";
    assert DigitsStart(z) == 0 && !Negated(z);
  }

  /** A positional digit string scans as its accumulated value... */
  lemma PositionalScans(d: string)
    requires Positional(d)
    ensures Scan(d) == Some(Accumulate(d))
  {
    assert d != "y" && d != "n" by { assert IsDigit(d[0]); }
    assert DigitsStart(d) == 0 && !Negated(d);
    assert d[0..] == d;
  }

  /** ... and with a '-' in front, as its negation. */
  lemma NegativeScans(d: string)
    requires Positional(d)
    ensures Scan("-" + d) == Some(-Accumulate(d))
  {
    var t := "-" + d;
    assert t[0] == '-' && t[1..] == d && t[1] == d[0];
    assert t != "y" && t != "n";
    assert DigitsStart(t) == 1 && Negated(t);
  }

  lemma Distribute(sign: int, a: int, v: int)
    ensures sign * (a * 10 + v) == sign * a * 10 + v * sign
  {
  }

  /** Appending the digit `v` to the decimal text of `a` is undone by
      `/ 10` and `% 10`. */
  lemma DivModTen(a: int, v: int)
    requires a >= 0 && 0 <= v < 10
    ensures (a * 10 + v) / 10 == a && (a * 10 + v) % 10 == v
  {
  }

  /** sprintd reproduces a positional digit string from its value. */
  lemma {:induction false} DigitsAccumulate(d: string)
    requires Positional(d)
    ensures Accumulate(d) > 0 && Digits(Accumulate(d)) == d
    decreases |d|
  {
    var init := d[..|d| - 1];
    var last := d[|d| - 1];
    assert d == init + [last];
    var v := DigitValue(last);
    assert 0 <= v < 10 && DigitChar(v) == last;
    if |init| == 0 {
      assert Accumulate(d) == v by { assert init == []; }
      assert Digits(v) == [DigitChar(v)];
    } else {
      assert init[0] == d[0];
      DigitsAccumulate(init);
      var a := Accumulate(init);
      assert Accumulate(d) == a * 10 + v;
      DivModTen(a, v);
      assert Digits(a * 10 + v) == Digits(a) + [DigitChar(v)];
    }
  }

  /** Every canonical token survives a scan followed by a print, so canonical
      texts and integers correspond one to one. */
  lemma ScanPrint(t: string)
    requires Canonical(t)
    ensures Scan(t).Some? && Print(Scan(t).value) == t
  {
    if t == "0" {
    } else if t[0] == '-' {
      var d := t[1..];
      assert "-" + d == t;
      NegativeScans(d);
      DigitsAccumulate(d);
    } else {
      PositionalScans(t);
      DigitsAccumulate(t);
    }
  }

  // ------------------------------------------------ sprintd on a 32-bit long

  const LongMin: int := -0x8000_0000
  const LongMax: int := 0x7FFF_FFFF

  predicate IsLong(n: int) {
    LongMin <= n <= LongMax
  }

  /** Two's complement wrap into the range of a 32-bit long. */
  function WrapLong(n: int): (r: int)
    ensures IsLong(r)
    ensures IsLong(n) ==> r == n
  {
    (n - LongMin) % 0x1_0000_0000 + LongMin
  }

  /** C's `/`, which truncates toward zero. */
  function Quot(a: int, b: int): int
    requires b > 0
  {
    if a >= 0 then a / b else -((-a) / b)
  }

  /** C's `%`, whose remainder takes the sign of the dividend. */
  function Rem(a: int, b: int): (r: int)
    requires b > 0
    ensures Abs(r) < b
  {
    a - b * Quot(a, b)
  }

  /** sprintd as written on a 32-bit long: `num *= -1` wraps, so LONG_MIN
      stays negative and the digits come from C's truncating `/` and `%`. */
  function PrintAsWritten(num: int): (r: string)
    requires IsLong(num)
    ensures |r| > 0 && (r[0] == '-' <==> num < 0)
    decreases Abs(num)
  {
    if num == 0 then "0"
    else
      var m := if num < 0 then WrapLong(-num) else num;
      assert Abs(m) == Abs(num) by {
        if num == LongMin { assert m == LongMin; }
      }
      var div := Quot(m, 10);
      var mod := Rem(m, 10);
      (if num < 0 then "-" else "")
        + (if div != 0 then PrintAsWritten(div) else "")
        + [('0' as int + mod) as char]
  }

  /** Away from LONG_MIN the code as written prints what Print prints. */
  lemma PrintAsWrittenAgrees(n: int)
    requires IsLong(n) && n != LongMin
    ensures PrintAsWritten(n) == Print(n)
  {
    if n > 0 {
      PrintAsWrittenDigits(n);
    } else if n < 0 {
      PrintAsWrittenNegative(n);
      PrintAsWrittenDigits(-n);
    }
  }

  /** Away from LONG_MIN the negation is exact: the code as written prints
      '-' and then what it prints for the magnitude. */
  lemma PrintAsWrittenNegative(n: int)
    requires LongMin < n < 0
    ensures PrintAsWritten(n) == "-" + PrintAsWritten(-n)
  {
    assert WrapLong(-n) == -n;
  }

  /** On a positive long the code as written appends exactly Digits. */
  lemma {:induction false} PrintAsWrittenDigits(m: int)
    requires 0 < m <= LongMax
    ensures PrintAsWritten(m) == Digits(m)
    decreases m
  {
    QuotRemNatural(m);
    if m / 10 != 0 {
      PrintAsWrittenDigits(m / 10);
    }
  }

  /** On a non-negative dividend C's `/` and `%` agree with Dafny's. */
  lemma QuotRemNatural(m: int)
    requires m >= 0
    ensures Quot(m, 10) == m / 10 && Rem(m, 10) == m % 10
    ensures 0 <= m % 10 < 10 && ('0' as int + m % 10) as char == DigitChar(m % 10)
  {
  }

  /** One step of the recursion for LONG_MIN: the negation leaves it
      negative, so the quotient -214748364 is printed with its own '-' and
      the remainder -8 becomes the character '0' - 8, that is '('. */
  lemma LongMinStep()
    ensures PrintAsWritten(LongMin) == "-" + PrintAsWritten(-214748364) + "("
  {
    assert WrapLong(-LongMin) == LongMin by {
      assert (-LongMin - LongMin) % 0x1_0000_0000 == 0;
    }
    assert Quot(LongMin, 10) == -214748364;
    assert Rem(LongMin, 10) == -8;
    assert ('0' as int + -8) as char == '(';
  }

  /** For LONG_MIN the code as written prints "--214748364(", which sscand
      rejects, while the exact printer's text scans back: the round trip
      fails exactly there. */
  lemma LongMinAsWritten()
    ensures |PrintAsWritten(LongMin)| > 2
    ensures PrintAsWritten(LongMin)[..2] == "--"
    ensures PrintAsWritten(LongMin)[|PrintAsWritten(LongMin)| - 1] == '('
    ensures Scan(PrintAsWritten(LongMin)) == None
    ensures ScanAsWritten(PrintAsWritten(LongMin)) == None
    ensures Scan(Print(LongMin)) == Some(LongMin)
  {
    LongMinStep();
    YesScansAsZero(PrintAsWritten(LongMin));
    PrintAsWrittenAgrees(-214748364);
    DoubleMinusRejected(PrintAsWritten(-214748364));
    PrintScan(LongMin);
  }

  /** A negative text wrapped in another '-' and a trailing '(' starts "--",
      so sscand rejects it. */
  lemma DoubleMinusRejected(inner: string)
    requires |inner| > 0 && inner[0] == '-'
    ensures var r := "-" + inner + "(";
      |r| > 2 && r[..2] == "--" && r[|r| - 1] == '(' && Scan(r) == None
  {
    var r := "-" + inner + "(";
    assert r[0] == '-' && r[1] == '-';
    RejectsDoubleMinus(r);
  }

  /** A token starting "--" is no number. */
  lemma RejectsDoubleMinus(r: string)
    requires |r| > 1 && r[0] == '-' && r[1] == '-'
    ensures Scan(r) == None
  {
    assert r != "y" && r != "n";
    assert DigitsStart(r) == 1;
  }
}
