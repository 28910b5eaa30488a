/** The two C library routines the parser leans on, over C strings modelled as
    `string` (a C string never holds a NUL, so its length is the `strlen`). */
module CString {
  import opened Options

  /** Every character of `s` is one of `chars`. */
  predicate AllIn(s: string, chars: set<char>) {
    forall k | 0 <= k < |s| :: s[k] in chars
  }

  /** No character of `s` is one of `chars`. */
  predicate NoneIn(s: string, chars: set<char>) {
    forall k | 0 <= k < |s| :: s[k] !in chars
  }

  /** The at most `n` leading characters of `s`: what `strncmp` inspects. */
  function Take(s: string, n: nat): string {
    if |s| <= n then s else s[..n]
  }

  /** `strncmp(a, b, n) == 0`: the strings agree on their first `n`
      characters, where running into the terminator counts as a character. */
  function StrnEq(a: string, b: string, n: nat): (r: bool)
    ensures a == b ==> r
    ensures |a| < n ==> (r <==> a == b)
  {
    Take(a, n) == Take(b, n)
  }

  /** A string shorter than the window matches exactly its equals. */
  lemma StrnEqShort(a: string, b: string, n: nat)
    requires |a| < n
    ensures StrnEq(a, b, n) <==> a == b
  {
    if StrnEq(a, b, n) {
      assert Take(a, n) == a;
      assert |Take(b, n)| == |a| < n;
    }
  }

  /** `strspn(s, delims)`: the length of the leading run of delimiters. */
  function SpanLength(s: string, delims: set<char>): (n: nat)
    ensures n <= |s|
    ensures AllIn(s[..n], delims)
    ensures n < |s| ==> s[n] !in delims
  {
    if |s| == 0 || s[0] !in delims then 0
    else
      var n := 1 + SpanLength(s[1..], delims);
      assert s[..n] == [s[0]] + s[1..][..n - 1];
      n
  }

  /** `strcspn(s, delims)`: the length of the leading run of characters
      outside `delims`. */
  function RunLength(s: string, delims: set<char>): (n: nat)
    ensures n <= |s|
    ensures NoneIn(s[..n], delims)
    ensures n < |s| ==> s[n] in delims
  {
    if |s| == 0 || s[0] in delims then 0
    else
      var n := 1 + RunLength(s[1..], delims);
      assert s[..n] == [s[0]] + s[1..][..n - 1];
      n
  }

  /** Delimiters followed by a non-delimiter span exactly the delimiters. */
  lemma {:induction false} SpanLengthOf(p: string, u: string, delims: set<char>)
    requires AllIn(p, delims)
    requires |u| > 0 && u[0] !in delims
    ensures SpanLength(p + u, delims) == |p|
  {
    if |p| > 0 {
      assert (p + u)[0] == p[0];
      assert (p + u)[1..] == p[1..] + u;
      SpanLengthOf(p[1..], u, delims);
    } else {
      assert p + u == u;
    }
  }

  /** A run of non-delimiters followed by a delimiter or the end is exactly
      the run `RunLength` measures. */
  lemma {:induction false} RunLengthOf(t: string, q: string, delims: set<char>)
    requires NoneIn(t, delims)
    requires |q| == 0 || q[0] in delims
    ensures RunLength(t + q, delims) == |t|
  {
    if |t| > 0 {
      assert (t + q)[0] == t[0];
      assert (t + q)[1..] == t[1..] + q;
      RunLengthOf(t[1..], q, delims);
    } else {
      assert t + q == q;
    }
  }

  /** What one `strtok` call yields: the token, or None for NULL, and the
      text the next `strtok(NULL, ...)` call resumes from. */
  datatype Split = Split(token: Option<string>, rest: string)

  /** `strtok(s, delims)`: skip the leading delimiters; if nothing is left
      there is no token; otherwise the token is the maximal run of
      non-delimiters, the delimiter that ends it is overwritten, and the
      scan resumes right after it (or at the end when the run reached it). */
  function Strtok(s: string, delims: set<char>): (r: Split)
    ensures r.token.None? <==> AllIn(s, delims)
    ensures r.token.Some? ==> |r.token.value| > 0 && NoneIn(r.token.value, delims)
    ensures r.token.None? ==> r.rest == []
  {
    var k := SpanLength(s, delims);
    if k == |s| then
      assert s[..k] == s;
      Split(None, [])
    else
      var n := RunLength(s[k..], delims);
      assert n > 0 by { assert s[k..][0] == s[k]; }
      var end := k + n;
      assert s[k..][..n] == s[k..end];
      Split(Some(s[k..end]), After(s[end..]))
  }

  /** Where `strtok` resumes when the token is followed by `q`: past the
      delimiter it overwrote, or at the end. */
  function After(q: string): string {
    if |q| == 0 then [] else q[1..]
  }

  /** `s` is: delimiters `p`, then the token `t`, then `q`, which is empty or
      starts with the delimiter that ends the token. */
  predicate IsTokenOf(s: string, delims: set<char>, p: string, t: string, q: string) {
    && s == p + t + q
    && AllIn(p, delims)
    && |t| > 0
    && NoneIn(t, delims)
    && (|q| == 0 || q[0] in delims)
  }

  /** Once `strspn` stops inside `s`, strtok's token is the `strcspn` run
      that follows, and the scan resumes after the character ending it. */
  lemma StrtokAt(s: string, delims: set<char>)
    requires SpanLength(s, delims) < |s|
    ensures var k := SpanLength(s, delims);
            var n := RunLength(s[k..], delims);
            && k + n <= |s|
            && Strtok(s, delims) == Split(Some(s[k..k + n]), After(s[k + n..]))
  {
  }

  /** The pieces of `p + t + q`, by position. */
  lemma PiecesAt<T>(s: seq<T>, p: seq<T>, t: seq<T>, q: seq<T>)
    requires s == p + t + q
    ensures s[|p|..] == t + q && s[|p|..|p| + |t|] == t && s[|p| + |t|..] == q
  {
  }

  /** Any two cut points split `s` into three pieces. */
  lemma CutAt<T>(s: seq<T>, k: nat, e: nat)
    requires k <= e <= |s|
    ensures s == s[..k] + s[k..e] + s[e..]
  {
  }

  /** The token `strtok` returns is exactly the first maximal run of
      non-delimiters, and the scan resumes after the character ending it. */
  lemma StrtokOf(s: string, delims: set<char>, p: string, t: string, q: string)
    requires IsTokenOf(s, delims, p, t, q)
    ensures Strtok(s, delims) == Split(Some(t), After(q))
  {
    PiecesAt(s, p, t, q);
    assert s == p + (t + q);
    assert (t + q)[0] == t[0];
    SpanLengthOf(p, t + q, delims);
    RunLengthOf(t, q, delims);
    StrtokAt(s, delims);
  }

  /** Conversely, whatever token `strtok` returns splits `s` that way: after
      the `strspn` delimiters, up to the character that ends the token. */
  lemma StrtokSplits(s: string, delims: set<char>)
    requires Strtok(s, delims).token.Some?
    ensures var k := SpanLength(s, delims);
            var t := Strtok(s, delims).token.value;
            && k + |t| <= |s|
            && IsTokenOf(s, delims, s[..k], t, s[k + |t|..])
            && Strtok(s, delims).rest == After(s[k + |t|..])
  {
    var k := SpanLength(s, delims);
    StrtokAt(s, delims);
    var n := RunLength(s[k..], delims);
    CutAt(s, k, k + n);
    if k + n < |s| {
      assert s[k + n..][0] == s[k..][n];
    }
  }
}
