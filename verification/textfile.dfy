/** The ini file between uCiniDump and uCiniParse: what successive `fputs_`
    calls write, and how successive `fgets_(line, 20, …)` calls cut it back
    into pieces of at most 19 characters. */
module TextFile {

  /** The size of the `char line[20]` buffer both functions use: it holds
      19 characters and the terminating NUL. */
  const LineSize: nat := 20

  /** A line as `fgets_` hands it over whole: non-empty, ending in its only
      '\n'. */
  predicate IsLine(t: string) {
    |t| > 0 && t[|t| - 1] == '\n' && forall k | 0 <= k < |t| - 1 :: t[k] != '\n'
  }

  /** A line that fits the buffer together with its NUL. */
  predicate Fits(t: string) {
    |t| < LineSize
  }

  /** The file written by one `fputs_` per text, in order. */
  function Written(ts: seq<string>): string {
    if |ts| == 0 then "" else ts[0] + Written(ts[1..])
  }

  /** How much of `f` one `fgets_` takes with `room` characters of buffer
      left: up to and including the first '\n', but no more than `room`
      characters and no more than what is left. */
  function Chunk(f: string, room: nat): (n: nat)
    ensures n <= |f| && n <= room && (|f| > 0 && room > 0 ==> n > 0)
    ensures forall k | 0 <= k < n - 1 :: f[k] != '\n'
    ensures 0 < n ==> (f[n - 1] == '\n' || n == |f| || n == room)
    decreases room
  {
    if |f| == 0 || room == 0 then 0
    else if f[0] == '\n' then 1
    else
      var n := 1 + Chunk(f[1..], room - 1);
      assert forall k | 1 <= k < n :: f[k] == f[1..][k - 1];
      n
  }

  /** One `fgets_(line, 20, …)`: at most 19 characters. */
  function LineLength(f: string): (n: nat)
    ensures n <= |f| && n < LineSize && (|f| > 0 ==> n > 0)
    ensures forall k | 0 <= k < n - 1 :: f[k] != '\n'
    ensures 0 < n ==> (f[n - 1] == '\n' || n == |f| || n == LineSize - 1)
  {
    Chunk(f, LineSize - 1)
  }

  /** The pieces `fgets_` returns until the end of the file. Each is
      non-empty, fits the buffer and has no '\n' but possibly its last
      character; together they are the file again. */
  function ReadLines(f: string): (ls: seq<string>)
    ensures Written(ls) == f
    ensures forall k | 0 <= k < |ls| :: |ls[k]| > 0 && Fits(ls[k])
    ensures forall k | 0 <= k < |ls| :: forall j | 0 <= j < |ls[k]| - 1 :: ls[k][j] != '\n'
    decreases |f|
  {
    if |f| == 0 then []
    else
      var n := LineLength(f);
      var head, rest := f[..n], ReadLines(f[n..]);
      var ls := [head] + rest;
      assert ls[0] == head && ls[1..] == rest;
      assert head + f[n..] == f;
      forall k | 0 <= k < |ls|
        ensures |ls[k]| > 0 && Fits(ls[k])
        ensures forall j | 0 <= j < |ls[k]| - 1 :: ls[k][j] != '\n'
      {
        if k > 0 {
          assert ls[k] == rest[k - 1];
        } else {
          FirstPiece(f);
        }
      }
      ls
  }

  /** What one `fgets_` takes from a non-empty file. */
  lemma FirstPiece(f: string)
    requires |f| > 0
    ensures var t := f[..LineLength(f)];
            |t| > 0 && Fits(t) && forall j | 0 <= j < |t| - 1 :: t[j] != '\n'
  {
  }

  /** With room for it, `fgets_` stops exactly at the end of a line. */
  lemma {:induction false} ChunkOf(t: string, rest: string, room: nat)
    requires IsLine(t) && |t| <= room
    ensures Chunk(t + rest, room) == |t|
    decreases |t|
  {
    var f := t + rest;
    if |t| > 1 {
      assert f[0] == t[0] != '\n';
      assert f[1..] == t[1..] + rest;
      ChunkOf(t[1..], rest, room - 1);
    } else {
      assert f[0] == '\n';
    }
  }

  /** `fgets_` reads a line that fits the buffer in one piece. */
  lemma LineLengthOf(t: string, rest: string)
    requires IsLine(t) && Fits(t)
    ensures LineLength(t + rest) == |t|
  {
    ChunkOf(t, rest, LineSize - 1);
  }

  /** Reading back a file written line by line, every line fitting the
      buffer, gives the same lines. */
  lemma {:induction false} ReadWritten(ts: seq<string>)
    requires forall k | 0 <= k < |ts| :: IsLine(ts[k]) && Fits(ts[k])
    ensures ReadLines(Written(ts)) == ts
    decreases |ts|
  {
    if |ts| > 0 {
      var t := ts[0];
      var f := Written(ts);
      var rest := Written(ts[1..]);
      assert f == t + rest;
      LineLengthOf(t, rest);
      assert f[..|t|] == t && f[|t|..] == rest;
      ReadWritten(ts[1..]);
    }
  }

  /** A line too long for the buffer comes back cut: the first piece read
      is its first 19 characters. */
  lemma LongLineCut(t: string, rest: string)
    requires IsLine(t) && !Fits(t)
    ensures ReadLines(t + rest)[0] == t[..LineSize - 1]
  {
    var f := t + rest;
    assert f[..|t|] == t;
    assert LineLength(f) == LineSize - 1;
    assert f[..LineSize - 1] == t[..LineSize - 1];
  }
}
