/** Strings as the rule-pack tools use them: replacing, joining, splitting and searching. */
module Text {

  /* ---------- replacing ---------- */

  /** Every occurrence of one character, replaced by a string. */
  function ReplaceAll(s: string, c: char, with: string): string {
    if s == "" then "" else (if s[0] == c then with else [s[0]]) + ReplaceAll(s[1..], c, with)
  }

  lemma {:induction false} ReplaceAllConcat(s: string, t: string, c: char, with: string)
    ensures ReplaceAll(s + t, c, with) == ReplaceAll(s, c, with) + ReplaceAll(t, c, with)
  {
    if s == "" {
      assert s + t == t;
    } else {
      assert (s + t)[1..] == s[1..] + t;
      ReplaceAllConcat(s[1..], t, c, with);
    }
  }

  /* ---------- joining and splitting ---------- */

  predicate Free(s: string, sep: char) {
    sep !in s
  }

  predicate AllFree(parts: seq<string>, sep: char) {
    forall i | 0 <= i < |parts| :: Free(parts[i], sep)
  }

  function Join(parts: seq<string>, sep: char): string {
    if parts == [] then "" else if |parts| == 1 then parts[0] else parts[0] + [sep] + Join(parts[1..], sep)
  }

  /** The length of the longest prefix without sep. */
  function Before(s: string, sep: char): (n: nat)
    ensures n <= |s| && Free(s[..n], sep) && (n < |s| ==> s[n] == sep)
  {
    if s == "" || s[0] == sep then 0
    else
      assert s[..Before(s[1..], sep) + 1] == [s[0]] + s[1..][..Before(s[1..], sep)];
      Before(s[1..], sep) + 1
  }

  function Split(s: string, sep: char): (parts: seq<string>)
    ensures parts != [] && AllFree(parts, sep)
    decreases |s|
  {
    var n := Before(s, sep);
    if n == |s| then
      assert s[..n] == s;
      [s]
    else
      [s[..n]] + Split(s[n + 1..], sep)
  }

  lemma SplitHead(s: string, sep: char)
    ensures Split(s, sep)[0] == s[..Before(s, sep)]
    ensures |Split(s, sep)| > 1 <==> Before(s, sep) < |s|
    ensures Before(s, sep) < |s| ==> Split(s, sep)[1..] == Split(s[Before(s, sep) + 1..], sep)
  {
    assert s[..|s|] == s;
  }

  lemma BeforeExact(s: string, sep: char, n: nat)
    requires n <= |s| && Free(s[..n], sep) && (n < |s| ==> s[n] == sep)
    ensures Before(s, sep) == n
  {
    var m := Before(s, sep);
    assert forall k | 0 <= k < n :: s[k] == s[..n][k];
    assert forall k | 0 <= k < m :: s[k] == s[..m][k];
  }

  /** Splitting undoes joining parts that are free of the separator. */
  lemma {:induction false} SplitJoin(parts: seq<string>, sep: char)
    requires parts != [] && AllFree(parts, sep)
    ensures Split(Join(parts, sep), sep) == parts
  {
    var s := Join(parts, sep);
    if |parts| == 1 {
      assert s[..|s|] == s;
      BeforeExact(s, sep, |s|);
    } else {
      SplitJoin(parts[1..], sep);
      var n := |parts[0]|;
      assert s[..n] == parts[0] && s[n + 1..] == Join(parts[1..], sep);
      BeforeExact(s, sep, n);
    }
  }

  lemma JoinInjective(a: seq<string>, b: seq<string>, sep: char)
    requires a != [] && b != [] && AllFree(a, sep) && AllFree(b, sep)
    requires Join(a, sep) == Join(b, sep)
    ensures a == b
  {
    SplitJoin(a, sep);
    SplitJoin(b, sep);
  }

  /** The parts can be told apart when all but the last are free of the separator. */
  lemma {:induction false} JoinFromLeft(a: seq<string>, b: seq<string>, sep: char)
    requires |a| == |b| > 0 && AllFree(a[..|a| - 1], sep) && AllFree(b[..|b| - 1], sep)
    requires Join(a, sep) == Join(b, sep)
    ensures a == b
  {
    if |a| > 1 {
      var s := Join(a, sep);
      assert Free(a[..|a| - 1][0], sep) && Free(b[..|b| - 1][0], sep);
      assert s[..|a[0]|] == a[0] && s[..|b[0]|] == b[0];
      BeforeExact(s, sep, |a[0]|);
      BeforeExact(s, sep, |b[0]|);
      assert s[|a[0]| + 1..] == Join(a[1..], sep) && s[|b[0]| + 1..] == Join(b[1..], sep);
      assert forall i | 0 <= i < |a| - 2 :: a[1..][i] == a[..|a| - 1][i + 1] && b[1..][i] == b[..|b| - 1][i + 1];
      JoinFromLeft(a[1..], b[1..], sep);
      assert a == [a[0]] + a[1..] && b == [b[0]] + b[1..];
    }
  }

  /** And when all but the first are. */
  lemma {:induction false} JoinFromRight(a: seq<string>, b: seq<string>, sep: char)
    requires |a| == |b| > 0 && AllFree(a[1..], sep) && AllFree(b[1..], sep)
    requires Join(a, sep) == Join(b, sep)
    ensures a == b
  {
    if |a| > 1 {
      var n := |a| - 1;
      assert a == a[..n] + [a[n]] && b == b[..n] + [b[n]];
      JoinConcat(a[..n], [a[n]], sep);
      JoinConcat(b[..n], [b[n]], sep);
      assert a[n] == a[1..][n - 1] && b[n] == b[1..][n - 1];
      LastCut(Join(a[..n], sep), a[n], Join(b[..n], sep), b[n], sep);
      assert forall i | 0 <= i < n - 1 :: a[..n][1..][i] == a[1..][i] && b[..n][1..][i] == b[1..][i];
      JoinFromRight(a[..n], b[..n], sep);
    }
  }

  lemma LastCut(x: string, y: string, x': string, y': string, sep: char)
    requires Free(y, sep) && Free(y', sep) && x + [sep] + y == x' + [sep] + y'
    ensures x == x' && y == y'
  {
    var s := x + [sep] + y;
    assert s[|x|] == sep && s[|x'|] == sep;
    assert forall k | |x| < k < |s| :: s[k] == y[k - |x| - 1];
    assert forall k | |x'| < k < |s| :: s[k] == y'[k - |x'| - 1];
    assert s[..|x|] == x && s[..|x'|] == x' && s[|x| + 1..] == y && s[|x'| + 1..] == y';
  }

  lemma {:induction false} JoinConcat(a: seq<string>, b: seq<string>, sep: char)
    requires a != [] && b != []
    ensures Join(a + b, sep) == Join(a, sep) + [sep] + Join(b, sep)
  {
    if |a| == 1 {
      assert (a + b)[1..] == b;
    } else {
      JoinConcat(a[1..], b, sep);
      assert (a + b)[1..] == a[1..] + b;
    }
  }

  /* ---------- searching ---------- */

  predicate OccursAt(s: string, sub: string, i: nat) {
    i + |sub| <= |s| && s[i..i + |sub|] == sub
  }

  ghost predicate Contains(s: string, sub: string) {
    exists i: nat :: OccursAt(s, sub, i)
  }

  lemma OccursExact(s: string, sub: string)
    ensures (exists i | 0 <= i <= |s| :: OccursAt(s, sub, i)) <==> exists before, after :: s == before + sub + after
  {
    if before, after :| s == before + sub + after {
      assert OccursAt(s, sub, |before|);
    }
    if i :| 0 <= i <= |s| && OccursAt(s, sub, i) {
      assert s == s[..i] + sub + s[i + |sub|..];
    }
  }

  /** A line framed by newlines. */
  function Framed(line: string): string {
    "\n" + line + "\n"
  }

  ghost predicate InteriorLine(s: string, line: string) {
    exists i | 0 < i < |Split(s, '\n')| - 1 :: Split(s, '\n')[i] == line
  }

  /** A framed line, character by character. */
  ghost predicate FrameAt(s: string, line: string, i: nat) {
    && i + |line| + 2 <= |s|
    && s[i] == '\n' == s[i + |line| + 1]
    && forall m | 0 <= m < |line| :: s[i + 1 + m] == line[m]
  }

  lemma FrameAtExact(s: string, line: string, i: nat)
    ensures FrameAt(s, line, i) <==> OccursAt(s, Framed(line), i)
  {
    var k := |line|;
    if i + k + 2 <= |s| {
      var part := s[i..i + k + 2];
      if part == Framed(line) {
        forall m | 0 <= m < k ensures s[i + 1 + m] == line[m] {
          assert part[1 + m] == Framed(line)[1 + m];
        }
        assert part[0] == '\n' && part[k + 1] == '\n';
      }
      if FrameAt(s, line, i) {
        assert |part| == |Framed(line)| && forall m | 0 <= m < k + 2 :: part[m] == Framed(line)[m];
      }
    }
  }

  lemma FrameInRest(s: string, from: nat, line: string, i: nat)
    requires from <= |s|
    ensures FrameAt(s[from..], line, i) <==> FrameAt(s, line, from + i)
  {
  }

  lemma SecondLine(s: string)
    requires Before(s, '\n') < |s|
    ensures var rest := s[Before(s, '\n') + 1..];
      && |Split(s, '\n')| > 1 && Split(s, '\n')[1] == rest[..Before(rest, '\n')]
      && (|Split(s, '\n')| > 2 <==> Before(rest, '\n') < |rest|)
  {
    SplitHead(s, '\n');
    SplitHead(s[Before(s, '\n') + 1..], '\n');
    assert Split(s, '\n')[1..][0] == Split(s, '\n')[1];
  }

  /** Where the first newline is, a frame holds the next line. */
  lemma FrameAtFirst(s: string, line: string)
    requires Free(line, '\n') && Before(s, '\n') < |s|
    ensures FrameAt(s, line, Before(s, '\n')) <==> |Split(s, '\n')| > 2 && Split(s, '\n')[1] == line
  {
    SecondLine(s);
    var n, k := Before(s, '\n'), |line|;
    var rest := s[n + 1..];
    if FrameAt(s, line, n) {
      assert rest[..k] == line;
      BeforeExact(rest, '\n', k);
    }
  }

  lemma {:induction false} FrameIsLine(s: string, line: string, i: nat)
    requires Free(line, '\n') && FrameAt(s, line, i)
    ensures InteriorLine(s, line)
    decreases |s|
  {
    var n := Before(s, '\n');
    assert forall m | 0 <= m < n :: s[m] == s[..n][m];
    if i == n {
      FrameAtFirst(s, line);
    } else {
      FrameInRest(s, n + 1, line, i - n - 1);
      FrameIsLine(s[n + 1..], line, i - n - 1);
      SplitHead(s, '\n');
      var tail := Split(s, '\n')[1..];
      var j :| 0 < j < |tail| - 1 && tail[j] == line;
      assert Split(s, '\n')[j + 1] == line;
    }
  }

  /** A line after the second is a line of what follows the first newline. */
  lemma LaterLine(s: string, line: string, j: nat) returns (rest: string)
    requires 1 < j < |Split(s, '\n')| - 1 && Split(s, '\n')[j] == line
    ensures |rest| < |s| && rest == s[|s| - |rest|..]
    ensures j - 1 < |Split(rest, '\n')| - 1 && Split(rest, '\n')[j - 1] == line
  {
    SplitHead(s, '\n');
    rest := s[Before(s, '\n') + 1..];
    assert Split(s, '\n')[1..][j - 1] == line;
  }

  lemma LaterFrame(s: string, rest: string, line: string, r: nat) returns (i: nat)
    requires |rest| <= |s| && rest == s[|s| - |rest|..] && FrameAt(rest, line, r)
    ensures FrameAt(s, line, i)
  {
    i := |s| - |rest| + r;
    FrameInRest(s, |s| - |rest|, line, r);
  }

  lemma SecondIsFrame(s: string, line: string) returns (i: nat)
    requires Free(line, '\n') && 1 < |Split(s, '\n')| - 1 && Split(s, '\n')[1] == line
    ensures FrameAt(s, line, i)
  {
    SplitHead(s, '\n');
    FrameAtFirst(s, line);
    i := Before(s, '\n');
  }

  lemma {:induction false} LineIsFrame(s: string, line: string, j: nat) returns (i: nat)
    requires Free(line, '\n') && 0 < j < |Split(s, '\n')| - 1 && Split(s, '\n')[j] == line
    ensures FrameAt(s, line, i)
    decreases |s|
  {
    if j == 1 {
      i := SecondIsFrame(s, line);
    } else {
      var rest := LaterLine(s, line, j);
      var r := LineIsFrame(rest, line, j - 1);
      i := LaterFrame(s, rest, line, r);
    }
  }

  /** A framed line occurs in a text exactly when it is one of the lines between the first and the
      last. */
  lemma FramedExact(s: string, line: string)
    requires Free(line, '\n')
    ensures Contains(s, Framed(line)) <==> InteriorLine(s, line)
  {
    if Contains(s, Framed(line)) {
      var i: nat :| OccursAt(s, Framed(line), i);
      FrameAtExact(s, line, i);
      FrameIsLine(s, line, i);
    }
    if InteriorLine(s, line) {
      var j :| 0 < j < |Split(s, '\n')| - 1 && Split(s, '\n')[j] == line;
      var i := LineIsFrame(s, line, j);
      FrameAtExact(s, line, i);
    }
  }

  /* ---------- sizes ---------- */

  function Utf8Len(c: char): (n: nat)
    ensures 1 <= n <= 4
  {
    if c as int < 0x80 then 1 else if c as int < 0x800 then 2 else if c as int < 0x10000 then 3 else 4
  }

  /** The number of bytes of a string in UTF-8. */
  function ByteLen(s: string): nat {
    if s == "" then 0 else Utf8Len(s[0]) + ByteLen(s[1..])
  }

  lemma {:induction false} ByteLenConcat(s: string, t: string)
    ensures ByteLen(s + t) == ByteLen(s) + ByteLen(t)
  {
    if s == "" {
      assert s + t == t;
    } else {
      assert (s + t)[1..] == s[1..] + t;
      ByteLenConcat(s[1..], t);
    }
  }
}
