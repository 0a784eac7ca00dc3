/** Splitting a release-group pattern at its top-level bars. */
module GroupAlternatives {
  import opened Text

  /** How deep in parentheses, and whether a backslash stands before. */
  datatype Depth = Depth(level: int, escaped: bool)

  function After(d: Depth, c: char): Depth {
    if d.escaped then Depth(d.level, false)
    else if c == '\\' then Depth(d.level, true)
    else if c == '(' then Depth(d.level + 1, false)
    else if c == ')' then Depth(d.level - 1, false)
    else d
  }

  function DepthAt(s: string): Depth {
    if s == "" then Depth(0, false) else After(DepthAt(s[..|s| - 1]), s[|s| - 1])
  }

  /** A bar outside parentheses that no backslash escapes. */
  predicate TopBar(s: string, i: nat) {
    i < |s| && s[i] == '|' && DepthAt(s[..i]) == Depth(0, false)
  }

  predicate Whole(s: string) {
    forall i | 0 <= i < |s| :: !TopBar(s, i)
  }

  /** The pieces from `start` on, the first of them read up to `i`. */
  function Cut(s: string, start: nat, i: nat): seq<string>
    requires start <= i <= |s|
    decreases |s| - i
  {
    if i == |s| then [s[start..]]
    else if TopBar(s, i) then [s[start..i]] + Cut(s, i + 1, i + 1)
    else Cut(s, start, i + 1)
  }

  method SplitGroupAlternatives(input: string) returns (pieces: seq<string>)
    ensures pieces == Cut(input, 0, 0)
  {
    pieces := [];
    var depth, start, escaped := 0, 0, false;
    for i := 0 to |input|
      invariant start <= i && pieces + Cut(input, start, i) == Cut(input, 0, 0)
      invariant DepthAt(input[..i]) == Depth(depth, escaped)
    {
      var c := input[i];
      assert input[..i + 1][..i] == input[..i];
      CutStep(input, pieces, start, i);
      if escaped {
        escaped := false;
        continue;
      }
      if c == '\\' {
        escaped := true;
        continue;
      }
      if c == '(' {
        depth := depth + 1;
      }
      if c == ')' {
        depth := depth - 1;
      }
      if c == '|' && depth == 0 {
        pieces := pieces + [input[start..i]];
        start := i + 1;
      }
    }
    return pieces + [input[start..]];
  }

  lemma CutStep(s: string, pieces: seq<string>, start: nat, i: nat)
    requires start <= i < |s|
    ensures pieces + Cut(s, start, i) ==
            if TopBar(s, i) then pieces + [s[start..i]] + Cut(s, i + 1, i + 1) else pieces + Cut(s, start, i + 1)
  {
    if TopBar(s, i) {
      assert pieces + ([s[start..i]] + Cut(s, i + 1, i + 1)) == pieces + [s[start..i]] + Cut(s, i + 1, i + 1);
    }
  }

  /** From a place at depth zero the rest has the depths of a string of its own. */
  lemma {:induction false} DepthShifts(s: string, start: nat, n: nat)
    requires start + n <= |s| && DepthAt(s[..start]) == Depth(0, false)
    ensures DepthAt(s[..start + n]) == DepthAt(s[start..start + n])
  {
    if n > 0 {
      DepthShifts(s, start, n - 1);
      var whole, part := s[..start + n], s[start..start + n];
      assert whole[..start + n - 1] == s[..start + n - 1] && part[..n - 1] == s[start..start + n - 1];
    }
  }

  lemma PieceIsWhole(s: string, start: nat, end: nat)
    requires start <= end <= |s| && DepthAt(s[..start]) == Depth(0, false)
    requires forall j | start <= j < end :: !TopBar(s, j)
    ensures Whole(s[start..end])
  {
    var piece := s[start..end];
    forall j | 0 <= j < |piece| ensures !TopBar(piece, j) {
      DepthShifts(s, start, j);
      assert piece[..j] == s[start..start + j];
      assert !TopBar(s, start + j);
    }
  }

  lemma {:induction false} CutExact(s: string, start: nat, i: nat)
    requires start <= i <= |s| && DepthAt(s[..start]) == Depth(0, false)
    requires forall j | start <= j < i :: !TopBar(s, j)
    ensures Cut(s, start, i) != [] && Join(Cut(s, start, i), '|') == s[start..]
    ensures forall k | 0 <= k < |Cut(s, start, i)| :: Whole(Cut(s, start, i)[k])
    decreases |s| - i
  {
    if i == |s| {
      assert s[start..] == s[start..i];
      PieceIsWhole(s, start, i);
    } else if TopBar(s, i) {
      PieceIsWhole(s, start, i);
      assert s[..i + 1][..i] == s[..i];
      CutExact(s, i + 1, i + 1);
      var rest := Cut(s, i + 1, i + 1);
      assert ([s[start..i]] + rest)[1..] == rest;
      assert s[start..] == s[start..i] + ['|'] + s[i + 1..];
    } else {
      CutExact(s, start, i + 1);
    }
  }

  /** Nothing is lost and nothing is left to cut: the pieces with bars between them are the input, and
      no piece has a top-level bar. */
  lemma SplitExact(s: string)
    ensures Join(Cut(s, 0, 0), '|') == s
    ensures forall k | 0 <= k < |Cut(s, 0, 0)| :: Whole(Cut(s, 0, 0)[k])
  {
    assert s[..0] == "" && s[0..] == s;
    CutExact(s, 0, 0);
  }

  /* ---------- what depth and escapes are ---------- */

  /** How many backslashes end the text. */
  function Backslashes(s: string): nat {
    if s == "" || s[|s| - 1] != '\\' then 0 else 1 + Backslashes(s[..|s| - 1])
  }

  /** An odd number of backslashes stands before the place. */
  predicate EscapedAt(s: string, i: nat)
    requires i <= |s|
  {
    Backslashes(s[..i]) % 2 == 1
  }

  /** How often the character stands before the place without being escaped. */
  function CountPlain(s: string, c: char, i: nat): nat
    requires i <= |s|
  {
    if i == 0 then 0 else CountPlain(s, c, i - 1) + if s[i - 1] == c && !EscapedAt(s, i - 1) then 1 else 0
  }

  lemma {:induction false} DepthExact(s: string, i: nat)
    requires i <= |s|
    ensures DepthAt(s[..i]).escaped <==> EscapedAt(s, i)
    ensures DepthAt(s[..i]).level == CountPlain(s, '(', i) - CountPlain(s, ')', i)
  {
    if i > 0 {
      DepthExact(s, i - 1);
      assert s[..i][..i - 1] == s[..i - 1];
    }
  }

  /** A bar is cut at exactly when it is not escaped and as many plain parentheses open before it as close. */
  lemma TopBarExact(s: string, i: nat)
    requires i < |s|
    ensures TopBar(s, i) <==>
            s[i] == '|' && !EscapedAt(s, i) && CountPlain(s, '(', i) == CountPlain(s, ')', i)
  {
    DepthExact(s, i);
  }
}
