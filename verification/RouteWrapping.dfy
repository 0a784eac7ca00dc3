/** Breaking the JSON text of the routes into lines. */
module RouteWrapping {
  import opened Wrappers
  import opened Text

  datatype State = Outside | InString | Escaped

  predicate Structural(c: char) {
    c in {',', ':', '[', '{', ']', '}'}
  }

  function Next(state: State, c: char): State {
    match state
    case Escaped => InString
    case InString => if c == '\\' then Escaped else if c == '"' then Outside else InString
    case Outside => if c == '"' then InString else Outside
  }

  function End(state: State, s: string): State
    decreases |s|
  {
    if s == "" then state else End(Next(state, s[0]), s[1..])
  }

  /** A newline goes after a structural character, outside strings, once the line has that many bytes. */
  predicate Breaks(state: State, c: char, column: nat, target: int) {
    state == Outside && Structural(c) && column >= target
  }

  /** The rest of the text as it is written from that state and column on. */
  function Wrapped(state: State, column: nat, target: int, s: string): string
    decreases |s|
  {
    if s == "" then ""
    else if Breaks(state, s[0], column + Utf8Len(s[0]), target) then [s[0], '\n'] + Wrapped(Outside, 0, target, s[1..])
    else [s[0]] + Wrapped(Next(state, s[0]), column + Utf8Len(s[0]), target, s[1..])
  }

  /** The wrapped text, unless it ends inside a string. */
  method WrapRouteJson(value: string, target: int) returns (result: Option<string>)
    ensures result == if End(Outside, value) == Outside then Some(Wrapped(Outside, 0, target, value)) else None
  {
    var output := "";
    var column := 0;
    var inString, escaped := false, false;
    assert value[0..] == value;
    for index := 0 to |value|
      invariant column >= 0 && (escaped ==> inString)
      invariant var state := if escaped then Escaped else if inString then InString else Outside;
        && End(state, value[index..]) == End(Outside, value)
        && output + Wrapped(state, column, target, value[index..]) == Wrapped(Outside, 0, target, value)
    {
      var c := value[index];
      ghost var state := if escaped then Escaped else if inString then InString else Outside;
      assert value[index..][0] == c && value[index..][1..] == value[index + 1..];
      WrappedStep(output, state, column, target, value[index..]);
      output := output + [c];
      column := column + Utf8Len(c);
      if inString {
        if escaped {
          escaped := false;
          continue;
        }
        if c == '\\' {
          escaped := true;
        } else if c == '"' {
          inString := false;
        }
        continue;
      }
      if c == '"' {
        inString := true;
        continue;
      }
      if column >= target && Structural(c) {
        output := output + ['\n'];
        column := 0;
      }
    }
    assert value[|value|..] == "" && output + "" == output;
    if inString || escaped {
      return None;
    }
    return Some(output);
  }

  lemma WrappedStep(output: string, state: State, column: nat, target: int, s: string)
    requires s != ""
    ensures output + Wrapped(state, column, target, s) ==
            if Breaks(state, s[0], column + Utf8Len(s[0]), target)
              then output + [s[0]] + ['\n'] + Wrapped(Outside, 0, target, s[1..])
            else output + [s[0]] + Wrapped(Next(state, s[0]), column + Utf8Len(s[0]), target, s[1..])
  {
  }

  /* ---------- what a reader sees ---------- */

  predicate IsWhite(c: char) {
    c == ' ' || c == '\t' || c == '\n' || c == '\r'
  }

  function Flushed(pending: string): seq<string> {
    if pending == "" then [] else [pending]
  }

  /** The tokens of a JSON text: structural characters, strings, and runs of anything else that white
      space, strings and structural characters end. `pending` is the token being read. */
  function Tokens(state: State, pending: string, s: string): seq<string>
    decreases |s|
  {
    if s == "" then Flushed(pending)
    else
      var c, rest := s[0], s[1..];
      if state != Outside then
        if Next(state, c) == Outside then [pending + [c]] + Tokens(Outside, "", rest)
        else Tokens(Next(state, c), pending + [c], rest)
      else if IsWhite(c) then Flushed(pending) + Tokens(Outside, "", rest)
      else if Structural(c) then Flushed(pending) + [[c]] + Tokens(Outside, "", rest)
      else if c == '"' then Flushed(pending) + Tokens(InString, [c], rest)
      else Tokens(Outside, pending + [c], rest)
  }

  lemma NewlineAlone(s: string)
    ensures Tokens(Outside, "", ['\n'] + s) == Tokens(Outside, "", s)
  {
    assert (['\n'] + s)[1..] == s;
  }

  /** Wrapping only inserts insignificant white space: the tokens, strings and all, are the same. */
  lemma {:induction false} WrappingKeepsTokens(state: State, pending: string, column: nat, target: int, s: string)
    ensures Tokens(state, pending, Wrapped(state, column, target, s)) == Tokens(state, pending, s)
    decreases |s|, 0
  {
    if s != "" {
      var c, rest := s[0], s[1..];
      var w := Wrapped(state, column, target, s);
      if Breaks(state, c, column + Utf8Len(c), target) {
        var tail := Wrapped(Outside, 0, target, rest);
        assert w[0] == c && w[1..] == ['\n'] + tail;
        NewlineAlone(tail);
        WrappingKeepsTokens(Outside, "", 0, target, rest);
      } else {
        var tail := Wrapped(Next(state, c), column + Utf8Len(c), target, rest);
        assert w[0] == c && w[1..] == tail;
        NextPendingKept(state, pending, column + Utf8Len(c), target, c, rest);
      }
    }
  }

  lemma NextPendingKept(state: State, pending: string, column: nat, target: int, c: char, rest: string)
    ensures Tokens(state, pending, [c] + Wrapped(Next(state, c), column, target, rest)) ==
            Tokens(state, pending, [c] + rest)
    decreases |rest|, 1
  {
    var tail := Wrapped(Next(state, c), column, target, rest);
    assert ([c] + tail)[1..] == tail && ([c] + rest)[1..] == rest;
    WrappingKeepsTokens(Next(state, c), "", column, target, rest);
    WrappingKeepsTokens(Next(state, c), pending + [c], column, target, rest);
    WrappingKeepsTokens(Next(state, c), [c], column, target, rest);
  }

  /* ---------- where lines break ---------- */

  /** A JSON text as characters outside strings and whole strings, whose backslashes each take the next
      character along. */
  datatype Unit = Plain(c: char) | Escape(c: char)

  datatype Piece = Other(c: char) | Literal(units: seq<Unit>)

  function UnitsWritten(units: seq<Unit>): string {
    if units == [] then ""
    else
      (match units[0]
       case Plain(c) => [c]
       case Escape(c) => ['\\', c]) + UnitsWritten(units[1..])
  }

  function Written(pieces: seq<Piece>): string {
    if pieces == [] then ""
    else
      (match pieces[0]
       case Other(c) => [c]
       case Literal(units) => "\"" + UnitsWritten(units) + "\"") + Written(pieces[1..])
  }

  predicate AllPlain(units: seq<Unit>) {
    forall i | 0 <= i < |units| && units[i].Plain? :: units[i].c != '"' && units[i].c != '\\'
  }

  predicate Fine(piece: Piece) {
    match piece
    case Other(c) => c != '"'
    case Literal(units) => AllPlain(units)
  }

  ghost predicate IsWritten(s: string, pieces: seq<Piece>) {
    (forall i | 0 <= i < |pieces| :: Fine(pieces[i])) && s == Written(pieces)
  }

  /** The text has only whole strings. */
  ghost predicate Whole(s: string) {
    exists pieces :: IsWritten(s, pieces)
  }

  lemma {:induction false} UnitsStayInside(units: seq<Unit>, rest: string)
    requires AllPlain(units)
    ensures End(InString, UnitsWritten(units) + rest) == End(InString, rest)
  {
    if units == [] {
      assert "" + rest == rest;
    } else {
      var tail := UnitsWritten(units[1..]) + rest;
      UnitsStayInside(units[1..], rest);
      match units[0]
      case Plain(c) =>
        assert UnitsWritten(units) + rest == [c] + tail && ([c] + tail)[1..] == tail;
      case Escape(c) =>
        assert UnitsWritten(units) + rest == ['\\'] + ([c] + tail);
        assert (['\\'] + ([c] + tail))[1..] == [c] + tail && ([c] + tail)[1..] == tail;
    }
  }

  lemma OtherStaysOutside(c: char, tail: string)
    requires c != '"'
    ensures End(Outside, [c] + tail) == End(Outside, tail)
  {
    assert ([c] + tail)[1..] == tail;
  }

  lemma LiteralStaysOutside(units: seq<Unit>, tail: string)
    requires AllPlain(units)
    ensures End(Outside, "\"" + UnitsWritten(units) + "\"" + tail) == End(Outside, tail)
  {
    var closing := "\"" + tail;
    UnitsStayInside(units, closing);
    assert closing[1..] == tail;
    var s := "\"" + UnitsWritten(units) + "\"" + tail;
    assert s[0] == '"' && s[1..] == UnitsWritten(units) + closing;
  }

  lemma {:induction false} PiecesAreOutside(pieces: seq<Piece>)
    requires forall i | 0 <= i < |pieces| :: Fine(pieces[i])
    ensures End(Outside, Written(pieces)) == Outside
  {
    if pieces != [] {
      PiecesAreOutside(pieces[1..]);
      assert Fine(pieces[0]);
      match pieces[0]
      case Other(c) => OtherStaysOutside(c, Written(pieces[1..]));
      case Literal(units) => LiteralStaysOutside(units, Written(pieces[1..]));
    }
  }

  /** What closes a string, and what is in it. */
  lemma {:induction false} StringCloses(s: string) returns (units: seq<Unit>, rest: string)
    requires End(InString, s) == Outside
    ensures AllPlain(units) && s == UnitsWritten(units) + "\"" + rest && End(Outside, rest) == Outside
    ensures |rest| < |s|
    decreases |s|
  {
    if s[0] == '"' {
      units, rest := [], s[1..];
      assert s == "" + "\"" + rest;
    } else if s[0] == '\\' {
      assert |s| > 1;
      var inner;
      inner, rest := StringCloses(s[1..][1..]);
      units := [Escape(s[1])] + inner;
      assert units[1..] == inner && s == ['\\', s[1]] + s[2..] && s[1..][1..] == s[2..];
    } else {
      var inner;
      inner, rest := StringCloses(s[1..]);
      units := [Plain(s[0])] + inner;
      assert units[1..] == inner && s == [s[0]] + s[1..];
    }
  }

  lemma {:induction false} OutsideIsPieces(s: string) returns (pieces: seq<Piece>)
    requires End(Outside, s) == Outside
    ensures IsWritten(s, pieces)
    decreases |s|
  {
    if s == "" {
      pieces := [];
    } else if s[0] == '"' {
      var units, rest := StringCloses(s[1..]);
      var more := OutsideIsPieces(rest);
      pieces := [Literal(units)] + more;
      assert pieces[1..] == more && s == "\"" + s[1..];
    } else {
      var more := OutsideIsPieces(s[1..]);
      pieces := [Other(s[0])] + more;
      assert pieces[1..] == more && s == [s[0]] + s[1..];
    }
  }

  lemma OutsideExact(s: string)
    ensures End(Outside, s) == Outside <==> Whole(s)
  {
    if pieces :| IsWritten(s, pieces) {
      PiecesAreOutside(pieces);
    }
    if End(Outside, s) == Outside {
      var pieces := OutsideIsPieces(s);
    }
  }

  /** A line that begins at from may end before position p: there the text has only whole strings, a
      structural character stands before it, and the line has the target's bytes. */
  ghost predicate MayEnd(s: string, target: int, from: nat, p: nat) {
    from < p <= |s| && s[p - 1] in ",:[]{}" && Whole(s[..p - 1]) && ByteLen(s[from..p]) >= target
  }

  ghost predicate Rising(s: string, cuts: seq<nat>) {
    forall i, j | 0 <= i <= j < |cuts| :: cuts[i] <= cuts[j] <= |s|
  }

  /** Every line but the last ends where it first may, and the last may end nowhere. */
  ghost predicate Cut(s: string, target: int, cuts: seq<nat>) {
    && |cuts| >= 2 && Rising(s, cuts) && cuts[|cuts| - 1] == |s|
    && (forall k | 0 <= k < |cuts| - 1 :: LineAt(s, target, cuts[k], cuts[k + 1], k == |cuts| - 2))
  }

  ghost predicate LineAt(s: string, target: int, from: nat, to: nat, last: bool) {
    && (last || from < to)
    && forall p | from < p <= to :: MayEnd(s, target, from, p) <==> p == to && !last
  }

  ghost function Between(s: string, cuts: seq<nat>): seq<string>
    requires Rising(s, cuts)
  {
    if |cuts| < 2 then [] else [s[cuts[0]..cuts[1]]] + Between(s, cuts[1..])
  }

  lemma EndAt(s: string, p: nat)
    requires p < |s|
    ensures End(Outside, s[..p + 1]) == Next(End(Outside, s[..p]), s[p])
  {
    assert s[..p + 1] == s[..p] + [s[p]];
    EndOneMore(Outside, s[..p], s[p]);
  }

  lemma {:induction false} EndOneMore(state: State, s: string, c: char)
    ensures End(state, s + [c]) == Next(End(state, s), c)
    decreases |s|
  {
    if s == "" {
      assert s + [c] == [c] && [c][1..] == "";
    } else {
      assert (s + [c])[1..] == s[1..] + [c];
      EndOneMore(Next(state, s[0]), s[1..], c);
    }
  }

  lemma MayEndExact(s: string, target: int, from: nat, p: nat)
    requires from <= p < |s|
    ensures MayEnd(s, target, from, p + 1) <==>
            Breaks(End(Outside, s[..p]), s[p], ByteLen(s[from..p]) + Utf8Len(s[p]), target)
    ensures ByteLen(s[from..p + 1]) == ByteLen(s[from..p]) + Utf8Len(s[p])
  {
    OutsideExact(s[..p]);
    assert s[from..p + 1] == s[from..p] + [s[p]];
    ByteLenConcat(s[from..p], [s[p]]);
  }

  /** The line that begins at from and the lines after it, when the first p characters are written. */
  function Lines(s: string, target: int, from: nat, p: nat): string
    requires from <= p <= |s|
  {
    s[from..p] + Wrapped(End(Outside, s[..p]), ByteLen(s[from..p]), target, s[p..])
  }

  lemma LinesStep(s: string, target: int, from: nat, p: nat)
    requires from <= p < |s|
    ensures Lines(s, target, from, p) ==
            if MayEnd(s, target, from, p + 1) then s[from..p + 1] + ['\n'] + Lines(s, target, p + 1, p + 1)
            else Lines(s, target, from, p + 1)
  {
    EndAt(s, p);
    MayEndExact(s, target, from, p);
    assert s[p..][1..] == s[p + 1..];
    var state, column := End(Outside, s[..p]), ByteLen(s[from..p]);
    WrappedStep(s[from..p], state, column, target, s[p..]);
    assert s[from..p] + [s[p]] == s[from..p + 1];
    if MayEnd(s, target, from, p + 1) {
      assert Next(state, s[p]) == Outside && s[p + 1..p + 1] == "";
      assert Lines(s, target, p + 1, p + 1) == Wrapped(Outside, 0, target, s[p + 1..]);
    }
  }

  lemma {:induction false} WrapFrom(s: string, target: int, from: nat, p: nat) returns (cuts: seq<nat>)
    requires from <= p <= |s| && forall q | from < q <= p :: !MayEnd(s, target, from, q)
    ensures Cut(s, target, cuts) && cuts[0] == from
    ensures Lines(s, target, from, p) == Join(Between(s, cuts), '\n')
    decreases |s| - p
  {
    if p == |s| {
      cuts := [from, p];
      assert Between(s, cuts[1..]) == [];
      assert Between(s, cuts) == [s[from..p]];
      assert s[from..p] + "" == s[from..p];
    } else {
      LinesStep(s, target, from, p);
      if MayEnd(s, target, from, p + 1) {
        var rest := WrapFrom(s, target, p + 1, p + 1);
        cuts := [from] + rest;
        CutMore(s, target, from, rest);
      } else {
        cuts := WrapFrom(s, target, from, p + 1);
      }
    }
  }

  lemma CutMore(s: string, target: int, from: nat, rest: seq<nat>)
    requires Cut(s, target, rest) && LineAt(s, target, from, rest[0], false)
    ensures var cuts := [from] + rest;
      && Cut(s, target, cuts)
      && Join(Between(s, cuts), '\n') == s[from..rest[0]] + ['\n'] + Join(Between(s, rest), '\n')
  {
    var cuts := [from] + rest;
    assert cuts[1..] == rest;
    assert forall k | 1 <= k < |cuts| :: cuts[k] == rest[k - 1];
    forall k | 0 <= k < |cuts| - 1 ensures LineAt(s, target, cuts[k], cuts[k + 1], k == |cuts| - 2) {
      if k > 0 {
        assert LineAt(s, target, rest[k - 1], rest[k - 1 + 1], k - 1 == |rest| - 2);
      }
    }
    assert Between(s, rest) != [];
    assert Between(s, cuts)[1..] == Between(s, rest);
  }

  /** The wrapped text is the text cut into lines, each as short as the target allows; a text with an open
      string is refused. */
  lemma WrapExact(s: string, target: int) returns (cuts: seq<nat>)
    ensures End(Outside, s) == Outside <==> Whole(s)
    ensures Cut(s, target, cuts) && cuts[0] == 0
    ensures Wrapped(Outside, 0, target, s) == Join(Between(s, cuts), '\n')
  {
    OutsideExact(s);
    cuts := WrapFrom(s, target, 0, 0);
    assert s[..0] == "" && s[0..0] == "" && s[0..] == s;
    assert "" + Wrapped(Outside, 0, target, s) == Wrapped(Outside, 0, target, s);
  }
}
