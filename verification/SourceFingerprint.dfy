/** The tokens of a policy source, which do not depend on its white space and comments. */
module SourceFingerprint {
  import opened Wrappers

  /** The character classes, with what the scanner needs of them. */
  datatype Classes = Classes(space: char -> bool, letter: char -> bool, digit: char -> bool) {
    predicate Word(c: char) {
      letter(c) || digit(c) || c == '_'
    }

    ghost predicate Valid() {
      && space(' ') && space('\n')
      && (forall c | space(c) :: !Word(c))
      && (forall c | c == '#' || IsQuote(c) :: !space(c) && !Word(c))
    }
  }

  predicate IsQuote(c: char) {
    c == '"' || c == '`'
  }

  /* ---------- tokens ---------- */

  function LineLength(s: string): (n: nat)
    ensures n <= |s| && (n < |s| ==> s[n] == '\n') && '\n' !in s[..n]
  {
    if s == "" || s[0] == '\n' then 0
    else
      assert s[..1 + LineLength(s[1..])] == [s[0]] + s[1..][..LineLength(s[1..])];
      1 + LineLength(s[1..])
  }

  function WordLength(cs: Classes, s: string): (n: nat)
    ensures n <= |s| && (n < |s| ==> !cs.Word(s[n])) && forall i | 0 <= i < n :: cs.Word(s[i])
  {
    if s == "" || !cs.Word(s[0]) then 0 else 1 + WordLength(cs, s[1..])
  }

  /** How far the closing quote is, the opening one left out. Only the double quote knows escapes. */
  function StringLength(quote: char, s: string): (n: Option<nat>)
    ensures n.Some? ==> 0 < n.value <= |s|
  {
    if s == "" then None
    else if quote == '"' && s[0] == '\\' then
      if |s| == 1 then None
      else
        var rest := StringLength(quote, s[2..]);
        if rest.None? then None else Some(2 + rest.value)
    else if s[0] == quote then Some(1)
    else
      var rest := StringLength(quote, s[1..]);
      if rest.None? then None else Some(1 + rest.value)
  }

  /** The length of the token at the front, if it is not an unterminated string. */
  function TokenLength(cs: Classes, s: string): (n: Option<nat>)
    requires s != ""
    ensures n.Some? ==> 0 < n.value <= |s|
  {
    if IsQuote(s[0]) then
      var rest := StringLength(s[0], s[1..]);
      if rest.None? then None else Some(1 + rest.value)
    else if cs.Word(s[0]) then Some(1 + WordLength(cs, s[1..]))
    else Some(1)
  }

  function Prepend(before: seq<string>, rest: Option<seq<string>>): Option<seq<string>> {
    if rest.None? then None else Some(before + rest.value)
  }

  function Tokens(cs: Classes, s: string): Option<seq<string>>
    decreases |s|
  {
    if s == "" then Some([])
    else if cs.space(s[0]) then Tokens(cs, s[1..])
    else if s[0] == '#' then Tokens(cs, s[1 + LineLength(s[1..])..])
    else
      var n := TokenLength(cs, s);
      if n.None? then None else Prepend([s[..n.value]], Tokens(cs, s[n.value..]))
  }

  lemma PrependAll(rest: Option<seq<string>>)
    ensures Prepend([], rest) == rest
    ensures forall before: seq<string>, token ::
              Prepend(before, Prepend([token], rest)) == Prepend(before + [token], rest)
    ensures forall before: seq<string>, token ::
              Prepend([token], Prepend(before, rest)) == Prepend([token] + before, rest)
  {
    if rest.Some? {
      assert [] + rest.value == rest.value;
      forall before: seq<string>, token
        ensures before + ([token] + rest.value) == before + [token] + rest.value
        ensures [token] + (before + rest.value) == [token] + before + rest.value
      {
      }
    }
  }

  /* ---------- the scanner ---------- */

  method SkipComment(s: string, start: nat) returns (index: nat)
    requires start < |s| && s[start] == '#'
    ensures index == start + 1 + LineLength(s[start + 1..]) <= |s|
  {
    index := start;
    while index < |s| && s[index] != '\n'
      invariant start <= index <= |s|
      invariant index == start || LineLength(s[start + 1..]) == index - start - 1 + LineLength(s[index..])
      invariant index == start ==> s[index] == '#'
    {
      if index > start {
        assert s[index..][1..] == s[index + 1..];
      }
      index := index + 1;
    }
  }

  lemma StringStep(quote: char, s: string, index: nat)
    requires index < |s|
    ensures var escapes := quote == '"' && s[index] == '\\';
      && (escapes && index + 1 == |s| ==> StringLength(quote, s[index..]) == None)
      && (escapes && index + 1 < |s| ==>
            StringLength(quote, s[index..]) == Plus(2, StringLength(quote, s[index + 2..])))
      && (!escapes && s[index] == quote ==> StringLength(quote, s[index..]) == Some(1))
      && (!escapes && s[index] != quote ==>
            StringLength(quote, s[index..]) == Plus(1, StringLength(quote, s[index + 1..])))
  {
    assert s[index..][1..] == s[index + 1..];
    if index + 1 < |s| {
      assert s[index..][2..] == s[index + 2..];
    }
  }

  function Plus(more: nat, n: Option<nat>): Option<nat> {
    if n.None? then None else Some(more + n.value)
  }

  lemma PlusPlus(more: nat)
    ensures forall k: nat, n :: Plus(more, Plus(k, n)) == Plus(more + k, n)
  {
  }

  method ScanString(s: string, start: nat) returns (end: Option<nat>)
    requires start < |s|
    ensures var n := StringLength(s[start], s[start + 1..]);
      end == if n.None? then None else Some(start + 1 + n.value)
  {
    var quote, index := s[start], start + 1;
    ghost var all := StringLength(quote, s[start + 1..]);
    while index < |s|
      invariant start < index <= |s|
      invariant all == Plus(index - start - 1, StringLength(quote, s[index..]))
    {
      var current := s[index];
      StringStep(quote, s, index);
      PlusPlus(index - start - 1);
      index := index + 1;
      if quote == '"' && current == '\\' {
        if index == |s| {
          break;
        }
        index := index + 1;
        continue;
      }
      if current == quote {
        return Some(index);
      }
    }
    return None;
  }

  method ScanWord(cs: Classes, s: string, start: nat) returns (index: nat)
    requires start < |s|
    ensures index == start + 1 + WordLength(cs, s[start + 1..])
  {
    index := start + 1;
    while index < |s| && cs.Word(s[index])
      invariant start < index <= |s|
      invariant WordLength(cs, s[start + 1..]) == index - start - 1 + WordLength(cs, s[index..])
    {
      assert s[index..][1..] == s[index + 1..];
      index := index + 1;
    }
  }

  method ScanToken(cs: Classes, s: string, start: nat) returns (end: Option<nat>)
    requires start < |s|
    ensures var n := TokenLength(cs, s[start..]);
      end == if n.None? then None else Some(start + n.value)
    ensures end.None? ==> IsQuote(s[start]) && StringLength(s[start], s[start + 1..]).None?
  {
    assert s[start..][1..] == s[start + 1..];
    if IsQuote(s[start]) {
      end := ScanString(s, start);
    } else if cs.Word(s[start]) {
      var index := ScanWord(cs, s, start);
      return Some(index);
    } else {
      return Some(start + 1);
    }
  }

  /** The scanner is between tokens, or at the end of a comment's line. */
  predicate Between(s: string, index: nat) {
    && index <= |s|
    && var state := End(Code, s[..index]);
       state == Code || (state == Comment && (index < |s| ==> s[index] == '\n'))
  }

  /** The position is a quote that is code, and no quote closes it. */
  predicate OpensUnterminated(source: string, position: nat) {
    && position < |source| && IsQuote(source[position])
    && StringLength(source[position], source[position + 1..]).None?
    && End(Code, source[..position]) == Code
  }

  /** The tokens of the source, or where an unterminated string starts. */
  method SourceFingerprintText(cs: Classes, source: string) returns (result: Result<seq<string>, nat>)
    requires cs.Valid()
    ensures result.Success? <==> Tokens(cs, source).Some?
    ensures result.Success? ==> result.value == Tokens(cs, source).value
    ensures result.Failure? ==> OpensUnterminated(source, result.error)
  {
    var tokens: seq<string> := [];
    var index := 0;
    assert source[0..] == source;
    PrependAll(Tokens(cs, source));
    while index < |source|
      invariant index <= |source|
      invariant Tokens(cs, source) == Prepend(tokens, Tokens(cs, source[index..]))
      invariant Between(source, index)
    {
      var start := index;
      if cs.space(source[index]) {
        SkipStep(cs, source, start, start + 1);
        BetweenSpace(cs, source, start);
        index := index + 1;
        continue;
      }
      if source[index] == '#' {
        index := SkipComment(source, index);
        SkipStep(cs, source, start, index);
        BetweenComment(cs, source, start, index);
        continue;
      }
      var end := ScanToken(cs, source, index);
      if end.None? {
        return Failure(start);
      }
      index := end.value;
      TokenStep(cs, source, start, index, tokens);
      BetweenToken(cs, source, start, index);
      tokens := tokens + [source[start..index]];
    }
    PrependAll(Some([]));
    return Success(tokens);
  }

  lemma SkipStep(cs: Classes, s: string, start: nat, end: nat)
    requires start < end <= |s|
    requires if cs.space(s[start]) then end == start + 1
               else s[start] == '#' && end == start + 1 + LineLength(s[start + 1..])
    ensures Tokens(cs, s[start..]) == Tokens(cs, s[end..])
  {
    var rest := s[start..];
    assert rest[1..] == s[start + 1..] && rest[end - start..] == s[end..];
  }

  lemma TokenStep(cs: Classes, s: string, start: nat, end: nat, tokens: seq<string>)
    requires start < end <= |s| && !cs.space(s[start]) && s[start] != '#'
    requires TokenLength(cs, s[start..]) == Some(end - start)
    ensures Prepend(tokens, Tokens(cs, s[start..])) == Prepend(tokens + [s[start..end]], Tokens(cs, s[end..]))
  {
    var rest := s[start..];
    assert rest[..end - start] == s[start..end] && rest[end - start..] == s[end..];
    PrependAll(Tokens(cs, s[end..]));
  }

  lemma EndAppends(cs: Classes, s: string, start: nat, end: nat)
    requires start <= end <= |s|
    ensures End(Code, s[..end]) == End(End(Code, s[..start]), s[start..end])
  {
    assert s[..end] == s[..start] + s[start..end];
    Passes(cs, Code, s[..start], s[start..end]);
  }

  lemma BetweenSpace(cs: Classes, s: string, start: nat)
    requires cs.Valid() && start < |s| && cs.space(s[start]) && Between(s, start)
    ensures Between(s, start + 1)
  {
    EndAppends(cs, s, start, start + 1);
    assert s[start..start + 1] == [s[start]] && [s[start]][1..] == "";
  }

  lemma BetweenComment(cs: Classes, s: string, start: nat, end: nat)
    requires cs.Valid() && start < |s| && s[start] == '#' && Between(s, start)
    requires end == start + 1 + LineLength(s[start + 1..])
    ensures Between(s, end)
  {
    EndAppends(cs, s, start, end);
    assert s[start..end][1..] == s[start + 1..][..LineLength(s[start + 1..])];
    CommentPasses(cs, s[start..end][1..]);
  }

  lemma BetweenToken(cs: Classes, s: string, start: nat, end: nat)
    requires cs.Valid() && start < end <= |s| && !cs.space(s[start]) && s[start] != '#' && Between(s, start)
    requires TokenLength(cs, s[start..]) == Some(end - start)
    ensures Between(s, end)
  {
    TokenPasses(cs, s[start..]);
    EndAppends(cs, s, start, end);
    assert s[start..end] == s[start..][..end - start];
  }

  /* ---------- white space and comments, character by character ---------- */

  /** What a character is part of. */
  datatype State = Code | Comment | Quoted(quote: char, escaped: bool)

  function Next(state: State, c: char): State {
    match state
    case Code => if c == '#' then Comment else if IsQuote(c) then Quoted(c, false) else Code
    case Comment => if c == '\n' then Code else Comment
    case Quoted(quote, escaped) =>
      if escaped then Quoted(quote, false)
      else if quote == '"' && c == '\\' then Quoted(quote, true)
      else if c == quote then Code
      else state
  }

  /** The characters that are neither white space nor in a comment, unless in a string. */
  function Stripped(cs: Classes, state: State, s: string): string
    decreases |s|
  {
    if s == "" then ""
    else
      (if state.Quoted? || (state.Code? && !cs.space(s[0]) && s[0] != '#') then [s[0]] else "")
      + Stripped(cs, Next(state, s[0]), s[1..])
  }

  function End(state: State, s: string): State
    decreases |s|
  {
    if s == "" then state else End(Next(state, s[0]), s[1..])
  }

  function Flatten(tokens: seq<string>): string {
    if tokens == [] then "" else tokens[0] + Flatten(tokens[1..])
  }

  lemma {:induction false} Passes(cs: Classes, state: State, a: string, b: string)
    ensures End(state, a + b) == End(End(state, a), b)
    ensures Stripped(cs, state, a + b) == Stripped(cs, state, a) + Stripped(cs, End(state, a), b)
    decreases |a|
  {
    if a == "" {
      assert a + b == b;
    } else {
      assert (a + b)[1..] == a[1..] + b;
      Passes(cs, Next(state, a[0]), a[1..], b);
    }
  }

  lemma {:induction false} CommentPasses(cs: Classes, s: string)
    requires '\n' !in s
    ensures End(Comment, s) == Comment && Stripped(cs, Comment, s) == ""
  {
    if s != "" {
      CommentPasses(cs, s[1..]);
    }
  }

  lemma EscapePasses(cs: Classes, s: string)
    requires |s| >= 2 && s[0] == '\\'
    ensures End(Quoted('"', false), s) == End(Quoted('"', false), s[2..])
    ensures Stripped(cs, Quoted('"', false), s) == [s[0], s[1]] + Stripped(cs, Quoted('"', false), s[2..])
  {
    assert s[1..][1..] == s[2..];
    KeptInString(cs, '"', false, s);
    KeptInString(cs, '"', true, s[1..]);
  }

  lemma KeptInString(cs: Classes, quote: char, escaped: bool, s: string)
    requires s != ""
    ensures Stripped(cs, Quoted(quote, escaped), s) == [s[0]] + Stripped(cs, Next(Quoted(quote, escaped), s[0]), s[1..])
  {
  }

  ghost predicate ClosesAt(cs: Classes, quote: char, s: string) {
    var n := StringLength(quote, s);
    if n.None? then End(Quoted(quote, false), s).Quoted?
    else
      && End(Quoted(quote, false), s[..n.value]) == Code
      && Stripped(cs, Quoted(quote, false), s[..n.value]) == s[..n.value]
  }

  lemma EscapeStep(cs: Classes, s: string)
    requires |s| >= 2 && s[0] == '\\' && ClosesAt(cs, '"', s[2..])
    ensures ClosesAt(cs, '"', s)
  {
    EscapePasses(cs, s);
    var n := StringLength('"', s);
    if n.Some? {
      var front := s[..n.value];
      EscapePasses(cs, front);
      assert front[2..] == s[2..][..n.value - 2];
      assert front == [s[0], s[1]] + s[2..][..n.value - 2];
    }
  }

  lemma {:induction false} StringPasses(cs: Classes, quote: char, s: string)
    ensures ClosesAt(cs, quote, s)
    decreases |s|
  {
    if s == "" {
    } else if quote == '"' && s[0] == '\\' {
      if |s| > 1 {
        StringPasses(cs, quote, s[2..]);
        EscapeStep(cs, s);
      } else {
        assert s[1..] == "";
      }
    } else {
      StringPasses(cs, quote, s[1..]);
      var n := StringLength(quote, s);
      if n.Some? {
        assert s[..n.value][1..] == s[1..][..n.value - 1] && s[..n.value] == [s[0]] + s[1..][..n.value - 1];
      }
    }
  }

  lemma {:induction false} WordPasses(cs: Classes, s: string)
    requires cs.Valid() && forall i | 0 <= i < |s| :: cs.Word(s[i])
    ensures End(Code, s) == Code && Stripped(cs, Code, s) == s
  {
    if s != "" {
      assert cs.Word(s[0]);
      WordPasses(cs, s[1..]);
      assert s == [s[0]] + s[1..];
    }
  }

  /** A token is code from end to end, and all of it is kept. */
  lemma TokenPasses(cs: Classes, s: string)
    requires cs.Valid() && s != "" && !cs.space(s[0]) && s[0] != '#'
    ensures var n := TokenLength(cs, s);
      if n.None? then End(Code, s).Quoted?
      else End(Code, s[..n.value]) == Code && Stripped(cs, Code, s[..n.value]) == s[..n.value]
  {
    var n := TokenLength(cs, s);
    if IsQuote(s[0]) {
      StringPasses(cs, s[0], s[1..]);
      if n.Some? {
        assert s[..n.value][1..] == s[1..][..n.value - 1] && s[..n.value] == [s[0]] + s[1..][..n.value - 1];
      }
    } else if cs.Word(s[0]) {
      WordPasses(cs, s[..n.value]);
    } else {
      assert s[..1] == [s[0]] && s[..1][1..] == "";
    }
  }

  /** Scanning fails exactly when the source ends inside a string; otherwise the tokens, one after the
      other, are the source without the white space and the comments outside strings. */
  lemma {:induction false} TokensExact(cs: Classes, s: string)
    requires cs.Valid()
    ensures Tokens(cs, s).None? <==> End(Code, s).Quoted?
    ensures Tokens(cs, s).Some? ==> Flatten(Tokens(cs, s).value) == Stripped(cs, Code, s)
    decreases |s|
  {
    if s == "" {
    } else if cs.space(s[0]) {
      TokensExact(cs, s[1..]);
    } else if s[0] == '#' {
      var rest := s[1..];
      var n := LineLength(rest);
      CommentPasses(cs, rest[..n]);
      Passes(cs, Comment, rest[..n], rest[n..]);
      assert rest == rest[..n] + rest[n..] && s[1 + n..] == rest[n..];
      TokensExact(cs, s[1 + n..]);
      if n < |rest| {
        NewlineEndsComment(cs, rest[n..]);
      }
    } else {
      var n := TokenLength(cs, s);
      TokenPasses(cs, s);
      if n.Some? {
        Passes(cs, Code, s[..n.value], s[n.value..]);
        assert s == s[..n.value] + s[n.value..];
        TokensExact(cs, s[n.value..]);
      }
    }
  }

  lemma NewlineEndsComment(cs: Classes, s: string)
    requires cs.Valid() && s != "" && s[0] == '\n'
    ensures End(Comment, s) == End(Code, s) && Stripped(cs, Comment, s) == Stripped(cs, Code, s)
  {
  }

  /* ---------- what the tokens do not depend on ---------- */

  /** White space and whole comments. */
  predicate Gap(cs: Classes, g: string) {
    g != "" && End(Code, g) == Code && Stripped(cs, Code, g) == ""
  }

  lemma {:induction false} StringLengthExtends(quote: char, s: string, rest: string)
    requires StringLength(quote, s).Some?
    ensures StringLength(quote, s + rest) == StringLength(quote, s)
    decreases |s|
  {
    assert (s + rest)[1..] == s[1..] + rest;
    if quote == '"' && s[0] == '\\' {
      assert (s + rest)[2..] == s[2..] + rest;
      StringLengthExtends(quote, s[2..], rest);
    } else if s[0] != quote {
      StringLengthExtends(quote, s[1..], rest);
    }
  }

  lemma {:induction false} WordLengthExtends(cs: Classes, s: string, rest: string)
    requires rest == "" || !cs.Word(rest[0])
    ensures WordLength(cs, s + rest) == WordLength(cs, s)
  {
    if s == "" {
      assert s + rest == rest;
    } else {
      assert (s + rest)[1..] == s[1..] + rest;
      WordLengthExtends(cs, s[1..], rest);
    }
  }

  lemma {:induction false} LineLengthExtends(s: string, rest: string)
    requires LineLength(s) < |s|
    ensures LineLength(s + rest) == LineLength(s)
  {
    if s[0] != '\n' {
      assert (s + rest)[1..] == s[1..] + rest;
      LineLengthExtends(s[1..], rest);
    }
  }

  /** No run of word characters goes across. */
  predicate Boundary(cs: Classes, a: string, b: string) {
    a == "" || b == "" || !cs.Word(a[|a| - 1]) || !cs.Word(b[0])
  }

  lemma {:induction false} WordLengthEnds(cs: Classes, s: string, rest: string)
    requires WordLength(cs, s) < |s|
    ensures WordLength(cs, s + rest) == WordLength(cs, s)
  {
    assert (s + rest)[0] == s[0];
    if cs.Word(s[0]) {
      assert (s + rest)[1..] == s[1..] + rest;
      WordLengthEnds(cs, s[1..], rest);
    }
  }

  lemma TokenLengthKept(cs: Classes, s: string, rest: string)
    requires s != "" && TokenLength(cs, s).Some? && Boundary(cs, s, rest)
    ensures TokenLength(cs, s + rest) == TokenLength(cs, s)
  {
    assert (s + rest)[1..] == s[1..] + rest;
    if IsQuote(s[0]) {
      StringLengthExtends(s[0], s[1..], rest);
    } else if cs.Word(s[0]) {
      if WordLength(cs, s[1..]) < |s[1..]| {
        WordLengthEnds(cs, s[1..], rest);
      } else {
        assert cs.Word(s[|s| - 1]) by {
          assert |s| > 1 ==> s[1..][|s| - 2] == s[|s| - 1];
        }
        WordLengthExtends(cs, s[1..], rest);
      }
    }
  }

  /** The tokens before and after a place that is neither in a string, nor in a comment, nor in a word. */
  lemma {:induction false} TokensMeet(cs: Classes, a: string, b: string)
    requires cs.Valid() && End(Code, a) == Code && Boundary(cs, a, b)
    ensures Tokens(cs, a).Some? && Tokens(cs, a + b) == Prepend(Tokens(cs, a).value, Tokens(cs, b))
    decreases |a|, 1
  {
    if a == "" {
      assert a + b == b;
      PrependAll(Tokens(cs, b));
    } else if cs.space(a[0]) {
      assert (a + b)[1..] == a[1..] + b;
      TokensMeet(cs, a[1..], b);
    } else if a[0] == '#' {
      var rest := CommentEnds(cs, a);
      CommentSkipped(cs, a, b);
      TokensMeet(cs, rest, b);
    } else {
      TokenMeets(cs, a, b);
    }
  }

  lemma TokenMeets(cs: Classes, a: string, b: string)
    requires cs.Valid() && End(Code, a) == Code && Boundary(cs, a, b)
    requires a != "" && !cs.space(a[0]) && a[0] != '#'
    ensures Tokens(cs, a).Some? && Tokens(cs, a + b) == Prepend(Tokens(cs, a).value, Tokens(cs, b))
    decreases |a|, 0
  {
    var n := FirstToken(cs, a);
    TokenLengthKept(cs, a, b);
    assert (a + b)[..n] == a[..n] && (a + b)[n..] == a[n..] + b;
    FirstOf(cs, a, n);
    FirstOf(cs, a + b, n);
    TokensMeet(cs, a[n..], b);
    PrependAll(Tokens(cs, b));
  }

  lemma FirstToken(cs: Classes, a: string) returns (n: nat)
    requires cs.Valid() && End(Code, a) == Code && a != "" && !cs.space(a[0]) && a[0] != '#'
    ensures TokenLength(cs, a) == Some(n) && 0 < n <= |a| && End(Code, a[n..]) == Code
  {
    TokenPasses(cs, a);
    n := TokenLength(cs, a).value;
    Passes(cs, Code, a[..n], a[n..]);
    assert a == a[..n] + a[n..];
  }

  lemma FirstOf(cs: Classes, s: string, n: nat)
    requires s != "" && !cs.space(s[0]) && s[0] != '#' && TokenLength(cs, s) == Some(n)
    ensures Tokens(cs, s) == Prepend([s[..n]], Tokens(cs, s[n..]))
  {
  }

  /** A comment that is over by the end of the text has a newline in it. */
  lemma CommentEnds(cs: Classes, a: string) returns (rest: string)
    requires cs.Valid() && a != "" && a[0] == '#' && !cs.space(a[0]) && End(Code, a) == Code
    ensures LineLength(a[1..]) < |a[1..]| && rest == a[1 + LineLength(a[1..])..]
    ensures |rest| < |a| && End(Code, rest) == Code && Tokens(cs, a) == Tokens(cs, rest)
  {
    var line := a[1..];
    var n := LineLength(line);
    CommentPasses(cs, line[..n]);
    Passes(cs, Comment, line[..n], line[n..]);
    assert line == line[..n] + line[n..];
    assert line[|line|..] == "";
    NewlineEndsComment(cs, line[n..]);
    rest := a[1 + n..];
    assert rest == line[n..];
  }

  lemma CommentSkipped(cs: Classes, a: string, b: string)
    requires a != "" && a[0] == '#' && !cs.space(a[0]) && LineLength(a[1..]) < |a[1..]|
    ensures Tokens(cs, a + b) == Tokens(cs, a[1 + LineLength(a[1..])..] + b)
  {
    var n, s := LineLength(a[1..]), a + b;
    assert s[1..] == a[1..] + b;
    LineLengthExtends(a[1..], b);
    assert s[1 + n..] == a[1 + n..] + b;
  }

  lemma CommentStripped(cs: Classes, g: string)
    requires cs.Valid() && g != "" && g[0] == '#' && LineLength(g[1..]) < |g[1..]|
    ensures Stripped(cs, Code, g) == Stripped(cs, Code, g[1 + LineLength(g[1..])..])
  {
    var line := g[1..];
    var n := LineLength(line);
    CommentPasses(cs, line[..n]);
    Passes(cs, Comment, line[..n], line[n..]);
    assert line == line[..n] + line[n..] && line[n..] == g[1 + n..];
    NewlineEndsComment(cs, line[n..]);
  }

  /** Nothing comes of white space and comments at the front. */
  lemma {:induction false} GapSkipped(cs: Classes, g: string, b: string)
    requires cs.Valid() && End(Code, g) == Code && Stripped(cs, Code, g) == ""
    ensures Tokens(cs, g + b) == Tokens(cs, b)
    decreases |g|
  {
    if g == "" {
      assert g + b == b;
    } else if cs.space(g[0]) {
      assert (g + b)[1..] == g[1..] + b;
      GapSkipped(cs, g[1..], b);
    } else {
      assert g[0] == '#';
      var rest := CommentEnds(cs, g);
      CommentSkipped(cs, g, b);
      CommentStripped(cs, g);
      GapSkipped(cs, rest, b);
    }
  }

  /** Replacing white space and comments between tokens by other white space and comments never changes
      the tokens. */
  lemma GapsDoNotMatter(cs: Classes, a: string, g: string, h: string, b: string)
    requires cs.Valid() && End(Code, a) == Code && Gap(cs, g) && Gap(cs, h)
    ensures Tokens(cs, a + g + b) == Tokens(cs, a + h + b)
  {
    AcrossGap(cs, a, g, b);
    AcrossGap(cs, a, h, b);
  }

  lemma AcrossGap(cs: Classes, a: string, g: string, b: string)
    requires cs.Valid() && End(Code, a) == Code && Gap(cs, g)
    ensures Tokens(cs, a).Some? && Tokens(cs, a + g + b) == Prepend(Tokens(cs, a).value, Tokens(cs, b))
  {
    assert a + g + b == a + (g + b) && (g + b)[0] == g[0];
    TokensMeet(cs, a, g + b);
    GapSkipped(cs, g, b);
  }

  /* ---------- the tokens name themselves ---------- */

  predicate Whole(cs: Classes, t: string) {
    t != "" && !cs.space(t[0]) && t[0] != '#' && TokenLength(cs, t) == Some(|t|)
  }

  lemma {:induction false} StringLengthCut(quote: char, s: string, n: nat)
    requires StringLength(quote, s) == Some(n)
    ensures StringLength(quote, s[..n]) == Some(n)
    decreases |s|
  {
    if quote == '"' && s[0] == '\\' {
      StringLengthCut(quote, s[2..], n - 2);
      assert s[..n][2..] == s[2..][..n - 2];
    } else if s[0] != quote {
      StringLengthCut(quote, s[1..], n - 1);
      assert s[..n][1..] == s[1..][..n - 1];
    }
  }

  lemma {:induction false} WordLengthAll(cs: Classes, s: string)
    requires forall i | 0 <= i < |s| :: cs.Word(s[i])
    ensures WordLength(cs, s) == |s|
  {
    if s != "" {
      WordLengthAll(cs, s[1..]);
    }
  }

  lemma TokenIsWhole(cs: Classes, s: string)
    requires s != "" && !cs.space(s[0]) && s[0] != '#' && TokenLength(cs, s).Some?
    ensures Whole(cs, s[..TokenLength(cs, s).value])
  {
    var n := TokenLength(cs, s).value;
    assert s[..n][1..] == s[1..][..n - 1];
    if IsQuote(s[0]) {
      StringLengthCut(s[0], s[1..], n - 1);
    } else if cs.Word(s[0]) {
      WordLengthAll(cs, s[1..][..n - 1]);
    }
  }

  lemma {:induction false} TokensAreWhole(cs: Classes, s: string)
    requires Tokens(cs, s).Some?
    ensures forall t | t in Tokens(cs, s).value :: Whole(cs, t)
    decreases |s|
  {
    if s == "" {
    } else if cs.space(s[0]) {
      TokensAreWhole(cs, s[1..]);
    } else if s[0] == '#' {
      TokensAreWhole(cs, s[1 + LineLength(s[1..])..]);
    } else {
      TokenIsWhole(cs, s);
      TokensAreWhole(cs, s[TokenLength(cs, s).value..]);
    }
  }

  function Spaced(tokens: seq<string>): string {
    if tokens == [] then "" else if |tokens| == 1 then tokens[0] else tokens[0] + " " + Spaced(tokens[1..])
  }

  lemma WholeAlone(cs: Classes, t: string)
    requires cs.Valid() && Whole(cs, t)
    ensures Tokens(cs, t) == Some([t]) && End(Code, t) == Code
  {
    TokenPasses(cs, t);
    assert t[..|t|] == t && t[|t|..] == "";
    assert Tokens(cs, "") == Some([]);
    assert [t] + [] == [t];
  }

  lemma {:induction false} SpacedTokens(cs: Classes, tokens: seq<string>)
    requires cs.Valid() && forall t | t in tokens :: Whole(cs, t)
    ensures Tokens(cs, Spaced(tokens)) == Some(tokens)
  {
    if tokens != [] {
      WholeAlone(cs, tokens[0]);
      if |tokens| == 1 {
        assert tokens == [tokens[0]];
      } else {
        SpacedTokens(cs, tokens[1..]);
        SpaceIsGap(cs);
        AcrossGap(cs, tokens[0], " ", Spaced(tokens[1..]));
        assert tokens == [tokens[0]] + tokens[1..];
      }
    }
  }

  lemma SpaceIsGap(cs: Classes)
    requires cs.Valid()
    ensures Gap(cs, " ")
  {
    assert " "[1..] == "";
  }

  /** The tokens, with spaces between them, have the same tokens again. */
  lemma TokensRoundTrip(cs: Classes, s: string)
    requires cs.Valid() && Tokens(cs, s).Some?
    ensures Tokens(cs, Spaced(Tokens(cs, s).value)) == Tokens(cs, s)
  {
    TokensAreWhole(cs, s);
    SpacedTokens(cs, Tokens(cs, s).value);
  }

  /* ---------- what one token is ---------- */

  lemma OneToken(cs: Classes, a: string, t: string, b: string)
    requires cs.Valid() && End(Code, a) == Code && Boundary(cs, a, t)
    requires t != "" && !cs.space(t[0]) && t[0] != '#' && TokenLength(cs, t + b) == Some(|t|)
    ensures Tokens(cs, a).Some? && Tokens(cs, a + t + b) == Prepend(Tokens(cs, a).value + [t], Tokens(cs, b))
  {
    assert a + t + b == a + (t + b) && (t + b)[..|t|] == t && (t + b)[|t|..] == b;
    TokensMeet(cs, a, t + b);
    FirstOf(cs, t + b, |t|);
    PrependAll(Tokens(cs, b));
  }

  lemma WordTokenLength(cs: Classes, word: string, b: string)
    requires cs.Valid() && word != "" && forall i | 0 <= i < |word| :: cs.Word(word[i])
    requires b == "" || !cs.Word(b[0])
    ensures TokenLength(cs, word + b) == Some(|word|)
  {
    assert cs.Word(word[0]) && !IsQuote(word[0]);
    assert (word + b)[1..] == word[1..] + b;
    WordLengthExtends(cs, word[1..], b);
    WordLengthAll(cs, word[1..]);
  }

  /** Words are of letters, digits and underscores. */
  predicate InWords(cs: Classes, c: char) {
    c == '_' || cs.digit(c) || cs.letter(c)
  }

  /** Outside strings and comments a whole run of word characters is one token: two that touch are never
      parted. */
  lemma WordIsOneToken(cs: Classes, a: string, word: string, b: string)
    requires cs.Valid() && End(Code, a) == Code
    requires word != "" && forall i | 0 <= i < |word| :: InWords(cs, word[i])
    requires (a == "" || !InWords(cs, a[|a| - 1])) && (b == "" || !InWords(cs, b[0]))
    ensures Tokens(cs, a).Some? && Tokens(cs, a + word + b) == Prepend(Tokens(cs, a).value + [word], Tokens(cs, b))
  {
    WordTokenLength(cs, word, b);
    assert cs.Word(word[0]);
    OneToken(cs, a, word, b);
  }

  /** Any other character there, white space aside, is a token of its own. */
  lemma SymbolIsOneToken(cs: Classes, a: string, c: char, b: string)
    requires cs.Valid() && End(Code, a) == Code && !InWords(cs, c) && !cs.space(c) && c !in "\"`#"
    ensures Tokens(cs, a).Some? && Tokens(cs, a + [c] + b) == Prepend(Tokens(cs, a).value + [[c]], Tokens(cs, b))
  {
    OneToken(cs, a, [c], b);
  }

  /** What can stand between two such quotes. Between double quotes a backslash takes the next character along,
      between others it is a character like any. */
  predicate Enclosed(quote: char, text: string)
    decreases |text|
  {
    || text == ""
    || (quote == '"' && text[0] == '\\' && |text| >= 2 && Enclosed(quote, text[2..]))
    || (text[0] != quote && (quote == '"' ==> text[0] != '\\') && Enclosed(quote, text[1..]))
  }

  /** And a string is one, white space and comment signs in it included. */
  lemma StringIsOneToken(cs: Classes, a: string, quote: char, text: string, b: string)
    requires cs.Valid() && End(Code, a) == Code && quote in "\"`" && Enclosed(quote, text)
    ensures var t := [quote] + text + [quote];
      Tokens(cs, a).Some? && Tokens(cs, a + t + b) == Prepend(Tokens(cs, a).value + [t], Tokens(cs, b))
  {
    var t := [quote] + text + [quote];
    assert (t + b)[1..] == text + ([quote] + b);
    EnclosedString(quote, text, b);
    OneToken(cs, a, t, b);
  }

  lemma {:induction false} EnclosedString(quote: char, text: string, b: string)
    requires IsQuote(quote) && Enclosed(quote, text)
    ensures StringLength(quote, text + ([quote] + b)) == Some(|text| + 1)
    decreases |text|
  {
    var rest := [quote] + b;
    var s := text + rest;
    assert s[0..] == s;
    StringStep(quote, s, 0);
    if text == "" {
      assert s == rest;
    } else {
      var n := Unit(quote, text);
      EnclosedString(quote, text[n..], b);
      assert s[n..] == text[n..] + rest && s[0] == text[0];
    }
  }

  /** How many characters the first of a string's text takes along with it. */
  function Unit(quote: char, text: string): (n: nat)
    requires text != "" && Enclosed(quote, text)
    ensures 1 <= n <= |text| && Enclosed(quote, text[n..])
    ensures if n == 1 then text[0] != quote && !(quote == '"' && text[0] == '\\')
            else n == 2 && quote == '"' && text[0] == '\\'
  {
    if quote == '"' && text[0] == '\\' then 2 else 1
  }
}
