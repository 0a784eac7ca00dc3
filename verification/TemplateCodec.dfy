/** A key as a literal skeleton and the numeric and CRC tokens cut out of it, and back. */
module TemplateCodec {
  import opened Wrappers
  import opened Text

  const ESCAPE: char := '\U{00A6}'
  const PLACEHOLDER: char := '\U{00A7}'

  /* ---------- escaping ---------- */

  /** The two replacements, one after the other. */
  function Escaped(key: string): string {
    ReplaceAll(ReplaceAll(key, ESCAPE, [ESCAPE, ESCAPE]), PLACEHOLDER, [ESCAPE, PLACEHOLDER])
  }

  function EscapedChar(c: char): string {
    if c == ESCAPE || c == PLACEHOLDER then [ESCAPE, c] else [c]
  }

  /** The two replacements escape each character on its own. */
  lemma EscapedStep(key: string)
    ensures key != "" ==> Escaped(key) == EscapedChar(key[0]) + Escaped(key[1..])
  {
    if key != "" {
      var first := if key[0] == ESCAPE then [ESCAPE, ESCAPE] else [key[0]];
      ReplaceAllConcat(first, ReplaceAll(key[1..], ESCAPE, [ESCAPE, ESCAPE]), PLACEHOLDER, [ESCAPE, PLACEHOLDER]);
      assert ReplaceAll(key, ESCAPE, [ESCAPE, ESCAPE]) == first + ReplaceAll(key[1..], ESCAPE, [ESCAPE, ESCAPE]);
      if key[0] == ESCAPE {
        assert first[1..] == [ESCAPE] && first[1..][1..] == "";
        assert ReplaceAll(first, PLACEHOLDER, [ESCAPE, PLACEHOLDER]) == EscapedChar(key[0]);
      } else {
        assert first[1..] == "";
        assert ReplaceAll(first, PLACEHOLDER, [ESCAPE, PLACEHOLDER]) == EscapedChar(key[0]);
      }
    }
  }

  /* ---------- tokens ---------- */

  predicate IsDigit(c: char) { '0' <= c <= '9' }

  predicate IsHex(c: char) { IsDigit(c) || 'a' <= c <= 'f' }

  function DigitRun(s: string): (n: nat)
    ensures n <= |s|
  {
    if s == "" || !IsDigit(s[0]) then 0 else 1 + DigitRun(s[1..])
  }

  predicate EightHex(s: string) {
    |s| >= 8 && forall i | 0 <= i < 8 :: IsHex(s[i])
  }

  /** The length of the match of [0-9a-f]{8}|[0-9]+ at the start of s, 0 when there is none. The
      eight-digit form is tried first. */
  function TokenLen(s: string): (n: nat)
    ensures n <= |s|
  {
    if EightHex(s) then 8 else DigitRun(s)
  }

  lemma {:induction false} DigitRunExact(s: string)
    ensures forall i | 0 <= i < DigitRun(s) :: IsDigit(s[i])
    ensures DigitRun(s) < |s| ==> !IsDigit(s[DigitRun(s)])
  {
    if s != "" && IsDigit(s[0]) {
      DigitRunExact(s[1..]);
    }
  }

  /** A token is made of hex digits. */
  lemma TokenIsHex(s: string)
    ensures forall i | 0 <= i < TokenLen(s) :: IsHex(s[i])
  {
    DigitRunExact(s);
  }

  /** All matches, leftmost first and not overlapping, from position `from` on. */
  function FindAll(s: string, from: nat): (found: seq<(nat, nat)>)
    requires from <= |s|
    ensures forall k | 0 <= k < |found| :: from <= found[k].0 < found[k].1 <= |s|
    decreases |s| - from
  {
    if from == |s| then []
    else
      var n := TokenLen(s[from..]);
      if n == 0 then FindAll(s, from + 1) else [(from, from + n)] + FindAll(s, from + n)
  }

  /** The text with every token replaced by the placeholder. */
  function Skeleton(s: string): string
    decreases |s|
  {
    if s == "" then ""
    else
      var n := TokenLen(s);
      if n == 0 then [s[0]] + Skeleton(s[1..]) else [PLACEHOLDER] + Skeleton(s[n..])
  }

  function Captures(s: string): seq<string>
    decreases |s|
  {
    if s == "" then []
    else
      var n := TokenLen(s);
      if n == 0 then Captures(s[1..]) else [s[..n]] + Captures(s[n..])
  }

  /** Skeleton and captures up to the first match. */
  ghost predicate SplitAtMatch(s: string, from: nat)
    requires from <= |s|
  {
    if FindAll(s, from) == [] then Skeleton(s[from..]) == s[from..] && Captures(s[from..]) == []
    else
      var (a, b) := FindAll(s, from)[0];
      && FindAll(s, from)[1..] == FindAll(s, b)
      && Skeleton(s[from..]) == s[from..a] + ([PLACEHOLDER] + Skeleton(s[b..]))
      && Captures(s[from..]) == [s[a..b]] + Captures(s[b..])
  }

  lemma {:induction false} FirstMatch(s: string, from: nat)
    requires from <= |s|
    ensures SplitAtMatch(s, from)
    decreases |s| - from
  {
    if from < |s| {
      if TokenLen(s[from..]) == 0 {
        FirstMatch(s, from + 1);
        SkipChar(s, from);
      } else {
        MatchHere(s, from);
      }
    }
  }

  lemma MatchHere(s: string, from: nat)
    requires from < |s| && TokenLen(s[from..]) > 0
    ensures SplitAtMatch(s, from)
  {
    HeadMatch(s, from);
    var n := TokenLen(s[from..]);
    FirstOf((from, from + n), FindAll(s, from + n));
    assert FindAll(s, from) != [] && FindAll(s, from)[0] == (from, from + n)
           && FindAll(s, from)[1..] == FindAll(s, from + n);
    NothingBefore(s, from, [PLACEHOLDER] + Skeleton(s[from + n..]));
  }

  lemma NothingBefore(s: string, from: nat, t: string)
    requires from <= |s|
    ensures t == s[from..from] + t
  {
  }

  lemma FirstOf<T>(x: T, rest: seq<T>)
    ensures ([x] + rest)[0] == x && ([x] + rest)[1..] == rest
  {
  }

  lemma SkipChar(s: string, from: nat)
    requires from < |s| && TokenLen(s[from..]) == 0 && SplitAtMatch(s, from + 1)
    ensures SplitAtMatch(s, from)
  {
    HeadMatch(s, from);
    if FindAll(s, from) != [] {
      var (a, b) := FindAll(s, from)[0];
      assert s[from..a] == [s[from]] + s[from + 1..a];
      Reassociate([s[from]], s[from + 1..a], [PLACEHOLDER] + Skeleton(s[b..]));
    }
  }

  lemma Reassociate(p: string, q: string, r: string)
    ensures p + (q + r) == p + q + r
  {
  }

  /** One step of the three scans, told by positions. */
  lemma HeadMatch(s: string, from: nat)
    requires from < |s|
    ensures var n := TokenLen(s[from..]);
      && s[from..] == [s[from]] + s[from + 1..]
      && (n == 0 ==>
            && FindAll(s, from) == FindAll(s, from + 1)
            && Skeleton(s[from..]) == [s[from]] + Skeleton(s[from + 1..])
            && Captures(s[from..]) == Captures(s[from + 1..]))
      && (n > 0 ==>
            && FindAll(s, from) == [(from, from + n)] + FindAll(s, from + n)
            && Skeleton(s[from..]) == [PLACEHOLDER] + Skeleton(s[from + n..])
            && Captures(s[from..]) == [s[from..from + n]] + Captures(s[from + n..]))
  {
    var rest := s[from..];
    var n := TokenLen(rest);
    assert rest[1..] == s[from + 1..] && rest[n..] == s[from + n..] && rest[..n] == s[from..from + n];
  }

  /** Escape the key, then cut its tokens out. */
  method EncodedTemplateKey(key: string) returns (skeleton: string, captures: seq<string>)
    ensures skeleton == Skeleton(Escaped(key)) && captures == Captures(Escaped(key))
  {
    var text := ReplaceAll(key, ESCAPE, [ESCAPE, ESCAPE]);
    text := ReplaceAll(text, PLACEHOLDER, [ESCAPE, PLACEHOLDER]);
    var locations := FindAll(text, 0);
    FirstMatch(text, 0);
    assert text[0..] == text;
    if locations == [] {
      return text, [];
    }
    skeleton, captures := "", [];
    var previous := 0;
    for k := 0 to |locations|
      invariant previous <= |text| && locations[k..] == FindAll(text, previous)
      invariant skeleton + Skeleton(text[previous..]) == Skeleton(text)
      invariant captures + Captures(text[previous..]) == Captures(text)
    {
      NextMatch(text, previous, skeleton, captures);
      var (a, b) := locations[k];
      assert locations[k..][0] == (a, b) && locations[k..][1..] == locations[k + 1..];
      skeleton := skeleton + text[previous..a];
      skeleton := skeleton + [PLACEHOLDER];
      captures := captures + [text[a..b]];
      previous := b;
    }
    FirstMatch(text, previous);
    skeleton := skeleton + text[previous..];
  }

  /** One turn of the loop: the text up to a match, then the match. */
  lemma NextMatch(text: string, previous: nat, skeleton: string, captures: seq<string>)
    requires previous <= |text| && FindAll(text, previous) != []
    requires skeleton + Skeleton(text[previous..]) == Skeleton(text)
    requires captures + Captures(text[previous..]) == Captures(text)
    ensures var (a, b) := FindAll(text, previous)[0];
      && FindAll(text, previous)[1..] == FindAll(text, b)
      && skeleton + text[previous..a] + [PLACEHOLDER] + Skeleton(text[b..]) == Skeleton(text)
      && captures + [text[a..b]] + Captures(text[b..]) == Captures(text)
  {
    FirstMatch(text, previous);
    var (a, b) := FindAll(text, previous)[0];
    Reassociate(skeleton, text[previous..a], [PLACEHOLDER] + Skeleton(text[b..]));
    Reassociate(skeleton + text[previous..a], [PLACEHOLDER], Skeleton(text[b..]));
    assert captures + [text[a..b]] + Captures(text[b..]) == captures + ([text[a..b]] + Captures(text[b..]));
  }

  /* ---------- restoring ---------- */

  datatype RestoreError = TooShort | TooLong

  function Restored(runes: string, captures: seq<string>): Result<string, RestoreError>
    decreases |runes|
  {
    if runes == "" then
      if captures == [] then Success("") else Failure(TooLong)
    else if runes[0] == ESCAPE && |runes| > 1 && (runes[1] == ESCAPE || runes[1] == PLACEHOLDER) then
      Prefixed([runes[1]], Restored(runes[2..], captures))
    else if runes[0] == PLACEHOLDER then
      if captures == [] then Failure(TooShort) else Prefixed(captures[0], Restored(runes[1..], captures[1..]))
    else
      Prefixed([runes[0]], Restored(runes[1..], captures))
  }

  function Prefixed(prefix: string, res: Result<string, RestoreError>): Result<string, RestoreError> {
    match res
    case Success(text) => Success(prefix + text)
    case Failure(error) => Failure(error)
  }

  /** Put the captures back, reading escapes as the characters they protect. */
  method RestoreEncodedTemplate(skeleton: string, captures: seq<string>) returns (res: Result<string, RestoreError>)
    ensures res == Restored(skeleton, captures)
  {
    var output := "";
    var captureIndex := 0;
    var index := 0;
    assert skeleton[0..] == skeleton && captures[0..] == captures;
    PrefixedNone(Restored(skeleton, captures));
    while index < |skeleton|
      invariant index <= |skeleton| && captureIndex <= |captures|
      invariant Restored(skeleton, captures) == Prefixed(output, Restored(skeleton[index..], captures[captureIndex..]))
    {
      var rest, left := skeleton[index..], captures[captureIndex..];
      var current := skeleton[index];
      if current == ESCAPE && index + 1 < |skeleton| {
        var next := skeleton[index + 1];
        if next == ESCAPE || next == PLACEHOLDER {
          assert rest[2..] == skeleton[index + 2..];
          PrefixedTwice(output, [next], Restored(rest[2..], left));
          output := output + [next];
          index := index + 2;
          continue;
        }
      }
      assert rest[1..] == skeleton[index + 1..];
      if current == PLACEHOLDER {
        if captureIndex >= |captures| {
          return Failure(TooShort);
        }
        assert left[1..] == captures[captureIndex + 1..];
        PrefixedTwice(output, captures[captureIndex], Restored(rest[1..], left[1..]));
        output := output + captures[captureIndex];
        captureIndex := captureIndex + 1;
      } else {
        PrefixedTwice(output, [current], Restored(rest[1..], left));
        output := output + [current];
      }
      index := index + 1;
    }
    if captureIndex != |captures| {
      return Failure(TooLong);
    }
    assert output + "" == output;
    res := Success(output);
  }

  lemma PrefixedNone(res: Result<string, RestoreError>)
    ensures Prefixed("", res) == res
  {
    if res.Success? {
      assert "" + res.value == res.value;
    }
  }

  lemma PrefixedTwice(a: string, b: string, res: Result<string, RestoreError>)
    ensures Prefixed(a, Prefixed(b, res)) == Prefixed(a + b, res)
  {
    if res.Success? {
      assert a + (b + res.value) == a + b + res.value;
    }
  }

  /* ---------- the round trip ---------- */

  /** A hex prefix of an escaped key is a prefix of the key: escapes are never inside a token. */
  lemma {:induction false} HexPrefix(key: string, n: nat)
    requires n <= |Escaped(key)| && forall i | 0 <= i < n :: IsHex(Escaped(key)[i])
    ensures n <= |key| && key[..n] == Escaped(key)[..n] && Escaped(key)[n..] == Escaped(key[n..])
  {
    EscapedStep(key);
    if n > 0 {
      var text, rest := Escaped(key), Escaped(key[1..]);
      assert IsHex(text[0]);
      assert text == [key[0]] + rest;
      assert forall i | 0 <= i < n - 1 :: rest[i] == text[i + 1];
      HexPrefix(key[1..], n - 1);
      assert key[1..][n - 1..] == key[n..] && text[n..] == rest[n - 1..];
      assert key[..n] == [key[0]] + key[1..][..n - 1] && text[..n] == [text[0]] + rest[..n - 1];
    } else {
      assert key[0..] == key && Escaped(key)[0..] == Escaped(key);
    }
  }

  /** Restoring an encoded key gives the key, whatever markers it contains. */
  lemma {:induction false} RoundTrip(key: string)
    ensures Restored(Skeleton(Escaped(key)), Captures(Escaped(key))) == Success(key)
    decreases |key|
  {
    EscapedStep(key);
    if key != "" {
      var text := Escaped(key);
      var n := TokenLen(text);
      if n > 0 {
        TokenIsHex(text);
        HexPrefix(key, n);
        RoundTrip(key[n..]);
        assert key == key[..n] + key[n..];
        RestoredToken(text, n);
      } else {
        RoundTrip(key[1..]);
        assert key == [key[0]] + key[1..];
        PlainChar(key);
      }
    }
  }

  /** A token at the front is restored from the first capture. */
  lemma RestoredToken(text: string, n: nat)
    requires text != "" && n == TokenLen(text) > 0
    ensures Restored(Skeleton(text), Captures(text)) ==
            Prefixed(text[..n], Restored(Skeleton(text[n..]), Captures(text[n..])))
  {
    var rest, more := Skeleton(text[n..]), Captures(text[n..]);
    assert ([PLACEHOLDER] + rest)[1..] == rest && ([text[..n]] + more)[1..] == more;
  }

  lemma SkeletonPlain(c: char, rest: string)
    requires TokenLen([c] + rest) == 0
    ensures Skeleton([c] + rest) == [c] + Skeleton(rest) && Captures([c] + rest) == Captures(rest)
  {
    assert ([c] + rest)[1..] == rest;
  }

  lemma RestoredPlain(c: char, rest: string, captures: seq<string>)
    requires c != ESCAPE && c != PLACEHOLDER
    ensures Restored([c] + rest, captures) == Prefixed([c], Restored(rest, captures))
  {
    assert ([c] + rest)[1..] == rest;
  }

  lemma RestoredEscape(c: char, rest: string, captures: seq<string>)
    requires c == ESCAPE || c == PLACEHOLDER
    ensures Restored([ESCAPE] + ([c] + rest), captures) == Prefixed([c], Restored(rest, captures))
  {
    assert ([ESCAPE] + ([c] + rest))[2..] == rest;
  }

  /** A character outside tokens comes back by itself, with or without its escape. */
  lemma PlainChar(key: string)
    requires key != "" && TokenLen(Escaped(key)) == 0
    ensures Restored(Skeleton(Escaped(key)), Captures(Escaped(key))) ==
            Prefixed([key[0]], Restored(Skeleton(Escaped(key[1..])), Captures(Escaped(key[1..]))))
  {
    EscapedStep(key);
    var c, rest := key[0], Escaped(key[1..]);
    if c == ESCAPE || c == PLACEHOLDER {
      assert Escaped(key) == [ESCAPE] + ([c] + rest);
      assert !IsHex(([c] + rest)[0]) && !IsHex(([ESCAPE] + ([c] + rest))[0]);
      SkeletonPlain(ESCAPE, [c] + rest);
      SkeletonPlain(c, rest);
      RestoredEscape(c, Skeleton(rest), Captures(rest));
    } else {
      assert Escaped(key) == [c] + rest;
      SkeletonPlain(c, rest);
      RestoredPlain(c, Skeleton(rest), Captures(rest));
    }
  }

  /** Hence a key is known by its skeleton and captures. */
  lemma TemplateInjective(a: string, b: string)
    requires Skeleton(Escaped(a)) == Skeleton(Escaped(b)) && Captures(Escaped(a)) == Captures(Escaped(b))
    ensures a == b
  {
    RoundTrip(a);
    RoundTrip(b);
  }

  /** The placeholders of a skeleton that are not escaped. */
  function Placeholders(runes: string): nat
    decreases |runes|
  {
    if runes == "" then 0
    else if runes[0] == ESCAPE && |runes| > 1 && (runes[1] == ESCAPE || runes[1] == PLACEHOLDER)
      then Placeholders(runes[2..])
    else (if runes[0] == PLACEHOLDER then 1 else 0) + Placeholders(runes[1..])
  }

  /** Restoring fails exactly when the captures are not as many as the placeholders. */
  lemma {:induction false} RestoredExact(runes: string, captures: seq<string>)
    ensures Restored(runes, captures).Success? <==> Placeholders(runes) == |captures|
    ensures Restored(runes, captures).Failure? ==>
              (Restored(runes, captures).error == TooShort <==> |captures| < Placeholders(runes))
    decreases |runes|
  {
    if runes != "" {
      if runes[0] == ESCAPE && |runes| > 1 && (runes[1] == ESCAPE || runes[1] == PLACEHOLDER) {
        RestoredExact(runes[2..], captures);
      } else if runes[0] == PLACEHOLDER {
        if captures != [] {
          RestoredExact(runes[1..], captures[1..]);
        }
      } else {
        RestoredExact(runes[1..], captures);
      }
    }
  }

  /** All keys of one skeleton have the same number of captures. */
  lemma CaptureCount(key: string)
    ensures |Captures(Escaped(key))| == Placeholders(Skeleton(Escaped(key)))
  {
    RoundTrip(key);
    RestoredExact(Skeleton(Escaped(key)), Captures(Escaped(key)));
  }

  /** A capture is a nonempty run of hex digits. */
  lemma {:induction false} CapturesAreHex(s: string)
    ensures forall k | 0 <= k < |Captures(s)| ::
              Captures(s)[k] != "" && forall i | 0 <= i < |Captures(s)[k]| :: IsHex(Captures(s)[k][i])
    decreases |s|
  {
    if s != "" {
      var n := TokenLen(s);
      if n == 0 {
        CapturesAreHex(s[1..]);
      } else {
        TokenIsHex(s);
        CapturesAreHex(s[n..]);
      }
    }
  }

  /* ---------- what the pattern [0-9a-f]{8}|[0-9]+ finds ---------- */

  predicate Decimals(s: string, a: nat, b: nat)
    requires b <= |s|
  {
    forall i | a <= i < b :: s[i] in "0123456789"
  }

  /** Eight hex characters start at the position. */
  predicate HexWindow(s: string, p: nat) {
    p + 8 <= |s| && forall i | p <= i < p + 8 :: s[i] in "0123456789abcdef"
  }

  /** Eight hex characters; or, where those do not start, a maximal run of digits. */
  ghost predicate IsMatch(s: string, a: nat, b: nat) {
    && a < b <= |s|
    && if HexWindow(s, a) then b == a + 8
       else Decimals(s, a, b) && (b < |s| ==> s[b] !in "0123456789")
  }

  ghost predicate StartsNone(s: string, p: nat)
    requires p < |s|
  {
    s[p] !in "0123456789" && !HexWindow(s, p)
  }

  ghost predicate Inside(found: seq<(nat, nat)>, p: nat) {
    exists k | 0 <= k < |found| :: found[k].0 <= p < found[k].1
  }

  /** Matches in order, none over another, and between them no position where one starts. */
  ghost predicate Cuts(s: string, from: nat, found: seq<(nat, nat)>)
    requires from <= |s|
  {
    && (forall k | 0 <= k < |found| :: from <= found[k].0 && IsMatch(s, found[k].0, found[k].1))
    && (forall k, l | 0 <= k < l < |found| :: found[k].1 <= found[l].0)
    && (forall p | from <= p < |s| && !Inside(found, p) :: StartsNone(s, p))
  }

  lemma HexChars(c: char)
    ensures IsHex(c) <==> c in "0123456789abcdef"
    ensures IsDigit(c) <==> c in "0123456789"
  {
  }

  lemma TokenExact(s: string, p: nat)
    requires p < |s|
    ensures var n := TokenLen(s[p..]);
      if n == 0 then StartsNone(s, p) else IsMatch(s, p, p + n)
  {
    var rest := s[p..];
    var n := TokenLen(rest);
    WindowExact(s, p);
    HexChars(s[p]);
    if !EightHex(rest) {
      DigitRunExact(rest);
      forall i | p <= i < p + n ensures s[i] in "0123456789" {
        assert s[i] == rest[i - p] && IsDigit(rest[i - p]);
        HexChars(s[i]);
      }
      if p + n < |s| {
        assert rest[n] == s[p + n];
        HexChars(s[p + n]);
      }
    }
  }

  lemma WindowExact(s: string, p: nat)
    requires p < |s|
    ensures EightHex(s[p..]) <==> HexWindow(s, p)
  {
    var rest := s[p..];
    if HexWindow(s, p) {
      forall i | 0 <= i < 8 ensures IsHex(rest[i]) {
        assert rest[i] == s[p + i];
        HexChars(s[p + i]);
      }
    }
    if EightHex(rest) {
      forall i | p <= i < p + 8 ensures s[i] in "0123456789abcdef" {
        assert rest[i - p] == s[i];
        HexChars(s[i]);
      }
    }
  }

  /** The scan finds what the pattern matches. */
  lemma {:induction false} FindAllCuts(s: string, from: nat)
    requires from <= |s|
    ensures Cuts(s, from, FindAll(s, from))
    decreases |s| - from
  {
    if from < |s| {
      var n := TokenLen(s[from..]);
      var next := from + if n == 0 then 1 else n;
      FindAllCuts(s, next);
      CutsStep(s, from, FindAll(s, next));
      FindAllStep(s, from);
    }
  }

  lemma FindAllStep(s: string, from: nat)
    requires from < |s|
    ensures var n := TokenLen(s[from..]);
      FindAll(s, from) == if n == 0 then FindAll(s, from + 1) else [(from, from + n)] + FindAll(s, from + n)
  {
  }

  lemma CutsStep(s: string, from: nat, rest: seq<(nat, nat)>)
    requires from < |s|
    requires var n := TokenLen(s[from..]); Cuts(s, from + if n == 0 then 1 else n, rest)
    ensures var n := TokenLen(s[from..]); Cuts(s, from, if n == 0 then rest else [(from, from + n)] + rest)
  {
    TokenExact(s, from);
    var n := TokenLen(s[from..]);
    if n == 0 {
      CutsSkip(s, from, rest);
    } else {
      CutsMore(s, from, from + n, rest);
    }
  }

  lemma CutsSkip(s: string, from: nat, found: seq<(nat, nat)>)
    requires from < |s| && StartsNone(s, from) && Cuts(s, from + 1, found)
    ensures Cuts(s, from, found)
  {
  }

  lemma CutsMore(s: string, a: nat, b: nat, rest: seq<(nat, nat)>)
    requires IsMatch(s, a, b) && Cuts(s, b, rest)
    ensures Cuts(s, a, [(a, b)] + rest)
  {
    var found := [(a, b)] + rest;
    forall p | a <= p < |s| && !Inside(found, p) ensures StartsNone(s, p) {
      assert found[0] == (a, b);
      forall k | 0 <= k < |rest| ensures !(rest[k].0 <= p < rest[k].1) {
        assert found[k + 1] == rest[k];
      }
    }
  }

  /** And nothing else is such a list of ranges. */
  lemma {:induction false} CutsOnce(s: string, from: nat, a: seq<(nat, nat)>, b: seq<(nat, nat)>)
    requires from <= |s| && Cuts(s, from, a) && Cuts(s, from, b)
    ensures a == b
    decreases |a| + |b|
  {
    if a == [] {
      NoneFirst(s, from, a, b);
    } else if b == [] {
      NoneFirst(s, from, b, a);
    } else {
      NoLater(s, from, a, b);
      NoLater(s, from, b, a);
      MatchOnce(s, a[0].0, a[0].1, b[0].1);
      CutsRest(s, from, a);
      CutsRest(s, from, b);
      CutsOnce(s, a[0].1, a[1..], b[1..]);
      assert a == [a[0]] + a[1..] && b == [b[0]] + b[1..];
    }
  }

  lemma NoneFirst(s: string, from: nat, a: seq<(nat, nat)>, b: seq<(nat, nat)>)
    requires from <= |s| && Cuts(s, from, a) && Cuts(s, from, b) && a == []
    ensures b == []
  {
    assert forall p :: !Inside(a, p);
    if b != [] {
      MatchStarts(s, b[0].0, b[0].1);
    }
  }

  /** The first range of one list is not before that of another. */
  lemma NoLater(s: string, from: nat, a: seq<(nat, nat)>, b: seq<(nat, nat)>)
    requires from <= |s| && Cuts(s, from, a) && Cuts(s, from, b) && a != [] && b != []
    ensures b[0].0 <= a[0].0
  {
    MatchStarts(s, a[0].0, a[0].1);
    forall k | 0 <= k < |b| ensures b[0].0 <= b[k].0 {
      assert k > 0 ==> b[0].1 <= b[k].0;
    }
  }

  lemma MatchStarts(s: string, a: nat, b: nat)
    requires IsMatch(s, a, b)
    ensures !StartsNone(s, a)
  {
  }

  lemma MatchOnce(s: string, a: nat, b: nat, c: nat)
    requires IsMatch(s, a, b) && IsMatch(s, a, c)
    ensures b == c
  {
  }

  lemma CutsRest(s: string, from: nat, found: seq<(nat, nat)>)
    requires from <= |s| && Cuts(s, from, found) && found != []
    ensures Cuts(s, found[0].1, found[1..])
  {
    var rest := found[1..];
    forall k | 0 <= k < |rest| ensures found[0].1 <= rest[k].0 && IsMatch(s, rest[k].0, rest[k].1) {
      assert rest[k] == found[k + 1];
    }
    forall p | found[0].1 <= p < |s| && !Inside(rest, p) ensures StartsNone(s, p) {
      if k :| 0 <= k < |found| && found[k].0 <= p < found[k].1 {
        assert k > 0 && rest[k - 1] == found[k];
      }
    }
  }

  /** The text around the ranges, with a placeholder for each. */
  function Around(s: string, from: nat, found: seq<(nat, nat)>): string
    requires from <= |s| && forall k | 0 <= k < |found| :: found[k].0 <= found[k].1 <= |s|
    decreases |found|
  {
    if found == [] then s[from..]
    else (if from <= found[0].0 then s[from..found[0].0] else "") + [PLACEHOLDER] + Around(s, found[0].1, found[1..])
  }

  lemma {:induction false} CutFrom(s: string, from: nat)
    requires from <= |s|
    ensures var found := FindAll(s, from);
      && Skeleton(s[from..]) == Around(s, from, found)
      && |Captures(s[from..])| == |found|
      && forall k | 0 <= k < |found| :: Captures(s[from..])[k] == s[found[k].0..found[k].1]
    decreases |s| - from
  {
    FirstMatch(s, from);
    var found := FindAll(s, from);
    if found != [] {
      var (a, b) := found[0];
      CutFrom(s, b);
      Reassociate(s[from..a], [PLACEHOLDER], Skeleton(s[b..]));
      forall k | 0 <= k < |found| ensures Captures(s[from..])[k] == s[found[k].0..found[k].1] {
        assert k > 0 ==> found[1..][k - 1] == found[k] && Captures(s[b..])[k - 1] == s[found[k].0..found[k].1];
      }
    }
  }

  /** For every key: there is one list of ranges that the pattern cuts out of the escaped key; the captures are
      those ranges, and the skeleton is the text around them. */
  lemma TemplateExact(key: string, found: seq<(nat, nat)>)
    requires Cuts(Escaped(key), 0, found)
    ensures var text := Escaped(key);
      && Skeleton(text) == Around(text, 0, found)
      && |Captures(text)| == |found|
      && forall k | 0 <= k < |found| :: Captures(text)[k] == text[found[k].0..found[k].1]
  {
    var text := Escaped(key);
    FindAllCuts(text, 0);
    CutsOnce(text, 0, found, FindAll(text, 0));
    CutFrom(text, 0);
    assert text[0..] == text;
  }
}
