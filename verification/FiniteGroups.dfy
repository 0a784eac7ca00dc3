/** Expanding a release-group regex into the finite set of words it stands for. */
module FiniteGroups {
  import opened Wrappers

  const MAX_EXPANSIONS: nat := 4096

  /* ---------- words and regexes ---------- */

  type Rune = r: int | 0 <= r <= 0x10FFFF

  type Word = seq<Rune>

  const REPLACEMENT: Rune := 0xFFFD

  /** A code point that a string can hold. */
  predicate IsScalar(r: Rune) {
    !(0xD800 <= r <= 0xDFFF)
  }

  /** Converting a rune to a string replaces what a string cannot hold. */
  function RuneChar(r: Rune): Rune {
    if IsScalar(r) then r else REPLACEMENT
  }

  function RuneString(runes: seq<Rune>): (w: Word)
    ensures |w| == |runes|
  {
    seq(|runes|, i requires 0 <= i < |runes| => RuneChar(runes[i]))
  }

  datatype Regex =
    | NoMatch
    | EmptyMatch
    | Assertion
    | Literal(runes: seq<Rune>)
    | CharClass(ranges: seq<(Rune, Rune)>)
    | AnyChar(newline: bool)
    | Capture(sub: Regex)
    | Concat(subs: seq<Regex>)
    | Alternate(subs: seq<Regex>)
    | Quest(sub: Regex)
    | Star(sub: Regex)
    | Plus(sub: Regex)
    | Repeat(min: int, max: int, sub: Regex)

  predicate InRanges(ranges: seq<(Rune, Rune)>, r: Rune) {
    exists i | 0 <= i < |ranges| :: ranges[i].0 <= r <= ranges[i].1
  }

  /* ---------- the language, with anchors erased ---------- */

  ghost predicate Matches(re: Regex, w: Word)
    decreases re, 0
  {
    match re
    case NoMatch => false
    case EmptyMatch | Assertion => w == []
    case Literal(runes) => w == runes && forall i | 0 <= i < |w| :: IsScalar(w[i])
    case CharClass(ranges) => |w| == 1 && IsScalar(w[0]) && InRanges(ranges, w[0])
    case AnyChar(newline) => |w| == 1 && IsScalar(w[0]) && (newline || w[0] != 10)
    case Capture(sub) => Matches(sub, w)
    case Concat(subs) => MatchesAll(subs, w)
    case Alternate(subs) => exists i | 0 <= i < |subs| :: Matches(subs[i], w)
    case Quest(sub) => w == [] || Matches(sub, w)
    case Star(sub) => exists n: nat :: Power(sub, n, w)
    case Plus(sub) => exists n: nat :: n >= 1 && Power(sub, n, w)
    case Repeat(min, max, sub) => exists n: nat :: min <= n && (max < 0 || n <= max) && Power(sub, n, w)
  }

  ghost predicate MatchesAll(subs: seq<Regex>, w: Word)
    decreases subs, 0
  {
    if subs == [] then w == []
    else exists k | 0 <= k <= |w| :: MatchesAll(subs[..|subs| - 1], w[..k]) && Matches(subs[|subs| - 1], w[k..])
  }

  /** n matches in a row. */
  ghost predicate Power(re: Regex, n: nat, w: Word)
    decreases re, n + 1
  {
    if n == 0 then w == []
    else exists k | 0 <= k <= |w| :: Power(re, n - 1, w[..k]) && Matches(re, w[k..])
  }

  /* ---------- the expansion ---------- */

  function Product(left: set<Word>, right: set<Word>): set<Word> {
    set a, b | a in left && b in right :: a + b
  }

  function ConcatFinite(left: set<Word>, right: set<Word>): Option<set<Word>> {
    if left == {} || right == {} then Some({})
    else if |left| * |right| > MAX_EXPANSIONS then None
    else Some(Product(left, right))
  }

  function ClassWords(ranges: seq<(Rune, Rune)>): set<Word> {
    set r: Rune | 0 <= r <= 0x10FFFF && InRanges(ranges, r) :: [RuneChar(r)]
  }

  function Limited(words: set<Word>): Option<set<Word>> {
    if |words| > MAX_EXPANSIONS then None else Some(words)
  }

  ghost function Expanded(re: Regex): Option<set<Word>>
    decreases re, 0
  {
    match re
    case NoMatch => Some({})
    case EmptyMatch | Assertion => Some({[]})
    case Literal(runes) => Some({RuneString(runes)})
    case CharClass(ranges) => Limited(ClassWords(ranges))
    case AnyChar(_) => None
    case Capture(sub) => Expanded(sub)
    case Concat(subs) => ExpandedAll(subs)
    case Alternate(subs) =>
      var words := ExpandedAny(subs);
      if words == {} then None else Limited(words)
    case Quest(sub) => ExpandedTimes(Expanded(sub), 0, 1)
    case Star(_) | Plus(_) => None
    case Repeat(min, max, sub) => if max < 0 || max > 8 then None else ExpandedTimes(Expanded(sub), min, max)
  }

  ghost function ExpandedAll(subs: seq<Regex>): Option<set<Word>>
    decreases subs, 0
  {
    if subs == [] then Some({[]})
    else
      var left := ExpandedAll(subs[..|subs| - 1]);
      if left.None? then None
      else
        var right := Expanded(subs[|subs| - 1]);
        if right.None? then None else ConcatFinite(left.value, right.value)
  }

  /** The words of the branches that are finite; the others are dropped. */
  ghost function ExpandedAny(subs: seq<Regex>): set<Word>
    decreases subs, 0
  {
    if subs == [] then {}
    else
      var branch := Expanded(subs[|subs| - 1]);
      ExpandedAny(subs[..|subs| - 1]) + (if branch.Some? then branch.value else {})
  }

  /** n copies in a row. */
  function Copies(words: set<Word>, n: nat): Option<set<Word>> {
    if n == 0 then Some({[]})
    else
      var left := Copies(words, n - 1);
      if left.None? then None else ConcatFinite(left.value, words)
  }

  /** For each m, the words of m copies when m is at least min. */
  ghost function CopiesFrom(words: set<Word>, min: int): nat -> set<Word> {
    (m: nat) => if m >= min && Copies(words, m).Some? then Copies(words, m).value else {}
  }

  ghost function Union(parts: nat -> set<Word>, n: nat): set<Word> {
    if n == 0 then {} else Union(parts, n - 1) + parts(n - 1)
  }

  ghost function ExpandedTimes(words: Option<set<Word>>, min: int, max: nat): Option<set<Word>> {
    if words.None? || words.value == {} || Copies(words.value, max).None? then None
    else Some(Union(CopiesFrom(words.value, min), max + 1))
  }

  /* ---------- the expander ---------- */

  /** Concatenate two maps of words, unless there may be too many. */
  method ConcatWords(left: set<Word>, right: set<Word>) returns (out: set<Word>, ok: bool)
    ensures ok <==> ConcatFinite(left, right).Some?
    ensures ok ==> out == ConcatFinite(left, right).value
  {
    if left == {} || right == {} {
      return {}, true;
    }
    if |left| * |right| > MAX_EXPANSIONS {
      return {}, false;
    }
    out := {};
    var lefts := left;
    while lefts != {}
      invariant lefts <= left && out == Product(left - lefts, right)
      decreases |lefts|
    {
      var a :| a in lefts;
      var row := {};
      var rights := right;
      while rights != {}
        invariant rights <= right && row == Product({a}, right - rights)
        decreases |rights|
      {
        var b :| b in rights;
        ProductGrows({a}, right - rights, b);
        row := row + {a + b};
        assert right - rights + {b} == right - (rights - {b});
        rights := rights - {b};
      }
      assert right - {} == right;
      ProductSplits(left - lefts, {a}, right);
      assert left - lefts + {a} == left - (lefts - {a});
      out := out + row;
      lefts := lefts - {a};
    }
    assert left - {} == left;
    ok := true;
  }

  lemma ProductGrows(left: set<Word>, right: set<Word>, b: Word)
    requires |left| == 1
    ensures forall a | a in left :: Product(left, right + {b}) == Product(left, right) + {a + b}
  {
    forall a | a in left ensures Product(left, right + {b}) == Product(left, right) + {a + b} {
      OnlyOne(left, a);
    }
  }

  lemma OnlyOne<T>(s: set<T>, a: T)
    requires |s| == 1 && a in s
    ensures s == {a}
  {
    assert s == {a} + (s - {a});
  }

  lemma ProductSplits(a: set<Word>, b: set<Word>, right: set<Word>)
    ensures Product(a + b, right) == Product(a, right) + Product(b, right)
  {
  }

  /** The words of the ranges, unless there are too many. */
  method ExpandClass(ranges: seq<(Rune, Rune)>) returns (out: set<Word>, ok: bool)
    ensures ok <==> Limited(ClassWords(ranges)).Some?
    ensures ok ==> out == ClassWords(ranges)
  {
    out := {};
    for i := 0 to |ranges|
      invariant out == ClassWords(ranges[..i]) && |out| <= MAX_EXPANSIONS
    {
      out, ok := AddRange(out, ranges[i].0 as int, ranges[i].1 as int);
      ClassGrows(ranges, i);
      ClassGrowsOn(ranges, i + 1);
      if !ok {
        NotMore(ClassWords(ranges[..i + 1]), ClassWords(ranges));
        return {}, false;
      }
    }
    assert ranges[..|ranges|] == ranges;
    ok := true;
  }

  /** Add the words of one range, up to the limit. */
  method AddRange(words: set<Word>, lo: nat, hi: nat) returns (out: set<Word>, ok: bool)
    requires lo <= 0x10FFFF && hi <= 0x10FFFF && |words| <= MAX_EXPANSIONS
    ensures ok <==> |WithRange(words, lo, hi + 1)| <= MAX_EXPANSIONS
    ensures ok ==> out == WithRange(words, lo, hi + 1)
  {
    out := words;
    var rune := lo;
    while rune <= hi
      invariant lo <= rune && (rune <= hi + 1 || rune == lo)
      invariant out == WithRange(words, lo, rune) && |out| <= MAX_EXPANSIONS
    {
      out := out + {[RuneChar(rune)]};
      assert out == WithRange(words, lo, rune + 1);
      if |out| > MAX_EXPANSIONS {
        RangeGrowsTo(words, lo, rune + 1, hi + 1);
        NotMore(out, WithRange(words, lo, hi + 1));
        return out, false;
      }
      rune := rune + 1;
    }
    ok := true;
  }

  /** The words, and those of the runes from lo up to, but not including, hi. */
  ghost function WithRange(words: set<Word>, lo: nat, hi: nat): set<Word>
    requires hi <= 0x110000
  {
    if hi <= lo then words else WithRange(words, lo, hi - 1) + {[RuneChar(hi - 1)]}
  }

  lemma {:induction false} WithRangeExact(words: set<Word>, lo: nat, hi: nat)
    requires hi <= 0x110000
    ensures forall w ::
              w in WithRange(words, lo, hi) <==> w in words || exists r: Rune :: lo <= r < hi && w == [RuneChar(r)]
  {
    if lo < hi {
      WithRangeExact(words, lo, hi - 1);
      var last: Rune := hi - 1;
      assert [RuneChar(last)] in WithRange(words, lo, hi);
    }
  }

  lemma {:induction false} RangeGrowsTo(words: set<Word>, lo: nat, mid: nat, hi: nat)
    requires mid <= hi <= 0x110000
    ensures WithRange(words, lo, mid) <= WithRange(words, lo, hi)
  {
    if mid < hi {
      RangeGrowsTo(words, lo, mid, hi - 1);
    }
  }

  lemma InRangesStep(ranges: seq<(Rune, Rune)>, i: nat, r: Rune)
    requires i < |ranges|
    ensures InRanges(ranges[..i + 1], r) <==> InRanges(ranges[..i], r) || ranges[i].0 <= r <= ranges[i].1
  {
    var before, after := ranges[..i], ranges[..i + 1];
    if k :| 0 <= k < |after| && after[k].0 <= r <= after[k].1 {
      assert k < i ==> before[k] == after[k];
    }
    if k :| 0 <= k < |before| && before[k].0 <= r <= before[k].1 {
      assert after[k] == before[k];
    }
    assert after[i] == ranges[i];
  }

  lemma ClassGrows(ranges: seq<(Rune, Rune)>, i: nat)
    requires i < |ranges|
    ensures ClassWords(ranges[..i + 1]) == WithRange(ClassWords(ranges[..i]), ranges[i].0, (ranges[i].1 as int) + 1)
    ensures ClassWords(ranges[..i]) <= ClassWords(ranges[..i + 1])
  {
    WithRangeExact(ClassWords(ranges[..i]), ranges[i].0, (ranges[i].1 as int) + 1);
    forall r: Rune
      ensures InRanges(ranges[..i + 1], r) <==> InRanges(ranges[..i], r) || ranges[i].0 <= r <= ranges[i].1
    {
      InRangesStep(ranges, i, r);
    }
  }

  lemma {:induction false} ClassGrowsOn(ranges: seq<(Rune, Rune)>, n: nat)
    requires n <= |ranges|
    ensures ClassWords(ranges[..n]) <= ClassWords(ranges)
    decreases |ranges| - n
  {
    if n == |ranges| {
      assert ranges[..n] == ranges;
    } else {
      ClassGrows(ranges, n);
      ClassGrowsOn(ranges, n + 1);
    }
  }

  lemma NotMore<T>(a: set<T>, b: set<T>)
    requires a <= b
    ensures |a| <= |b|
  {
    assert b == a + (b - a);
  }

  /** Expand a regex, or give up. */
  method ExpandFinite(re: Regex) returns (out: set<Word>, ok: bool)
    ensures ok <==> Expanded(re).Some?
    ensures ok ==> out == Expanded(re).value
    decreases re, 0
  {
    match re {
      case NoMatch => return {}, true;
      case EmptyMatch | Assertion => return {[]}, true;
      case Literal(runes) => return {RuneString(runes)}, true;
      case CharClass(ranges) => out, ok := ExpandClass(ranges);
      case AnyChar(_) => return {}, false;
      case Capture(sub) => out, ok := ExpandFinite(sub);
      case Concat(subs) => out, ok := ExpandConcat(subs);
      case Alternate(subs) => out, ok := ExpandAlternate(subs);
      case Quest(sub) =>
        out, ok := ExpandFinite(sub);
        if ok {
          out, ok := RepeatWords(out, 0, 1);
        }
      case Star(_) | Plus(_) => return {}, false;
      case Repeat(min, max, sub) =>
        if max < 0 || max > 8 {
          return {}, false;
        }
        out, ok := ExpandFinite(sub);
        if ok {
          out, ok := RepeatWords(out, min, max);
        }
    }
  }

  method ExpandConcat(subs: seq<Regex>) returns (out: set<Word>, ok: bool)
    ensures ok <==> ExpandedAll(subs).Some?
    ensures ok ==> out == ExpandedAll(subs).value
    decreases subs, 0
  {
    out := {[]};
    for i := 0 to |subs|
      invariant ExpandedAll(subs[..i]) == Some(out)
    {
      assert subs[..i + 1][..i] == subs[..i];
      var right;
      right, ok := ExpandFinite(subs[i]);
      if ok {
        out, ok := ConcatWords(out, right);
      }
      if !ok {
        AllNeedsEach(subs, i + 1);
        return {}, false;
      }
    }
    assert subs[..|subs|] == subs;
    ok := true;
  }

  method ExpandAlternate(subs: seq<Regex>) returns (out: set<Word>, ok: bool)
    ensures ok <==> ExpandedAny(subs) != {} && |ExpandedAny(subs)| <= MAX_EXPANSIONS
    ensures ok ==> out == ExpandedAny(subs)
    decreases subs, 0
  {
    out := {};
    for i := 0 to |subs|
      invariant out == ExpandedAny(subs[..i]) && |out| <= MAX_EXPANSIONS
    {
      assert subs[..i + 1][..i] == subs[..i];
      var values;
      values, ok := ExpandFinite(subs[i]);
      if !ok {
        continue;
      }
      out := out + values;
      if |out| > MAX_EXPANSIONS {
        AnyGrows(subs, i + 1);
        NotMore(out, ExpandedAny(subs));
        return {}, false;
      }
    }
    assert subs[..|subs|] == subs;
    ok := out != {};
  }

  /** The union of min to max copies of a nonempty set of words. */
  method RepeatWords(repeated: set<Word>, min: int, max: nat) returns (out: set<Word>, ok: bool)
    ensures ok <==> ExpandedTimes(Some(repeated), min, max).Some?
    ensures ok ==> out == ExpandedTimes(Some(repeated), min, max).value
  {
    if repeated == {} {
      return {}, false;
    }
    ghost var parts := CopiesFrom(repeated, min);
    var current: set<Word> := {[]};
    out := {};
    for n := 0 to max + 1
      invariant n <= max ==> Copies(repeated, n) == Some(current)
      invariant n == max + 1 ==> Copies(repeated, max).Some?
      invariant out == Union(parts, n)
    {
      assert parts(n) == if n >= min then current else {};
      if n >= min {
        out := out + current;
      }
      if n < max {
        current, ok := OneMore(repeated, n, current);
        if !ok {
          CopiesNeedFewer(repeated, n + 1, max);
          return {}, false;
        }
      }
    }
    ok := true;
  }

  method OneMore(repeated: set<Word>, n: nat, current: set<Word>) returns (out: set<Word>, ok: bool)
    requires Copies(repeated, n) == Some(current)
    ensures ok <==> Copies(repeated, n + 1).Some?
    ensures ok ==> Copies(repeated, n + 1) == Some(out)
  {
    out, ok := ConcatWords(current, repeated);
  }

  lemma {:induction false} CopiesNeedFewer(words: set<Word>, n: nat, max: nat)
    requires n <= max && Copies(words, n).None?
    ensures Copies(words, max).None?
  {
    if n < max {
      CopiesNeedFewer(words, n, max - 1);
    }
  }

  lemma {:induction false} AllNeedsEach(subs: seq<Regex>, n: nat)
    requires n <= |subs| && ExpandedAll(subs[..n]).None?
    ensures ExpandedAll(subs).None?
    decreases |subs|
  {
    if n == |subs| {
      assert subs[..n] == subs;
    } else {
      var init := subs[..|subs| - 1];
      assert init[..n] == subs[..n];
      AllNeedsEach(init, n);
    }
  }

  lemma {:induction false} AnyGrows(subs: seq<Regex>, n: nat)
    requires n <= |subs|
    ensures ExpandedAny(subs[..n]) <= ExpandedAny(subs)
    decreases |subs|
  {
    if n == |subs| {
      assert subs[..n] == subs;
    } else {
      var init := subs[..|subs| - 1];
      assert init[..n] == subs[..n];
      AnyGrows(init, n);
    }
  }
}
