/** When the expansion of a regex exists. */
module FiniteExistence {
  import opened Wrappers
  import opened FiniteGroups
  import opened FiniteLanguage

  /* ---------- how many ways there are to match ---------- */

  function RuneCount(ranges: seq<(Rune, Rune)>): nat {
    if ranges == [] then 0
    else
      var (lo, hi) := ranges[|ranges| - 1];
      RuneCount(ranges[..|ranges| - 1]) + if lo <= hi then (hi as int) - lo + 1 else 0
  }

  function Larger(a: nat, b: nat): nat {
    if a < b then b else a
  }

  /** From min to max times, of n ways each; max times at least. */
  function RepeatWays(n: nat, min: int, max: nat): nat {
    if min > max then Pow(n, max) else Powers(n, min, max + 1)
  }

  /** A bound that multiplies over concatenations, adds over alternations and takes powers over repetitions. */
  ghost function Ways(re: Regex): (n: nat)
    ensures n >= 1
    decreases re, 0
  {
    match re
    case CharClass(ranges) => Larger(1, RuneCount(ranges))
    case Capture(sub) => Ways(sub)
    case Concat(subs) => WaysAll(subs)
    case Alternate(subs) => Larger(1, WaysAny(subs))
    case Quest(sub) => 1 + Ways(sub)
    case Repeat(min, max, sub) =>
      Larger(Ways(sub), if max < 0 then 0 else RepeatWays(Ways(sub), min, max))
    case _ => 1
  }

  ghost function WaysAll(subs: seq<Regex>): (n: nat)
    ensures n >= 1
    decreases subs, 0
  {
    if subs == [] then 1
    else
      var init, last := WaysAll(subs[..|subs| - 1]), Ways(subs[|subs| - 1]);
      AtLeastOne(init, last);
      init * last
  }

  ghost function WaysAny(subs: seq<Regex>): nat
    decreases subs, 0
  {
    if subs == [] then 0 else WaysAny(subs[..|subs| - 1]) + Ways(subs[|subs| - 1])
  }

  lemma AtLeastOne(a: nat, b: nat)
    requires a >= 1 && b >= 1
    ensures a * b >= a && a * b >= b
  {
  }

  ghost predicate HasWord(re: Regex) {
    exists w :: Matches(re, w)
  }

  /** Nothing unbounded, no repetition of more than eight, and a word wherever one is needed. */
  ghost predicate Bounded(re: Regex)
    decreases re
  {
    match re
    case AnyChar(_) | Star(_) | Plus(_) => false
    case Capture(sub) => Bounded(sub)
    case Concat(subs) => forall i | 0 <= i < |subs| :: Bounded(subs[i])
    case Alternate(subs) => HasWord(re) && forall i | 0 <= i < |subs| :: Bounded(subs[i])
    case Quest(sub) => Bounded(sub) && HasWord(sub)
    case Repeat(_, max, sub) => 0 <= max <= 8 && Bounded(sub) && HasWord(sub)
    case _ => true
  }

  /* ---------- the expansion exists ---------- */

  ghost predicate Exists(re: Regex) {
    Expanded(re).Some? && |Expanded(re).value| <= Ways(re) && NothingDropped(re)
  }

  /** Where nothing is dropped every match is a word. */
  lemma MatchExpanded(re: Regex)
    requires Expanded(re).Some? && NothingDropped(re)
    ensures forall w | Matches(re, w) :: w in Expanded(re).value
  {
    ExpandedWithin(re);
    forall w | Matches(re, w) ensures w in Expanded(re).value {
      assert Language(re)(w);
    }
  }

  lemma {:induction false} ClassSize(ranges: seq<(Rune, Rune)>)
    ensures |ClassWords(ranges)| <= RuneCount(ranges)
  {
    if ranges == [] {
      assert ClassWords(ranges) == {};
    } else {
      var n := |ranges| - 1;
      ClassSize(ranges[..n]);
      ClassGrows(ranges, n);
      assert ranges[..n + 1] == ranges;
      RangeAdds(ClassWords(ranges[..n]), ranges[n].0, (ranges[n].1 as int) + 1);
    }
  }

  lemma {:induction false} RangeAdds(words: set<Word>, lo: nat, hi: nat)
    requires hi <= 0x110000
    ensures |WithRange(words, lo, hi)| <= |words| + if lo < hi then hi - lo else 0
  {
    if lo < hi {
      RangeAdds(words, lo, hi - 1);
      UnionSize(WithRange(words, lo, hi - 1), {[RuneChar(hi - 1)]});
    }
  }

  lemma MulMono(a: nat, b: nat, c: nat, d: nat)
    requires a <= c && b <= d
    ensures a * b <= c * d
  {
    assert a * b <= c * b <= c * d;
  }

  lemma ConcatFits(left: set<Word>, right: set<Word>, a: nat, b: nat)
    requires |left| <= a && |right| <= b && a * b <= MAX_EXPANSIONS
    ensures ConcatFinite(left, right).Some? && |ConcatFinite(left, right).value| <= a * b
  {
    MulMono(|left|, |right|, a, b);
    ProductSize(left, right);
  }

  lemma {:induction false} PowMono(n: nat, m: nat, max: nat)
    requires n >= 1 && m <= max
    ensures 1 <= Pow(n, m) <= Pow(n, max)
    decreases max
  {
    if m < max {
      PowMono(n, m, max - 1);
      AtLeastOne(Pow(n, max - 1), n);
    } else if m > 0 {
      PowMono(n, m - 1, max - 1);
      AtLeastOne(Pow(n, max - 1), n);
    }
  }

  lemma {:induction false} CopiesFit(words: set<Word>, n: nat, m: nat)
    requires n >= 1 && |words| <= n && Pow(n, m) <= MAX_EXPANSIONS
    ensures Copies(words, m).Some? && |Copies(words, m).value| <= Pow(n, m)
  {
    if m > 0 {
      PowMono(n, m - 1, m);
      CopiesFit(words, n, m - 1);
      ConcatFits(Copies(words, m - 1).value, words, Pow(n, m - 1), n);
    }
  }

  lemma {:induction false} TotalFits(words: set<Word>, n: nat, min: int, max: nat, k: nat)
    requires n >= 1 && |words| <= n && Pow(n, max) <= MAX_EXPANSIONS && k <= max + 1
    ensures Total(CopiesFrom(words, min), k) <= Powers(n, min, k)
  {
    if k > 0 {
      TotalFits(words, n, min, max, k - 1);
      PowMono(n, k - 1, max);
      CopiesFit(words, n, k - 1);
    }
  }

  lemma PowersLast(n: nat, min: int, max: nat)
    ensures Pow(n, max) <= RepeatWays(n, min, max)
  {
  }

  lemma TotalWays(words: set<Word>, n: nat, min: int, max: nat)
    requires n >= 1 && |words| <= n && Pow(n, max) <= MAX_EXPANSIONS
    ensures Total(CopiesFrom(words, min), max + 1) <= RepeatWays(n, min, max)
  {
    TotalFits(words, n, min, max, max + 1);
    if min > max {
      NoPowers(n, min, max + 1);
    }
  }

  lemma TimesFits(words: set<Word>, n: nat, min: int, max: nat)
    requires words != {} && n >= 1 && |words| <= n && RepeatWays(n, min, max) <= MAX_EXPANSIONS
    ensures var all := ExpandedTimes(Some(words), min, max);
      all.Some? && |all.value| <= RepeatWays(n, min, max)
  {
    PowersLast(n, min, max);
    CopiesFit(words, n, max);
    TotalWays(words, n, min, max);
    UnionTotal(CopiesFrom(words, min), max + 1);
  }

  lemma {:induction false} NoPowers(n: nat, min: int, k: nat)
    requires k <= min
    ensures Powers(n, min, k) == 0
  {
    if k > 0 {
      NoPowers(n, min, k - 1);
    }
  }

  /** Every bounded regex of at most 4096 ways is expanded, to no more words than that, and no branch of it is
      dropped. */
  lemma {:induction false} ExpandsWithinWays(re: Regex)
    requires Bounded(re) && Ways(re) <= MAX_EXPANSIONS
    ensures Exists(re)
    decreases re, 0
  {
    match re {
      case CharClass(ranges) => ClassSize(ranges);
      case Capture(sub) => ExpandsWithinWays(sub);
      case Concat(subs) => AllExpand(subs);
      case Alternate(subs) =>
        AnyExpand(subs);
        AlternationHasWord(subs);
      case Quest(sub) =>
        TwoPowers(Ways(sub));
        ExpandsWithinWays(sub);
        RepeatExists(sub, 0, 1);
        assert Expanded(re) == ExpandedTimes(Expanded(sub), 0, 1);
      case Repeat(min, max, sub) =>
        ExpandsWithinWays(sub);
        RepeatExists(sub, min, max);
        assert Expanded(re) == ExpandedTimes(Expanded(sub), min, max);
      case _ =>
    }
  }

  lemma TwoPowers(n: nat)
    ensures RepeatWays(n, 0, 1) == 1 + n
  {
    assert Pow(n, 1) == Pow(n, 0) * n == n;
    assert Powers(n, 0, 1) == 1;
  }

  lemma RepeatExists(sub: Regex, min: int, max: nat)
    requires Exists(sub) && HasWord(sub) && RepeatWays(Ways(sub), min, max) <= MAX_EXPANSIONS
    ensures var all := ExpandedTimes(Expanded(sub), min, max);
      all.Some? && |all.value| <= RepeatWays(Ways(sub), min, max)
  {
    MatchExpanded(sub);
    TimesFits(Expanded(sub).value, Ways(sub), min, max);
  }

  lemma {:induction false} AllExpand(subs: seq<Regex>)
    requires (forall i | 0 <= i < |subs| :: Bounded(subs[i])) && WaysAll(subs) <= MAX_EXPANSIONS
    ensures ExpandedAll(subs).Some? && |ExpandedAll(subs).value| <= WaysAll(subs)
    ensures forall i | 0 <= i < |subs| :: NothingDropped(subs[i])
    decreases subs, 0
  {
    if subs != [] {
      var init, last := subs[..|subs| - 1], subs[|subs| - 1];
      AtLeastOne(WaysAll(init), Ways(last));
      AllExpand(init);
      ExpandsWithinWays(last);
      ConcatFits(ExpandedAll(init).value, Expanded(last).value, WaysAll(init), Ways(last));
      assert subs == init + [last];
    }
  }

  lemma {:induction false} AnyExpand(subs: seq<Regex>)
    requires (forall i | 0 <= i < |subs| :: Bounded(subs[i])) && WaysAny(subs) <= MAX_EXPANSIONS
    ensures |ExpandedAny(subs)| <= WaysAny(subs)
    ensures forall i | 0 <= i < |subs| :: NothingDropped(subs[i]) && Expanded(subs[i]).Some?
    decreases subs, 0
  {
    if subs != [] {
      var init, last := subs[..|subs| - 1], subs[|subs| - 1];
      AnyExpand(init);
      ExpandsWithinWays(last);
      UnionSize(ExpandedAny(init), Expanded(last).value);
      assert subs == init + [last];
    }
  }

  lemma AlternationHasWord(subs: seq<Regex>)
    requires HasWord(Alternate(subs)) && NothingDropped(Alternate(subs))
    ensures ExpandedAny(subs) != {}
  {
    AnyWithin(subs);
    var w :| Matches(Alternate(subs), w);
    assert Language(Alternate(subs))(w);
  }

  /** And then the words are the whole language, when the code points of the leaves allow it. */
  lemma BoundedIsWhole(re: Regex)
    requires Bounded(re) && Ways(re) <= MAX_EXPANSIONS
    ensures Expanded(re).Some? && |Expanded(re).value| <= Ways(re)
    ensures forall w | Matches(re, w) :: w in Expanded(re).value
    ensures SoundLeaves(re) ==> forall w | w in Expanded(re).value :: Matches(re, w)
  {
    ExpandsWithinWays(re);
    MatchExpanded(re);
    ExpandedWithin(re);
    forall w | SoundLeaves(re) && w in Expanded(re).value ensures Matches(re, w) {
      assert Language(re)(w);
    }
  }

  /* ---------- captures ---------- */

  /** The regex without its groups. */
  function Erased(re: Regex): Regex
    decreases re, 0
  {
    match re
    case Capture(sub) => Erased(sub)
    case Concat(subs) => Concat(ErasedAll(subs))
    case Alternate(subs) => Alternate(ErasedAll(subs))
    case Quest(sub) => Quest(Erased(sub))
    case Star(sub) => Star(Erased(sub))
    case Plus(sub) => Plus(Erased(sub))
    case Repeat(min, max, sub) => Repeat(min, max, Erased(sub))
    case _ => re
  }

  function ErasedAll(subs: seq<Regex>): (all: seq<Regex>)
    ensures |all| == |subs|
    decreases subs, 0
  {
    if subs == [] then [] else ErasedAll(subs[..|subs| - 1]) + [Erased(subs[|subs| - 1])]
  }

  /** Groups change no result. */
  lemma {:induction false} CapturesAreTransparent(re: Regex)
    ensures Expanded(Erased(re)) == Expanded(re)
    decreases re, 0
  {
    match re {
      case Capture(sub) => CapturesAreTransparent(sub);
      case Concat(subs) => AllTransparent(subs);
      case Alternate(subs) => AllTransparent(subs);
      case Quest(sub) => CapturesAreTransparent(sub);
      case Repeat(_, _, sub) => CapturesAreTransparent(sub);
      case _ =>
    }
  }

  lemma {:induction false} AllTransparent(subs: seq<Regex>)
    ensures ExpandedAll(ErasedAll(subs)) == ExpandedAll(subs)
    ensures ExpandedAny(ErasedAll(subs)) == ExpandedAny(subs)
    decreases subs, 0
  {
    if subs != [] {
      var init, last := subs[..|subs| - 1], subs[|subs| - 1];
      AllTransparent(init);
      CapturesAreTransparent(last);
      assert ErasedAll(subs)[..|subs| - 1] == ErasedAll(init);
    }
  }

  /* ---------- alternations ---------- */

  /** Some branch that is finite has the word. */
  ghost predicate SomeYields(subs: seq<Regex>, w: Word) {
    exists i | 0 <= i < |subs| :: Yields(subs[i], w)
  }

  /** An alternation expands to the words of its finite branches, exactly when there is one and they are at most
      4096. */
  lemma AlternationExpands(subs: seq<Regex>, words: set<Word>)
    ensures Expanded(Alternate(subs)) == Some(words) <==>
            0 < |words| <= 4096 && forall w :: w in words <==> SomeYields(subs, w)
  {
    var all := ExpandedAny(subs);
    forall w ensures w in all <==> SomeYields(subs, w) {
      if w in all {
        BranchOf(subs, w);
      }
      if i :| 0 <= i < |subs| && Yields(subs[i], w) {
        OfBranch(subs, i, w);
      }
    }
    if forall w :: w in words <==> SomeYields(subs, w) {
      assert words == all;
    }
  }
}
