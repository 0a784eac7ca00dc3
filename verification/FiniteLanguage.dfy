/** What the expansion of a regex has to do with its language. */
module FiniteLanguage {
  import opened Wrappers
  import opened FiniteGroups

  /** No literal of the regex holds a code point that a string cannot, and a class that does has the
      replacement for it too. */
  ghost predicate SoundLeaves(re: Regex)
    decreases re
  {
    match re
    case Literal(runes) => forall i | 0 <= i < |runes| :: IsScalar(runes[i])
    case CharClass(ranges) => InRanges(ranges, REPLACEMENT) || forall r: Rune :: InRanges(ranges, r) ==> IsScalar(r)
    case Capture(sub) => SoundLeaves(sub)
    case Concat(subs) => forall i | 0 <= i < |subs| :: SoundLeaves(subs[i])
    case Alternate(subs) => forall i | 0 <= i < |subs| :: SoundLeaves(subs[i])
    case Quest(sub) => SoundLeaves(sub)
    case Repeat(_, _, sub) => SoundLeaves(sub)
    case _ => true
  }

  /** No alternation of the regex has a branch that is not finite. */
  ghost predicate NothingDropped(re: Regex)
    decreases re
  {
    match re
    case Capture(sub) => NothingDropped(sub)
    case Concat(subs) => forall i | 0 <= i < |subs| :: NothingDropped(subs[i])
    case Alternate(subs) => forall i | 0 <= i < |subs| :: NothingDropped(subs[i]) && Expanded(subs[i]).Some?
    case Quest(sub) => NothingDropped(sub)
    case Repeat(_, _, sub) => NothingDropped(sub)
    case _ => true
  }

  /** When `sound` the words are all in the language, and when `exact` they are all of it. */
  ghost predicate Within(words: set<Word>, language: Word -> bool, sound: bool, exact: bool) {
    && (sound ==> forall w | w in words :: language(w))
    && (exact ==> forall w | language(w) :: w in words)
  }

  ghost function Language(re: Regex): Word -> bool {
    w => Matches(re, w)
  }

  ghost function LanguageAll(subs: seq<Regex>): Word -> bool {
    w => MatchesAll(subs, w)
  }

  ghost function LanguagePower(re: Regex, n: nat): Word -> bool {
    w => Power(re, n, w)
  }

  /** Two languages one after the other. */
  ghost predicate Splits(a: Word -> bool, b: Word -> bool, w: Word) {
    exists k | 0 <= k <= |w| :: a(w[..k]) && b(w[k..])
  }

  lemma InProduct(left: set<Word>, right: set<Word>, w: Word)
    ensures w in Product(left, right) <==> exists k | 0 <= k <= |w| :: w[..k] in left && w[k..] in right
  {
    if w in Product(left, right) {
      var a, b :| a in left && b in right && w == a + b;
      assert w[..|a|] == a && w[|a|..] == b;
    }
    if k :| 0 <= k <= |w| && w[..k] in left && w[k..] in right {
      assert w == w[..k] + w[k..];
    }
  }

  /** Concatenating finite sets concatenates their languages. */
  lemma ConcatWithin(left: set<Word>, right: set<Word>, a: Word -> bool, b: Word -> bool, sound: bool,
                     exact: bool)
    requires Within(left, a, sound, exact) && Within(right, b, sound, exact) && ConcatFinite(left, right).Some?
    ensures Within(ConcatFinite(left, right).value, w => Splits(a, b, w), sound, exact)
  {
    var words := ConcatFinite(left, right).value;
    assert words == Product(left, right);
    forall w ensures sound && w in words ==> Splits(a, b, w)
             ensures exact && Splits(a, b, w) ==> w in words
    {
      InProduct(left, right, w);
      if sound && w in words {
        var k :| 0 <= k <= |w| && w[..k] in left && w[k..] in right;
        assert a(w[..k]) && b(w[k..]);
      }
      if exact && Splits(a, b, w) {
        var k :| 0 <= k <= |w| && a(w[..k]) && b(w[k..]);
        assert w[..k] in left && w[k..] in right;
      }
    }
  }

  lemma LiteralWithin(runes: seq<Rune>)
    ensures Within({RuneString(runes)}, Language(Literal(runes)), SoundLeaves(Literal(runes)), true)
  {
    if forall i | 0 <= i < |runes| :: IsScalar(runes[i]) {
      assert RuneString(runes) == runes;
    }
  }

  lemma ClassWithin(ranges: seq<(Rune, Rune)>)
    ensures Within(ClassWords(ranges), Language(CharClass(ranges)), SoundLeaves(CharClass(ranges)), true)
  {
    forall w | Matches(CharClass(ranges), w) ensures w in ClassWords(ranges) {
      assert w == [w[0]] == [RuneChar(w[0])];
    }
  }

  lemma {:induction false} CopiesWithin(re: Regex, words: set<Word>, n: nat, sound: bool, exact: bool)
    requires Within(words, Language(re), sound, exact) && Copies(words, n).Some?
    ensures Within(Copies(words, n).value, LanguagePower(re, n), sound, exact)
  {
    if n > 0 {
      CopiesWithin(re, words, n - 1, sound, exact);
      var left := Copies(words, n - 1).value;
      ConcatWithin(left, words, LanguagePower(re, n - 1), Language(re), sound, exact);
      forall w ensures Splits(LanguagePower(re, n - 1), Language(re), w) <==> Power(re, n, w) {
      }
    }
  }

  lemma {:induction false} InUnion(parts: nat -> set<Word>, n: nat, w: Word)
    ensures w in Union(parts, n) <==> exists m: nat :: m < n && w in parts(m)
  {
    if n > 0 {
      InUnion(parts, n - 1, w);
    }
  }

  lemma {:induction false} FewerCopies(words: set<Word>, m: nat, n: nat)
    requires m <= n && Copies(words, n).Some?
    ensures Copies(words, m).Some?
  {
    if m < n {
      FewerCopies(words, m, n - 1);
    }
  }

  /** Some count of matches in a row between the bounds. */
  ghost predicate Repeats(re: Regex, min: int, max: int, w: Word) {
    exists n: nat :: min <= n <= max && Power(re, n, w)
  }

  lemma TimesSound(re: Regex, words: set<Word>, min: int, max: nat, w: Word)
    requires Within(words, Language(re), true, false) && w in Union(CopiesFrom(words, min), max + 1)
    ensures Repeats(re, min, max, w)
  {
    var parts := CopiesFrom(words, min);
    InUnion(parts, max + 1, w);
    var m: nat :| m < max + 1 && w in parts(m);
    CopiesWithin(re, words, m, true, false);
    assert LanguagePower(re, m)(w);
  }

  lemma TimesComplete(re: Regex, words: set<Word>, min: int, max: nat, w: Word)
    requires Within(words, Language(re), false, true) && Copies(words, max).Some? && Repeats(re, min, max, w)
    ensures w in Union(CopiesFrom(words, min), max + 1)
  {
    var parts := CopiesFrom(words, min);
    var n: nat :| min <= n <= max && Power(re, n, w);
    FewerCopies(words, n, max);
    CopiesWithin(re, words, n, false, true);
    assert LanguagePower(re, n)(w) && w in parts(n);
    InUnion(parts, max + 1, w);
  }

  /** Repeating a finite set repeats its language. */
  lemma TimesWithin(re: Regex, words: set<Word>, min: int, max: nat, sound: bool, exact: bool)
    requires Within(words, Language(re), sound, exact) && ExpandedTimes(Some(words), min, max).Some?
    ensures Within(ExpandedTimes(Some(words), min, max).value, w => Repeats(re, min, max, w), sound, exact)
  {
    var out := Union(CopiesFrom(words, min), max + 1);
    forall w | sound && w in out ensures Repeats(re, min, max, w) {
      TimesSound(re, words, min, max, w);
    }
    forall w | exact && Repeats(re, min, max, w) ensures w in out {
      TimesComplete(re, words, min, max, w);
    }
  }

  lemma QuestIsTimes(re: Regex, w: Word)
    ensures Repeats(re, 0, 1, w) <==> Matches(Quest(re), w)
  {
    assert Power(re, 0, w) <==> w == [];
    assert Power(re, 1, w) <==> Matches(re, w) by {
      assert w[..0] == [] && w[0..] == w;
      if Power(re, 1, w) {
        var k :| 0 <= k <= |w| && Power(re, 0, w[..k]) && Matches(re, w[k..]);
        assert k == 0;
      }
    }
  }

  /** Soundness and, where nothing is dropped, exactness: every word of the expansion is in the
      anchor-erased language, and then the expansion is the whole language. */
  lemma {:induction false} ExpandedWithin(re: Regex)
    requires Expanded(re).Some?
    ensures Within(Expanded(re).value, Language(re), SoundLeaves(re), NothingDropped(re))
    decreases re, 0
  {
    var sound, exact := SoundLeaves(re), NothingDropped(re);
    match re {
      case NoMatch =>
      case EmptyMatch =>
      case Assertion =>
      case Literal(runes) => LiteralWithin(runes);
      case CharClass(ranges) => ClassWithin(ranges);
      case Capture(sub) => ExpandedWithin(sub);
      case Concat(subs) => AllWithin(subs);
      case Alternate(subs) => AnyWithin(subs);
      case Quest(sub) =>
        ExpandedWithin(sub);
        TimesWithin(sub, Expanded(sub).value, 0, 1, sound, exact);
        forall w ensures Repeats(sub, 0, 1, w) <==> Matches(re, w) {
          QuestIsTimes(sub, w);
        }
      case Repeat(min, max, sub) =>
        ExpandedWithin(sub);
        TimesWithin(sub, Expanded(sub).value, min, max, sound, exact);
        forall w ensures Repeats(sub, min, max, w) <==> Matches(re, w) {
        }
    }
  }

  lemma {:induction false} AllWithin(subs: seq<Regex>)
    requires ExpandedAll(subs).Some?
    ensures Within(ExpandedAll(subs).value, LanguageAll(subs), forall i | 0 <= i < |subs| :: SoundLeaves(subs[i]),
                   forall i | 0 <= i < |subs| :: NothingDropped(subs[i]))
    decreases subs, 0
  {
    if subs != [] {
      var init, last := subs[..|subs| - 1], subs[|subs| - 1];
      AllWithin(init);
      ExpandedWithin(last);
      var sound := forall i | 0 <= i < |subs| :: SoundLeaves(subs[i]);
      var exact := forall i | 0 <= i < |subs| :: NothingDropped(subs[i]);
      ConcatWithin(ExpandedAll(init).value, Expanded(last).value, LanguageAll(init), Language(last),
                   sound, exact);
      forall w ensures Splits(LanguageAll(init), Language(last), w) <==> MatchesAll(subs, w) {
      }
    }
  }

  ghost predicate Yields(re: Regex, w: Word) {
    Expanded(re).Some? && w in Expanded(re).value
  }

  lemma {:induction false} BranchOf(subs: seq<Regex>, w: Word)
    requires w in ExpandedAny(subs)
    ensures exists i | 0 <= i < |subs| :: Yields(subs[i], w)
    decreases |subs|
  {
    var init := subs[..|subs| - 1];
    if w in ExpandedAny(init) {
      BranchOf(init, w);
      var i :| 0 <= i < |init| && Yields(init[i], w);
      assert Yields(subs[i], w);
    } else {
      assert Yields(subs[|subs| - 1], w);
    }
  }

  lemma {:induction false} OfBranch(subs: seq<Regex>, i: nat, w: Word)
    requires i < |subs| && Yields(subs[i], w)
    ensures w in ExpandedAny(subs)
    decreases |subs|
  {
    if i < |subs| - 1 {
      OfBranch(subs[..|subs| - 1], i, w);
    }
  }

  lemma {:induction false} AnyWithin(subs: seq<Regex>)
    ensures Within(ExpandedAny(subs), Language(Alternate(subs)), SoundLeaves(Alternate(subs)),
                   NothingDropped(Alternate(subs)))
    decreases subs, 0
  {
    forall i | 0 <= i < |subs| && Expanded(subs[i]).Some?
      ensures Within(Expanded(subs[i]).value, Language(subs[i]), SoundLeaves(subs[i]), NothingDropped(subs[i]))
    {
      ExpandedWithin(subs[i]);
    }
    forall w ensures SoundLeaves(Alternate(subs)) && w in ExpandedAny(subs) ==> Matches(Alternate(subs), w)
             ensures NothingDropped(Alternate(subs)) && Matches(Alternate(subs), w) ==> w in ExpandedAny(subs)
    {
      if SoundLeaves(Alternate(subs)) && w in ExpandedAny(subs) {
        BranchOf(subs, w);
        var i :| 0 <= i < |subs| && Yields(subs[i], w);
        assert Language(subs[i])(w);
      }
      if NothingDropped(Alternate(subs)) && Matches(Alternate(subs), w) {
        var i :| 0 <= i < |subs| && Matches(subs[i], w);
        assert Language(subs[i])(w);
        OfBranch(subs, i, w);
      }
    }
  }

  /** A class with a surrogate yields the replacement character, so it is sound exactly when it has
      no surrogate or has that character too. */
  lemma ClassSoundExact(ranges: seq<(Rune, Rune)>)
    ensures (forall w | w in ClassWords(ranges) :: Matches(CharClass(ranges), w)) <==>
            ((forall r: Rune :: InRanges(ranges, r) ==> IsScalar(r)) || InRanges(ranges, REPLACEMENT))
  {
    if r: Rune :| InRanges(ranges, r) && !IsScalar(r) {
      assert [RuneChar(r)] == [REPLACEMENT];
      assert [REPLACEMENT] in ClassWords(ranges);
    }
  }

  /** A literal or a class is expanded soundly exactly when its code points allow it. */
  lemma LeafSoundExact(re: Regex)
    requires (re.Literal? || re.CharClass?) && Expanded(re).Some?
    ensures Within(Expanded(re).value, Language(re), true, false) <==> SoundLeaves(re)
  {
    match re {
      case Literal(runes) =>
        assert RuneString(runes) in Expanded(re).value;
      case CharClass(ranges) =>
        assert Expanded(re).value == ClassWords(ranges);
        ClassSoundExact(ranges);
    }
  }

  /** Every word of the branches that are not finite is a word of one that is. */
  ghost predicate DropsNothingNew(subs: seq<Regex>) {
    forall i, w | 0 <= i < |subs| && Expanded(subs[i]).None? && Matches(subs[i], w) :: FiniteMatch(subs, w)
  }

  ghost predicate FiniteMatch(subs: seq<Regex>, w: Word) {
    exists j | 0 <= j < |subs| :: Expanded(subs[j]).Some? && Matches(subs[j], w)
  }

  /** An alternation whose finite branches are whole is whole exactly when the branches that it drops would
      give no new word. */
  lemma AlternationWholeExactly(subs: seq<Regex>)
    requires forall i | 0 <= i < |subs| :: SoundLeaves(subs[i])
    requires forall i | 0 <= i < |subs| && Expanded(subs[i]).Some? :: NothingDropped(subs[i])
    requires Expanded(Alternate(subs)).Some?
    ensures Within(Expanded(Alternate(subs)).value, Language(Alternate(subs)), true, true) <==> DropsNothingNew(subs)
  {
    forall w ensures w in ExpandedAny(subs) <==> FiniteMatch(subs, w) {
      InFinite(subs, w);
    }
    forall w ensures FiniteMatch(subs, w) ==> Language(Alternate(subs))(w) {
    }
    if DropsNothingNew(subs) {
      forall w | Language(Alternate(subs))(w) ensures FiniteMatch(subs, w) {
        BranchMatches(subs, w);
      }
    } else {
      var i, w :| 0 <= i < |subs| && Expanded(subs[i]).None? && Matches(subs[i], w) && !FiniteMatch(subs, w);
      assert Language(Alternate(subs))(w);
    }
  }

  lemma BranchMatches(subs: seq<Regex>, w: Word)
    requires DropsNothingNew(subs) && Matches(Alternate(subs), w)
    ensures FiniteMatch(subs, w)
  {
    var i :| 0 <= i < |subs| && Matches(subs[i], w);
    if Expanded(subs[i]).Some? {
      assert FiniteMatch(subs, w);
    }
  }

  lemma InFinite(subs: seq<Regex>, w: Word)
    requires forall i | 0 <= i < |subs| :: SoundLeaves(subs[i])
    requires forall i | 0 <= i < |subs| && Expanded(subs[i]).Some? :: NothingDropped(subs[i])
    ensures w in ExpandedAny(subs) <==> FiniteMatch(subs, w)
  {
    forall i | 0 <= i < |subs| && Expanded(subs[i]).Some?
      ensures Yields(subs[i], w) <==> Matches(subs[i], w)
    {
      ExpandedWithin(subs[i]);
      assert Language(subs[i])(w) <==> Matches(subs[i], w);
    }
    if w in ExpandedAny(subs) {
      BranchOf(subs, w);
      var i :| 0 <= i < |subs| && Yields(subs[i], w);
      assert Matches(subs[i], w);
    }
    if j :| 0 <= j < |subs| && Expanded(subs[j]).Some? && Matches(subs[j], w) {
      OfBranch(subs, j, w);
    }
  }

  /* ---------- bounds ---------- */

  const MAX_REPEATED: nat := 1 + 8 * MAX_EXPANSIONS

  lemma {:induction false} ProductSize(left: set<Word>, right: set<Word>)
    ensures |Product(left, right)| <= |left| * |right|
    decreases |left|
  {
    if left == {} {
      assert Product(left, right) == {};
    } else {
      var a :| a in left;
      var rest := left - {a};
      ProductSize(rest, right);
      RowSize(a, right);
      assert Product(left, right) == Product(rest, right) + Product({a}, right);
      UnionSize(Product(rest, right), Product({a}, right));
      MulStep(|rest|, |right|);
    }
  }

  lemma MulStep(a: nat, b: nat)
    ensures (a + 1) * b == a * b + b
  {
  }

  lemma {:induction false} RowSize(a: Word, right: set<Word>)
    ensures |Product({a}, right)| <= |right|
    decreases |right|
  {
    if right == {} {
      assert Product({a}, right) == {};
    } else {
      var b :| b in right;
      var rest := right - {b};
      RowSize(a, rest);
      assert Product({a}, right) == Product({a}, rest) + {a + b};
      UnionSize(Product({a}, rest), {a + b});
    }
  }

  lemma UnionSize<T>(a: set<T>, b: set<T>)
    ensures |a + b| <= |a| + |b|
  {
    assert a + b == a + (b - a);
    NotMore(b - a, b);
  }

  lemma ConcatBounded(left: set<Word>, right: set<Word>)
    requires ConcatFinite(left, right).Some?
    ensures |ConcatFinite(left, right).value| <= MAX_EXPANSIONS
  {
    ProductSize(left, right);
  }

  lemma {:induction false} CopiesBounded(words: set<Word>, n: nat)
    requires Copies(words, n).Some?
    ensures |Copies(words, n).value| <= if n == 0 then 1 else MAX_EXPANSIONS
  {
    if n > 0 {
      ConcatBounded(Copies(words, n - 1).value, words);
    }
  }

  lemma {:induction false} UnionBounded(parts: nat -> set<Word>, n: nat)
    requires forall m: nat :: |parts(m)| <= if m == 0 then 1 else MAX_EXPANSIONS
    ensures |Union(parts, n)| <= if n == 0 then 0 else 1 + (n - 1) * MAX_EXPANSIONS
  {
    if n > 0 {
      UnionBounded(parts, n - 1);
      UnionSize(Union(parts, n - 1), parts(n - 1));
    }
  }

  lemma RepeatedBounded(words: set<Word>, min: int, n: nat)
    ensures |Union(CopiesFrom(words, min), n)| <= if n == 0 then 0 else 1 + (n - 1) * MAX_EXPANSIONS
  {
    var parts := CopiesFrom(words, min);
    forall m: nat ensures |parts(m)| <= if m == 0 then 1 else MAX_EXPANSIONS {
      if Copies(words, m).Some? {
        CopiesBounded(words, m);
      }
    }
    UnionBounded(parts, n);
  }

  /** Every result is bounded: by the limit, except a repetition, which unites up to eight results
      within it and the empty word. */
  lemma {:induction false} ExpandedBounded(re: Regex)
    requires Expanded(re).Some?
    ensures |Expanded(re).value| <= MAX_REPEATED
    ensures re.CharClass? || re.Concat? || re.Alternate? ==> |Expanded(re).value| <= MAX_EXPANSIONS
    ensures re.Quest? ==> |Expanded(re).value| <= 1 + MAX_EXPANSIONS
    decreases re
  {
    match re {
      case NoMatch =>
      case EmptyMatch =>
      case Assertion =>
      case Literal(_) =>
      case CharClass(_) =>
      case Capture(sub) => ExpandedBounded(sub);
      case Concat(subs) =>
        if subs != [] {
          ConcatBounded(ExpandedAll(subs[..|subs| - 1]).value, Expanded(subs[|subs| - 1]).value);
        }
      case Alternate(_) =>
      case Quest(sub) => RepeatedBounded(Expanded(sub).value, 0, 2);
      case Repeat(min, max, sub) =>
        RepeatedBounded(Expanded(sub).value, min, max + 1);
    }
  }

  lemma {:induction false} RangeSize(lo: nat, hi: nat)
    requires lo <= hi <= 0xD800
    ensures |WithRange({}, lo, hi)| == hi - lo
    ensures forall r: Rune | hi <= r < 0xD800 :: [r] !in WithRange({}, lo, hi)
    ensures [] !in WithRange({}, lo, hi)
  {
    if lo < hi {
      RangeSize(lo, hi - 1);
    }
  }

  lemma RangeClassSize(ranges: seq<(Rune, Rune)>)
    requires |ranges| == 1 && ranges[0].0 <= ranges[0].1 < 0xD800
    ensures |ClassWords(ranges)| == ranges[0].1 - ranges[0].0 + 1 && [] !in ClassWords(ranges)
  {
    assert ranges[..1] == ranges && ClassWords(ranges[..0]) == {};
    ClassGrows(ranges, 0);
    RangeSize(ranges[0].0, ranges[0].1 + 1);
  }

  /** The limit is not enforced on a repetition: an optional class of exactly 4096 characters expands
      to 4097 words. */
  lemma RepetitionExceedsLimit(ranges: seq<(Rune, Rune)>)
    requires |ranges| == 1 && ranges[0].1 < 0xD800 && ranges[0].1 == ranges[0].0 + MAX_EXPANSIONS - 1
    ensures Expanded(Quest(CharClass(ranges))).Some?
    ensures |Expanded(Quest(CharClass(ranges))).value| == 1 + MAX_EXPANSIONS
  {
    RangeClassSize(ranges);
    assert Expanded(CharClass(ranges)) == Some(ClassWords(ranges));
    QuestExact(CharClass(ranges));
  }

  /** An optional expression has the words and the empty one, if there are any words and not too many. It
      stays within the limit if and only if there are fewer words than that or the empty one is among them. */
  lemma QuestExact(sub: Regex)
    requires Expanded(sub).Some?
    ensures var words, all := Expanded(sub).value, Expanded(Quest(sub));
      && (all.Some? <==> 0 < |words| <= MAX_EXPANSIONS)
      && (all.Some? ==> all.value == words + {[]})
      && (all.Some? ==> (|all.value| <= MAX_EXPANSIONS <==> |words| < MAX_EXPANSIONS || [] in words))
  {
    var words := Expanded(sub).value;
    assert Expanded(Quest(sub)) == ExpandedTimes(Some(words), 0, 1);
    if words != {} {
      OptionalWords(words);
      SizeWith(words, []);
    }
  }

  lemma SizeWith(words: set<Word>, w: Word)
    ensures |words + {w}| == |words| + if w in words then 0 else 1
  {
    assert w in words ==> words + {w} == words;
  }

  lemma OptionalWords(words: set<Word>)
    requires words != {}
    ensures ExpandedTimes(Some(words), 0, 1) == if |words| > MAX_EXPANSIONS then None else Some(words + {[]})
  {
    OneCopy(words);
    if |words| <= MAX_EXPANSIONS {
      var parts := CopiesFrom(words, 0);
      TwoParts(parts);
      assert parts(0) == {[]} && parts(1) == words && parts(0) + parts(1) == words + {[]};
      assert ExpandedTimes(Some(words), 0, 1) == Some(Union(parts, 2));
    }
  }

  lemma TwoParts(parts: nat -> set<Word>)
    ensures Union(parts, 2) == parts(0) + parts(1)
  {
  }

  /* ---------- the size of a repetition ---------- */

  ghost function Total(parts: nat -> set<Word>, n: nat): nat {
    if n == 0 then 0 else Total(parts, n - 1) + |parts(n - 1)|
  }

  ghost predicate Apart(parts: nat -> set<Word>, n: nat) {
    forall i: nat, j: nat | i < j < n :: parts(i) !! parts(j)
  }

  lemma UnionSizeExact(a: set<Word>, b: set<Word>)
    ensures |a + b| <= |a| + |b|
    ensures |a + b| == |a| + |b| <==> a !! b
  {
    var common := a * b;
    assert a + b == a + (b - a) && b == common + (b - a);
    assert common == {} <==> |common| == 0;
  }

  lemma ApartMore(parts: nat -> set<Word>, n: nat)
    ensures Apart(parts, n + 1) <==> Apart(parts, n) && Union(parts, n) !! parts(n)
  {
    forall w ensures w in Union(parts, n) <==> exists m: nat :: m < n && w in parts(m) {
      InUnion(parts, n, w);
    }
    if Apart(parts, n) && Union(parts, n) !! parts(n) {
      forall i: nat | i < n ensures parts(i) !! parts(n) {
        assert forall w | w in parts(i) :: w in Union(parts, n);
      }
    }
  }

  lemma {:induction false} UnionTotal(parts: nat -> set<Word>, n: nat)
    ensures |Union(parts, n)| <= Total(parts, n)
    ensures |Union(parts, n)| == Total(parts, n) <==> Apart(parts, n)
  {
    if n > 0 {
      UnionTotal(parts, n - 1);
      UnionSizeExact(Union(parts, n - 1), parts(n - 1));
      ApartMore(parts, n - 1);
    }
  }

  /** A repetition has at most as many words as its numbers of copies have together, and as many if and only
      if no word comes of two numbers of copies. */
  lemma RepeatExact(min: int, max: int, sub: Regex)
    requires Expanded(Repeat(min, max, sub)).Some?
    ensures var all, parts := Expanded(Repeat(min, max, sub)).value, CopiesFrom(Expanded(sub).value, min);
      && |all| <= Total(parts, max + 1)
      && (|all| == Total(parts, max + 1) <==> Apart(parts, max + 1))
  {
    UnionTotal(CopiesFrom(Expanded(sub).value, min), max + 1);
  }

  function Pow(a: nat, n: nat): nat {
    if n == 0 then 1 else Pow(a, n - 1) * a
  }

  /** The powers from min up to, but not including, n. */
  function Powers(a: nat, min: int, n: nat): nat {
    if n == 0 then 0 else Powers(a, min, n - 1) + if n - 1 >= min then Pow(a, n - 1) else 0
  }

  ghost predicate Uniform(words: set<Word>, length: nat) {
    forall w | w in words :: |w| == length
  }

  /** Concatenating is injective when the words on the left are of one length. */
  lemma {:induction false} ProductSizeExact(left: set<Word>, right: set<Word>, length: nat)
    requires Uniform(left, length)
    ensures |Product(left, right)| == |left| * |right|
    decreases |left|
  {
    if left == {} {
      assert Product(left, right) == {};
    } else {
      var a :| a in left;
      var rest := left - {a};
      ProductSizeExact(rest, right, length);
      RowSizeExact(a, right);
      assert left == rest + {a};
      RowAdds(rest, a, right, length);
      MulStep(|rest|, |right|);
    }
  }

  lemma RowAdds(rest: set<Word>, a: Word, right: set<Word>, length: nat)
    requires Uniform(rest, length) && |a| == length && a !in rest
    ensures |Product(rest + {a}, right)| == |Product(rest, right)| + |Product({a}, right)|
  {
    ProductSplits(rest, {a}, right);
    RowsApart(rest, a, right, length);
    UnionSizeExact(Product(rest, right), Product({a}, right));
  }

  lemma RowsApart(rest: set<Word>, a: Word, right: set<Word>, length: nat)
    requires Uniform(rest, length) && |a| == length && a !in rest
    ensures Product(rest, right) !! Product({a}, right)
  {
    forall b, c, d | b in rest && c in right && d in right ensures b + c != a + d {
      assert (b + c)[..length] == b && (a + d)[..length] == a;
    }
  }

  lemma {:induction false} RowSizeExact(a: Word, right: set<Word>)
    ensures |Product({a}, right)| == |right|
    decreases |right|
  {
    if right == {} {
      assert Product({a}, right) == {};
    } else {
      var b :| b in right;
      var rest := right - {b};
      RowSizeExact(a, rest);
      assert Product({a}, right) == Product({a}, rest) + {a + b};
      forall c | c in rest ensures a + c != a + b {
        assert (a + c)[|a|..] == c && (a + b)[|a|..] == b;
      }
      assert a + b !in Product({a}, rest);
    }
  }

  lemma PowGrows(a: nat, n: nat)
    requires a > 0 && n > 0
    ensures Pow(a, n) >= Pow(a, n - 1)
  {
    assert Pow(a, n - 1) * a >= Pow(a, n - 1);
  }

  /** Copies of words of one length: how many there are, and when there are not too many. */
  lemma {:induction false} UniformCopies(words: set<Word>, length: nat, n: nat)
    requires words != {} && Uniform(words, length)
    ensures Copies(words, n).Some? <==> Pow(|words|, n) <= MAX_EXPANSIONS
    ensures Copies(words, n).Some? ==>
              Copies(words, n).value != {} && Uniform(Copies(words, n).value, n * length)
              && |Copies(words, n).value| == Pow(|words|, n)
  {
    if n > 0 {
      UniformCopies(words, length, n - 1);
      PowGrows(|words|, n);
      if Copies(words, n - 1).Some? {
        UniformProduct(Copies(words, n - 1).value, words, (n - 1) * length, length);
        MulStep(n - 1, length);
      }
    }
  }

  lemma UniformProduct(left: set<Word>, right: set<Word>, a: nat, b: nat)
    requires left != {} && right != {} && Uniform(left, a) && Uniform(right, b)
    ensures Product(left, right) != {} && Uniform(Product(left, right), a + b)
    ensures |Product(left, right)| == |left| * |right|
  {
    ProductSizeExact(left, right, a);
    var x :| x in left;
    var y :| y in right;
    assert x + y in Product(left, right);
  }

  lemma Longer(length: nat, i: nat, j: nat)
    requires length > 0 && i < j
    ensures i * length < j * length
  {
  }

  lemma UniformApart(words: set<Word>, length: nat, min: int, n: nat)
    requires words != {} && length > 0 && Uniform(words, length)
    ensures Apart(CopiesFrom(words, min), n)
  {
    var parts := CopiesFrom(words, min);
    forall i: nat, j: nat | i < j < n ensures parts(i) !! parts(j) {
      UniformCopies(words, length, i);
      UniformCopies(words, length, j);
      Longer(length, i, j);
    }
  }

  lemma {:induction false} UniformTotal(words: set<Word>, length: nat, min: int, n: nat)
    requires words != {} && Uniform(words, length) && (n > 0 ==> Copies(words, n - 1).Some?)
    ensures Total(CopiesFrom(words, min), n) == Powers(|words|, min, n)
  {
    if n > 0 {
      UniformCopies(words, length, n - 1);
      if n > 1 {
        FewerCopies(words, n - 2, n - 1);
      }
      UniformTotal(words, length, min, n - 1);
    }
  }

  /** Repeating words of one positive length: when the repetition is expanded at all, how many words it has,
      and so when it stays within the limit. */
  lemma UniformRepeatExact(min: int, max: int, sub: Regex, length: nat)
    requires Expanded(sub).Some? && length > 0 && Uniform(Expanded(sub).value, length)
    ensures var c, all := |Expanded(sub).value|, Expanded(Repeat(min, max, sub));
      && (all.Some? <==> 0 <= max <= 8 && c > 0 && Pow(c, max) <= MAX_EXPANSIONS)
      && (all.Some? ==> |all.value| == Powers(c, min, max + 1))
  {
    if 0 <= max <= 8 {
      UniformTimes(Expanded(sub).value, length, min, max);
      assert Expanded(Repeat(min, max, sub)) == ExpandedTimes(Expanded(sub), min, max);
    }
  }

  lemma UniformTimes(words: set<Word>, length: nat, min: int, max: nat)
    requires length > 0 && Uniform(words, length)
    ensures var c, all := |words|, ExpandedTimes(Some(words), min, max);
      && (all.Some? <==> c > 0 && Pow(c, max) <= MAX_EXPANSIONS)
      && (all.Some? ==> |all.value| == Powers(c, min, max + 1))
  {
    if words != {} {
      UniformCopies(words, length, max);
      UniformApart(words, length, min, max + 1);
      UnionTotal(CopiesFrom(words, min), max + 1);
      if Copies(words, max).Some? {
        UniformTotal(words, length, min, max + 1);
      }
    }
  }

  lemma OneCopy(words: set<Word>)
    requires words != {}
    ensures Copies(words, 0) == Some({[]}) && Copies(words, 1) == Limited(words)
  {
    ProductUnit(words);
    var empty: set<Word> := {[]};
    assert |empty| == 1;
    MulStep(0, |words|);
    assert ConcatFinite(empty, words) == Limited(words);
  }

  lemma ProductUnit(words: set<Word>)
    ensures Product({[]}, words) == words
  {
    forall w ensures w in Product({[]}, words) <==> w in words {
      InProduct({[]}, words, w);
      if w in words {
        assert w[..0] == [] && w[0..] == w;
      }
    }
  }
}
