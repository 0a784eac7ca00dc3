/** Rule tables indexed by an anchor token, and the lookups that use them. */
module DetectionIndex {
  import opened Wrappers
  import opened Text

  datatype Kind = Sequence | RequiredTokens

  datatype Pattern = Pattern(kind: Kind, tokens: seq<string>)

  datatype Rule = Rule(pattern: Pattern, code: string, facet: string, category: string, order: int)

  datatype IndexError = EmptyPattern

  type Index = map<string, seq<Rule>>

  /* ---------- the reader ---------- */

  predicate StartsAt(wanted: seq<string>, tokens: seq<string>, start: nat) {
    start + |wanted| <= |tokens| && forall i | 0 <= i < |wanted| :: tokens[start + i] == wanted[i]
  }

  ghost predicate Matches(pattern: Pattern, tokens: seq<string>) {
    match pattern.kind
    case RequiredTokens => forall i | 0 <= i < |pattern.tokens| :: pattern.tokens[i] in tokens
    case Sequence => |pattern.tokens| > 0 && exists start: nat :: StartsAt(pattern.tokens, tokens, start)
  }

  predicate Applies(rule: Rule, facet: string) {
    rule.facet == facet && (rule.category == "any" || (rule.category == "anime" && facet == "anime"))
  }

  /** A rule that looking up each token of the release and testing the pattern finds. */
  ghost predicate Found(index: Index, tokens: seq<string>, rule: Rule) {
    && (exists i | 0 <= i < |tokens| :: tokens[i] in index && rule in index[tokens[i]])
    && Matches(rule.pattern, tokens)
  }

  /* ---------- the index ---------- */

  /** Strings in the order of their characters. */
  predicate Precedes(a: string, b: string) {
    b != "" && (a == "" || a[0] < b[0] || (a[0] == b[0] && Precedes(a[1..], b[1..])))
  }

  /** The first of the words once they are sorted. */
  function Least(words: seq<string>): (w: string)
    requires words != []
    ensures w in words
  {
    if |words| == 1 then words[0]
    else
      var rest := Least(words[1..]);
      if Precedes(rest, words[0]) then rest else words[0]
  }

  /** The strings agree up to k, where a ends or has the lesser character. */
  predicate LessAt(a: string, b: string, k: nat) {
    k <= |a| && k < |b| && a[..k] == b[..k] && (k == |a| || a[k] < b[k])
  }

  lemma {:induction false} PrecedesExact(a: string, b: string)
    ensures Precedes(a, b) <==> exists k: nat :: LessAt(a, b, k)
  {
    if a != "" && b != "" && a[0] == b[0] {
      PrecedesExact(a[1..], b[1..]);
      assert a == [a[0]] + a[1..] && b == [b[0]] + b[1..];
      if k: nat :| LessAt(a[1..], b[1..], k) {
        LessLater(a, b, k);
      }
      if k: nat :| LessAt(a, b, k) {
        LessLater(a, b, k - 1);
      }
    } else {
      assert Precedes(a, b) <==> LessAt(a, b, 0);
      assert forall k: nat | 0 < k <= |a| && k < |b| && a[..k] == b[..k] :: a[..k][0] == b[..k][0];
    }
  }

  lemma LessLater(a: string, b: string, k: nat)
    requires a != "" && b != "" && a[0] == b[0]
    ensures LessAt(a[1..], b[1..], k) <==> LessAt(a, b, k + 1)
  {
    if k + 1 <= |a| && k + 1 <= |b| {
      assert a[..k + 1] == [a[0]] + a[1..][..k] && b[..k + 1] == [b[0]] + b[1..][..k];
      assert a[..k + 1][1..] == a[1..][..k] && b[..k + 1][1..] == b[1..][..k];
    }
  }

  lemma {:induction false} PrecedesOrder(a: string, b: string, c: string)
    ensures !Precedes(a, a)
    ensures Precedes(a, b) || Precedes(b, a) || a == b
    ensures Precedes(a, b) && Precedes(b, c) ==> Precedes(a, c)
    ensures Precedes(a, b) ==> !Precedes(b, a)
    decreases |a| + |b| + |c|
  {
    if a != "" && b != "" && c != "" {
      PrecedesOrder(a[1..], b[1..], c[1..]);
    } else if a != "" && b != "" {
      PrecedesOrder(a[1..], b[1..], "");
    }
    if a != "" {
      PrecedesOrder(a[1..], "", "");
    }
    if a != "" && b != "" && a[0] == b[0] && a[1..] == b[1..] {
      assert a == [a[0]] + a[1..] && b == [b[0]] + b[1..];
    }
  }

  function Anchor(pattern: Pattern): (anchor: string)
    requires pattern.tokens != []
    ensures anchor in pattern.tokens
  {
    if pattern.kind == RequiredTokens then Least(pattern.tokens) else pattern.tokens[0]
  }

  function Bucket(index: Index, anchor: string): seq<Rule> {
    if anchor in index then index[anchor] else []
  }

  predicate Anchored(rules: seq<Rule>) {
    forall i | 0 <= i < |rules| :: rules[i].pattern.tokens != []
  }

  /** The rules with that anchor, in the order of the table. */
  function WithAnchor(rules: seq<Rule>, anchor: string): seq<Rule>
    requires Anchored(rules)
  {
    if rules == [] then []
    else
      var last := rules[|rules| - 1];
      WithAnchor(rules[..|rules| - 1], anchor) + if Anchor(last.pattern) == anchor then [last] else []
  }

  /** Each rule stands once, in the bucket of its anchor, and no bucket is empty. */
  ghost predicate Indexes(index: Index, rules: seq<Rule>)
    requires Anchored(rules)
  {
    && (forall anchor :: Bucket(index, anchor) == WithAnchor(rules, anchor))
    && (forall anchor | anchor in index :: index[anchor] != [])
  }

  lemma IndexMore(index: Index, rules: seq<Rule>, i: nat)
    requires i < |rules| && rules[i].pattern.tokens != [] && Anchored(rules[..i]) && Indexes(index, rules[..i])
    ensures Anchored(rules[..i + 1])
    ensures var anchor := Anchor(rules[i].pattern);
      Indexes(index[anchor := Bucket(index, anchor) + [rules[i]]], rules[..i + 1])
  {
    var anchor := Anchor(rules[i].pattern);
    var more := index[anchor := Bucket(index, anchor) + [rules[i]]];
    assert rules[..i + 1] == rules[..i] + [rules[i]];
    assert rules[..i + 1][..i] == rules[..i];
    forall a ensures Bucket(more, a) == WithAnchor(rules[..i + 1], a) {
      assert Bucket(index, a) == WithAnchor(rules[..i], a);
    }
  }

  /** Index the rules, unless one has an empty pattern. */
  method IndexedDetectionTable(rules: seq<Rule>) returns (result: Result<Index, IndexError>)
    ensures result.Success? <==> Anchored(rules)
    ensures result.Success? ==> Indexes(result.value, rules)
  {
    var byAnchor: Index := map[];
    for i := 0 to |rules|
      invariant Anchored(rules[..i]) && Indexes(byAnchor, rules[..i])
    {
      var rule := rules[i];
      if |rule.pattern.tokens| == 0 {
        return Failure(EmptyPattern);
      }
      var anchor := Anchor(rule.pattern);
      IndexMore(byAnchor, rules, i);
      byAnchor := byAnchor[anchor := Bucket(byAnchor, anchor) + [rule]];
    }
    assert rules[..|rules|] == rules;
    return Success(byAnchor);
  }

  lemma {:induction false} LeastExact(words: seq<string>, word: string)
    requires word in words
    ensures Least(words) == word || Precedes(Least(words), word)
  {
    if |words| > 1 {
      var rest := Least(words[1..]);
      PrecedesOrder(rest, words[0], word);
      PrecedesOrder(words[0], rest, word);
      if word in words[1..] {
        LeastExact(words[1..], word);
      }
    }
  }

  /** A sequence is anchored at its first token, required tokens at the one that no other comes before. */
  lemma AnchorExact(pattern: Pattern)
    requires pattern.tokens != []
    ensures pattern.kind == Sequence ==> [Anchor(pattern)] <= pattern.tokens
    ensures pattern.kind == RequiredTokens ==>
              Anchor(pattern) in pattern.tokens
              && forall token, k: nat | token in pattern.tokens :: !LessAt(token, Anchor(pattern), k)
  {
    if pattern.kind == RequiredTokens {
      forall token, k: nat | token in pattern.tokens ensures !LessAt(token, Anchor(pattern), k) {
        LeastExact(pattern.tokens, token);
        PrecedesOrder(Anchor(pattern), token, "");
        PrecedesExact(token, Anchor(pattern));
      }
    }
  }

  /* ---------- the index agrees with a scan of the table ---------- */

  lemma {:induction false} WithAnchorExact(rules: seq<Rule>, anchor: string, rule: Rule)
    requires Anchored(rules)
    ensures rule in WithAnchor(rules, anchor) <==> rule in rules && Anchor(rule.pattern) == anchor
  {
    if rules != [] {
      var init, last := rules[..|rules| - 1], rules[|rules| - 1];
      WithAnchorExact(init, anchor, rule);
      assert rules == init + [last];
    }
  }

  /** A pattern that matches has its anchor among the tokens. */
  lemma AnchorOccurs(pattern: Pattern, tokens: seq<string>)
    requires pattern.tokens != [] && Matches(pattern, tokens)
    ensures Anchor(pattern) in tokens
  {
    if pattern.kind == Sequence {
      var start: nat :| StartsAt(pattern.tokens, tokens, start);
      assert tokens[start + 0] == pattern.tokens[0];
    }
  }

  /** For every list of tokens the lookups find exactly the rules that a scan of the table matches. */
  lemma IndexAgreesWithScan(index: Index, rules: seq<Rule>, tokens: seq<string>, rule: Rule)
    requires Anchored(rules) && Indexes(index, rules)
    ensures Found(index, tokens, rule) <==> rule in rules && Matches(rule.pattern, tokens)
  {
    if Found(index, tokens, rule) {
      var i :| 0 <= i < |tokens| && tokens[i] in index && rule in index[tokens[i]];
      assert Bucket(index, tokens[i]) == WithAnchor(rules, tokens[i]);
      WithAnchorExact(rules, tokens[i], rule);
    }
    if rule in rules && Matches(rule.pattern, tokens) {
      AnchorOccurs(rule.pattern, tokens);
      var anchor := Anchor(rule.pattern);
      WithAnchorExact(rules, anchor, rule);
      assert Bucket(index, anchor) == WithAnchor(rules, anchor);
      var i :| 0 <= i < |tokens| && tokens[i] == anchor;
      assert tokens[i] in index && rule in index[tokens[i]];
    }
  }

  /* ---------- the blocked title ---------- */

  ghost predicate Blocks(rule: Rule, facet: string, tokens: seq<string>) {
    Applies(rule, facet) && Matches(rule.pattern, tokens)
  }

  /** A code of the lowest order among the rules found. */
  ghost predicate BlockedTitle(index: Index, facet: string, tokens: seq<string>, code: string) {
    exists rule ::
      && Found(index, tokens, rule) && Applies(rule, facet) && rule.code == code
      && forall other | Found(index, tokens, other) && Applies(other, facet) :: rule.order <= other.order
  }

  datatype Title = NoTitle | Title(code: string) | Conflict

  /** What the policy's rule gives: a rule may not have two values, so different codes are a conflict. */
  ghost function DetectedTitle(index: Index, facet: string, tokens: seq<string>): Title {
    if !exists code :: BlockedTitle(index, facet, tokens, code) then NoTitle
    else
      var code :| BlockedTitle(index, facet, tokens, code);
      if forall other | BlockedTitle(index, facet, tokens, other) :: other == code then Title(code) else Conflict
  }

  /** The first rule of the table that blocks. */
  ghost predicate FirstBlocking(rules: seq<Rule>, facet: string, tokens: seq<string>, i: nat) {
    && i < |rules| && Blocks(rules[i], facet, tokens)
    && forall k | 0 <= k < i :: !Blocks(rules[k], facet, tokens)
  }

  /** A rule of the table that blocks, with the least order of those. */
  ghost predicate LeastBlocking(rules: seq<Rule>, facet: string, tokens: seq<string>, i: nat) {
    && i < |rules| && Blocks(rules[i], facet, tokens)
    && forall k | 0 <= k < |rules| && Blocks(rules[k], facet, tokens) :: rules[i].order <= rules[k].order
  }

  lemma FoundBlocks(index: Index, rules: seq<Rule>, facet: string, tokens: seq<string>)
    requires Anchored(rules) && Indexes(index, rules)
    ensures forall rule ::
              Found(index, tokens, rule) && Applies(rule, facet) <==> rule in rules && Blocks(rule, facet, tokens)
  {
    forall rule
      ensures Found(index, tokens, rule) && Applies(rule, facet) <==> rule in rules && Blocks(rule, facet, tokens)
    {
      IndexAgreesWithScan(index, rules, tokens, rule);
    }
  }

  /** The codes found are those of the rules that block with the least order. */
  lemma BlockedTitleExact(index: Index, rules: seq<Rule>, facet: string, tokens: seq<string>, code: string)
    requires Anchored(rules) && Indexes(index, rules)
    ensures BlockedTitle(index, facet, tokens, code) <==>
            exists i: nat :: LeastBlocking(rules, facet, tokens, i) && rules[i].code == code
  {
    FoundBlocks(index, rules, facet, tokens);
    if BlockedTitle(index, facet, tokens, code) {
      var rule :| Found(index, tokens, rule) && Applies(rule, facet) && rule.code == code
        && forall other | Found(index, tokens, other) && Applies(other, facet) :: rule.order <= other.order;
      var i: nat :| i < |rules| && rules[i] == rule;
      assert LeastBlocking(rules, facet, tokens, i);
    }
    if i: nat :| LeastBlocking(rules, facet, tokens, i) && rules[i].code == code {
      assert rules[i] in rules;
    }
  }

  lemma {:induction false} SomeLeast(rules: seq<Rule>, facet: string, tokens: seq<string>, i: nat) returns (k: nat)
    requires i < |rules| && Blocks(rules[i], facet, tokens)
    ensures LeastBlocking(rules, facet, tokens, k)
  {
    var n := |rules| - 1;
    if j: nat :| j < n && Blocks(rules[j], facet, tokens) {
      var init := rules[..n];
      k := SomeLeast(init, facet, tokens, j);
      assert forall l | 0 <= l < n :: init[l] == rules[l];
      if Blocks(rules[n], facet, tokens) && rules[n].order < rules[k].order {
        k := n;
      }
    } else {
      k := i;
    }
  }

  /** For every table: no title exactly when no rule blocks, and a conflict exactly when two that block with
      the least order have different codes. */
  lemma DetectedTitleExact(index: Index, rules: seq<Rule>, facet: string, tokens: seq<string>)
    requires Anchored(rules) && Indexes(index, rules)
    ensures DetectedTitle(index, facet, tokens) == NoTitle <==>
            forall i | 0 <= i < |rules| :: !Blocks(rules[i], facet, tokens)
    ensures DetectedTitle(index, facet, tokens) == Conflict <==>
            exists i: nat, k: nat ::
              LeastBlocking(rules, facet, tokens, i) && LeastBlocking(rules, facet, tokens, k)
              && rules[i].code != rules[k].code
  {
    forall code ensures BlockedTitle(index, facet, tokens, code) <==>
                        exists i: nat :: LeastBlocking(rules, facet, tokens, i) && rules[i].code == code
    {
      BlockedTitleExact(index, rules, facet, tokens, code);
    }
    forall i: nat | LeastBlocking(rules, facet, tokens, i) ensures BlockedTitle(index, facet, tokens, rules[i].code) {
    }
    if i: nat :| i < |rules| && Blocks(rules[i], facet, tokens) {
      var k := SomeLeast(rules, facet, tokens, i);
    }
  }

  /** For every table: the title is the first blocking rule's exactly when every rule that blocks with the
      least order has that code. */
  lemma TitleIsFirstExactly(index: Index, rules: seq<Rule>, facet: string, tokens: seq<string>, i: nat)
    requires Anchored(rules) && Indexes(index, rules) && FirstBlocking(rules, facet, tokens, i)
    ensures DetectedTitle(index, facet, tokens) == Title(rules[i].code) <==>
            forall k: nat | LeastBlocking(rules, facet, tokens, k) :: rules[k].code == rules[i].code
  {
    forall code ensures BlockedTitle(index, facet, tokens, code) <==>
                        exists k: nat :: LeastBlocking(rules, facet, tokens, k) && rules[k].code == code
    {
      BlockedTitleExact(index, rules, facet, tokens, code);
    }
    var least := SomeLeast(rules, facet, tokens, i);
    assert BlockedTitle(index, facet, tokens, rules[least].code);
    forall k: nat | LeastBlocking(rules, facet, tokens, k) ensures BlockedTitle(index, facet, tokens, rules[k].code) {
    }
  }

  /** The tokens of the pattern in a row, or all of them somewhere. */
  lemma MatchesExact(pattern: Pattern, tokens: seq<string>)
    requires pattern.tokens != []
    ensures Matches(pattern, tokens) <==>
            if pattern.kind == RequiredTokens then forall token | token in pattern.tokens :: token in tokens
            else exists before, after :: tokens == before + pattern.tokens + after
  {
    var wanted := pattern.tokens;
    if pattern.kind == Sequence {
      if start: nat :| StartsAt(wanted, tokens, start) {
        assert tokens[start..start + |wanted|] == wanted;
        assert tokens == tokens[..start] + wanted + tokens[start + |wanted|..];
      }
      if before, after :| tokens == before + wanted + after {
        assert StartsAt(wanted, tokens, |before|);
      }
    }
  }

  /** A title comes of a rule of the facet, whose category is any, or anime where the facet is; and with such a
      rule there is a title or a conflict. */
  lemma TitleNeedsApplicableRule(index: Index, rules: seq<Rule>, facet: string, tokens: seq<string>)
    requires Anchored(rules) && Indexes(index, rules)
    ensures DetectedTitle(index, facet, tokens) == NoTitle <==>
            !exists rule :: rule in rules && rule.facet == facet && Matches(rule.pattern, tokens)
                            && (rule.category == "any" || (facet == "anime" && rule.category == "anime"))
    ensures forall code | DetectedTitle(index, facet, tokens) == Title(code) ::
              exists rule :: rule in rules && rule.code == code && rule.facet == facet && Matches(rule.pattern, tokens)
                             && (rule.category == "any" || (facet == "anime" && rule.category == "anime"))
  {
    DetectedTitleExact(index, rules, facet, tokens);
    forall rule ensures Blocks(rule, facet, tokens) <==>
                        rule.facet == facet && Matches(rule.pattern, tokens)
                        && (rule.category == "any" || (facet == "anime" && rule.category == "anime"))
    {
    }
    forall code | DetectedTitle(index, facet, tokens) == Title(code)
      ensures exists rule :: rule in rules && rule.code == code && Blocks(rule, facet, tokens)
    {
      BlockedTitleExact(index, rules, facet, tokens, code);
      var i: nat :| LeastBlocking(rules, facet, tokens, i) && rules[i].code == code;
      assert rules[i] in rules;
    }
  }

  /* ---------- the distilled table ---------- */

  /** The rows, each with its place as its order. */
  function Numbered(rows: seq<Rule>): (rules: seq<Rule>)
    ensures |rules| == |rows|
  {
    seq(|rows|, i requires 0 <= i < |rows| => rows[i].(order := i))
  }

  method DetectorRowsForSnapshot(rows: seq<Rule>) returns (out: seq<Rule>)
    ensures out == Numbered(rows)
  {
    out := [];
    for i := 0 to |rows|
      invariant out == Numbered(rows)[..i]
    {
      out := out + [rows[i].(order := i)];
    }
  }

  /** In a distilled table the first rule that blocks gives the title, and there is never a conflict. */
  lemma BlockedTitleIsFirst(index: Index, rows: seq<Rule>, facet: string, tokens: seq<string>)
    requires Anchored(rows) && Indexes(index, Numbered(rows))
    ensures DetectedTitle(index, facet, tokens) != Conflict
    ensures DetectedTitle(index, facet, tokens) == NoTitle <==>
            forall i | 0 <= i < |rows| :: !Blocks(rows[i], facet, tokens)
    ensures forall i: nat | FirstBlocking(rows, facet, tokens, i) ::
              DetectedTitle(index, facet, tokens) == Title(rows[i].code)
  {
    var rules := Numbered(rows);
    DetectedTitleExact(index, rules, facet, tokens);
    assert forall k | 0 <= k < |rows| :: Blocks(rules[k], facet, tokens) <==> Blocks(rows[k], facet, tokens);
    forall i: nat | FirstBlocking(rows, facet, tokens, i)
      ensures DetectedTitle(index, facet, tokens) == Title(rows[i].code)
    {
      assert FirstBlocking(rules, facet, tokens, i);
      TitleIsFirstExactly(index, rules, facet, tokens, i);
    }
  }

  /* ---------- folding case ---------- */

  function FoldChar(c: char): char {
    if 'A' <= c <= 'Z' then (c as int + 32) as char else c
  }

  function AsciiFold(s: string): (r: string)
    ensures |r| == |s|
  {
    seq(|s|, i requires 0 <= i < |s| => FoldChar(s[i]))
  }

  function Upper(k: nat): char
    requires k < 26
  {
    ('A' as int + k) as char
  }

  /** The first k letters replaced, one after the other, as the policy folds. */
  function Replaced(s: string, k: nat): string
    requires k <= 26
  {
    if k == 0 then s else ReplaceAll(Replaced(s, k - 1), Upper(k - 1), [FoldChar(Upper(k - 1))])
  }

  function FoldSome(c: char, k: nat): char {
    if 'A' <= c && (c as int) < 'A' as int + k then FoldChar(c) else c
  }

  lemma {:induction false} ReplaceIsPointwise(s: string, c: char, d: char)
    ensures |ReplaceAll(s, c, [d])| == |s|
    ensures forall i | 0 <= i < |s| :: ReplaceAll(s, c, [d])[i] == if s[i] == c then d else s[i]
  {
    if s != "" {
      ReplaceIsPointwise(s[1..], c, d);
    }
  }

  lemma {:induction false} ReplacedIsPointwise(s: string, k: nat)
    requires k <= 26
    ensures |Replaced(s, k)| == |s| && forall i | 0 <= i < |s| :: Replaced(s, k)[i] == FoldSome(s[i], k)
  {
    if k > 0 {
      ReplacedIsPointwise(s, k - 1);
      ReplaceIsPointwise(Replaced(s, k - 1), Upper(k - 1), FoldChar(Upper(k - 1)));
    }
  }

  /** The twenty-six replacements of the policy fold exactly as the generator does. */
  lemma FoldsAgree(s: string)
    ensures Replaced(s, 26) == AsciiFold(s)
  {
    ReplacedIsPointwise(s, 26);
  }

  const CAPITALS: string := "ABCDEFGHIJKLMNOPQRSTUVWXYZ"

  /** Folding turns the capitals of ASCII into the letters they are capitals of, and keeps everything else. */
  lemma FoldExact(s: string, i: nat)
    requires i < |s|
    ensures forall k | 0 <= k < 26 && s[i] == CAPITALS[k] :: AsciiFold(s)[i] == "abcdefghijklmnopqrstuvwxyz"[k]
    ensures s[i] !in CAPITALS ==> AsciiFold(s)[i] == s[i]
  {
    var small := "abcdefghijklmnopqrstuvwxyz";
    assert forall k | 0 <= k < 26 :: CAPITALS[k] as int == 65 + k && small[k] as int == 97 + k;
    if 'A' <= s[i] <= 'Z' {
      assert CAPITALS[s[i] as int - 65] == s[i];
    }
  }

  /* ---------- release groups ---------- */

  datatype LocaleRule = LocaleRule(facet: string, matcher: string, exact: bool, code: string, context: string)

  function LocaleKey(facet: string, group: string): string {
    facet + "|" + AsciiFold(group)
  }

  /** Some exact rule has the key, the code and the context. */
  ghost predicate ExactRule(rules: seq<LocaleRule>, key: string, entry: (string, string)) {
    exists i | 0 <= i < |rules| :: IsExact(rules[i], key, entry)
  }

  predicate IsExact(rule: LocaleRule, key: string, entry: (string, string)) {
    rule.exact && LocaleKey(rule.facet, rule.matcher) == key && (rule.code, rule.context) == entry
  }

  lemma ExactRuleMore(rules: seq<LocaleRule>, last: LocaleRule, key: string, entry: (string, string))
    ensures ExactRule(rules + [last], key, entry) <==> ExactRule(rules, key, entry) || IsExact(last, key, entry)
  {
    var more := rules + [last];
    if i :| 0 <= i < |more| && IsExact(more[i], key, entry) {
      assert i < |rules| ==> rules[i] == more[i];
    }
    if i :| 0 <= i < |rules| && IsExact(rules[i], key, entry) {
      assert more[i] == rules[i];
    }
    assert more[|rules|] == last;
  }

  type ExactIndex = map<string, seq<(string, string)>>

  predicate InExact(exact: ExactIndex, key: string, entry: (string, string)) {
    key in exact && entry in exact[key]
  }

  function AddExact(exact: ExactIndex, rule: LocaleRule): ExactIndex {
    var key := LocaleKey(rule.facet, rule.matcher);
    exact[key := (if key in exact then exact[key] else []) + [(rule.code, rule.context)]]
  }

  lemma AddExactMore(exact: ExactIndex, rules: seq<LocaleRule>, rule: LocaleRule)
    requires forall key, entry :: InExact(exact, key, entry) <==> ExactRule(rules, key, entry)
    ensures var more := if rule.exact then AddExact(exact, rule) else exact;
      forall key, entry :: InExact(more, key, entry) <==> ExactRule(rules + [rule], key, entry)
  {
    var more := if rule.exact then AddExact(exact, rule) else exact;
    forall key, entry ensures InExact(more, key, entry) <==> ExactRule(rules + [rule], key, entry) {
      ExactRuleMore(rules, rule, key, entry);
      assert InExact(exact, key, entry) <==> ExactRule(rules, key, entry);
      assert InExact(more, key, entry) <==> InExact(exact, key, entry) || IsExact(rule, key, entry);
    }
  }

  /** The exact rules by key and the others by facet: no rule is lost, none is added. */
  method IndexedLocaleGroups(rules: seq<LocaleRule>)
      returns (exact: ExactIndex, prefix: map<string, seq<(string, string, string)>>)
    ensures forall key, entry :: InExact(exact, key, entry) <==> ExactRule(rules, key, entry)
    ensures forall facet, matcher, code, context ::
              (facet in prefix && (matcher, code, context) in prefix[facet]) <==>
              LocaleRule(facet, matcher, false, code, context) in rules
  {
    exact, prefix := map[], map[];
    for n := 0 to |rules|
      invariant forall key, entry :: InExact(exact, key, entry) <==> ExactRule(rules[..n], key, entry)
      invariant forall facet, matcher, code, context ::
                  (facet in prefix && (matcher, code, context) in prefix[facet]) <==>
                  LocaleRule(facet, matcher, false, code, context) in rules[..n]
    {
      var rule := rules[n];
      assert rules[..n + 1] == rules[..n] + [rule];
      AddExactMore(exact, rules[..n], rule);
      if rule.exact {
        exact := AddExact(exact, rule);
      } else {
        prefix := prefix[rule.facet := (if rule.facet in prefix then prefix[rule.facet] else [])
                                       + [(rule.matcher, rule.code, rule.context)]];
      }
    }
    assert rules[..|rules|] == rules;
  }

  /** What the exact index holds under a key: the codes of the exact rules whose facet and folded matcher make
      the key. */
  lemma ExactRuleExact(rules: seq<LocaleRule>, key: string, code: string, context: string)
    ensures ExactRule(rules, key, (code, context)) <==>
            exists facet, matcher ::
              LocaleRule(facet, matcher, true, code, context) in rules && key == facet + "|" + AsciiFold(matcher)
  {
    if i :| 0 <= i < |rules| && IsExact(rules[i], key, (code, context)) {
      assert rules[i] == LocaleRule(rules[i].facet, rules[i].matcher, true, code, context);
    }
    if facet, matcher :|
      LocaleRule(facet, matcher, true, code, context) in rules && key == facet + "|" + AsciiFold(matcher) {
      var i :| 0 <= i < |rules| && rules[i] == LocaleRule(facet, matcher, true, code, context);
      assert IsExact(rules[i], key, (code, context));
    }
  }

  lemma KeyTakesApart(a: string, b: string, s: string, t: string)
    requires '|' !in a && '|' !in b && a + "|" + s == b + "|" + t
    ensures a == b && s == t
  {
    var x, y := a + "|" + s, b + "|" + t;
    assert x[..|a|] == a && y[..|b|] == b && x[|a| + 1..] == s && y[|b| + 1..] == t;
    BeforeExact(x, '|', |a|);
    BeforeExact(y, '|', |b|);
  }

  /** Two exact rules share a key exactly when they have the same facet and matchers equal up to ASCII
      case, because a facet has no bar. */
  lemma LocaleKeyExact(facet: string, other: string, group: string, matcher: string)
    requires '|' !in facet && '|' !in other
    ensures LocaleKey(facet, group) == LocaleKey(other, matcher) <==>
            facet == other && AsciiFold(group) == AsciiFold(matcher)
  {
    if LocaleKey(facet, group) == LocaleKey(other, matcher) {
      KeyTakesApart(facet, other, AsciiFold(group), AsciiFold(matcher));
    }
  }
}
