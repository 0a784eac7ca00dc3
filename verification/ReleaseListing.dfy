/** What the reader of release triggers makes of any message. */
module ReleaseListing {
  import opened Wrappers
  import opened Numbers
  import opened Text
  import opened ReleaseTrigger

  /* ---------- words ---------- */

  predicate AllWhite(s: string) {
    forall i | 0 <= i < |s| :: IsWhite(s[i])
  }

  /** A gap before each word and one at the end, of white space; only the first and the last may be empty. */
  predicate Separate(gaps: seq<string>, words: seq<string>) {
    && |gaps| == |words| + 1
    && (forall i | 0 <= i < |words| :: IsWord(words[i]))
    && (forall i | 0 <= i < |gaps| :: AllWhite(gaps[i]) && (0 < i < |words| ==> gaps[i] != ""))
  }

  function Spaced(gaps: seq<string>, words: seq<string>): string
    requires |gaps| == |words| + 1
  {
    if words == [] then gaps[0] else gaps[0] + (words[0] + Spaced(gaps[1..], words[1..]))
  }

  lemma {:induction false} GapSkipped(gap: string, rest: string)
    requires AllWhite(gap)
    ensures Fields(gap + rest) == Fields(rest)
  {
    if gap == "" {
      assert gap + rest == rest;
    } else {
      assert IsWhite(gap[0]) && (gap + rest)[1..] == gap[1..] + rest;
      GapSkipped(gap[1..], rest);
    }
  }

  lemma {:induction false} SpacedFields(gaps: seq<string>, words: seq<string>)
    requires Separate(gaps, words)
    ensures Fields(Spaced(gaps, words)) == words
  {
    if words == [] {
      GapSkipped(gaps[0], "");
      assert gaps[0] + "" == gaps[0];
    } else {
      var rest := Spaced(gaps[1..], words[1..]);
      assert IsWord(words[0]) && AllWhite(gaps[0]) && AllWhite(gaps[1]);
      SpacedFields(gaps[1..], words[1..]);
      assert gaps[1..][0] == gaps[1];
      GapSkipped(gaps[0], words[0] + rest);
      FirstField(words[0], rest);
    }
  }

  /** White space is skipped, and a word is cut off whole. */
  ghost predicate Words(fields: string -> seq<string>) {
    && fields("") == []
    && (forall c, rest: string | IsWhite(c) :: fields([c] + rest) == fields(rest))
    && (forall word, rest: string | IsWord(word) && (rest != "" ==> IsWhite(rest[0])) ::
          fields(word + rest) == [word] + fields(rest))
  }

  lemma FieldsAreWords()
    ensures Words(Fields)
  {
    forall c, rest: string | IsWhite(c) ensures Fields([c] + rest) == Fields(rest) {
      assert ([c] + rest)[1..] == rest;
    }
    forall word, rest: string | IsWord(word) && (rest != "" ==> IsWhite(rest[0]))
      ensures Fields(word + rest) == [word] + Fields(rest)
    {
      FirstField(word, rest);
    }
  }

  lemma {:induction false} WordsAreSpaced(fields: string -> seq<string>, s: string) returns (gaps: seq<string>)
    requires Words(fields)
    ensures Separate(gaps, fields(s)) && s == Spaced(gaps, fields(s))
    decreases |s|
  {
    if s == "" {
      gaps := [""];
    } else if IsWhite(s[0]) {
      assert s == [s[0]] + s[1..];
      var rest := WordsAreSpaced(fields, s[1..]);
      gaps := [[s[0]] + rest[0]] + rest[1..];
      LongerGap(s[0], rest, fields(s[1..]));
    } else {
      var n := WordLength(s);
      assert s == s[..n] + s[n..] && IsWord(s[..n]);
      var rest := WordsAreSpaced(fields, s[n..]);
      gaps := [""] + rest;
      OneMoreWord(s[..n], rest, fields(s[n..]));
    }
  }

  lemma FieldsAreSpaced(s: string) returns (gaps: seq<string>)
    ensures Separate(gaps, Fields(s)) && s == Spaced(gaps, Fields(s))
  {
    FieldsAreWords();
    gaps := WordsAreSpaced(Fields, s);
  }

  lemma LongerGap(c: char, gaps: seq<string>, words: seq<string>)
    requires IsWhite(c) && Separate(gaps, words)
    ensures var more := [[c] + gaps[0]] + gaps[1..];
      Separate(more, words) && Spaced(more, words) == [c] + Spaced(gaps, words)
  {
    var more := [[c] + gaps[0]] + gaps[1..];
    assert more[1..] == gaps[1..];
    assert AllWhite(gaps[0]) && forall i | 1 <= i < |gaps| :: more[i] == gaps[i];
    if words != [] {
      var rest := words[0] + Spaced(gaps[1..], words[1..]);
      assert [c] + gaps[0] + rest == [c] + (gaps[0] + rest);
    }
  }

  lemma OneMoreWord(word: string, gaps: seq<string>, words: seq<string>)
    requires IsWord(word) && Separate(gaps, words)
    requires Spaced(gaps, words) != "" ==> IsWhite(Spaced(gaps, words)[0])
    ensures Separate([""] + gaps, [word] + words)
    ensures Spaced([""] + gaps, [word] + words) == word + Spaced(gaps, words)
  {
    var more, all := [""] + gaps, [word] + words;
    assert more[1..] == gaps && all[1..] == words;
    assert "" + (word + Spaced(gaps, words)) == word + Spaced(gaps, words);
  }

  /** The fields of a text are its words, whatever white space stands around them. */
  lemma FieldsExact(s: string, words: seq<string>)
    ensures Fields(s) == words <==> exists gaps :: Separate(gaps, words) && s == Spaced(gaps, words)
  {
    if Fields(s) == words {
      var gaps := FieldsAreSpaced(s);
    }
    if gaps :| Separate(gaps, words) && s == Spaced(gaps, words) {
      SpacedFields(gaps, words);
    }
  }

  /* ---------- the body ---------- */

  /** The body is what follows the first blank line; without one there is none. */
  lemma {:induction false} BodyExact(message: string)
    ensures !Contains(message, "\n\n") ==> Body(message) == ""
    ensures forall i: nat | OccursAt(message, "\n\n", i) && (forall j | 0 <= j < i :: !OccursAt(message, "\n\n", j)) ::
              Body(message) == message[i + 2..]
  {
    if |message| >= 2 {
      assert message[0..2] == message[..2];
      if message[..2] == "\n\n" {
        assert OccursAt(message, "\n\n", 0);
      } else {
        var rest := message[1..];
        BodyExact(rest);
        assert !OccursAt(message, "\n\n", 0);
        forall i: nat ensures OccursAt(rest, "\n\n", i) <==> OccursAt(message, "\n\n", i + 1) {
          if i + 3 <= |message| {
            assert rest[i..i + 2] == message[i + 1..i + 3];
          }
        }
        forall i: nat | OccursAt(message, "\n\n", i) && (forall j | 0 <= j < i :: !OccursAt(message, "\n\n", j))
          ensures Body(message) == message[i + 2..]
        {
          assert OccursAt(rest, "\n\n", i - 1);
          assert forall j | 0 <= j < i - 1 :: OccursAt(rest, "\n\n", j) ==> OccursAt(message, "\n\n", j + 1);
          assert rest[i - 1 + 2..] == message[i + 2..];
        }
      }
    }
  }

  /** A text has the lines that newlines part, and an empty one at the end is none. */
  lemma LinesExact(lines: seq<string>)
    requires AllFree(lines, '\n')
    ensures Lines(Join(lines + [""], '\n')) == lines
    ensures lines != [] && lines[|lines| - 1] != "" ==> Lines(Join(lines, '\n')) == lines
  {
    var ended := lines + [""];
    SplitJoin(ended, '\n');
    assert ended[..|ended| - 1] == lines;
    if lines != [] {
      SplitJoin(lines, '\n');
    }
  }

  /** The tags that the subject names, each after a comma and a space but the first. */
  function Parted(tags: seq<string>): seq<string> {
    seq(|tags|, i requires 0 <= i < |tags| => if i == 0 then tags[0] else " " + tags[i])
  }

  lemma {:induction false} NamesAreJoined(tags: seq<string>)
    requires tags != []
    ensures Names(tags) == Join(Parted(tags), ',')
  {
    var all := Parted(tags);
    if |tags| > 1 {
      NamesAreJoined(tags[1..]);
      var rest := Parted(tags[1..]);
      assert all[1..] == [" " + rest[0]] + rest[1..];
      if |rest| == 1 {
        assert Join(all[1..], ',') == " " + rest[0];
      } else {
        assert all[1..][1..] == rest[1..];
        assert " " + (rest[0] + "," + Join(rest[1..], ',')) == " " + rest[0] + "," + Join(rest[1..], ',');
      }
      assert tags[0] + ", " + Names(tags[1..]) == tags[0] + "," + (" " + Names(tags[1..]));
    } else {
      assert all == [tags[0]];
    }
  }

  /** The subject of a trigger's message names its tags. */
  lemma SubjectExact(components: seq<ReleaseTrigger.Component>, rulePackTags: seq<string>)
    requires Tags(components) + rulePackTags != [] && AllFree(Tags(components) + rulePackTags, ',')
    ensures var subject := Subject(components, rulePackTags);
      && "Release trigger for " <= subject
      && Split(subject[|"Release trigger for "|..], ',') == Parted(Tags(components) + rulePackTags)
  {
    var tags := Tags(components) + rulePackTags;
    NamesAreJoined(tags);
    assert Subject(components, rulePackTags)[|"Release trigger for "|..] == Names(tags);
    forall i | 0 <= i < |tags| ensures Free(Parted(tags)[i], ',') {
      assert Free(tags[i], ',');
    }
    SplitJoin(Parted(tags), ',');
  }

  /* ---------- component tags ---------- */

  lemma {:induction false} LastSlashExact(s: string)
    ensures forall j | LastVersionSlash(s) < j <= |s| - 2 :: !OccursAt(s, "/v", j)
  {
    if |s| >= 2 && s[|s| - 2..] != "/v" {
      var init := s[..|s| - 1];
      LastSlashExact(init);
      forall j | LastVersionSlash(s) < j <= |s| - 2 ensures !OccursAt(s, "/v", j) {
        if j < |s| - 2 {
          assert !OccursAt(init, "/v", j);
          assert s[j..j + 2] == init[j..j + 2];
        } else {
          assert s[j..j + 2] == s[|s| - 2..];
        }
      }
    }
  }

  /** A tag of an id without slashes and of a version. */
  ghost predicate TagOf(isVersion: string -> bool, tag: string, id: string, version: string) {
    && tag == "plugins-v3/" + id + "/v" + version
    && id != "" && '/' !in id && isVersion(version) && !Contains(version, "/v")
  }

  lemma PluginTagParts(isVersion: string -> bool, tag: string) returns (id: string, version: string)
    requires IsPluginTag(isVersion, tag)
    ensures TagOf(isVersion, tag, id, version)
  {
    var spec := tag[|TAG_PREFIX|..];
    var i := LastVersionSlash(spec);
    id, version := spec[..i], spec[i + 2..];
    LastSlashExact(spec);
    forall j: nat | OccursAt(version, "/v", j) ensures OccursAt(spec, "/v", i + 2 + j) {
      SliceOfRest(spec, i + 2, j);
    }
    assert spec == id + spec[i..i + 2] + version && tag == TAG_PREFIX + spec;
  }

  lemma SliceOfRest(s: string, i: nat, j: nat)
    requires i + j + 2 <= |s|
    ensures s[i..][j..j + 2] == s[i + j..i + j + 2]
  {
  }

  /** A component tag is plugins-v3/, an id without slashes, /v and a version, in which no other /v is. */
  lemma PluginTagExact(isVersion: string -> bool, tag: string)
    ensures IsPluginTag(isVersion, tag) <==> exists id, version :: TagOf(isVersion, tag, id, version)
  {
    if IsPluginTag(isVersion, tag) {
      var id, version := PluginTagParts(isVersion, tag);
    }
    if id, version :| TagOf(isVersion, tag, id, version) {
      var spec := id + "/v" + version;
      assert tag == TAG_PREFIX + spec && tag[|TAG_PREFIX|..] == spec;
      SlashAfterId(id, version);
    }
  }

  lemma SlashAfterId(id: string, version: string)
    requires '/' !in id && !Contains(version, "/v")
    ensures var spec := id + "/v" + version;
      LastVersionSlash(spec) == |id| && spec[..|id|] == id && spec[|id| + 2..] == version
  {
    var spec := id + "/v" + version;
    LastSlashExact(spec);
    var i := LastVersionSlash(spec);
    assert spec[|id|..|id| + 2] == "/v";
    assert OccursAt(spec, "/v", |id|);
    if i > |id| + 1 {
      assert spec[i..i + 2] == version[i - |id| - 2..i - |id|];
      assert OccursAt(version, "/v", i - |id| - 2);
    }
    assert spec[|id| + 1] == 'v';
    assert i >= 0 && spec[i] == spec[i..i + 2][0] == '/';
  }

  /* ---------- lines ---------- */

  predicate Marks(line: string) {
    |Fields(line)| == 2 && Fields(line)[0] == "components"
  }

  predicate ListsOne(isVersion: string -> bool, line: string) {
    |Fields(line)| == 3 && Fields(line)[0] == "component" && IsPluginTag(isVersion, Fields(line)[1])
  }

  /** A marker without a count, or a line that starts like a component's and is none. */
  predicate Bad(isVersion: string -> bool, line: string) {
    || (Marks(line) && ParseUsize(Fields(line)[1]).None?)
    || (Fields(line) != [] && Fields(line)[0] == "component" && !ListsOne(isVersion, line))
  }

  ghost predicate FirstBad(isVersion: string -> bool, lines: seq<string>, k: nat) {
    k < |lines| && Bad(isVersion, lines[k]) && forall j | 0 <= j < k :: !Bad(isVersion, lines[j])
  }

  ghost predicate LastMark(lines: seq<string>, k: nat) {
    k < |lines| && Marks(lines[k]) && forall j | k < j < |lines| :: !Marks(lines[j])
  }

  /** The components of the lines that list one, in order. */
  function Listed(isVersion: string -> bool, lines: seq<string>): seq<Component> {
    if lines == [] then []
    else
      (if ListsOne(isVersion, lines[0]) then [Component(Fields(lines[0])[1], Fields(lines[0])[2])] else [])
      + Listed(isVersion, lines[1..])
  }

  lemma {:induction false} TrailingWhite(fields: string -> seq<string>, s: string, c: char)
    requires Words(fields) && IsWhite(c)
    ensures fields(s + [c]) == fields(s)
    decreases |s|
  {
    if s == "" {
      assert s + [c] == [c] + "";
    } else if IsWhite(s[0]) {
      TrailingWhite(fields, s[1..], c);
      assert s == [s[0]] + s[1..] && s + [c] == [s[0]] + (s[1..] + [c]);
    } else {
      var n := WordLength(s);
      TrailingWhite(fields, s[n..], c);
      assert s == s[..n] + s[n..] && s + [c] == s[..n] + (s[n..] + [c]) && IsWord(s[..n]);
    }
  }

  lemma {:induction false} ReturnsAreWhite(fields: string -> seq<string>, line: string)
    requires Words(fields)
    ensures fields(WithoutReturns(line)) == fields(line)
  {
    if line != "" && line[|line| - 1] == '\r' {
      var init := line[..|line| - 1];
      ReturnsAreWhite(fields, init);
      TrailingWhite(fields, init, '\r');
      assert line == init + ['\r'];
    }
  }

  function Counted(declared: Option<nat>, components: seq<Component>): Listing {
    if declared.None? then Success(None)
    else if declared.value == |components| then Success(Some(components))
    else Failure(CountDiffers(declared.value, |components|))
  }

  lemma ListedOne(isVersion: string -> bool, line: string, components: seq<Component>)
    ensures components + Listed(isVersion, [line]) ==
            if ListsOne(isVersion, line) then components + [Component(Fields(line)[1], Fields(line)[2])] else components
  {
    assert [line][1..] == [];
    assert components + [] == components;
  }

  type Reader = (seq<string>, Option<nat>, seq<Component>) -> Listing

  /** What the line does to the reading of the rest. */
  function Step(isVersion: string -> bool, read: Reader, line: string, rest: seq<string>, declared: Option<nat>,
                components: seq<Component>): Listing {
    if Bad(isVersion, line) then Failure(if Marks(line) then InvalidMarker else MalformedComponent)
    else if Marks(line) then read(rest, ParseUsize(Fields(line)[1]), components)
    else read(rest, declared, components + Listed(isVersion, [line]))
  }

  ghost predicate ByLine(isVersion: string -> bool, read: Reader) {
    && (forall declared, components :: read([], declared, components) == Counted(declared, components))
    && (forall line, rest, declared, components ::
          read([line] + rest, declared, components) == Step(isVersion, read, line, rest, declared, components))
  }

  lemma ReadsByLine(isVersion: string -> bool)
    ensures ByLine(isVersion, (ls, d, cs) => ReadLines(isVersion, ls, d, cs))
  {
    var read: Reader := (ls, d, cs) => ReadLines(isVersion, ls, d, cs);
    FieldsAreWords();
    forall line, rest, declared, components
      ensures read([line] + rest, declared, components) == Step(isVersion, read, line, rest, declared, components)
    {
      ReturnsAreWhite(Fields, line);
      ListedOne(isVersion, line, components);
      assert ([line] + rest)[1..] == rest;
    }
  }

  ghost predicate NoneBad(isVersion: string -> bool, lines: seq<string>) {
    forall k | 0 <= k < |lines| :: !Bad(isVersion, lines[k])
  }

  ghost predicate NoMarks(lines: seq<string>) {
    forall k | 0 <= k < |lines| :: !Marks(lines[k])
  }

  /** The first line that is bad spoils the reading. */
  ghost predicate Spoils(isVersion: string -> bool, lines: seq<string>, r: Listing) {
    forall k: nat | FirstBad(isVersion, lines, k) ::
      r == Failure(if Marks(lines[k]) then InvalidMarker else MalformedComponent)
  }

  /** The last marker counts these components. */
  ghost predicate Counts(lines: seq<string>, all: seq<Component>, r: Listing) {
    forall k: nat | LastMark(lines, k) :: r == Counted(ParseUsize(Fields(lines[k])[1]), all)
  }

  /** What reading the lines comes to, when that count and those components were read before. */
  ghost predicate ReadsAs(isVersion: string -> bool, lines: seq<string>, declared: Option<nat>,
                          components: seq<Component>, r: Listing) {
    var all := components + Listed(isVersion, lines);
    && Spoils(isVersion, lines, r)
    && (NoneBad(isVersion, lines) ==> Counts(lines, all, r) && (NoMarks(lines) ==> r == Counted(declared, all)))
  }

  lemma SpoilsMore(isVersion: string -> bool, line: string, rest: seq<string>, r: Listing)
    requires !Bad(isVersion, line) && Spoils(isVersion, rest, r)
    ensures Spoils(isVersion, [line] + rest, r)
    ensures NoneBad(isVersion, [line] + rest) ==> NoneBad(isVersion, rest)
  {
    var lines := [line] + rest;
    assert lines[0] == line && forall k | 0 <= k < |rest| :: rest[k] == lines[k + 1];
    forall k: nat | FirstBad(isVersion, lines, k) ensures k > 0 && FirstBad(isVersion, rest, k - 1) {
    }
  }

  lemma CountsMore(line: string, rest: seq<string>, all: seq<Component>, declared: Option<nat>, r: Listing)
    requires Counts(rest, all, r)
    requires NoMarks(rest) ==> r == Counted(if Marks(line) then ParseUsize(Fields(line)[1]) else declared, all)
    ensures Counts([line] + rest, all, r)
    ensures NoMarks([line] + rest) ==> r == Counted(declared, all)
  {
    var lines := [line] + rest;
    assert lines[0] == line && forall k | 0 <= k < |rest| :: rest[k] == lines[k + 1];
    forall k: nat | LastMark(lines, k) ensures if k == 0 then NoMarks(rest) else LastMark(rest, k - 1) {
    }
  }

  lemma OneLineMore(isVersion: string -> bool, line: string, rest: seq<string>, declared: Option<nat>,
                    components: seq<Component>, r: Listing)
    requires !Bad(isVersion, line)
    requires var now := if Marks(line) then ParseUsize(Fields(line)[1]) else declared;
      ReadsAs(isVersion, rest, now, components + Listed(isVersion, [line]), r)
    ensures ReadsAs(isVersion, [line] + rest, declared, components, r)
  {
    ListedMore(isVersion, line, rest, components);
    SpoilsMore(isVersion, line, rest, r);
    if NoneBad(isVersion, [line] + rest) {
      CountsMore(line, rest, components + Listed(isVersion, [line] + rest), declared, r);
    }
  }

  lemma ListedMore(isVersion: string -> bool, line: string, rest: seq<string>, components: seq<Component>)
    ensures components + Listed(isVersion, [line]) + Listed(isVersion, rest) ==
            components + Listed(isVersion, [line] + rest)
  {
    assert [line][1..] == [] && ([line] + rest)[1..] == rest && ([line] + rest)[0] == line;
    assert Listed(isVersion, [line] + rest) == Listed(isVersion, [line]) + Listed(isVersion, rest);
  }

  lemma {:induction false} ReadsExactly(isVersion: string -> bool, read: Reader, lines: seq<string>,
                                        declared: Option<nat>, components: seq<Component>)
    requires ByLine(isVersion, read)
    ensures ReadsAs(isVersion, lines, declared, components, read(lines, declared, components))
    decreases |lines|
  {
    if lines == [] {
      assert components + Listed(isVersion, lines) == components;
    } else {
      var line, rest := lines[0], lines[1..];
      assert lines == [line] + rest;
      if Bad(isVersion, line) {
        assert forall k: nat | FirstBad(isVersion, lines, k) :: k == 0;
      } else {
        var now := if Marks(line) then ParseUsize(Fields(line)[1]) else declared;
        var more := components + Listed(isVersion, [line]);
        ListedOne(isVersion, line, components);
        ReadsExactly(isVersion, read, rest, now, more);
        OneLineMore(isVersion, line, rest, declared, components, read(rest, now, more));
      }
    }
  }

  /** What a trigger's message lists: nothing when no line is a marker; else the components of the lines that
      list one, in order, if they are as many as the last marker says. A line that is bad spoils it. */
  lemma ReadExact(isVersion: string -> bool, message: string)
    ensures var lines, r := Lines(Body(message)), Read(isVersion, message);
      && (forall k: nat | FirstBad(isVersion, lines, k) ::
            r == Failure(if Marks(lines[k]) then InvalidMarker else MalformedComponent))
      && (NoneBad(isVersion, lines) ==>
            && (r == Success(None) <==> NoMarks(lines))
            && (forall k: nat | LastMark(lines, k) ::
                  r == Counted(ParseUsize(Fields(lines[k])[1]), Listed(isVersion, lines))))
  {
    var lines := Lines(Body(message));
    ReadsByLine(isVersion);
    ReadsExactly(isVersion, (ls, d, cs) => ReadLines(isVersion, ls, d, cs), lines, None, []);
    assert [] + Listed(isVersion, lines) == Listed(isVersion, lines);
    if NoneBad(isVersion, lines) && !NoMarks(lines) {
      var k :| 0 <= k < |lines| && Marks(lines[k]);
      var last := LastOfMarks(lines, k);
      assert !Bad(isVersion, lines[last]);
    }
  }

  lemma {:induction false} LastOfMarks(lines: seq<string>, k: nat) returns (last: nat)
    requires k < |lines| && Marks(lines[k])
    ensures LastMark(lines, last)
    decreases |lines| - k
  {
    if j :| k < j < |lines| && Marks(lines[j]) {
      last := LastOfMarks(lines, j);
    } else {
      last := k;
    }
  }
}
