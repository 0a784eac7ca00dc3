/** The message of a release trigger tag, which lists the components it publishes, and its reader. */
module ReleaseTrigger {
  import opened Wrappers
  import opened Numbers
  import opened Text

  const TAG_PREFIX: string := "plugins-v3/"

  datatype Component = Component(tag: string, commit: string)

  datatype TriggerError = InvalidMarker | MalformedComponent | CountDiffers(declared: nat, listed: nat)

  type Listing = Result<Option<seq<Component>>, TriggerError>

  /* ---------- words ---------- */

  predicate IsWhite(c: char) {
    || '\t' <= c <= '\r' || c == ' ' || c == '\U{85}' || c == '\U{A0}' || c == '\U{1680}'
    || '\U{2000}' <= c <= '\U{200A}' || c == '\U{2028}' || c == '\U{2029}' || c == '\U{202F}'
    || c == '\U{205F}' || c == '\U{3000}'
  }

  predicate IsWord(s: string) {
    s != "" && forall i | 0 <= i < |s| :: !IsWhite(s[i])
  }

  function WordLength(s: string): (n: nat)
    ensures n <= |s| && (n < |s| ==> IsWhite(s[n])) && forall i | 0 <= i < n :: !IsWhite(s[i])
  {
    if s == "" || IsWhite(s[0]) then 0 else 1 + WordLength(s[1..])
  }

  function Fields(s: string): seq<string>
    decreases |s|
  {
    if s == "" then []
    else if IsWhite(s[0]) then Fields(s[1..])
    else
      var n := WordLength(s);
      [s[..n]] + Fields(s[n..])
  }

  lemma FirstField(word: string, rest: string)
    requires IsWord(word) && (rest != "" ==> IsWhite(rest[0]))
    ensures Fields(word + rest) == [word] + Fields(rest)
  {
    var s := word + rest;
    assert forall i | 0 <= i < |word| :: s[i] == word[i];
    assert rest != "" ==> s[|word|] == rest[0];
    assert WordLength(s) == |word|;
    assert s[..|word|] == word && s[|word|..] == rest;
  }

  lemma SpaceSkipped(rest: string)
    ensures Fields(" " + rest) == Fields(rest)
  {
    assert (" " + rest)[1..] == rest;
  }

  lemma TwoFields(a: string, b: string)
    requires IsWord(a) && IsWord(b)
    ensures Fields(a + " " + b) == [a, b]
  {
    assert a + " " + b == a + (" " + b) && b == b + "";
    FirstField(a, " " + b);
    SpaceSkipped(b);
    FirstField(b, "");
  }

  lemma ThreeFields(a: string, b: string, c: string)
    requires IsWord(a) && IsWord(b) && IsWord(c)
    ensures Fields(a + " " + b + " " + c) == [a, b, c]
  {
    assert a + " " + b + " " + c == a + (" " + (b + " " + c));
    FirstField(a, " " + (b + " " + c));
    SpaceSkipped(b + " " + c);
    TwoFields(b, c);
  }

  /* ---------- component tags ---------- */

  /** The index of the last slash that a v follows, if any. */
  function LastVersionSlash(s: string): (i: int)
    ensures -1 <= i && (i >= 0 ==> i + 2 <= |s| && s[i..i + 2] == "/v")
  {
    if |s| < 2 then -1
    else if s[|s| - 2..] == "/v" then |s| - 2
    else
      var i := LastVersionSlash(s[..|s| - 1]);
      assert i >= 0 ==> s[i..i + 2] == s[..|s| - 1][i..i + 2];
      i
  }

  /** plugins-v3/, an id without slashes, and a version after the last /v. */
  predicate IsPluginTag(isVersion: string -> bool, tag: string) {
    && TAG_PREFIX <= tag
    && var spec := tag[|TAG_PREFIX|..];
       var i := LastVersionSlash(spec);
       i > 0 && '/' !in spec[..i] && isVersion(spec[i + 2..])
  }

  /* ---------- writing ---------- */

  function Names(tags: seq<string>): string {
    if tags == [] then "" else if |tags| == 1 then tags[0] else tags[0] + ", " + Names(tags[1..])
  }

  function ComponentLine(c: Component): string {
    "component" + " " + c.tag + " " + c.commit
  }

  function MarkerLine(n: nat): string {
    "components" + " " + Decimal(n)
  }

  function ComponentLines(components: seq<Component>): seq<string> {
    seq(|components|, i requires 0 <= i < |components| => ComponentLine(components[i]))
  }

  function BodyLines(components: seq<Component>): seq<string> {
    [MarkerLine(|components|)] + ComponentLines(components)
  }

  /** Each line with a newline after it. */
  function Ended(lines: seq<string>): string {
    if lines == [] then "" else Ended(lines[..|lines| - 1]) + lines[|lines| - 1] + "\n"
  }

  function Tags(components: seq<Component>): seq<string> {
    seq(|components|, i requires 0 <= i < |components| => components[i].tag)
  }

  function Subject(components: seq<Component>, rulePackTags: seq<string>): string {
    "Release trigger for " + Names(Tags(components) + rulePackTags)
  }

  function Message(components: seq<Component>, rulePackTags: seq<string>): string {
    Subject(components, rulePackTags) + "\n\n" + Ended(BodyLines(components))
  }

  method ReleaseTriggerMessage(components: seq<Component>, rulePackTags: seq<string>) returns (message: string)
    ensures message == Message(components, rulePackTags)
  {
    ghost var lines := BodyLines(components);
    message := Subject(components, rulePackTags) + "\n\n";
    ghost var head := message;
    EndedMore(lines, 0);
    message := message + MarkerLine(|components|) + "\n";
    for i := 0 to |components|
      invariant message == head + Ended(lines[..i + 1])
    {
      EndedMore(lines, i + 1);
      message := message + ComponentLine(components[i]) + "\n";
    }
    assert lines[..|components| + 1] == lines;
  }

  lemma EndedMore(lines: seq<string>, i: nat)
    requires i < |lines|
    ensures Ended(lines[..i + 1]) == Ended(lines[..i]) + lines[i] + "\n"
    ensures forall head: string :: head + Ended(lines[..i + 1]) == head + Ended(lines[..i]) + lines[i] + "\n"
  {
    assert lines[..i + 1][..i] == lines[..i];
    forall head: string ensures head + Ended(lines[..i + 1]) == head + Ended(lines[..i]) + lines[i] + "\n" {
      assert head + (Ended(lines[..i]) + lines[i] + "\n") == head + Ended(lines[..i]) + lines[i] + "\n";
    }
  }

  /* ---------- reading ---------- */

  /** The text after the first blank line, as git shows the body of a message. */
  function Body(message: string): string {
    if |message| < 2 then "" else if message[..2] == "\n\n" then message[2..] else Body(message[1..])
  }

  function WithoutReturns(line: string): string {
    if line != "" && line[|line| - 1] == '\r' then WithoutReturns(line[..|line| - 1]) else line
  }

  /** The lines of a text; what follows the last newline counts only when it is not empty. */
  function Lines(text: string): seq<string> {
    var parts := Split(text, '\n');
    if parts[|parts| - 1] == "" then parts[..|parts| - 1] else parts
  }

  /** The outcome of the lines from the i-th on. */
  function ReadLines(isVersion: string -> bool, lines: seq<string>, declared: Option<nat>,
                     components: seq<Component>): Listing
    decreases |lines|
  {
    if lines == [] then
      if declared.None? then Success(None)
      else if declared.value == |components| then Success(Some(components))
      else Failure(CountDiffers(declared.value, |components|))
    else
      var fields := Fields(WithoutReturns(lines[0]));
      if |fields| == 2 && fields[0] == "components" then
        var count := ParseUsize(fields[1]);
        if count.None? then Failure(InvalidMarker) else ReadLines(isVersion, lines[1..], count, components)
      else if |fields| == 3 && fields[0] == "component" && IsPluginTag(isVersion, fields[1]) then
        ReadLines(isVersion, lines[1..], declared, components + [Component(fields[1], fields[2])])
      else if |fields| > 0 && fields[0] == "component" then Failure(MalformedComponent)
      else ReadLines(isVersion, lines[1..], declared, components)
  }

  function Read(isVersion: string -> bool, message: string): Listing {
    ReadLines(isVersion, Lines(Body(message)), None, [])
  }

  method ReleaseTriggerComponents(isVersion: string -> bool, message: string) returns (listing: Listing)
    ensures listing == Read(isVersion, message)
  {
    var lines := Lines(Body(message));
    var declared: Option<nat> := None;
    var components: seq<Component> := [];
    for i := 0 to |lines|
      invariant ReadLines(isVersion, lines[i..], declared, components) == Read(isVersion, message)
    {
      assert lines[i..][0] == lines[i] && lines[i..][1..] == lines[i + 1..];
      var fields := Fields(WithoutReturns(lines[i]));
      if |fields| == 2 && fields[0] == "components" {
        declared := ParseUsize(fields[1]);
        if declared.None? {
          return Failure(InvalidMarker);
        }
      } else if |fields| == 3 && fields[0] == "component" && IsPluginTag(isVersion, fields[1]) {
        components := components + [Component(fields[1], fields[2])];
      } else if |fields| > 0 && fields[0] == "component" {
        return Failure(MalformedComponent);
      }
    }
    if declared.None? {
      return Success(None);
    }
    if declared.value == |components| {
      return Success(Some(components));
    }
    return Failure(CountDiffers(declared.value, |components|));
  }

  /* ---------- the round trip ---------- */

  /** Tags and commits as git holds them: component tags, and no white space in either. */
  predicate Publishable(isVersion: string -> bool, c: Component) {
    IsPluginTag(isVersion, c.tag) && IsWord(c.tag) && IsWord(c.commit)
  }

  predicate AllPublishable(isVersion: string -> bool, components: seq<Component>) {
    |components| < USIZE && forall i | 0 <= i < |components| :: Publishable(isVersion, components[i])
  }

  lemma LineFields(line: string, fields: seq<string>)
    requires line != "" && Fields(line) == fields && !IsWhite(line[|line| - 1])
    ensures Fields(WithoutReturns(line)) == fields
  {
  }

  lemma MarkerFields(n: nat)
    ensures Fields(WithoutReturns(MarkerLine(n))) == ["components", Decimal(n)]
    ensures '\n' !in MarkerLine(n)
  {
    DecimalDigits(n);
    assert IsWord(Decimal(n)) && IsWord("components");
    TwoFields("components", Decimal(n));
    var line := MarkerLine(n);
    assert line[|line| - 1] == Decimal(n)[|Decimal(n)| - 1];
    LineFields(line, ["components", Decimal(n)]);
  }

  lemma ComponentFields(isVersion: string -> bool, c: Component)
    requires Publishable(isVersion, c)
    ensures Fields(WithoutReturns(ComponentLine(c))) == ["component", c.tag, c.commit]
    ensures '\n' !in ComponentLine(c)
  {
    assert IsWord("component");
    ThreeFields("component", c.tag, c.commit);
    var line := ComponentLine(c);
    assert line[|line| - 1] == c.commit[|c.commit| - 1];
    LineFields(line, ["component", c.tag, c.commit]);
    assert forall i | 0 <= i < |c.tag| :: c.tag[i] != '\n';
    assert forall i | 0 <= i < |c.commit| :: c.commit[i] != '\n';
  }

  lemma ReadOne(isVersion: string -> bool, lines: seq<string>, declared: Option<nat>, components: seq<Component>,
                c: Component)
    requires lines != [] && lines[0] == ComponentLine(c) && Publishable(isVersion, c)
    ensures ReadLines(isVersion, lines, declared, components) ==
            ReadLines(isVersion, lines[1..], declared, components + [c])
  {
    ComponentFields(isVersion, c);
  }

  lemma ReadMarker(isVersion: string -> bool, lines: seq<string>, n: nat)
    requires lines != [] && lines[0] == MarkerLine(n) && n < USIZE
    ensures ReadLines(isVersion, lines, None, []) == ReadLines(isVersion, lines[1..], Some(n), [])
  {
    MarkerFields(n);
    ParseDecimal(n);
  }

  /** Reading lines one by one, whatever a line is. */
  lemma {:induction false} ReadEach<C, R>(read: (seq<string>, seq<C>) -> R, lines: seq<string>, rest: seq<C>,
                                          before: seq<C>, one: (string, C) -> bool)
    requires |lines| == |rest| && forall i | 0 <= i < |rest| :: one(lines[i], rest[i])
    requires forall ls: seq<string>, cs: seq<C>, c: C | ls != [] && one(ls[0], c) ::
               read(ls, cs) == read(ls[1..], cs + [c])
    ensures read(lines, before) == read([], before + rest)
    decreases |rest|
  {
    if rest == [] {
      assert before + rest == before && lines == [];
    } else {
      assert one(lines[0], rest[0]);
      ReadEach(read, lines[1..], rest[1..], before + [rest[0]], one);
      assert before + [rest[0]] + rest[1..] == before + rest;
    }
  }

  lemma ReadComponents(isVersion: string -> bool, components: seq<Component>)
    requires AllPublishable(isVersion, components)
    ensures ReadLines(isVersion, ComponentLines(components), Some(|components|), []) == Success(Some(components))
  {
    var n := |components|;
    var read := (lines: seq<string>, before: seq<Component>) => ReadLines(isVersion, lines, Some(n), before);
    var one := (line: string, c: Component) => line == ComponentLine(c) && Publishable(isVersion, c);
    forall lines: seq<string>, before: seq<Component>, c: Component | lines != [] && one(lines[0], c)
      ensures read(lines, before) == read(lines[1..], before + [c])
    {
      ReadOne(isVersion, lines, Some(n), before, c);
    }
    ReadEach(read, ComponentLines(components), components, [], one);
    assert [] + components == components;
  }

  lemma {:induction false} EndedIsJoined(lines: seq<string>)
    ensures Ended(lines) == Join(lines + [""], '\n')
    decreases |lines|
  {
    if lines == [] {
      assert lines + [""] == [""];
    } else {
      var init, last := lines[..|lines| - 1], lines[|lines| - 1];
      EndedIsJoined(init);
      var parts := init + [last] + [""];
      assert lines + [""] == parts;
      EndingLine(init, last);
    }
  }

  lemma {:induction false} EndingLine(init: seq<string>, last: string)
    ensures Join(init + [last] + [""], '\n') == Join(init + [""], '\n') + last + "\n"
    decreases |init|
  {
    if init == [] {
      assert init + [last] + [""] == [last, ""] && init + [""] == [""];
      assert Join([last, ""], '\n') == last + "\n" + Join([last, ""][1..], '\n');
      assert [last, ""][1..] == [""];
    } else {
      EndingLine(init[1..], last);
      assert (init + [last] + [""])[1..] == init[1..] + [last] + [""];
      assert (init + [""])[1..] == init[1..] + [""];
    }
  }

  lemma LinesOfEnded(lines: seq<string>)
    requires AllFree(lines, '\n')
    ensures Lines(Ended(lines)) == lines
  {
    EndedIsJoined(lines);
    SplitJoin(lines + [""], '\n');
    assert (lines + [""])[..|lines|] == lines;
  }

  lemma {:induction false} BodyAfterSubject(subject: string, body: string)
    requires '\n' !in subject
    ensures Body(subject + "\n\n" + body) == body
  {
    var message := subject + "\n\n" + body;
    if subject == "" {
      assert message[..2] == "\n\n" && message[2..] == body;
    } else {
      assert message[0] == subject[0];
      assert message[1..] == subject[1..] + "\n\n" + body;
      BodyAfterSubject(subject[1..], body);
    }
  }

  /** Reading a trigger's message gives back exactly the components it was written for, in order. */
  lemma MessageRoundTrip(isVersion: string -> bool, components: seq<Component>, rulePackTags: seq<string>)
    requires AllPublishable(isVersion, components) && '\n' !in Subject(components, rulePackTags)
    ensures Read(isVersion, Message(components, rulePackTags)) == Success(Some(components))
  {
    var lines := BodyLines(components);
    BodyAfterSubject(Subject(components, rulePackTags), Ended(lines));
    MarkerFields(|components|);
    forall i | 0 <= i < |components| ensures Free(ComponentLine(components[i]), '\n') {
      ComponentFields(isVersion, components[i]);
    }
    LinesOfEnded(lines);
    ReadMarker(isVersion, lines, |components|);
    assert lines[1..] == ComponentLines(components);
    ReadComponents(isVersion, components);
  }

  lemma {:induction false} NamesFree(tags: seq<string>)
    requires AllFree(tags, '\n')
    ensures '\n' !in Names(tags)
  {
    if |tags| > 1 {
      NamesFree(tags[1..]);
    }
  }

  /** The subject has no newline when the tags have none. */
  lemma SubjectFree(isVersion: string -> bool, components: seq<Component>, rulePackTags: seq<string>)
    requires AllPublishable(isVersion, components) && AllFree(rulePackTags, '\n')
    ensures '\n' !in Subject(components, rulePackTags)
  {
    forall i | 0 <= i < |components| ensures Free(components[i].tag, '\n') {
      assert IsWord(components[i].tag);
    }
    NamesFree(Tags(components) + rulePackTags);
  }
}
