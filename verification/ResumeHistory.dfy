/** What runs of the resume protocol amount to, over any history of interruptions. */
module ResumeHistory {
  import opened Wrappers
  import opened Text
  import opened ResumableTags
  import ReleaseListing
  import ReleaseTrigger

  /** The clone has every tag of the remote, as the same object. */
  ghost predicate Fetched(repo: Repo) {
    forall t | t in repo.remote :: t in repo.local && repo.local[t] == repo.remote[t]
  }

  /** The refs keep every tag they had as the same object, and gain only some of the given ones. */
  ghost predicate Extends(before: Refs, after: Refs, gained: set<string>) {
    && (forall t | t in before :: t in after && after[t] == before[t])
    && (forall t | t in after :: t in before || t in gained)
  }

  ghost predicate Kept(before: Repo, after: Repo, request: Request, trigger: string) {
    && Extends(before.local, after.local, {request.componentTag, trigger})
    && Extends(before.remote, after.remote, {request.componentTag, trigger})
  }

  lemma EnsuredKeeps(site: Site, repo: Repo, tag: string, commit: string, components: seq<Component>)
    ensures var (after, r) := Ensured(site, repo, tag, commit, components);
      && Extends(repo.local, after.local, {tag}) && after.remote == repo.remote
      && (r == Success(true) ==> tag !in repo.remote)
  {
  }

  lemma PushedKeeps(repo: Repo, tags: set<string>)
    requires forall t | t in tags :: t !in repo.remote
    ensures Extends(repo.remote, Pushed(repo, tags).remote, tags) && Pushed(repo, tags).local == repo.local
  {
  }

  lemma SettledKeeps(site: Site, request: Request, trigger: string, reliable: bool, before: Repo, after: Repo,
                     result: Result<(), TagError>)
    requires Settled(site, request, trigger, reliable, before, after, result)
    ensures Kept(before, after, request, trigger)
  {
    var first, second := First(site, request, before), Second(site, request, trigger, before);
    EnsuredKeeps(site, before, request.componentTag, request.commit, []);
    EnsuredKeeps(site, first.0, trigger, request.commit, request.components);
    PushedKeeps(second.0, ToPush(site, request, trigger, before));
  }

  ghost predicate ReplacesNothing(before: Repo, after: Repo, request: Request) {
    exists trigger :: Kept(before, after, request, trigger)
                   && (trigger == TriggerName(request) || trigger in Triggers(before.local, request.commit))
  }

  /** However a run ends, no tag on either side is replaced or removed, and a run creates at most the
      component's tag and one trigger: the one already at the commit, or else the one with the stable
      name. */
  lemma NothingReplaced(site: Site, request: Request, reliable: bool, before: Repo, after: Repo,
                        result: Result<(), TagError>)
    requires Resumed(site, request, reliable, before, after, result)
    ensures ReplacesNothing(before, after, request)
  {
    if existing :| ResumedWith(site, request, existing, reliable, before, after, result) {
      var chosen := Chosen(site, before, request, existing);
      if chosen.Success? {
        SettledKeeps(site, request, chosen.value, reliable, before, after, result);
        assert Kept(before, after, request, chosen.value);
      } else {
        assert Kept(before, after, request, TriggerName(request));
      }
    } else {
      assert Kept(before, after, request, TriggerName(request));
    }
  }

  /** No trigger is at the commit, or only a usable one that lists exactly the components, if any are given. */
  ghost predicate Acceptable(site: Site, request: Request, refs: Refs) {
    || Triggers(refs, request.commit) == {}
    || exists t :: AcceptableTrigger(site, request, refs, t)
  }

  ghost predicate AcceptableTrigger(site: Site, request: Request, refs: Refs, t: string) {
    && Triggers(refs, request.commit) == {t} && t in refs && TriggerFault(site, refs[t]).None?
    && (request.components != [] ==> Listing(site, refs[t]) == Success(Some(request.components)))
  }

  /** From a state whose triggers are not acceptable every run fails, however it ends, and no tag is created
      on either side. */
  lemma MismatchCreatesNothing(site: Site, request: Request, reliable: bool, before: Repo, after: Repo,
                               result: Result<(), TagError>)
    requires Resumed(site, request, reliable, before, after, result)
    requires !Acceptable(site, request, before.local)
    ensures result.Failure? && after == before
  {
    if existing :| ResumedWith(site, request, existing, reliable, before, after, result) {
      ChosenIsAcceptable(site, request, before, existing);
      assert Chosen(site, before, request, existing).Failure?;
    }
  }

  lemma ChosenIsAcceptable(site: Site, request: Request, repo: Repo, existing: Option<string>)
    requires Existing(site, repo.local, request.commit, Success(existing))
    requires existing.Some? ==> existing.value in repo.local
    ensures Chosen(site, repo, request, existing).Success? ==> Acceptable(site, request, repo.local)
  {
    if existing.Some? {
      assert existing.value in Triggers(repo.local, request.commit);
      if Chosen(site, repo, request, existing).Success? {
        assert AcceptableTrigger(site, request, repo.local, existing.value);
      }
    }
  }

  /** A run with at most one trigger at the commit, a usable one, goes on with it. */
  lemma GoesOn(site: Site, request: Request, before: Repo, after: Repo, result: Result<(), TagError>,
               existing: Option<string>)
    requires Resumed(site, request, true, before, after, result)
    requires Triggers(before.local, request.commit) == if existing.Some? then {existing.value} else {}
    requires AllUsable(site, before.local, request.commit)
    ensures ResumedWith(site, request, existing, true, before, after, result)
  {
    forall e | Existing(site, before.local, request.commit, Failure(e)) ensures false {
      NoFault(site, before.local, request.commit, e);
    }
    var other :| ResumedWith(site, request, other, true, before, after, result);
    if other.Some? {
      assert other.value in Triggers(before.local, request.commit);
    }
    assert existing.Some? ==> existing.value in Triggers(before.local, request.commit);
  }

  lemma NoFault(site: Site, refs: Refs, commit: string, e: TagError)
    requires |Triggers(refs, commit)| <= 1 && AllUsable(site, refs, commit)
    ensures !Existing(site, refs, commit, Failure(e))
  {
  }

  lemma SettlingErrors(site: Site, request: Request, trigger: string, before: Repo, after: Repo,
                       result: Result<(), TagError>)
    requires Settled(site, request, trigger, true, before, after, result) && result.Failure?
    ensures result.error in {NotHead, RemoteTagNotFetched, TargetsOtherCommit, Unverified, ObjectsDiffer}
  {
  }

  /** A run refuses the one usable trigger at the commit exactly when it lists something else. */
  lemma RefusesExactly(site: Site, request: Request, before: Repo, after: Repo, result: Result<(), TagError>, t: string)
    requires Resumed(site, request, true, before, after, result)
    requires Triggers(before.local, request.commit) == {t} && TriggerFault(site, before.local[t]).None?
    ensures result == Failure(DoesNotListExactly) <==>
            request.components != [] && Listing(site, before.local[t]) != Success(Some(request.components))
  {
    assert t in Triggers(before.local, request.commit);
    GoesOn(site, request, before, after, result, Some(t));
    var chosen := Chosen(site, before, request, Some(t));
    if chosen.Success? && result.Failure? {
      SettlingErrors(site, request, chosen.value, before, after, result);
    }
  }

  /* ---------- what a success means ---------- */

  /** The tag is the same verified object on both sides, at the commit. */
  ghost predicate Published(repo: Repo, tag: string, commit: string) {
    && tag in repo.local && tag in repo.remote && repo.local[tag] == repo.remote[tag]
    && repo.local[tag].target == commit && repo.local[tag].verifies
  }

  /** The component and exactly one trigger are published, and the trigger lists the components. */
  ghost predicate Released(site: Site, request: Request, repo: Repo) {
    && Published(repo, request.componentTag, request.commit)
    && exists t :: ReleasedBy(site, request, repo, t)
  }

  ghost predicate ReleasedBy(site: Site, request: Request, repo: Repo, t: string) {
    && Published(repo, t, request.commit)
    && Triggers(repo.local, request.commit) == {t} == Triggers(repo.remote, request.commit)
    && var listing := Listing(site, repo.local[t]);
       && listing.Success? && listing.value.Some?
       && (request.components != [] ==> listing.value.value == request.components)
  }

  lemma EnsuredPublishes(site: Site, repo: Repo, tag: string, commit: string, components: seq<Component>)
    requires Ensured(site, repo, tag, commit, components).1.Success?
    ensures var (after, r) := Ensured(site, repo, tag, commit, components);
      && tag in after.local && after.local[tag].target == commit && after.local[tag].verifies
      && (r.value <==> tag !in repo.remote)
      && (!r.value ==> after == repo && repo.remote[tag] == repo.local[tag])
  {
  }

  lemma {:induction false} ListsWhatItWasWrittenFor(site: Site, components: seq<Component>, tag: Tag)
    requires ReleaseTrigger.AllPublishable(site.isVersion, components)
    requires tag.message == ReleaseTrigger.Message(components, [])
    ensures Listing(site, tag) == Success(Some(components))
  {
    ReleaseTrigger.SubjectFree(site.isVersion, components, []);
    ReleaseTrigger.MessageRoundTrip(site.isVersion, components, []);
  }

  /** After both tags are settled and pushed, both are published. */
  lemma LastPublishes(site: Site, request: Request, trigger: string, before: Repo)
    requires First(site, request, before).1.Success? && Second(site, request, trigger, before).1.Success?
    ensures Published(Last(site, request, trigger, before), request.componentTag, request.commit)
    ensures Published(Last(site, request, trigger, before), trigger, request.commit)
  {
    var first, second := First(site, request, before), Second(site, request, trigger, before);
    EnsuredPublishes(site, before, request.componentTag, request.commit, []);
    EnsuredPublishes(site, first.0, trigger, request.commit, request.components);
    EnsuredKeeps(site, before, request.componentTag, request.commit, []);
    EnsuredKeeps(site, first.0, trigger, request.commit, request.components);
  }

  /** The component is not named like a trigger, unless it is there already. */
  ghost predicate NoNewTrigger(request: Request, repo: Repo) {
    IsTrigger(request.componentTag) ==> request.componentTag in repo.local
  }

  /** After both tags are settled and pushed, the triggers at the commit are the one chosen. */
  lemma LastTriggers(site: Site, request: Request, trigger: string, before: Repo)
    requires First(site, request, before).1.Success? && Second(site, request, trigger, before).1.Success?
    requires IsTrigger(trigger) && Fetched(before) && NoNewTrigger(request, before)
    requires Triggers(before.local, request.commit) <= {trigger}
    ensures var last := Last(site, request, trigger, before);
      Fetched(last) && Triggers(last.local, request.commit) == {trigger} == Triggers(last.remote, request.commit)
  {
    var last := Last(site, request, trigger, before);
    LastPublishes(site, request, trigger, before);
    SettledKeeps(site, request, trigger, true, before, last, Success(()));
    LastFetched(site, request, trigger, before);
    forall t | t in Triggers(last.local, request.commit) ensures t == trigger {
      if t in before.local {
        assert t in Triggers(before.local, request.commit);
      }
    }
    assert trigger in Triggers(last.local, request.commit) && trigger in Triggers(last.remote, request.commit);
    forall t | t in Triggers(last.remote, request.commit) ensures t == trigger {
      assert t in Triggers(last.local, request.commit);
    }
  }

  lemma LastFetched(site: Site, request: Request, trigger: string, before: Repo)
    requires First(site, request, before).1.Success? && Second(site, request, trigger, before).1.Success?
    requires Fetched(before)
    ensures Fetched(Last(site, request, trigger, before))
  {
    var first, second := First(site, request, before), Second(site, request, trigger, before);
    EnsuredKeeps(site, before, request.componentTag, request.commit, []);
    EnsuredKeeps(site, first.0, trigger, request.commit, request.components);
  }

  /** A successful run from any fetched state publishes the component, the same object on both sides. It leaves
      exactly one trigger, that lists the components, if and only if it made no trigger of the component. */
  lemma SuccessReleases(site: Site, request: Request, reliable: bool, before: Repo, after: Repo)
    requires ReleaseTrigger.AllPublishable(site.isVersion, request.components) && Fetched(before)
    requires Resumed(site, request, reliable, before, after, Success(()))
    ensures Fetched(after) && Published(after, request.componentTag, request.commit)
    ensures Released(site, request, after) <==> NoNewTrigger(request, before)
  {
    var existing :| ResumedWith(site, request, existing, reliable, before, after, Success(()));
    var trigger := Chosen(site, before, request, existing).value;
    assert existing.Some? ==> trigger in Triggers(before.local, request.commit);
    assert Triggers(before.local, request.commit) <= {trigger};
    assert existing.None? ==> trigger == TriggerName(request);
    LastPublishes(site, request, trigger, before);
    LastFetched(site, request, trigger, before);
    if NoNewTrigger(request, before) {
      SuccessReleasesOne(site, request, existing, trigger, before, after);
    } else {
      assert trigger != request.componentTag by {
        NameIsLonger(request);
      }
      SuccessLeavesTwo(site, request, trigger, after);
    }
  }

  lemma SuccessReleasesOne(site: Site, request: Request, existing: Option<string>, trigger: string, before: Repo,
                           after: Repo)
    requires ReleaseTrigger.AllPublishable(site.isVersion, request.components) && Fetched(before)
    requires NoNewTrigger(request, before)
    requires Existing(site, before.local, request.commit, Success(existing))
    requires existing.Some? ==> existing.value in before.local
    requires Chosen(site, before, request, existing) == Success(trigger)
    requires First(site, request, before).1.Success? && Second(site, request, trigger, before).1.Success?
    requires after == Last(site, request, trigger, before)
    ensures Released(site, request, after)
  {
    assert existing.Some? ==> trigger in Triggers(before.local, request.commit);
    LastPublishes(site, request, trigger, before);
    LastTriggers(site, request, trigger, before);
    SettledKeeps(site, request, trigger, true, before, after, Success(()));
    if existing.None? {
      CreatedLists(site, request, trigger, before);
    }
    assert ReleasedBy(site, request, after, trigger);
  }

  lemma SuccessLeavesTwo(site: Site, request: Request, trigger: string, after: Repo)
    requires IsTrigger(request.componentTag) && IsTrigger(trigger) && trigger != request.componentTag
    requires Published(after, request.componentTag, request.commit) && Published(after, trigger, request.commit)
    ensures !Released(site, request, after)
  {
    assert request.componentTag in Triggers(after.local, request.commit);
    assert trigger in Triggers(after.local, request.commit);
  }

  lemma NameIsLonger(request: Request)
    ensures TriggerName(request) != request.componentTag
  {
    ReplacedAt(request.componentTag);
  }

  /** A trigger that the run creates lists the components. */
  lemma CreatedLists(site: Site, request: Request, trigger: string, before: Repo)
    requires ReleaseTrigger.AllPublishable(site.isVersion, request.components)
    requires IsTrigger(trigger) && Triggers(before.local, request.commit) == {} && NoNewTrigger(request, before)
    requires First(site, request, before).1.Success? && Second(site, request, trigger, before).1.Success?
    ensures Listing(site, Last(site, request, trigger, before).local[trigger]) == Success(Some(request.components))
  {
    var first := First(site, request, before);
    EnsuredKeeps(site, before, request.componentTag, request.commit, []);
    EnsuredPublishes(site, first.0, trigger, request.commit, request.components);
    assert trigger in first.0.local ==> trigger in Triggers(before.local, request.commit);
    var tag := Last(site, request, trigger, before).local[trigger];
    ListsWhatItWasWrittenFor(site, request.components, tag);
  }

  /* ---------- which triggers are usable ---------- */

  /** A trigger is usable exactly when it verifies and its message lists components. */
  lemma UsableExact(site: Site, tag: Tag)
    ensures TriggerFault(site, tag).None? <==>
            tag.verifies && exists components :: Listing(site, tag) == Success(Some(components))
    ensures TriggerFault(site, tag) == Some(UnverifiedTrigger) <==> !tag.verifies
    ensures TriggerFault(site, tag) == Some(UnreadableTrigger) <==> tag.verifies && Listing(site, tag).Failure?
  {
    if tag.verifies && Listing(site, tag).Success? && Listing(site, tag).value.Some? {
      assert Listing(site, tag) == Success(Some(Listing(site, tag).value.value));
    }
  }

  /** The tag of a component is not usable as a trigger: what it says lists nothing. */
  lemma ComponentListsNothing(site: Site, tag: string, components: seq<Component>, target: string, stamp: nat)
    requires !IsTrigger(tag) && '\n' !in tag
    ensures Listing(site, Tag(target, MessageOf(tag, components), true, stamp)) == Success(None)
    ensures TriggerFault(site, Tag(target, MessageOf(tag, components), true, stamp)) == Some(NoComponentsMarker)
  {
    var message := "Release " + tag;
    NoBlankLine(message);
    assert Split("", '\n') == [""];
  }

  lemma NoBlankLine(message: string)
    requires '\n' !in message
    ensures ReleaseTrigger.Body(message) == ""
  {
    forall i: nat ensures !OccursAt(message, "\n\n", i) {
      if i + 2 <= |message| {
        assert message[i..i + 2][0] == message[i];
      }
    }
    ReleaseListing.BodyExact(message);
  }

  /* ---------- the name of a trigger ---------- */

  lemma {:induction false} ReplacedAt(tag: string)
    ensures |Underscored(tag)| == |tag|
    ensures forall i | 0 <= i < |tag| :: Underscored(tag)[i] == if tag[i] == '/' then '_' else tag[i]
  {
    if tag != "" {
      ReplacedAt(tag[1..]);
    }
  }

  /** Git writes a commit as hex digits. */
  predicate IsHash(commit: string) {
    |commit| >= 12 && forall i | 0 <= i < |commit| :: commit[i] in "0123456789abcdef"
  }

  lemma NoSlash(a: string, b: string)
    requires '/' !in a && '/' !in b
    ensures '/' !in a + b
  {
  }

  lemma RestHasNoSlash(middle: string, short: string)
    requires '/' !in middle && '/' !in short
    ensures '/' !in "resume-" + middle + "-" + short
  {
    NoSlash("resume-", middle);
    NoSlash("resume-" + middle, "-");
    NoSlash("resume-" + middle + "-", short);
  }

  lemma ShortHasNoSlash(commit: string)
    requires IsHash(commit)
    ensures '/' !in commit[..12]
  {
    forall i | 0 <= i < 12 ensures commit[..12][i] != '/' {
      assert commit[..12][i] == commit[i];
    }
  }

  /** What follows the prefix that the release workflow listens to is one path segment. */
  lemma TriggerNameIsOneSegment(request: Request)
    requires IsHash(request.commit)
    ensures var name := TriggerName(request);
      "plugins-v3/release/" < name && '/' !in name[|"plugins-v3/release/"|..]
  {
    var middle, short := Underscored(request.componentTag), request.commit[..12];
    ReplacedAt(request.componentTag);
    ShortHasNoSlash(request.commit);
    RestHasNoSlash(middle, short);
    assert TriggerName(request) == TRIGGER_PREFIX + ("resume-" + middle + "-" + short);
  }

  /** The tags are equal, or differ only where one has a slash and the other an underscore. */
  predicate SameUpToSlashes(a: string, b: string) {
    |a| == |b| && forall i | 0 <= i < |a| :: a[i] == b[i] || (a[i] in "/_" && b[i] in "/_")
  }

  /** Two requests share a trigger exactly when the first twelve characters of their commits agree and their
      component tags are equal up to slashes. */
  lemma TriggerNameExact(a: Request, b: Request)
    requires IsHash(a.commit) && IsHash(b.commit)
    ensures TriggerName(a) == TriggerName(b) <==>
            a.commit[..12] == b.commit[..12] && SameUpToSlashes(a.componentTag, b.componentTag)
  {
    var x, y := Underscored(a.componentTag), Underscored(b.componentTag);
    ReplacedAt(a.componentTag);
    ReplacedAt(b.componentTag);
    SameUnderscored(a.componentTag, b.componentTag);
    var front := TRIGGER_PREFIX + "resume-";
    NamePieces(front, x, a.commit[..12]);
    NamePieces(front, y, b.commit[..12]);
    assert TriggerName(a) == front + x + "-" + a.commit[..12] && TriggerName(b) == front + y + "-" + b.commit[..12];
  }

  lemma NamePieces(front: string, middle: string, short: string)
    requires |short| == 12
    ensures var name := front + middle + "-" + short;
      |name| == |front| + |middle| + 13 && name[|front|..|name| - 13] == middle && name[|name| - 12..] == short
  {
  }

  lemma SameUnderscored(a: string, b: string)
    ensures Underscored(a) == Underscored(b) <==> SameUpToSlashes(a, b)
  {
    ReplacedAt(a);
    ReplacedAt(b);
    if Underscored(a) == Underscored(b) {
      forall i | 0 <= i < |a| ensures a[i] == b[i] || (a[i] in "/_" && b[i] in "/_") {
        assert Underscored(a)[i] == Underscored(b)[i];
      }
    }
    if SameUpToSlashes(a, b) {
      forall i | 0 <= i < |a| ensures Underscored(a)[i] == Underscored(b)[i] {
        assert a[i] == b[i] || (a[i] in "/_" && b[i] in "/_");
      }
    }
  }
}
