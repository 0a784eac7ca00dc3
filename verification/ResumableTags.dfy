/** Resuming the signed tags of one release after an interruption. */
module ResumableTags {
  import opened Wrappers
  import opened Text
  import ReleaseTrigger

  type Component = ReleaseTrigger.Component

  const TRIGGER_PREFIX: string := "plugins-v3/release/"

  /* ---------- tags ---------- */

  /** A tag object: two are the same object exactly when all of this is the same. */
  datatype Tag = Tag(target: string, message: string, verifies: bool, stamp: nat)

  type Refs = map<string, Tag>

  /** A clone and its remote. `clock` tells apart objects made at different times. */
  datatype Repo = Repo(local: Refs, remote: Refs, clock: nat)

  /** What does not change: the commit that HEAD is, whether the signing key is trusted, and which
      strings are versions. */
  datatype Site = Site(head: string, trusted: bool, isVersion: string -> bool)

  datatype Request = Request(componentTag: string, components: seq<Component>, commit: string)

  datatype TagError =
    | UnverifiedTrigger | UnreadableTrigger | NoComponentsMarker | SeveralTriggers | DoesNotListExactly
    | NotHead | RemoteTagNotFetched | TargetsOtherCommit | Unverified | ObjectsDiffer | PushRejected
    | GitFailed

  predicate IsTrigger(tag: string) {
    TRIGGER_PREFIX <= tag
  }

  function Underscored(tag: string): string {
    ReplaceAll(tag, '/', "_")
  }

  /** The name that a resumed release always gives its trigger. */
  function TriggerName(request: Request): (name: string)
    ensures IsTrigger(name)
  {
    var short := if |request.commit| < 12 then request.commit else request.commit[..12];
    TRIGGER_PREFIX + "resume-" + Underscored(request.componentTag) + "-" + short
  }

  function MessageOf(tag: string, components: seq<Component>): string {
    if IsTrigger(tag) then ReleaseTrigger.Message(components, []) else "Release " + tag
  }

  function Listing(site: Site, tag: Tag): ReleaseTrigger.Listing {
    ReleaseTrigger.Read(site.isVersion, tag.message)
  }

  /* ---------- the trigger of a commit ---------- */

  ghost function Triggers(refs: Refs, commit: string): set<string> {
    set t | t in refs && IsTrigger(t) && refs[t].target == commit
  }

  /** What makes a trigger at the commit unusable, if anything. */
  function TriggerFault(site: Site, tag: Tag): Option<TagError> {
    if !tag.verifies then Some(UnverifiedTrigger)
    else if Listing(site, tag).Failure? then Some(UnreadableTrigger)
    else if Listing(site, tag).value.None? then Some(NoComponentsMarker)
    else None
  }

  ghost predicate AllUsable(site: Site, refs: Refs, commit: string) {
    forall t | t in Triggers(refs, commit) :: TriggerFault(site, refs[t]).None?
  }

  ghost predicate FaultyTrigger(site: Site, refs: Refs, commit: string, t: string, e: TagError) {
    t in Triggers(refs, commit) && TriggerFault(site, refs[t]) == Some(e)
  }

  /** The one usable trigger at the commit, none when there is none, and an error otherwise. */
  ghost predicate Existing(site: Site, refs: Refs, commit: string, r: Result<Option<string>, TagError>) {
    match r
    case Success(None) => Triggers(refs, commit) == {}
    case Success(Some(t)) => Triggers(refs, commit) == {t} && AllUsable(site, refs, commit)
    case Failure(SeveralTriggers) => |Triggers(refs, commit)| > 1 && AllUsable(site, refs, commit)
    case Failure(e) => exists t :: FaultyTrigger(site, refs, commit, t, e)
  }

  /* ---------- one tag ---------- */

  function Minted(site: Site, repo: Repo, tag: string, target: string, message: string): Repo {
    repo.(local := repo.local[tag := Tag(target, message, site.trusted, repo.clock)], clock := repo.clock + 1)
  }

  /** Settling one tag when git does not fail: the repository then, and whether it must be pushed. */
  function Ensured(site: Site, repo: Repo, tag: string, commit: string, components: seq<Component>):
      (Repo, Result<bool, TagError>) {
    if site.head != commit then (repo, Failure(NotHead))
    else if tag !in repo.local then
      if tag in repo.remote then (repo, Failure(RemoteTagNotFetched))
      else (Minted(site, repo, tag, site.head, MessageOf(tag, components)), if site.trusted then Success(true)
        else Failure(Unverified))
    else if repo.local[tag].target != commit then (repo, Failure(TargetsOtherCommit))
    else if !repo.local[tag].verifies then (repo, Failure(Unverified))
    else if tag !in repo.remote then (repo, Success(true))
    else if repo.remote[tag] != repo.local[tag] then (repo, Failure(ObjectsDiffer))
    else (repo, Success(false))
  }

  /** The tags on the remote after they are pushed. */
  function Pushed(repo: Repo, tags: set<string>): Repo {
    repo.(remote := repo.remote + map t | t in tags && t in repo.local :: repo.local[t])
  }

  /* ---------- the whole of it ---------- */

  /** The trigger to use, once the commit's existing one is known. */
  function Chosen(site: Site, repo: Repo, request: Request, existing: Option<string>): Result<string, TagError>
    requires existing.Some? ==> existing.value in repo.local
  {
    if existing.None? then Success(TriggerName(request))
    else
      var listing := Listing(site, repo.local[existing.value]);
      var listed := if listing.Success? && listing.value.Some? then listing.value.value else [];
      if request.components != [] && listed != request.components then Failure(DoesNotListExactly)
      else Success(existing.value)
  }

  function First(site: Site, request: Request, before: Repo): (Repo, Result<bool, TagError>) {
    Ensured(site, before, request.componentTag, request.commit, [])
  }

  function Second(site: Site, request: Request, trigger: string, before: Repo): (Repo, Result<bool, TagError>) {
    Ensured(site, First(site, request, before).0, trigger, request.commit, request.components)
  }

  function ToPush(site: Site, request: Request, trigger: string, before: Repo): set<string> {
    (if First(site, request, before).1 == Success(true) then {request.componentTag} else {})
    + if Second(site, request, trigger, before).1 == Success(true) then {trigger} else {}
  }

  function Last(site: Site, request: Request, trigger: string, before: Repo): Repo {
    Pushed(Second(site, request, trigger, before).0, ToPush(site, request, trigger, before))
  }

  /** What settling both tags and pushing them does; when git may fail, it can stop at any step. */
  ghost predicate Settled(site: Site, request: Request, trigger: string, reliable: bool,
                          before: Repo, after: Repo, result: Result<(), TagError>) {
    var first, second := First(site, request, before), Second(site, request, trigger, before);
    || (first.1.Failure? && after == first.0 && result == Failure(first.1.error))
    || (first.1.Success? && second.1.Failure? && after == second.0 && result == Failure(second.1.error))
    || (first.1.Success? && second.1.Success? && after == Last(site, request, trigger, before) && result == Success(()))
    || (!reliable && result == Failure(GitFailed) && Interrupted(site, request, trigger, before, after))
  }

  ghost predicate Interrupted(site: Site, request: Request, trigger: string, before: Repo, after: Repo) {
    var first, second := First(site, request, before), Second(site, request, trigger, before);
    || after == before
    || after == first.0
    || (first.1.Success? && after == second.0)
    || (first.1.Success? && second.1.Success? && after == Last(site, request, trigger, before))
  }

  /** The effect of one run. */
  ghost predicate Resumed(site: Site, request: Request, reliable: bool, before: Repo, after: Repo,
                          result: Result<(), TagError>) {
    || (!reliable && after == before && result == Failure(GitFailed))
    || (after == before && result.Failure? && Existing(site, before.local, request.commit, Failure(result.error)))
    || exists existing :: ResumedWith(site, request, existing, reliable, before, after, result)
  }

  ghost predicate ResumedWith(site: Site, request: Request, existing: Option<string>, reliable: bool,
                              before: Repo, after: Repo, result: Result<(), TagError>) {
    && Existing(site, before.local, request.commit, Success(existing))
    && (existing.Some? ==> existing.value in before.local)
    && var chosen := Chosen(site, before, request, existing);
       if chosen.Failure? then after == before && result == Failure(chosen.error)
       else Settled(site, request, chosen.value, reliable, before, after, result)
  }

  /* ---------- the commands ---------- */

  /** A clone of the repository, with the remote's tags beside its own. When it is not reliable, any git
      command may fail, before or after its effect. */
  class Clone {
    const site: Site
    const reliable: bool
    var local: Refs
    var remote: Refs
    var clock: nat

    constructor (site: Site, reliable: bool, repo: Repo)
      ensures this.site == site && this.reliable == reliable && Now() == repo
    {
      this.site, this.reliable := site, reliable;
      local, remote, clock := repo.local, repo.remote, repo.clock;
    }

    ghost function Now(): Repo
      reads this
    {
      Repo(local, remote, clock)
    }

    method Fails() returns (failed: bool)
      ensures reliable ==> !failed
    {
      failed := *;
      if reliable {
        failed := false;
      }
    }

    method CreateAndVerifySignedTag(tag: string, message: string) returns (result: Result<(), TagError>)
      modifies this
      ensures var minted := Minted(site, old(Now()), tag, site.head, message);
        || (Now() == minted && result == if site.trusted then Success(()) else Failure(Unverified))
        || (!reliable && (Now() == old(Now()) || Now() == minted) && result == Failure(GitFailed))
    {
      var failed := Fails();
      if failed {
        return Failure(GitFailed);
      }
      local, clock := local[tag := Tag(site.head, message, site.trusted, clock)], clock + 1;
      failed := Fails();
      if failed {
        return Failure(GitFailed);
      }
      return if site.trusted then Success(()) else Failure(Unverified);
    }

    /** Settle one tag: create it when it is nowhere, check it when it is there. */
    method EnsureResumableSignedTagListing(tag: string, commit: string, components: seq<Component>)
        returns (result: Result<bool, TagError>)
      modifies this
      ensures var e := Ensured(site, old(Now()), tag, commit, components);
        || (Now() == e.0 && result == e.1)
        || (!reliable && (Now() == old(Now()) || Now() == e.0) && result == Failure(GitFailed))
    {
      var failed := Fails();
      if failed {
        return Failure(GitFailed);
      }
      if site.head != commit {
        return Failure(NotHead);
      }
      if tag !in local {
        if tag in remote {
          return Failure(RemoteTagNotFetched);
        }
        var message := "Release " + tag;
        if IsTrigger(tag) {
          message := ReleaseTrigger.ReleaseTriggerMessage(components, []);
        }
        var created := CreateAndVerifySignedTag(tag, message);
        return if created.Failure? then Failure(created.error) else Success(true);
      }
      if local[tag].target != commit {
        return Failure(TargetsOtherCommit);
      }
      if !local[tag].verifies {
        return Failure(Unverified);
      }
      if tag !in remote {
        return Success(true);
      }
      return if remote[tag] != local[tag] then Failure(ObjectsDiffer) else Success(false);
    }

    /** What is wrong with a trigger, if anything. */
    method CheckTrigger(tag: string) returns (fault: Option<TagError>)
      requires tag in local
      ensures fault == TriggerFault(site, local[tag])
    {
      if !local[tag].verifies {
        return Some(UnverifiedTrigger);
      }
      var listing := ReleaseTrigger.ReleaseTriggerComponents(site.isVersion, local[tag].message);
      if listing.Failure? {
        return Some(UnreadableTrigger);
      }
      return if listing.value.None? then Some(NoComponentsMarker) else None;
    }

    /** The trigger that is already at the commit. */
    method ExistingReleaseTriggerForCommit(commit: string) returns (result: Result<Option<string>, TagError>)
      ensures Existing(site, local, commit, result) || (!reliable && result == Failure(GitFailed))
    {
      var left, matching := local.Keys, {};
      while left != {}
        invariant left <= local.Keys
        invariant matching == Triggers(local, commit) - left
        invariant forall t | t in matching :: TriggerFault(site, local[t]).None?
        decreases |left|
      {
        var failed := Fails();
        if failed {
          return Failure(GitFailed);
        }
        var tag :| tag in left;
        if IsTrigger(tag) && local[tag].target == commit {
          var fault := CheckTrigger(tag);
          if fault.Some? {
            FaultIsError(site, local, commit, tag, fault.value);
            return Failure(fault.value);
          }
          matching := matching + {tag};
        }
        left := left - {tag};
      }
      result := Only(commit, matching);
    }

    method Only(commit: string, matching: set<string>) returns (result: Result<Option<string>, TagError>)
      requires matching == Triggers(local, commit) && AllUsable(site, local, commit)
      ensures Existing(site, local, commit, result)
    {
      if |matching| > 1 {
        return Failure(SeveralTriggers);
      }
      if matching == {} {
        return Success(None);
      }
      var tag :| tag in matching;
      OnlyOne(matching, tag);
      return Success(Some(tag));
    }

    /** Push tags that the remote does not have, all or none. */
    method PushAtomic(tags: set<string>) returns (result: Result<(), TagError>)
      modifies this`remote
      ensures || (Now() == Pushed(old(Now()), tags) && result == Success(()))
              || (!reliable && (Now() == old(Now()) || Now() == Pushed(old(Now()), tags))
                  && result == Failure(GitFailed))
    {
      var failed := Fails();
      if failed {
        return Failure(GitFailed);
      }
      remote := remote + map t | t in tags && t in local :: local[t];
      failed := Fails();
      return if failed then Failure(GitFailed) else Success(());
    }

    /** Settle the trigger's name first, then both tags, then push what the remote lacks. */
    method ResumeSignedTags(request: Request) returns (result: Result<(), TagError>)
      modifies this
      ensures Resumed(site, request, reliable, old(Now()), Now(), result)
    {
      var existing := ExistingReleaseTriggerForCommit(request.commit);
      if existing.Failure? {
        return Failure(existing.error);
      }
      assert existing.value.Some? ==> existing.value.value in Triggers(local, request.commit);
      var chosen := ChooseTrigger(request, existing.value);
      if chosen.Failure? {
        assert ResumedWith(site, request, existing.value, reliable, old(Now()), Now(), Failure(chosen.error));
        return Failure(chosen.error);
      }
      result := SettleAndPush(request, chosen.value);
      assert ResumedWith(site, request, existing.value, reliable, old(Now()), Now(), result);
    }

    method ChooseTrigger(request: Request, existing: Option<string>) returns (chosen: Result<string, TagError>)
      requires existing.Some? ==> existing.value in local
      ensures chosen == Chosen(site, Now(), request, existing)
    {
      if existing.None? {
        return Success(TriggerName(request));
      }
      if request.components != [] {
        var listing := ReleaseTrigger.ReleaseTriggerComponents(site.isVersion, local[existing.value].message);
        var listed := if listing.Success? && listing.value.Some? then listing.value.value else [];
        if listed != request.components {
          return Failure(DoesNotListExactly);
        }
      }
      return Success(existing.value);
    }

    method SettleAndPush(request: Request, trigger: string) returns (result: Result<(), TagError>)
      modifies this
      ensures Settled(site, request, trigger, reliable, old(Now()), Now(), result)
    {
      var tags: set<string> := {};
      var component := EnsureResumableSignedTagListing(request.componentTag, request.commit, []);
      if component.Failure? {
        return Failure(component.error);
      }
      if component.value {
        tags := tags + {request.componentTag};
      }
      var listing := EnsureResumableSignedTagListing(trigger, request.commit, request.components);
      if listing.Failure? {
        return Failure(listing.error);
      }
      if listing.value {
        tags := tags + {trigger};
      }
      assert tags == ToPush(site, request, trigger, old(Now()));
      if tags == {} {
        NothingToPush(Now());
        return Success(());
      }
      result := PushAtomic(tags);
    }
  }

  lemma FaultIsError(site: Site, refs: Refs, commit: string, t: string, e: TagError)
    requires FaultyTrigger(site, refs, commit, t, e)
    ensures Existing(site, refs, commit, Failure(e))
  {
  }

  lemma OnlyOne<T>(s: set<T>, a: T)
    requires |s| <= 1 && a in s
    ensures s == {a}
  {
    assert s == {a} + (s - {a});
  }

  lemma NothingToPush(repo: Repo)
    ensures Pushed(repo, {}) == repo
  {
    assert repo.remote + map[] == repo.remote;
  }
}
