/** Where runs of the resume protocol end, over any history of interruptions and of fresh clones. */
module ResumeConvergence {
  import opened Wrappers
  import opened ResumableTags
  import opened ResumeHistory
  import ReleaseTrigger

  /* ---------- when a run succeeds ---------- */

  /** The tag can be settled: it is there as the same verified object at the commit, or nowhere and can be
      signed. */
  predicate TagFits(site: Site, repo: Repo, tag: string, commit: string) {
    && site.head == commit
    && if tag in repo.local then
         && repo.local[tag].target == commit && repo.local[tag].verifies
         && (tag in repo.remote ==> repo.remote[tag] == repo.local[tag])
       else
         tag !in repo.remote && site.trusted
  }

  lemma EnsuredExact(site: Site, repo: Repo, tag: string, commit: string, components: seq<Component>)
    ensures Ensured(site, repo, tag, commit, components).1.Success? <==> TagFits(site, repo, tag, commit)
  {
  }

  /** The trigger that a run goes on with, when its tag can be settled. */
  ghost predicate ResumesWith(site: Site, request: Request, repo: Repo, t: string) {
    && TagFits(site, repo, t, request.commit)
    && if Triggers(repo.local, request.commit) == {} then t == TriggerName(request)
       else AcceptableTrigger(site, request, repo.local, t)
  }

  ghost predicate CanResume(site: Site, request: Request, repo: Repo) {
    && TagFits(site, repo, request.componentTag, request.commit)
    && exists t :: ResumesWith(site, request, repo, t)
  }

  /** Settling the component first does not matter to the trigger. */
  lemma SecondExact(site: Site, request: Request, trigger: string, before: Repo)
    requires First(site, request, before).1.Success?
    requires trigger in before.local || trigger != request.componentTag
    ensures Second(site, request, trigger, before).1.Success? <==> TagFits(site, before, trigger, request.commit)
  {
    EnsuredExact(site, First(site, request, before).0, trigger, request.commit, request.components);
  }

  /** What a run that got through chose is what it can resume with. */
  lemma ChosenResumes(site: Site, request: Request, repo: Repo, existing: Option<string>)
    requires Existing(site, repo.local, request.commit, Success(existing))
    requires existing.Some? ==> existing.value in repo.local
    requires Chosen(site, repo, request, existing).Success?
    ensures var t := Chosen(site, repo, request, existing).value;
      && (t in repo.local || t == TriggerName(request))
      && (TagFits(site, repo, t, request.commit) ==> ResumesWith(site, request, repo, t))
  {
    if existing.Some? {
      assert existing.value in Triggers(repo.local, request.commit);
      assert AcceptableTrigger(site, request, repo.local, existing.value);
    }
  }

  lemma SuccessCanResume(site: Site, request: Request, before: Repo, after: Repo)
    requires Resumed(site, request, true, before, after, Success(()))
    ensures CanResume(site, request, before)
  {
    var existing :| ResumedWith(site, request, existing, true, before, after, Success(()));
    var t := Chosen(site, before, request, existing).value;
    ChosenResumes(site, request, before, existing);
    EnsuredExact(site, before, request.componentTag, request.commit, []);
    NameIsLonger(request);
    SecondExact(site, request, t, before);
    assert ResumesWith(site, request, before, t);
  }

  /** What a run can resume with is what it chooses. */
  lemma ResumesChooses(site: Site, request: Request, repo: Repo, t: string) returns (existing: Option<string>)
    requires ResumesWith(site, request, repo, t)
    ensures Triggers(repo.local, request.commit) == if existing.Some? then {existing.value} else {}
    ensures AllUsable(site, repo.local, request.commit) && (t in repo.local || t == TriggerName(request))
    ensures existing.Some? ==> existing.value in repo.local
    ensures Chosen(site, repo, request, existing) == Success(t)
  {
    existing := if Triggers(repo.local, request.commit) == {} then None else Some(t);
  }

  lemma StagesSucceed(site: Site, request: Request, before: Repo, t: string)
    requires TagFits(site, before, request.componentTag, request.commit) && ResumesWith(site, request, before, t)
    ensures First(site, request, before).1.Success? && Second(site, request, t, before).1.Success?
  {
    var existing := ResumesChooses(site, request, before, t);
    EnsuredExact(site, before, request.componentTag, request.commit, []);
    NameIsLonger(request);
    SecondExact(site, request, t, before);
  }

  lemma SettlingSucceeds(site: Site, request: Request, trigger: string, before: Repo, after: Repo,
                         result: Result<(), TagError>)
    requires Settled(site, request, trigger, true, before, after, result)
    requires First(site, request, before).1.Success? && Second(site, request, trigger, before).1.Success?
    ensures result == Success(())
  {
  }

  /** From every state: a run in which git does not fail succeeds if and only if the component's tag fits and
      the trigger at the commit, or else the name of a new one, fits and lists the components. */
  lemma SucceedsExactly(site: Site, request: Request, before: Repo, after: Repo, result: Result<(), TagError>)
    requires Resumed(site, request, true, before, after, result)
    ensures result.Success? <==> CanResume(site, request, before)
  {
    if result.Success? {
      SuccessCanResume(site, request, before, after);
    }
    if CanResume(site, request, before) {
      var t :| ResumesWith(site, request, before, t);
      var existing := ResumesChooses(site, request, before, t);
      GoesOn(site, request, before, after, result, existing);
      StagesSucceed(site, request, before, t);
      SettlingSucceeds(site, request, t, before, after, result);
    }
  }

  /* ---------- what every history keeps ---------- */

  /** A fresh clone of the remote. */
  function Recloned(repo: Repo): Repo {
    Repo(repo.remote, repo.remote, repo.clock)
  }

  /** A run can succeed, and could from a fresh clone, without a second trigger. */
  ghost predicate Steady(site: Site, request: Request, repo: Repo) {
    && Fetched(repo)
    && CanResume(site, request, repo) && CanResume(site, request, Recloned(repo))
    && (IsTrigger(request.componentTag) ==> request.componentTag in repo.remote)
  }

  lemma RecloneKeeps(site: Site, request: Request, repo: Repo)
    requires Steady(site, request, repo)
    ensures Steady(site, request, Recloned(repo))
  {
    SameRefs(site, request, Recloned(repo), Recloned(Recloned(repo)));
  }

  lemma SameRefs(site: Site, request: Request, a: Repo, b: Repo)
    requires a.local == b.local && a.remote == b.remote && CanResume(site, request, a)
    ensures CanResume(site, request, b)
  {
    var t :| ResumesWith(site, request, a, t);
    assert ResumesWith(site, request, b, t);
  }

  predicate Sound(tag: Tag, request: Request) {
    tag.verifies && tag.target == request.commit
  }

  /** The refs are some of those before, the component's tag and the trigger. */
  ghost predicate Between(site: Site, request: Request, t: string, before: Repo, refs: Refs) {
    && (forall x | x in refs :: x in {request.componentTag, t} || (x in before.local && before.local[x] == refs[x]))
    && (request.componentTag in refs ==> Sound(refs[request.componentTag], request))
    && (request.componentTag !in refs ==> request.componentTag !in before.local)
    && (t in refs ==> Sound(refs[t], request))
    && (t in refs && t in before.local ==> refs[t] == before.local[t])
    && (t in refs && t !in before.local ==> Listing(site, refs[t]) == Success(Some(request.components)))
    && (t !in refs ==> t !in before.local)
  }

  /** From refs in between a run can resume with the same trigger. */
  lemma BetweenResumes(site: Site, request: Request, t: string, before: Repo, repo: Repo)
    requires TagFits(site, before, request.componentTag, request.commit) && ResumesWith(site, request, before, t)
    requires NoNewTrigger(request, before) && Fetched(repo) && Between(site, request, t, before, repo.local)
    ensures CanResume(site, request, repo)
  {
    BetweenTriggers(site, request, t, before, repo.local);
    assert t !in before.local ==> t == TriggerName(request);
    if t in repo.local {
      assert TriggerFault(site, repo.local[t]).None?;
      assert AcceptableTrigger(site, request, repo.local, t);
    }
    assert ResumesWith(site, request, repo, t);
  }

  lemma BetweenTriggers(site: Site, request: Request, t: string, before: Repo, refs: Refs)
    requires TagFits(site, before, request.componentTag, request.commit) && ResumesWith(site, request, before, t)
    requires NoNewTrigger(request, before) && Between(site, request, t, before, refs)
    ensures Triggers(refs, request.commit) == if t in refs then {t} else {}
    ensures t in before.local ==> AcceptableTrigger(site, request, before.local, t)
  {
    var existing := ResumesChooses(site, request, before, t);
    assert t in before.local ==> IsTrigger(t) && t in Triggers(before.local, request.commit);
    assert request.componentTag in before.local && IsTrigger(request.componentTag) ==>
             request.componentTag in Triggers(before.local, request.commit);
    forall x | x in Triggers(refs, request.commit) ensures x == t {
      if x in before.local && before.local[x] == refs[x] {
        assert x in Triggers(before.local, request.commit);
      }
    }
    assert t in refs ==> IsTrigger(t) && t in Triggers(refs, request.commit);
  }

  lemma StagesAreAll(site: Site, request: Request, trigger: string, reliable: bool, before: Repo, after: Repo,
                     result: Result<(), TagError>)
    requires First(site, request, before).1.Success? && Second(site, request, trigger, before).1.Success?
    requires Settled(site, request, trigger, reliable, before, after, result)
    ensures var first, second := First(site, request, before).0, Second(site, request, trigger, before).0;
      after == before || after == first || after == second || after == Last(site, request, trigger, before)
  {
  }


  /** Settling the component leaves the clone in between. */
  lemma FirstBetween(site: Site, request: Request, t: string, before: Repo)
    requires TagFits(site, before, request.componentTag, request.commit) && ResumesWith(site, request, before, t)
    ensures Between(site, request, t, before, before.local)
    ensures Between(site, request, t, before, First(site, request, before).0.local)
    ensures t !in before.local ==> t !in First(site, request, before).0.local && t != request.componentTag
  {
    var existing := ResumesChooses(site, request, before, t);
    NameIsLonger(request);
  }

  /** And so does settling the trigger. */
  lemma SecondBetween(site: Site, request: Request, t: string, before: Repo)
    requires ReleaseTrigger.AllPublishable(site.isVersion, request.components)
    requires TagFits(site, before, request.componentTag, request.commit) && ResumesWith(site, request, before, t)
    ensures Between(site, request, t, before, Second(site, request, t, before).0.local)
  {
    FirstBetween(site, request, t, before);
    var first, second := First(site, request, before).0, Second(site, request, t, before).0;
    if t !in before.local {
      assert IsTrigger(t);
      ListsWhatItWasWrittenFor(site, request.components, second.local[t]);
    }
  }

  ghost predicate PushedBoth(request: Request, t: string, before: Repo, last: Repo) {
    && Extends(before.remote, last.remote, {request.componentTag, t})
    && request.componentTag in last.remote && t in last.remote
  }

  lemma StagesRemote(site: Site, request: Request, t: string, before: Repo)
    requires Fetched(before)
    requires First(site, request, before).1.Success? && Second(site, request, t, before).1.Success?
    ensures First(site, request, before).0.remote == before.remote == Second(site, request, t, before).0.remote
    ensures PushedBoth(request, t, before, Last(site, request, t, before))
    ensures Fetched(First(site, request, before).0) && Fetched(Second(site, request, t, before).0)
    ensures Fetched(Last(site, request, t, before))
    ensures Last(site, request, t, before).local == Second(site, request, t, before).0.local
  {
    var first, second, last := First(site, request, before), Second(site, request, t, before),
                               Last(site, request, t, before);
    EnsuredKeeps(site, before, request.componentTag, request.commit, []);
    EnsuredKeeps(site, first.0, t, request.commit, request.components);
    LastFetched(site, request, t, before);
    LastPublishes(site, request, t, before);
    SettledKeeps(site, request, t, true, before, last, Success(()));
  }

  /** A stage of a run is steady when the state before it is. */
  lemma StageSteady(site: Site, request: Request, t: string, before: Repo, repo: Repo)
    requires Steady(site, request, before) && ResumesWith(site, request, before, t)
    requires Fetched(repo) && Between(site, request, t, before, repo.local)
    requires repo.remote == before.remote || PushedBoth(request, t, before, repo)
    ensures Steady(site, request, repo)
  {
    BetweenResumes(site, request, t, before, repo);
    if repo.remote == before.remote {
      SameRefs(site, request, Recloned(before), Recloned(repo));
    } else {
      assert Between(site, request, t, before, repo.remote);
      BetweenResumes(site, request, t, before, Recloned(repo));
    }
  }

  /** However a run ends, what it leaves is steady. */
  lemma RunKeepsSteady(site: Site, request: Request, reliable: bool, before: Repo, after: Repo,
                       result: Result<(), TagError>)
    requires ReleaseTrigger.AllPublishable(site.isVersion, request.components) && Steady(site, request, before)
    requires Resumed(site, request, reliable, before, after, result)
    ensures Steady(site, request, after)
  {
    if existing :| ResumedWith(site, request, existing, reliable, before, after, result) {
      var t :| ResumesWith(site, request, before, t);
      OneChoice(site, request, before, t, existing);
      SettledKeepsSteady(site, request, t, reliable, before, after, result);
    }
  }

  lemma SettledKeepsSteady(site: Site, request: Request, t: string, reliable: bool, before: Repo, after: Repo,
                           result: Result<(), TagError>)
    requires ReleaseTrigger.AllPublishable(site.isVersion, request.components) && Steady(site, request, before)
    requires ResumesWith(site, request, before, t) && Settled(site, request, t, reliable, before, after, result)
    ensures Steady(site, request, after)
  {
    StagesSucceed(site, request, before, t);
    StagesAreAll(site, request, t, reliable, before, after, result);
    FirstBetween(site, request, t, before);
    SecondBetween(site, request, t, before);
    StagesRemote(site, request, t, before);
    StageSteady(site, request, t, before, after);
  }

  lemma OneChoice(site: Site, request: Request, repo: Repo, t: string, existing: Option<string>)
    requires ResumesWith(site, request, repo, t) && Existing(site, repo.local, request.commit, Success(existing))
    requires existing.Some? ==> existing.value in repo.local
    ensures Chosen(site, repo, request, existing) == Success(t)
  {
    var other := ResumesChooses(site, request, repo, t);
    if existing.Some? && other.Some? {
      assert existing.value in {other.value};
    }
    assert existing == other;
  }

  /* ---------- histories ---------- */

  /** An interrupted run of the request, or a fresh clone. */
  ghost predicate Attempted(site: Site, request: Request, before: Repo, after: Repo) {
    after == Recloned(before) || exists result :: Resumed(site, request, false, before, after, result)
  }

  ghost predicate Attempts(site: Site, request: Request, states: seq<Repo>) {
    states != [] && forall i | 0 < i < |states| :: Attempted(site, request, states[i - 1], states[i])
  }

  lemma AttemptKeeps(site: Site, request: Request, before: Repo, after: Repo)
    requires ReleaseTrigger.AllPublishable(site.isVersion, request.components) && Steady(site, request, before)
    requires Attempted(site, request, before, after)
    ensures Steady(site, request, after)
  {
    if after == Recloned(before) {
      RecloneKeeps(site, request, before);
    } else {
      var result :| Resumed(site, request, false, before, after, result);
      RunKeepsSteady(site, request, false, before, after, result);
    }
  }

  lemma {:induction false} AttemptsKeep(site: Site, request: Request, states: seq<Repo>)
    requires ReleaseTrigger.AllPublishable(site.isVersion, request.components)
    requires Attempts(site, request, states) && Steady(site, request, states[0])
    ensures Steady(site, request, states[|states| - 1])
    decreases |states|
  {
    if |states| > 1 {
      var n := |states| - 1;
      AttemptsKeep(site, request, states[..n]);
      assert Attempted(site, request, states[n - 1], states[n]);
      AttemptKeeps(site, request, states[n - 1], states[n]);
    }
  }

  /** Convergence: from a steady state, after any number of interrupted runs of the same request and of fresh
      clones, a run in which git does not fail succeeds and leaves the component and exactly one trigger
      published; every tag that was there is still the same object; and running it once more changes
      nothing. */
  lemma ResumeConverges(site: Site, request: Request, states: seq<Repo>, after: Repo, result: Result<(), TagError>,
                        again: Repo, second: Result<(), TagError>)
    requires ReleaseTrigger.AllPublishable(site.isVersion, request.components)
    requires Attempts(site, request, states) && Steady(site, request, states[0])
    requires Resumed(site, request, true, states[|states| - 1], after, result)
    requires Resumed(site, request, true, after, again, second)
    ensures result == Success(()) && Released(site, request, after)
    ensures ReplacesNothing(states[|states| - 1], after, request)
    ensures second == Success(()) && again == after
  {
    var before := states[|states| - 1];
    AttemptsKeep(site, request, states);
    SteadyReleases(site, request, before, after, result);
    NothingReplaced(site, request, true, before, after, result);
    RunKeepsSteady(site, request, true, before, after, result);
    SteadyReleases(site, request, after, again, second);
    ReleasedStays(site, request, after, again);
  }

  lemma SteadyReleases(site: Site, request: Request, before: Repo, after: Repo, result: Result<(), TagError>)
    requires ReleaseTrigger.AllPublishable(site.isVersion, request.components) && Steady(site, request, before)
    requires Resumed(site, request, true, before, after, result)
    ensures result == Success(()) && Released(site, request, after)
  {
    SucceedsExactly(site, request, before, after, result);
    SuccessReleases(site, request, true, before, after);
  }

  lemma ReleasedStays(site: Site, request: Request, repo: Repo, after: Repo)
    requires Released(site, request, repo) && Resumed(site, request, true, repo, after, Success(()))
    ensures after == repo
  {
    var t :| ReleasedBy(site, request, repo, t);
    assert t in Triggers(repo.local, request.commit);
    var existing :| ResumedWith(site, request, existing, true, repo, after, Success(()));
    assert existing.Some? ==> existing.value in Triggers(repo.local, request.commit);
    assert existing == Some(t);
    NothingToPush(repo);
  }

  /* ---------- exactly when ---------- */

  /** A run in which git does not fail, after a history from the state. */
  ghost predicate Followed(site: Site, request: Request, start: Repo, states: seq<Repo>, after: Repo,
                           result: Result<(), TagError>)
  {
    && Attempts(site, request, states) && states[0] == start
    && Resumed(site, request, true, states[|states| - 1], after, result)
  }

  /** The conclusion of one history. */
  ghost predicate Converged(site: Site, request: Request, start: Repo, states: seq<Repo>, after: Repo,
                            result: Result<(), TagError>)
  {
    Followed(site, request, start, states, after, result) ==> result == Success(()) && Released(site, request, after)
  }

  /** After every history from the state, a run in which git does not fail leaves the component and exactly
      one trigger published. */
  ghost predicate Converges(site: Site, request: Request, start: Repo) {
    forall states, after, result :: Converged(site, request, start, states, after, result)
  }

  /** When git does not fail, every run ends in some way. */
  lemma RunEnds(site: Site, request: Request, before: Repo) returns (after: Repo, result: Result<(), TagError>)
    ensures Resumed(site, request, true, before, after, result)
  {
    var triggers := Triggers(before.local, request.commit);
    if t :| t in triggers && TriggerFault(site, before.local[t]).Some? {
      after, result := before, Failure(TriggerFault(site, before.local[t]).value);
      FaultIsError(site, before.local, request.commit, t, result.error);
    } else if |triggers| > 1 {
      after, result := before, Failure(SeveralTriggers);
    } else if triggers == {} {
      after, result := ChosenEnds(site, request, before, None);
    } else {
      var t :| t in triggers;
      OnlyOne(triggers, t);
      after, result := ChosenEnds(site, request, before, Some(t));
    }
  }

  lemma ChosenEnds(site: Site, request: Request, before: Repo, existing: Option<string>)
    returns (after: Repo, result: Result<(), TagError>)
    requires Existing(site, before.local, request.commit, Success(existing))
    requires existing.Some? ==> existing.value in before.local
    ensures Resumed(site, request, true, before, after, result)
  {
    var chosen := Chosen(site, before, request, existing);
    if chosen.Failure? {
      after, result := before, Failure(chosen.error);
    } else {
      var first, second := First(site, request, before), Second(site, request, chosen.value, before);
      if first.1.Failure? {
        after, result := first.0, Failure(first.1.error);
      } else if second.1.Failure? {
        after, result := second.0, Failure(second.1.error);
      } else {
        after, result := Last(site, request, chosen.value, before), Success(());
      }
    }
    assert ResumedWith(site, request, existing, true, before, after, result);
  }

  /** From a fetched state: every history converges if and only if the state is steady. */
  lemma ConvergesExactly(site: Site, request: Request, start: Repo)
    requires ReleaseTrigger.AllPublishable(site.isVersion, request.components) && Fetched(start)
    ensures Converges(site, request, start) <==> Steady(site, request, start)
  {
    if Steady(site, request, start) {
      forall states, after, result ensures Converged(site, request, start, states, after, result) {
        if Followed(site, request, start, states, after, result) {
          AttemptsKeep(site, request, states);
          SteadyReleases(site, request, states[|states| - 1], after, result);
        }
      }
    } else {
      var states, after, result := DoesNotConverge(site, request, start);
      assert !Converged(site, request, start, states, after, result);
    }
  }

  lemma DoesNotConverge(site: Site, request: Request, start: Repo)
    returns (states: seq<Repo>, after: Repo, result: Result<(), TagError>)
    requires ReleaseTrigger.AllPublishable(site.isVersion, request.components)
    requires Fetched(start) && !Steady(site, request, start)
    ensures Followed(site, request, start, states, after, result)
    ensures result.Failure? || !Released(site, request, after)
  {
    if !CanResume(site, request, start) {
      states := [start];
      after, result := RunEnds(site, request, start);
      SucceedsExactly(site, request, start, after, result);
    } else {
      var clone := Recloned(start);
      states := [start, clone];
      assert Attempted(site, request, start, clone);
      after, result := RunEnds(site, request, clone);
      SucceedsExactly(site, request, clone, after, result);
      if result.Success? {
        SuccessReleases(site, request, true, clone, after);
      }
    }
  }

  /* ---------- from nothing ---------- */

  /** Nothing of the release is there yet, HEAD is the commit, and the key is trusted. */
  ghost predicate Untouched(site: Site, request: Request, repo: Repo) {
    && site.head == request.commit && site.trusted
    && Fetched(repo) && Triggers(repo.local, request.commit) == {}
    && request.componentTag !in repo.local && TriggerName(request) !in repo.local
  }

  /** A state without anything of the release is steady if and only if the component is not named like a
      trigger. */
  lemma UntouchedExactly(site: Site, request: Request, repo: Repo)
    requires Untouched(site, request, repo)
    ensures Steady(site, request, repo) <==> !IsTrigger(request.componentTag)
  {
    var clone := Recloned(repo);
    assert Triggers(clone.local, request.commit) <= Triggers(repo.local, request.commit);
    assert ResumesWith(site, request, repo, TriggerName(request));
    assert ResumesWith(site, request, clone, TriggerName(request));
  }

  /** A component that is named like a trigger makes two triggers, and no run after that succeeds. */
  lemma TwoTriggers(site: Site, request: Request, before: Repo)
    requires IsTrigger(request.componentTag) && Untouched(site, request, before)
    ensures var trigger := TriggerName(request);
      var after := Last(site, request, trigger, before);
      && Resumed(site, request, true, before, after, Success(()))
      && Triggers(after.local, request.commit) == {request.componentTag, trigger}
      && !Acceptable(site, request, after.local)
  {
    var trigger := TriggerName(request);
    NameIsLonger(request);
    var first := First(site, request, before);
    assert trigger !in first.0.local && request.componentTag !in before.remote;
    var after := Last(site, request, trigger, before);
    assert ResumedWith(site, request, None, true, before, after, Success(()));
    LastPublishes(site, request, trigger, before);
    SettledKeeps(site, request, trigger, true, before, after, Success(()));
    forall t | t in Triggers(after.local, request.commit) ensures t in {request.componentTag, trigger} {
      assert t in before.local ==> t in Triggers(before.local, request.commit);
    }
    assert request.componentTag in Triggers(after.local, request.commit)
           && trigger in Triggers(after.local, request.commit);
  }
}
