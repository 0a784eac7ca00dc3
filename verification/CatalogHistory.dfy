/** What serialised publish runs keep, whatever they publish and wherever each of them stops. */
module CatalogHistory {
  import opened Wrappers
  import opened ByteStrings
  import opened CatalogPreflight
  import opened CatalogRuns

  /* ---------- histories ---------- */

  /** All plans use the site's one redirect. */
  ghost predicate SameRedirect(p: GenerationPlan, q: GenerationPlan) {
    && p.redirect.jsonUrl == q.redirect.jsonUrl && p.redirect.bundleUrl == q.redirect.bundleUrl
    && p.redirectTag == q.redirectTag && p.redirect.json == q.redirect.json
  }

  /** Runs one after the other. Each may publish another plan from other prepared files; only the
      stores are shared. */
  ghost predicate Serialised(site: Site, runs: seq<Run>) {
    && (forall k {:trigger Ran(site, runs[k])} | 0 <= k < |runs| :: Ran(site, runs[k]))
    && (forall k, l | 0 <= k < |runs| && 0 <= l < |runs| :: SameRedirect(runs[k].plan, runs[l].plan))
    && (forall k | 0 < k < |runs| :: StoresKept(runs[k - 1].after, runs[k].before))
  }

  ghost predicate HashedUrl(plan: GenerationPlan, url: string) {
    url !in {plan.redirect.jsonUrl, plan.redirect.bundleUrl}
  }

  /* ---------- immutability ---------- */

  /** Every object present stays, with its bytes; the redirect files alone may change. */
  ghost predicate Immutable(plan: GenerationPlan, w: World, w': World) {
    && (forall url | url in w.r2 && HashedUrl(plan, url) :: SameAt(w.r2, w'.r2, url))
    && (forall tag, name | tag in w.releases && tag != plan.redirectTag && name in w.releases[tag] ::
          SameAt(w.releases[tag], ReleaseOf(w'.releases, tag), name))
  }

  lemma RunIsImmutable(site: Site, run: Run)
    requires Ran(site, run)
    ensures Immutable(run.plan, run.before, run.after)
  {
    forall tag, name | tag in run.before.releases && tag != run.plan.redirectTag && name in run.before.releases[tag]
      ensures SameAt(run.before.releases[tag], ReleaseOf(run.after.releases, tag), name)
    {
    }
  }

  /** No serialised run ever changes the bytes of a hashed object, whichever plan put it there. */
  lemma {:induction false} HashedObjectsAreImmutable(site: Site, runs: seq<Run>, i: nat, j: nat)
    requires Serialised(site, runs) && i <= j < |runs|
    ensures Immutable(runs[i].plan, runs[i].before, runs[j].after)
  {
    RunIsImmutable(site, runs[j]);
    if i < j {
      HashedObjectsAreImmutable(site, runs, i, j - 1);
      ImmutableTransitive(runs[i].plan, runs[j].plan, runs[i].before, runs[j - 1].after, runs[j].before, runs[j].after);
    }
  }

  lemma ImmutableTransitive(p: GenerationPlan, q: GenerationPlan, a: World, b: World, c: World, d: World)
    requires SameRedirect(p, q) && Immutable(p, a, b) && StoresKept(b, c) && Immutable(q, c, d)
    ensures Immutable(p, a, d)
  {
    forall url | url in a.r2 && HashedUrl(p, url) ensures SameAt(a.r2, d.r2, url) {
      assert SameAt(a.r2, b.r2, url);
      assert SameAt(c.r2, d.r2, url);
    }
    forall tag, name | tag in a.releases && tag != p.redirectTag && name in a.releases[tag]
      ensures SameAt(a.releases[tag], ReleaseOf(d.releases, tag), name)
    {
      assert SameAt(a.releases[tag], ReleaseOf(b.releases, tag), name);
      assert SameAt(c.releases[tag], ReleaseOf(d.releases, tag), name);
    }
  }

  /* ---------- what a run may touch ---------- */

  /** Whatever a run changes is its own: on R2 the two redirect files, and objects of its assets that were not
      there; on GitHub the three redirect files of the redirect release, and assets that its generation release
      did not have; among the files a companion of its plan. */
  lemma TouchesOnlyItsOwn(site: Site, run: Run)
    requires Ran(site, run)
    ensures forall url | !SameAt(run.before.r2, run.after.r2, url) ::
              || url in {run.plan.redirect.jsonUrl, run.plan.redirect.bundleUrl}
              || (url !in run.before.r2 && exists i | 0 <= i < |run.plan.assets| :: run.plan.assets[i].r2Url == url)
    ensures forall tag, name | !SameAt(ReleaseOf(run.before.releases, tag), ReleaseOf(run.after.releases, tag), name) ::
              || (&& tag == run.plan.redirectTag
                  && name in {run.plan.redirect.json, run.plan.redirect.bundle, run.plan.redirect.sigstore})
              || (&& tag == run.plan.generationTag && name !in ReleaseOf(run.before.releases, tag)
                  && exists i | 0 <= i < |run.plan.assets| :: run.plan.assets[i].name == name)
    ensures run.before.releases.Keys <= run.after.releases.Keys
    ensures forall name | !SameAt(run.before.dist, run.after.dist, name) ::
              exists i | 0 <= i < |run.plan.assets| :: run.plan.assets[i].name == name && !IsData(run.plan, i)
  {
    var plan, b, a := run.plan, run.before, run.after;
    forall tag, name | !SameAt(ReleaseOf(b.releases, tag), ReleaseOf(a.releases, tag), name)
      ensures || (&& tag == plan.redirectTag
                  && name in {plan.redirect.json, plan.redirect.bundle, plan.redirect.sigstore})
              || (&& tag == plan.generationTag && name !in ReleaseOf(b.releases, tag)
                  && exists i | 0 <= i < |plan.assets| :: plan.assets[i].name == name)
    {
      ReleaseTouched(plan, b.releases, a.releases, a.dist, tag, name);
    }
  }

  lemma ReleaseTouched(plan: GenerationPlan, releases: map<string, Objects>, releases': map<string, Objects>,
                       dist: Objects, tag: string, name: string)
    requires ReleasesExtend(plan, releases, releases', dist)
    requires RedirectReleaseStep(plan, ReleaseOf(releases, plan.redirectTag), ReleaseOf(releases', plan.redirectTag),
                                 dist)
    requires !SameAt(ReleaseOf(releases, tag), ReleaseOf(releases', tag), name)
    ensures || (&& tag == plan.redirectTag
                && name in {plan.redirect.json, plan.redirect.bundle, plan.redirect.sigstore})
            || (&& tag == plan.generationTag && name !in ReleaseOf(releases, tag)
                && exists i | 0 <= i < |plan.assets| :: plan.assets[i].name == name)
  {
    assert name in ReleaseOf(releases, plan.generationTag) ==>
             SameAt(releases[plan.generationTag], ReleaseOf(releases', plan.generationTag), name);
  }

  /** The run put these bytes there: they are those of the asset's file when it ended. */
  ghost predicate PutBy(run: Run, url: string, bytes: Bytes) {
    exists i | 0 <= i < |run.plan.assets| ::
      && run.plan.assets[i].r2Url == url && run.plan.assets[i].name in run.after.dist
      && run.after.dist[run.plan.assets[i].name] == bytes
  }

  /** Every hashed object that is on R2 after serialised runs was there before them, with its bytes, or one of the
      runs put it there, with the bytes of its own file. */
  lemma {:induction false} HashedObjectsHaveASource(site: Site, runs: seq<Run>, i: nat, j: nat, url: string)
    requires Serialised(site, runs) && i <= j < |runs|
    requires url in runs[j].after.r2 && HashedUrl(runs[i].plan, url)
    ensures || (url in runs[i].before.r2 && runs[i].before.r2[url] == runs[j].after.r2[url])
            || exists k | i <= k <= j :: PutBy(runs[k], url, runs[j].after.r2[url])
  {
    assert SameRedirect(runs[i].plan, runs[j].plan);
    NewObjectIsPut(site, runs[j], url);
    if url in runs[j].before.r2 && i < j {
      assert StoresKept(runs[j - 1].after, runs[j].before);
      HashedObjectsHaveASource(site, runs, i, j - 1, url);
      if k :| i <= k <= j - 1 && PutBy(runs[k], url, runs[j - 1].after.r2[url]) {
        assert PutBy(runs[k], url, runs[j].after.r2[url]);
      }
    }
  }

  lemma NewObjectIsPut(site: Site, run: Run, url: string)
    requires Ran(site, run) && url in run.after.r2 && HashedUrl(run.plan, url)
    ensures url in run.before.r2 ==> run.before.r2[url] == run.after.r2[url]
    ensures url !in run.before.r2 ==> PutBy(run, url, run.after.r2[url])
  {
    if url in run.before.r2 {
      assert SameAt(run.before.r2, run.after.r2, url);
    } else {
      var i :| 0 <= i < |run.plan.assets| && run.plan.assets[i].r2Url == url
        && Planned(run.plan, run.after.dist, i, run.after.r2[url]);
      assert PutBy(run, url, run.after.r2[url]);
    }
  }

  /* ---------- redirect safety ---------- */

  /** Every hashed asset of the plan is on both stores with these files' bytes. */
  ghost predicate OnBothStores(plan: GenerationPlan, dist: Objects, w: World) {
    forall i | 0 <= i < |plan.assets| ::
      && plan.assets[i].name in dist
      && Remote(plan, R2, w.r2, w.releases, i) == Some(dist[plan.assets[i].name])
      && Remote(plan, GitHub, w.r2, w.releases, i) == Some(dist[plan.assets[i].name])
  }

  lemma OnBothStoresStays(plan: GenerationPlan, dist: Objects, w: World, w': World)
    requires WellFormed(plan) && OnBothStores(plan, dist, w) && Immutable(plan, w, w')
    ensures OnBothStores(plan, dist, w')
  {
    forall i | 0 <= i < |plan.assets|
      ensures Remote(plan, R2, w'.r2, w'.releases, i) == Some(dist[plan.assets[i].name])
      ensures Remote(plan, GitHub, w'.r2, w'.releases, i) == Some(dist[plan.assets[i].name])
    {
      assert HashedUrl(plan, plan.assets[i].r2Url);
      assert SameAt(w.r2, w'.r2, plan.assets[i].r2Url);
      assert SameAt(w.releases[plan.generationTag], ReleaseOf(w'.releases, plan.generationTag), plan.assets[i].name);
    }
  }

  /** Run k put these redirect bytes there, and its assets are on both stores of world w. */
  ghost predicate BackedBy(runs: seq<Run>, k: nat, redirect: Bytes, w: World)
    requires k < |runs|
  {
    && runs[k].plan.redirect.json in runs[k].after.dist
    && runs[k].after.dist[runs[k].plan.redirect.json] == redirect
    && OnBothStores(runs[k].plan, runs[k].after.dist, w)
  }

  /** A run keeps what another run's plan calls immutable. */
  lemma ImmutableForOthers(site: Site, runs: seq<Run>, k: nat, j: nat)
    requires Serialised(site, runs) && k < j < |runs|
    ensures Immutable(runs[k].plan, runs[j - 1].after, runs[j].after)
  {
    var b, c := runs[j - 1].after, runs[j].before;
    RunIsImmutable(site, runs[j]);
    assert SameRedirect(runs[k].plan, runs[j].plan) && StoresKept(b, c);
    ImmutableTransitive(runs[k].plan, runs[j].plan, b, b, c, runs[j].after);
  }

  lemma RanWellFormed(site: Site, run: Run)
    requires Ran(site, run)
    ensures WellFormed(run.plan)
  {
  }

  lemma BackedStays(site: Site, runs: seq<Run>, k: nat, redirect: Bytes, j: nat)
    requires Serialised(site, runs) && 0 < j < |runs| && k < j && BackedBy(runs, k, redirect, runs[j - 1].after)
    ensures BackedBy(runs, k, redirect, runs[j].after)
  {
    RanWellFormed(site, runs[k]);
    ImmutableForOthers(site, runs, k, j);
    OnBothStoresStays(runs[k].plan, runs[k].after.dist, runs[j - 1].after, runs[j].after);
  }

  lemma MovedRedirectIsBacked(site: Site, run: Run)
    requires Ran(site, run) && !R2RedirectKept(run.plan, run.before, run.after)
    ensures run.plan.redirect.json in run.after.dist && run.plan.redirect.jsonUrl in run.after.r2
    ensures run.after.r2[run.plan.redirect.jsonUrl] == run.after.dist[run.plan.redirect.json]
    ensures OnBothStores(run.plan, run.after.dist, run.after)
  {
  }

  /** The run changed what R2 serves as its redirect. */
  ghost predicate MovesR2(run: Run) {
    !SameAt(run.before.r2, run.after.r2, run.plan.redirect.jsonUrl)
  }

  /** The run changed the redirect file of the stable release. */
  ghost predicate MovesStable(run: Run) {
    var tag := run.plan.redirectTag;
    !SameAt(ReleaseOf(run.before.releases, tag), ReleaseOf(run.after.releases, tag), run.plan.redirect.json)
  }

  /** A run that leaves R2's redirect alone leaves it backed. */
  lemma R2RedirectStays(site: Site, runs: seq<Run>, k: nat, j: nat)
    requires Serialised(site, runs) && k < j < |runs| && !MovesR2(runs[j]) && R2Backed(runs, k, j - 1)
    ensures R2Backed(runs, k, j)
  {
    assert StoresKept(runs[j - 1].after, runs[j].before);
    assert SameRedirect(runs[j - 1].plan, runs[j].plan);
    BackedStays(site, runs, k, runs[j - 1].after.r2[runs[j].plan.redirect.jsonUrl], j);
  }

  ghost predicate R2Backed(runs: seq<Run>, k: nat, j: nat)
    requires k < |runs| && j < |runs|
  {
    var url := runs[j].plan.redirect.jsonUrl;
    url in runs[j].after.r2 && BackedBy(runs, k, runs[j].after.r2[url], runs[j].after)
  }

  ghost predicate StableServes(run: Run) {
    run.plan.redirect.json in ReleaseOf(run.after.releases, run.plan.redirectTag)
  }

  ghost predicate StableBacked(runs: seq<Run>, k: nat, j: nat)
    requires k < |runs| && j < |runs|
  {
    StableServes(runs[j])
    && BackedBy(runs, k, ReleaseOf(runs[j].after.releases, runs[j].plan.redirectTag)[runs[j].plan.redirect.json],
                runs[j].after)
  }

  /** Redirect safety. After any number of serialised runs, each stopped anywhere: if some run m moved
      the redirect of R2, what R2 serves now was moved there by some run k, and every hashed asset of
      that run's plan is on both stores with the planned bytes. */
  lemma {:induction false} R2RedirectIsBacked(site: Site, runs: seq<Run>, m: nat, j: nat) returns (k: nat)
    requires Serialised(site, runs) && m <= j < |runs| && MovesR2(runs[m])
    ensures k <= j && MovesR2(runs[k]) && R2Backed(runs, k, j)
    decreases j
  {
    if MovesR2(runs[j]) {
      k := j;
      MovedR2IsBacked(site, runs, j);
    } else {
      k := R2RedirectIsBacked(site, runs, m, j - 1);
      R2RedirectStays(site, runs, k, j);
    }
  }

  lemma MovedR2IsBacked(site: Site, runs: seq<Run>, j: nat)
    requires Serialised(site, runs) && j < |runs| && MovesR2(runs[j])
    ensures R2Backed(runs, j, j)
  {
    MovedRedirectIsBacked(site, runs[j]);
  }

  /** A run that leaves the stable release's redirect alone leaves it backed. */
  lemma StableRedirectStays(site: Site, runs: seq<Run>, k: nat, j: nat)
    requires Serialised(site, runs) && k < j < |runs| && !MovesStable(runs[j]) && StableBacked(runs, k, j - 1)
    ensures StableBacked(runs, k, j)
  {
    assert StoresKept(runs[j - 1].after, runs[j].before);
    assert SameRedirect(runs[j - 1].plan, runs[j].plan);
    BackedStays(site, runs, k, ReleaseOf(runs[j].after.releases, runs[j].plan.redirectTag)[runs[j].plan.redirect.json],
                j);
  }

  lemma MovedStableBacks(site: Site, run: Run)
    requires Ran(site, run) && MovesStable(run) && StableServes(run)
    ensures run.plan.redirect.json in run.after.dist
    ensures ReleaseOf(run.after.releases, run.plan.redirectTag)[run.plan.redirect.json] ==
            run.after.dist[run.plan.redirect.json]
    ensures OnBothStores(run.plan, run.after.dist, run.after)
  {
    assert !RedirectReleaseKept(run.plan, run.before, run.after);
  }

  lemma MovedStableIsBacked(site: Site, runs: seq<Run>, j: nat)
    requires Serialised(site, runs) && j < |runs| && MovesStable(runs[j]) && StableServes(runs[j])
    ensures StableBacked(runs, j, j)
  {
    MovedStableBacks(site, runs[j]);
  }

  /** The same for the redirect file of the stable GitHub release, while that release serves one. */
  lemma {:induction false} GitHubRedirectIsBacked(site: Site, runs: seq<Run>, m: nat, j: nat) returns (k: nat)
    requires Serialised(site, runs) && m <= j < |runs| && MovesStable(runs[m]) && StableServes(runs[j])
    ensures k <= j && MovesStable(runs[k]) && StableBacked(runs, k, j)
    decreases j
  {
    if MovesStable(runs[j]) {
      k := j;
      MovedStableIsBacked(site, runs, j);
    } else {
      StillServes(site, runs, j);
      k := GitHubRedirectIsBacked(site, runs, m, j - 1);
      StableRedirectStays(site, runs, k, j);
    }
  }

  lemma StillServes(site: Site, runs: seq<Run>, i: nat)
    requires Serialised(site, runs) && 0 < i < |runs| && !MovesStable(runs[i]) && StableServes(runs[i])
    ensures StableServes(runs[i - 1])
  {
    assert StoresKept(runs[i - 1].after, runs[i].before);
    assert SameRedirect(runs[i - 1].plan, runs[i].plan);
  }

  /** The stable release never gets ahead of R2: when a run changes it, R2 serves the same redirect. */
  lemma StableReleaseMovesLast(site: Site, run: Run)
    requires Ran(site, run) && !RedirectReleaseKept(run.plan, run.before, run.after)
    ensures R2Serves(run.plan, run.after) && Complete(run.plan, run.after)
  {
  }

  /** A run with a refused tag, no redirect release, a missing file or any preflight conflict writes to
      neither store, and may at most have adopted verified companions. When companions on R2 have their
      data there, there is a conflict exactly when the stores are not clean. */
  lemma RefusedRunWritesNothing(site: Site, run: Run)
    requires Ran(site, run)
    requires || !site.tagOk(run.plan.generationTag, run.opts.targetCommit)
             || run.plan.redirectTag !in run.before.releases
             || !FilesPresent(run.plan, run.before.dist)
             || AfterGitHub(site, run.plan, run.before).conflicts != []
             || (CompanionsHaveData(run.plan, run.before.r2) && !Clean(site, run.plan, run.before))
    ensures StoresKept(run.before, run.after) && run.result.Failure?
    ensures FilesAdopt(site, run.plan, run.before, run.after.dist)
  {
    if FilesPresent(run.plan, run.before.dist) && CompanionsHaveData(run.plan, run.before.r2) {
      PreflightSound(site, run.plan, run.before);
    }
  }

  /* ---------- no lost update ---------- */

  /** The last artifact of the redirect that R2 serves, if it serves a readable one. */
  ghost function LiveMaster(site: Site, plan: GenerationPlan, r2: Objects): Option<string> {
    if plan.redirect.jsonUrl in r2 then site.lastArtifact(r2[plan.redirect.jsonUrl]) else None
  }

  ghost predicate MovesRedirect(run: Run) {
    !R2RedirectKept(run.plan, run.before, run.after) || !RedirectReleaseKept(run.plan, run.before, run.after)
  }

  /** A run that changes a redirect file of R2 or of the stable release, or succeeds, found the redirect that it
      was merged onto, or its own. Without a merge base it found none or a readable one. */
  lemma MovesFromItsBase(site: Site, run: Run)
    requires Ran(site, run)
    requires MovesRedirect(run) || run.result.Success?
    ensures match run.opts.expectedMergeBase
      case Some(base) => LiveMaster(site, run.plan, run.before.r2) in {Some(base), Some(run.plan.masterName)}
      case None => run.plan.redirect.jsonUrl in run.before.r2 ==> LiveMaster(site, run.plan, run.before.r2).Some?
  {
    MovesUnderMergeBase(site, run);
    MergeBaseExact(site, run.plan, run.opts, run.before.r2);
  }

  lemma MovesUnderMergeBase(site: Site, run: Run)
    requires Ran(site, run)
    requires MovesRedirect(run) || run.result.Success?
    ensures MergeBaseHolds(site, run.plan, run.opts, run.before.r2)
  {
  }

  lemma MergeBaseExact(site: Site, plan: GenerationPlan, opts: PublishOptions, r2: Objects)
    requires MergeBaseHolds(site, plan, opts, r2)
    ensures match opts.expectedMergeBase
      case Some(base) => LiveMaster(site, plan, r2) in {Some(base), Some(plan.masterName)}
      case None => plan.redirect.jsonUrl in r2 ==> LiveMaster(site, plan, r2).Some?
  {
  }

  /** The exact refusal. A run in whose way nothing else is, and whose operations all work, succeeds if and only
      if it finds its merge base or its own redirect; otherwise its error says what it found, and both redirects
      stay as they were. */
  lemma RefusesExactly(site: Site, run: Run)
    requires Ran(site, run) && run.reliable && CanUpload(site, run.plan, run.opts, run.before)
    ensures var live := LiveMaster(site, run.plan, run.before.r2);
      var there := run.plan.redirect.jsonUrl in run.before.r2;
      var base, own := run.opts.expectedMergeBase, run.plan.masterName;
      && (run.result.Success? <==>
          if there then live.Some? && (base in {None, live} || live == Some(own)) else base == None)
      && (run.result == Failure(NoLiveRedirect) <==> !there && base.Some?)
      && (run.result == Failure(LiveRedirectUnreadable) <==> there && live == None)
      && (forall name :: run.result == Failure(MergeBaseMoved(name)) <==>
            there && live == Some(name) && base.Some? && name != base.value && name != own)
    ensures run.result.Failure? ==> !MovesRedirect(run)
  {
    if run.result.Failure? {
      StopsAtRedirect(site, run.plan, run.opts, run.before, run.result.error);
    }
  }

  /** The run's master is the last artifact of the redirect it was prepared with. */
  ghost predicate OwnRedirect(site: Site, run: Run) {
    run.plan.redirect.json in run.before.dist
    && site.lastArtifact(run.before.dist[run.plan.redirect.json]) == Some(run.plan.masterName)
  }

  lemma MoveShowsMaster(site: Site, run: Run)
    requires Ran(site, run) && MovesR2(run) && OwnRedirect(site, run)
    ensures LiveMaster(site, run.plan, run.after.r2) == Some(run.plan.masterName)
  {
    assert run.plan.redirect.json !in Names(run.plan);
  }

  /** The last run before run j that moved R2's redirect, when run i did. */
  lemma {:induction false} LastMover(site: Site, runs: seq<Run>, i: nat, j: nat) returns (m: nat)
    requires Serialised(site, runs) && i < j < |runs| && MovesR2(runs[i])
    ensures i <= m < j && MovesR2(runs[m])
    ensures SameAt(runs[m].after.r2, runs[j].before.r2, runs[j].plan.redirect.jsonUrl)
    decreases j
  {
    assert StoresKept(runs[j - 1].after, runs[j].before);
    assert SameRedirect(runs[j - 1].plan, runs[j].plan);
    if MovesR2(runs[j - 1]) {
      m := j - 1;
    } else {
      m := LastMover(site, runs, i, j - 1);
    }
  }

  /** Between runs i and j nothing moves R2's redirect back to the base, and runs of j's master were merged onto
      the base as well. */
  ghost predicate OnlyForward(site: Site, runs: seq<Run>, base: string, i: nat, j: nat)
    requires i < j < |runs|
  {
    forall k | i <= k <= j ::
      && OwnRedirect(site, runs[k])
      && (MovesR2(runs[k]) && k < j ==> runs[k].plan.masterName != base)
      && (runs[k].plan.masterName == runs[j].plan.masterName ==> runs[k].opts.expectedMergeBase == Some(base))
  }

  /** No lost update. Of runs with different masters that were merged onto one base, with nothing moving the
      redirect back to the base in between, at most one moves R2's redirect. */
  lemma {:induction false} NoLostUpdate(site: Site, runs: seq<Run>, base: string, i: nat, j: nat)
    requires Serialised(site, runs) && i < j < |runs| && OnlyForward(site, runs, base, i, j)
    requires runs[i].plan.masterName != runs[j].plan.masterName && MovesR2(runs[i])
    ensures !MovesR2(runs[j])
    decreases j
  {
    if MovesR2(runs[j]) {
      var m := LastMover(site, runs, i, j);
      LiveIsOwnMaster(site, runs, base, m, j);
      if m > i {
        NoLostUpdate(site, runs, base, i, m);
      }
    }
  }

  lemma LiveIsOwnMaster(site: Site, runs: seq<Run>, base: string, m: nat, j: nat)
    requires Serialised(site, runs) && m < j < |runs| && OnlyForward(site, runs, base, m, j)
    requires MovesR2(runs[m]) && MovesR2(runs[j])
    requires SameAt(runs[m].after.r2, runs[j].before.r2, runs[j].plan.redirect.jsonUrl)
    ensures runs[m].plan.masterName == runs[j].plan.masterName
  {
    assert SameRedirect(runs[m].plan, runs[j].plan);
    MoveShowsMaster(site, runs[m]);
    MovesFromItsBase(site, runs[j]);
  }
}
