/** Where attempts to publish one generation end. */
module CatalogConvergence {
  import opened Wrappers
  import opened ByteStrings
  import opened CatalogPreflight
  import opened CatalogRuns
  import opened CatalogPhases

  /* ---------- what every attempt keeps ---------- */

  /** An attempt can publish, and can again once R2 serves this generation's redirect. */
  ghost predicate Publishable(site: Site, plan: GenerationPlan, opts: PublishOptions, w: World) {
    && CanPublish(site, plan, opts, w)
    && MergeBaseHolds(site, plan, opts, w.r2[plan.redirect.jsonUrl := w.dist[plan.redirect.json]])
  }

  /** Where companions on R2 have their data, an attempt can publish exactly in the clean worlds that have the
      files, the redirect release, the tag and the merge base. */
  lemma CanPublishWhenClean(site: Site, plan: GenerationPlan, opts: PublishOptions, w: World)
    requires WellFormed(plan) && CompanionsHaveData(plan, w.r2)
    ensures CanPublish(site, plan, opts, w) <==>
            && FilesPresent(plan, w.dist) && RedirectPresent(plan, w.dist)
            && plan.redirectTag in w.releases && site.tagOk(plan.generationTag, opts.targetCommit)
            && Clean(site, plan, w) && MergeBaseHolds(site, plan, opts, w.r2)
  {
    if FilesPresent(plan, w.dist) {
      PreflightSound(site, plan, w);
    }
  }

  /** Interrupted adoption leaves asset i fit for both passes: a companion that may have been torn is one
      that will be adopted. */
  lemma AdoptionFitsAt(site: Site, plan: GenerationPlan, r2: seq<Option<Bytes>>, gh: seq<Option<Bytes>>,
                       p: Preflight, q: Preflight, r: Preflight, p': Preflight, i: nat)
    requires DataFirst(plan) && i < |plan.assets| == |r2| == |gh| && Digested(plan, p) && p.adopted == {}
    requires PassOutcome(site, plan, r2, p, q) && q.conflicts == p.conflicts
    requires PassOutcome(site, plan, gh, q, r) && r.conflicts == q.conflicts && !StrandedAt(plan, r2, gh, i)
    requires Digested(plan, p') && p'.adopted == {} && TornAsAllowed(site, plan, r2, gh, p.dist, p'.dist)
    ensures Fits(site, plan, r2, p'.dist, {}, i)
  {
    TwoPassesAt(site, plan, r2, gh, p, q, r, i);
    assert Fits(site, plan, r2, p.dist, {}, i);
    if !IsData(plan, i) {
      DataUntorn(site, plan, r2, gh, p.dist, p'.dist, DataOf(plan, i));
    } else {
      DataUntorn(site, plan, r2, gh, p.dist, p'.dist, i);
    }
  }

  /** Files differ only where a companion of either store may replace one. */
  ghost predicate TornAsAllowed(site: Site, plan: GenerationPlan, r2: seq<Option<Bytes>>, gh: seq<Option<Bytes>>,
                                dist: Objects, dist': Objects)
    requires FilesPresent(plan, dist) && FilesPresent(plan, dist') && |plan.assets| == |r2| == |gh|
  {
    forall i | 0 <= i < |plan.assets| && dist'[plan.assets[i].name] != dist[plan.assets[i].name] ::
      Replaceable(site, plan, r2, dist, {}, i) || Replaceable(site, plan, gh, dist, {}, i)
  }

  lemma DataUntorn(site: Site, plan: GenerationPlan, r2: seq<Option<Bytes>>, gh: seq<Option<Bytes>>, dist: Objects,
                   dist': Objects, j: nat)
    requires FilesPresent(plan, dist) && FilesPresent(plan, dist') && j < |plan.assets| == |r2| == |gh|
    requires TornAsAllowed(site, plan, r2, gh, dist, dist') && IsData(plan, j)
    ensures dist'[plan.assets[j].name] == dist[plan.assets[j].name]
  {
  }

  lemma SecondFitsData(site: Site, plan: GenerationPlan, r2: seq<Option<Bytes>>, gh: seq<Option<Bytes>>,
                       p: Preflight, q: Preflight, r: Preflight, p': Preflight, q': Preflight, i: nat)
    requires i < |plan.assets| == |r2| == |gh| && Digested(plan, p) && IsData(plan, i)
    requires PassOutcome(site, plan, r2, p, q) && PassOutcome(site, plan, gh, q, r) && r.conflicts == q.conflicts
    requires Digested(plan, p') && TornAsAllowed(site, plan, r2, gh, p.dist, p'.dist)
    requires PassOutcome(site, plan, r2, p', q')
    ensures Fits(site, plan, gh, q'.dist, q'.adopted, i)
  {
    assert Fits(site, plan, gh, q.dist, q.adopted, i);
    DataUntorn(site, plan, r2, gh, p.dist, p'.dist, i);
    DataKept(site, plan, r2, p, q, i);
    DataKept(site, plan, r2, p', q', i);
  }

  lemma SecondFitsCompanion(site: Site, plan: GenerationPlan, r2: seq<Option<Bytes>>, gh: seq<Option<Bytes>>,
                            p: Preflight, q: Preflight, r: Preflight, p': Preflight, q': Preflight, i: nat)
    requires DataFirst(plan) && i < |plan.assets| == |r2| == |gh| && Digested(plan, p) && p.adopted == {}
    requires !IsData(plan, i)
    requires PassOutcome(site, plan, r2, p, q) && q.conflicts == p.conflicts
    requires PassOutcome(site, plan, gh, q, r) && r.conflicts == q.conflicts && !StrandedAt(plan, r2, gh, i)
    requires Digested(plan, p') && p'.adopted == {} && TornAsAllowed(site, plan, r2, gh, p.dist, p'.dist)
    requires PassOutcome(site, plan, r2, p', q')
    ensures Fits(site, plan, gh, q'.dist, q'.adopted, i)
  {
    TwoPassesAt(site, plan, r2, gh, p, q, r, i);
    AdoptionFitsAt(site, plan, r2, gh, p, q, r, p', i);
    assert Fits(site, plan, r2, p.dist, {}, i) && Fits(site, plan, gh, q.dist, q.adopted, i);
    assert q'.dist[plan.assets[i].name] == Settled(site, plan, r2, p'.dist, {}, i);
    assert q.dist[plan.assets[i].name] == Settled(site, plan, r2, p.dist, {}, i);
    var j := DataOf(plan, i);
    DataUntorn(site, plan, r2, gh, p.dist, p'.dist, j);
    DataKept(site, plan, r2, p, q, j);
    DataKept(site, plan, r2, p', q', j);
  }

  lemma DataKept(site: Site, plan: GenerationPlan, view: seq<Option<Bytes>>, p: Preflight, q: Preflight, j: nat)
    requires Digested(plan, p) && j < |plan.assets| == |view| && IsData(plan, j) && PassOutcome(site, plan, view, p, q)
    ensures q.dist[plan.assets[j].name] == p.dist[plan.assets[j].name]
  {
    assert q.dist[plan.assets[j].name] == Settled(site, plan, view, p.dist, p.adopted, j);
  }

  /** However adoption was interrupted, the passes end without conflicts again. */
  lemma AdoptionKeepsFits(site: Site, plan: GenerationPlan, w: World, dist: Objects)
    requires WellFormed(plan) && FilesPresent(plan, w.dist) && AfterGitHub(site, plan, w).conflicts == []
    requires !Stranded(plan, w) && FilesAdopt(site, plan, w, dist)
    ensures FilesPresent(plan, dist) && AfterGitHub(site, plan, w.(dist := dist)).conflicts == []
  {
    var w' := w.(dist := dist);
    var r2, gh := View(plan, R2, w.r2, w.releases), View(plan, GitHub, w.r2, w.releases);
    var p, q, r := Unexamined(plan, w.dist), AfterR2(site, plan, w), AfterGitHub(site, plan, w);
    var p', q' := Unexamined(plan, dist), AfterR2(site, plan, w');
    PassExact(site, plan, R2, r2, p);
    PassExact(site, plan, GitHub, gh, q);
    PassExact(site, plan, R2, r2, p');
    PassExact(site, plan, GitHub, gh, q');
    assert TornAsAllowed(site, plan, r2, gh, p.dist, p'.dist);
    forall i | 0 <= i < |plan.assets|
      ensures Fits(site, plan, r2, p'.dist, p'.adopted, i) && Fits(site, plan, gh, q'.dist, q'.adopted, i)
    {
      assert !StrandedAt(plan, r2, gh, i);
      AdoptionFitsAt(site, plan, r2, gh, p, q, r, p', i);
      if IsData(plan, i) {
        SecondFitsData(site, plan, r2, gh, p, q, r, p', q', i);
      } else {
        SecondFitsCompanion(site, plan, r2, gh, p, q, r, p', q', i);
      }
    }
  }

  lemma AdoptionKeepsCanPublish(site: Site, plan: GenerationPlan, opts: PublishOptions, w: World, dist: Objects)
    requires CanPublish(site, plan, opts, w) && FilesAdopt(site, plan, w, dist)
    ensures CanPublish(site, plan, opts, w.(dist := dist))
  {
    ConflictFreeExact(site, plan, w);
    AdoptionKeepsFits(site, plan, w, dist);
    ConflictFreeExact(site, plan, w.(dist := dist));
    AdoptionKeepsRedirect(site, plan, w, dist);
    assert Stranded(plan, w.(dist := dist)) <==> Stranded(plan, w);
  }

  /** Where everything published is the files, the passes find no conflict and change no file. */
  lemma AgreementFits(site: Site, plan: GenerationPlan, w: World)
    requires WellFormed(plan) && FilesPresent(plan, w.dist)
    requires Agrees(plan, R2, w, w.dist) && Agrees(plan, GitHub, w, w.dist)
    ensures AfterGitHub(site, plan, w).conflicts == [] && FilesPresent(plan, AfterGitHub(site, plan, w).dist)
    ensures Agrees(plan, R2, w, AfterGitHub(site, plan, w).dist)
  {
    var r2, gh := View(plan, R2, w.r2, w.releases), View(plan, GitHub, w.r2, w.releases);
    var p, q, r := Unexamined(plan, w.dist), AfterR2(site, plan, w), AfterGitHub(site, plan, w);
    PassExact(site, plan, R2, r2, p);
    PassExact(site, plan, GitHub, gh, q);
    forall i | 0 <= i < |plan.assets|
      ensures Fits(site, plan, r2, p.dist, p.adopted, i) && Fits(site, plan, gh, q.dist, q.adopted, i)
      ensures AgreesAt(plan, R2, w, r.dist, i)
    {
      assert AgreesAt(plan, R2, w, w.dist, i) && AgreesAt(plan, GitHub, w, w.dist, i);
      assert r2[i] == Remote(plan, R2, w.r2, w.releases, i) && gh[i] == Remote(plan, GitHub, w.r2, w.releases, i);
      assert q.dist[plan.assets[i].name] == Settled(site, plan, r2, p.dist, p.adopted, i);
      assert r.dist[plan.assets[i].name] == Settled(site, plan, gh, q.dist, q.adopted, i);
    }
  }

  /** What a run adds agrees with the files it settled on. */
  lemma WritesAgree(site: Site, run: Run)
    requires Ran(site, run) && FilesPresent(run.plan, run.after.dist)
    requires Agrees(run.plan, R2, run.before, run.after.dist) && Agrees(run.plan, GitHub, run.before, run.after.dist)
    ensures Agrees(run.plan, R2, run.after, run.after.dist) && Agrees(run.plan, GitHub, run.after, run.after.dist)
  {
    var plan, w, w' := run.plan, run.before, run.after;
    forall i | 0 <= i < |plan.assets|
      ensures AgreesAt(plan, R2, w', w'.dist, i) && AgreesAt(plan, GitHub, w', w'.dist, i)
    {
      var url, name := plan.assets[i].r2Url, plan.assets[i].name;
      assert AgreesAt(plan, R2, w, w'.dist, i) && AgreesAt(plan, GitHub, w, w'.dist, i);
      if url in w.r2 {
        assert SameAt(w.r2, w'.r2, url);
      } else if url in w'.r2 {
        var k :| 0 <= k < |plan.assets| && plan.assets[k].r2Url == url && Planned(plan, w'.dist, k, w'.r2[url]);
        assert k == i;
      }
      if name in ReleaseOf(w.releases, plan.generationTag) {
        assert SameAt(w.releases[plan.generationTag], ReleaseOf(w'.releases, plan.generationTag), name);
      } else if name in ReleaseOf(w'.releases, plan.generationTag) {
        var k :| 0 <= k < |plan.assets| && plan.assets[k].name == name
                 && Planned(plan, w'.dist, k, w'.releases[plan.generationTag][name]);
        assert k == i;
      }
    }
  }

  /** The merge base depends on nothing of R2 but its redirect. */
  lemma SameMergeBase(site: Site, plan: GenerationPlan, opts: PublishOptions, a: Objects, b: Objects)
    requires SameAt(a, b, plan.redirect.jsonUrl)
    ensures MergeBaseHolds(site, plan, opts, a) <==> MergeBaseHolds(site, plan, opts, b)
  {
  }

  lemma RunKeepsMergeBase(site: Site, run: Run)
    requires Ran(site, run) && Publishable(site, run.plan, run.opts, run.before)
    ensures RedirectPresent(run.plan, run.after.dist) && MergeBaseHolds(site, run.plan, run.opts, run.after.r2)
    ensures MergeBaseHolds(site, run.plan, run.opts,
                           run.after.r2[run.plan.redirect.jsonUrl := run.after.dist[run.plan.redirect.json]])
  {
    var plan, w, w' := run.plan, run.before, run.after;
    AdoptionKeepsRedirect(site, plan, w, w'.dist);
    assert plan.redirect.json !in Names(plan) && w'.dist[plan.redirect.json] == w.dist[plan.redirect.json];
    var moved := w.r2[plan.redirect.jsonUrl := w.dist[plan.redirect.json]];
    SameMergeBase(site, plan, run.opts, moved, w'.r2[plan.redirect.jsonUrl := w'.dist[plan.redirect.json]]);
    if SameAt(w.r2, w'.r2, plan.redirect.jsonUrl) {
      SameMergeBase(site, plan, run.opts, w.r2, w'.r2);
    } else {
      SameMergeBase(site, plan, run.opts, moved, w'.r2);
    }
  }

  /** A run that stops anywhere leaves its generation publishable. */
  lemma CrashKeepsPublishable(site: Site, run: Run)
    requires Ran(site, run) && Publishable(site, run.plan, run.opts, run.before)
    ensures Publishable(site, run.plan, run.opts, run.after)
  {
    var plan, w, w' := run.plan, run.before, run.after;
    RunKeepsMergeBase(site, run);
    if StoresKept(w, w') {
      AdoptionKeepsCanPublish(site, plan, run.opts, w, w'.dist);
      assert w' == w.(dist := w'.dist);
    } else {
      ConflictFreeExact(site, plan, w);
      WritesAgree(site, run);
      AgreementFits(site, plan, w');
    }
  }

  /* ---------- convergence ---------- */

  /** Runs one after the other, each a step. */
  ghost predicate Chained(step: Run -> bool, runs: seq<Run>) {
    && (forall k | 0 <= k < |runs| :: step(runs[k]))
    && (forall k | 0 < k < |runs| :: runs[k].before == runs[k - 1].after)
  }

  lemma {:induction false} ChainKeeps(step: Run -> bool, good: World -> bool, runs: seq<Run>, k: nat)
    requires Chained(step, runs) && k < |runs| && good(runs[0].before)
    requires forall run | step(run) && good(run.before) :: good(run.after)
    ensures good(runs[k].before)
  {
    if k > 0 {
      ChainKeeps(step, good, runs, k - 1);
      assert step(runs[k - 1]);
    }
  }

  lemma ChainOfTwo(step: Run -> bool, first: Run, second: Run)
    requires step(first) && step(second) && second.before == first.after
    ensures Chained(step, [first, second]) && Chained(step, [second])
  {
  }

  /** Attempts at one plan from one prepared directory, with no other writer in between. */
  ghost predicate Attempts(site: Site, plan: GenerationPlan, opts: PublishOptions, runs: seq<Run>) {
    Chained(run => Attempt(site, plan, opts, run), runs)
  }

  ghost predicate Attempt(site: Site, plan: GenerationPlan, opts: PublishOptions, run: Run) {
    Ran(site, run) && run.plan == plan && run.opts == opts
  }

  lemma AttemptKeepsPublishable(site: Site, plan: GenerationPlan, opts: PublishOptions, run: Run)
    requires Attempt(site, plan, opts, run) && Publishable(site, plan, opts, run.before)
    ensures Publishable(site, plan, opts, run.after)
  {
    CrashKeepsPublishable(site, run);
  }

  lemma AttemptsKeepPublishable(site: Site, plan: GenerationPlan, opts: PublishOptions, runs: seq<Run>, k: nat)
    requires Attempts(site, plan, opts, runs) && k < |runs| && Publishable(site, plan, opts, runs[0].before)
    ensures Attempt(site, plan, opts, runs[k]) && Publishable(site, plan, opts, runs[k].before)
  {
    var step, good := run => Attempt(site, plan, opts, run), w => Publishable(site, plan, opts, w);
    forall run | step(run) && good(run.before) ensures good(run.after) {
      AttemptKeepsPublishable(site, plan, opts, run);
    }
    ChainKeeps(step, good, runs, k);
    assert step(runs[k]);
  }

  /** Convergence. After any number of attempts stopped anywhere, one whose operations all work
      succeeds and both stores serve this generation, complete. */
  lemma RerunConverges(site: Site, plan: GenerationPlan, opts: PublishOptions, runs: seq<Run>, k: nat)
    requires Attempts(site, plan, opts, runs) && k < |runs| && Publishable(site, plan, opts, runs[0].before)
    requires runs[k].reliable
    ensures runs[k].result.Success?
    ensures Complete(plan, runs[k].after) && R2Serves(plan, runs[k].after) && GitHubServes(plan, runs[k].after)
  {
    AttemptsKeepPublishable(site, plan, opts, runs, k);
    ReliableAttempt(site, plan, opts, runs[k]);
  }

  lemma ReliableAttempt(site: Site, plan: GenerationPlan, opts: PublishOptions, run: Run)
    requires Attempt(site, plan, opts, run) && Publishable(site, plan, opts, run.before) && run.reliable
    ensures run.result.Success?
    ensures Complete(plan, run.after) && R2Serves(plan, run.after) && GitHubServes(plan, run.after)
  {
  }

  /* ---------- exactly when ---------- */

  /** The conclusion of one history from the world. */
  ghost predicate Converged(site: Site, plan: GenerationPlan, opts: PublishOptions, w: World, runs: seq<Run>) {
    AttemptsFrom(site, plan, opts, w, runs) ==> runs[|runs| - 1].result.Success?
  }

  /** Attempts from the world, the last of which has no failing operation. */
  ghost predicate AttemptsFrom(site: Site, plan: GenerationPlan, opts: PublishOptions, w: World, runs: seq<Run>) {
    runs != [] && Attempts(site, plan, opts, runs) && runs[0].before == w && runs[|runs| - 1].reliable
  }

  ghost predicate Converges(site: Site, plan: GenerationPlan, opts: PublishOptions, w: World) {
    forall runs :: Converged(site, plan, opts, w, runs)
  }

  /** Where the generation cannot be published, a run can fail though every operation works. */
  lemma RefusedRun(site: Site, plan: GenerationPlan, opts: PublishOptions, w: World) returns (run: Run)
    requires WellFormed(plan) && !CanPublish(site, plan, opts, w)
    ensures run.reliable && run.before == w && run.result.Failure? && Attempt(site, plan, opts, run)
  {
    var error := RefusalOf(site, plan, opts, w);
    run := Run(true, plan, opts, w, w, Failure(error));
    StoppedInChecks(site, plan, opts, w, w, error);
  }

  lemma RefusalOf(site: Site, plan: GenerationPlan, opts: PublishOptions, w: World) returns (error: PublishError)
    requires WellFormed(plan) && !CanPublish(site, plan, opts, w)
    ensures StopsWith(site, plan, opts, w, error)
  {
    if !FilesPresent(plan, w.dist) {
      error := FileUnreadable;
    } else if plan.redirectTag !in w.releases {
      error := NoRedirectRelease;
    } else if !site.tagOk(plan.generationTag, opts.targetCommit) {
      error := TagRefused;
    } else if !Admitted(site, plan, opts, w) {
      error := Conflicted(AfterGitHub(site, plan, w).conflicts);
    } else {
      SettledFiles(site, plan, opts, w);
      error := PhaseRefusalOf(site, plan, opts, w, AfterGitHub(site, plan, w).dist);
    }
  }

  lemma PhaseRefusalOf(site: Site, plan: GenerationPlan, opts: PublishOptions, w: World, dist: Objects)
      returns (error: PublishError)
    requires FilesPresent(plan, dist)
    requires !(Agrees(plan, R2, w, dist) && Agrees(plan, GitHub, w, dist) && RedirectPresent(plan, dist)
               && MergeBaseHolds(site, plan, opts, w.r2))
    ensures StopsInPhases(site, plan, opts, w, dist, error)
  {
    if !(Agrees(plan, R2, w, dist) && Agrees(plan, GitHub, w, dist)) {
      var names := Disagreeing(plan, w, dist, |plan.assets|);
      error := PublicMismatch(names);
    } else if plan.redirect.json !in dist || plan.redirect.bundle !in dist {
      error := FileUnreadable;
    } else if MergeBaseHolds(site, plan, opts, w.r2) {
      error := GitHubRedirectNotUpdated;
    } else if plan.redirect.jsonUrl !in w.r2 {
      error := NoLiveRedirect;
    } else if site.lastArtifact(w.r2[plan.redirect.jsonUrl]).None? {
      error := LiveRedirectUnreadable;
    } else {
      error := MergeBaseMoved(site.lastArtifact(w.r2[plan.redirect.jsonUrl]).value);
    }
  }

  /** The names of the first n assets of which a store publishes other bytes. */
  lemma {:induction false} Disagreeing(plan: GenerationPlan, w: World, dist: Objects, n: nat)
      returns (names: seq<string>)
    requires n <= |plan.assets| && FilesPresent(plan, dist)
    ensures forall name :: name in names <==> exists i | 0 <= i < n ::
              && plan.assets[i].name == name
              && !(AgreesAt(plan, R2, w, dist, i) && AgreesAt(plan, GitHub, w, dist, i))
  {
    if n == 0 {
      names := [];
    } else {
      names := Disagreeing(plan, w, dist, n - 1);
      if !(AgreesAt(plan, R2, w, dist, n - 1) && AgreesAt(plan, GitHub, w, dist, n - 1)) {
        names := names + [plan.assets[n - 1].name];
      }
    }
  }

  /** The world c with all hashed assets uploaded. */
  ghost function Filled(plan: GenerationPlan, c: World): World
    requires FilesPresent(plan, c.dist)
  {
    var release := ReleaseOf(c.releases, plan.generationTag);
    var more := map name | name in Names(plan) && name !in release && name in c.dist :: c.dist[name];
    World(Uploaded(plan, c.r2, c.dist, |plan.assets|), c.releases[plan.generationTag := release + more], c.dist)
  }

  lemma FilledIsHashedStep(plan: GenerationPlan, c: World)
    requires WellFormed(plan) && FilesPresent(plan, c.dist)
    ensures HashedStep(plan, c, Filled(plan, c))
  {
    var h := Filled(plan, c);
    UploadedKeeps(plan, c.r2, c.dist, |plan.assets|);
    forall name | name in h.releases[plan.generationTag] && name !in ReleaseOf(c.releases, plan.generationTag)
      ensures exists i | 0 <= i < |plan.assets| ::
                plan.assets[i].name == name && Planned(plan, c.dist, i, h.releases[plan.generationTag][name])
    {
      var i :| 0 <= i < |plan.assets| && plan.assets[i].name == name;
      assert Planned(plan, c.dist, i, h.releases[plan.generationTag][name]);
    }
  }

  lemma FilledR2At(plan: GenerationPlan, c: World, i: nat)
    requires WellFormed(plan) && FilesPresent(plan, c.dist) && i < |plan.assets| && AgreesAt(plan, R2, c, c.dist, i)
    ensures Remote(plan, R2, Filled(plan, c).r2, Filled(plan, c).releases, i) == Some(c.dist[plan.assets[i].name])
  {
    UploadedExact(plan, c.r2, c.dist, |plan.assets|);
    var r2, url := Filled(plan, c).r2, plan.assets[i].r2Url;
    assert url in c.r2 ==> SameAt(c.r2, r2, url);
  }

  lemma FilledGitHubAt(plan: GenerationPlan, c: World, i: nat)
    requires FilesPresent(plan, c.dist) && i < |plan.assets| && AgreesAt(plan, GitHub, c, c.dist, i)
    ensures Remote(plan, GitHub, Filled(plan, c).r2, Filled(plan, c).releases, i) == Some(c.dist[plan.assets[i].name])
  {
    assert plan.assets[i].name in Names(plan);
  }

  lemma FilledIsComplete(plan: GenerationPlan, c: World)
    requires WellFormed(plan) && FilesPresent(plan, c.dist)
    requires Agrees(plan, R2, c, c.dist) && Agrees(plan, GitHub, c, c.dist)
    ensures Complete(plan, Filled(plan, c))
  {
    forall i | 0 <= i < |plan.assets|
      ensures Remote(plan, R2, Filled(plan, c).r2, Filled(plan, c).releases, i) == Some(c.dist[plan.assets[i].name])
      ensures Remote(plan, GitHub, Filled(plan, c).r2, Filled(plan, c).releases, i) ==
              Some(c.dist[plan.assets[i].name])
    {
      assert AgreesAt(plan, R2, c, c.dist, i) && AgreesAt(plan, GitHub, c, c.dist, i);
      FilledR2At(plan, c, i);
      FilledGitHubAt(plan, c, i);
    }
  }

  /** The passes of the preflight only adopt. */
  lemma PassesAdopt(site: Site, plan: GenerationPlan, w: World)
    requires WellFormed(plan) && FilesPresent(plan, w.dist)
    ensures FilesAdopt(site, plan, w, AfterGitHub(site, plan, w).dist)
  {
    var r2, gh := View(plan, R2, w.r2, w.releases), View(plan, GitHub, w.r2, w.releases);
    var p, q := Unexamined(plan, w.dist), AfterR2(site, plan, w);
    PassExact(site, plan, R2, r2, p);
    PassRewrites(site, plan, R2, r2, p);
    PassRewrites(site, plan, GitHub, gh, q);
    SecondRewriteAdopts(site, plan, w, q, AfterGitHub(site, plan, w).dist);
  }

  /** Where the generation can be published, a run can stop just after it moved R2's redirect file. */
  lemma StoppedAfterMove(site: Site, plan: GenerationPlan, opts: PublishOptions, w: World) returns (run: Run)
    requires CanPublish(site, plan, opts, w)
    ensures Attempt(site, plan, opts, run) && run.before == w
    ensures plan.redirect.jsonUrl in run.after.r2
    ensures run.after.r2[plan.redirect.jsonUrl] == w.dist[plan.redirect.json]
  {
    var c := w.(dist := AfterGitHub(site, plan, w).dist);
    PassesAdopt(site, plan, w);
    ConflictFreeExact(site, plan, w);
    AdoptionKeepsRedirect(site, plan, w, c.dist);
    assert plan.redirect.json !in Names(plan) && c.dist[plan.redirect.json] == w.dist[plan.redirect.json];
    assert Agrees(plan, R2, c, c.dist) && Agrees(plan, GitHub, c, c.dist) by {
      SameViews(plan, w, c);
    }
    var h := Filled(plan, c);
    FilledIsHashedStep(plan, c);
    FilledIsComplete(plan, c);
    var m := h.(r2 := h.r2[plan.redirect.jsonUrl := h.dist[plan.redirect.json]]);
    SameMergeBase(site, plan, opts, w.r2, h.r2);
    StoppedInRedirects(site, plan, opts, w, h, m, m, Failure(StoreFailed));
    run := Run(false, plan, opts, w, m, Failure(StoreFailed));
  }

  lemma SameViews(plan: GenerationPlan, w: World, c: World)
    requires FilesPresent(plan, c.dist) && c == w.(dist := c.dist)
    ensures forall store | Agrees(plan, store, w, c.dist) :: Agrees(plan, store, c, c.dist)
  {
    forall store | Agrees(plan, store, w, c.dist) ensures Agrees(plan, store, c, c.dist) {
      forall i | 0 <= i < |plan.assets| ensures AgreesAt(plan, store, c, c.dist, i) {
        assert AgreesAt(plan, store, w, c.dist, i);
      }
    }
  }

  /** Every history of attempts that ends in one without failing operations ends in a success if and only if
      the first world is publishable. */
  lemma ConvergesExactly(site: Site, plan: GenerationPlan, opts: PublishOptions, w: World)
    requires WellFormed(plan)
    ensures Converges(site, plan, opts, w) <==> Publishable(site, plan, opts, w)
  {
    if Publishable(site, plan, opts, w) {
      forall runs ensures Converged(site, plan, opts, w, runs) {
        if AttemptsFrom(site, plan, opts, w, runs) {
          RerunConverges(site, plan, opts, runs, |runs| - 1);
        }
      }
    } else {
      var runs := DoesNotConverge(site, plan, opts, w);
      assert !Converged(site, plan, opts, w, runs);
    }
  }

  /** A plan's master is the last artifact of its redirect. Then attempts converge exactly from the worlds where
      one can publish. */
  lemma OwnRedirectConverges(site: Site, plan: GenerationPlan, opts: PublishOptions, w: World)
    requires WellFormed(plan)
    requires plan.redirect.json in w.dist ==> site.lastArtifact(w.dist[plan.redirect.json]) == Some(plan.masterName)
    ensures Converges(site, plan, opts, w) <==> CanPublish(site, plan, opts, w)
  {
    ConvergesExactly(site, plan, opts, w);
  }

  lemma DoesNotConverge(site: Site, plan: GenerationPlan, opts: PublishOptions, w: World) returns (runs: seq<Run>)
    requires WellFormed(plan) && !Publishable(site, plan, opts, w)
    ensures AttemptsFrom(site, plan, opts, w, runs) && runs[|runs| - 1].result.Failure?
  {
    var step := run => Attempt(site, plan, opts, run);
    if CanPublish(site, plan, opts, w) {
      var first := StoppedAfterMove(site, plan, opts, w);
      MovedRefuses(site, plan, opts, w, first.after);
      var second := RefusedRun(site, plan, opts, first.after);
      ChainOfTwo(step, first, second);
      runs := [first, second];
    } else {
      var only := RefusedRun(site, plan, opts, w);
      runs := [only];
      assert Chained(step, runs);
    }
  }

  lemma MovedRefuses(site: Site, plan: GenerationPlan, opts: PublishOptions, w: World, w': World)
    requires CanPublish(site, plan, opts, w) && !Publishable(site, plan, opts, w)
    requires plan.redirect.jsonUrl in w'.r2 && w'.r2[plan.redirect.jsonUrl] == w.dist[plan.redirect.json]
    ensures !CanPublish(site, plan, opts, w')
  {
    SameMergeBase(site, plan, opts, w'.r2, w.r2[plan.redirect.jsonUrl := w.dist[plan.redirect.json]]);
  }

  /* ---------- idempotence ---------- */

  lemma {:induction false} NothingAbsent(plan: GenerationPlan, view: seq<Option<Bytes>>, n: nat, order: seq<nat>)
    requires n <= |plan.assets| == |view| && (forall i | 0 <= i < |view| :: view[i].Some?) && Within(order, |view|)
    ensures NamesWhere(plan, view, true, n) == [] && Absent(view, order) == []
    decreases n + |order|
  {
    if n > 0 {
      NothingAbsent(plan, view, n - 1, order);
    } else if order != [] {
      NothingAbsent(plan, view, n, order[..|order| - 1]);
    }
  }

  lemma CompleteLacksNothing(site: Site, plan: GenerationPlan, w: World)
    requires WellFormed(plan) && FilesPresent(plan, w.dist) && Complete(plan, w)
    ensures NamesWhere(plan, View(plan, R2, w.r2, w.releases), true, |plan.assets|) == []
    ensures Digested(plan, AfterR2(site, plan, w)) && AfterGitHub(site, plan, w).missing == []
  {
    var r2, gh := View(plan, R2, w.r2, w.releases), View(plan, GitHub, w.r2, w.releases);
    CompleteViews(plan, w);
    PassMisses(site, plan, R2, r2, Unexamined(plan, w.dist));
    PassMisses(site, plan, GitHub, gh, AfterR2(site, plan, w));
    NothingAbsent(plan, r2, |plan.assets|, PreflightOrder(plan));
    NothingAbsent(plan, gh, 0, PreflightOrder(plan));
  }

  lemma CompleteViews(plan: GenerationPlan, w: World)
    requires Complete(plan, w)
    ensures forall store, i | 0 <= i < |plan.assets| :: View(plan, store, w.r2, w.releases)[i].Some?
  {
    forall store, i | 0 <= i < |plan.assets| ensures View(plan, store, w.r2, w.releases)[i].Some? {
      assert View(plan, store, w.r2, w.releases)[i] == Remote(plan, store, w.r2, w.releases, i);
    }
  }

  lemma PassMisses(site: Site, plan: GenerationPlan, store: Store, view: seq<Option<Bytes>>, p: Preflight)
    requires DistinctNames(plan) && DataFirst(plan) && Digested(plan, p) && |view| == |plan.assets|
    ensures Digested(plan, Pass(site, plan, store, view, p)) && Within(PreflightOrder(plan), |plan.assets|)
    ensures Pass(site, plan, store, view, p).missing == Absent(view, PreflightOrder(plan))
  {
    PassExact(site, plan, store, view, p);
  }

  /** Over a world already complete and serving its redirect, a successful run leaves R2 alone. */
  lemma CompleteKeepsR2(site: Site, run: Run)
    requires Ran(site, run) && Complete(run.plan, run.before) && R2Serves(run.plan, run.before) && run.result.Success?
    ensures run.after.r2 == run.before.r2
  {
    var plan, w, w' := run.plan, run.before, run.after;
    assert forall name | name in {plan.redirect.json, plan.redirect.bundle} ::
             name !in Names(plan) && w'.dist[name] == w.dist[name];
    forall i | 0 <= i < |plan.assets| ensures plan.assets[i].r2Url in w.r2 {
      assert Remote(plan, R2, w.r2, w.releases, i).Some?;
    }
    forall url ensures SameAt(w.r2, w'.r2, url) {
      assert url in w.r2 || url !in w'.r2 || url in {plan.redirect.jsonUrl, plan.redirect.bundleUrl};
    }
    assert w'.r2.Keys == w.r2.Keys by {
      forall url ensures url in w'.r2 <==> url in w.r2 {
        assert SameAt(w.r2, w'.r2, url);
      }
    }
  }

  lemma SuccessIsComplete(site: Site, run: Run)
    requires Ran(site, run) && run.result.Success?
    ensures FilesPresent(run.plan, run.after.dist)
    ensures Complete(run.plan, run.after) && R2Serves(run.plan, run.after) && GitHubServes(run.plan, run.after)
    ensures run.plan.assets != [] ==> run.plan.generationTag in run.after.releases
  {
    if run.plan.assets != [] {
      assert Remote(run.plan, GitHub, run.after.r2, run.after.releases, 0).Some?;
    }
  }

  lemma IdempotentRun(site: Site, run: Run)
    requires Ran(site, run) && run.reliable && CanPublish(site, run.plan, run.opts, run.before)
    requires FilesPresent(run.plan, run.before.dist) && Complete(run.plan, run.before) && R2Serves(run.plan, run.before)
    requires run.plan.assets != [] ==> run.plan.generationTag in run.before.releases
    ensures run.result.Success?
    ensures var report := run.result.value;
      && report.r2Uploaded == [] && report.githubUploaded == [] && !report.r2RedirectMoved
      && (run.plan.assets != [] ==> !report.generationReleaseCreated)
    ensures run.after.r2 == run.before.r2
  {
    CompleteLacksNothing(site, run.plan, run.before);
    CompleteKeepsR2(site, run);
  }

  /** Idempotence. An attempt after a success uploads no hashed asset and does not move R2's redirect. */
  lemma RerunIsIdempotent(site: Site, plan: GenerationPlan, opts: PublishOptions, runs: seq<Run>, k: nat)
    requires Attempts(site, plan, opts, runs) && 0 < k < |runs| && Publishable(site, plan, opts, runs[0].before)
    requires runs[k - 1].result.Success? && runs[k].reliable
    ensures runs[k].result.Success?
    ensures var report := runs[k].result.value;
      && report.r2Uploaded == [] && report.githubUploaded == [] && !report.r2RedirectMoved
      && (plan.assets != [] ==> !report.generationReleaseCreated)
    ensures runs[k].after.r2 == runs[k].before.r2
  {
    AttemptsKeepPublishable(site, plan, opts, runs, k);
    SuccessIsComplete(site, runs[k - 1]);
    IdempotentRun(site, runs[k]);
  }
}
