/** Facts about the checks and the phases of a run, used by the publisher. */
module CatalogPhases {
  import opened Wrappers
  import opened ByteStrings
  import opened CatalogPreflight
  import opened CatalogRuns

  /** The checks passed and the files are settled. */
  ghost predicate Ready(site: Site, plan: GenerationPlan, opts: PublishOptions, w: World) {
    && Admitted(site, plan, opts, w)
    && Digested(plan, AfterGitHub(site, plan, w))
    && FilesAdopt(site, plan, w, AfterGitHub(site, plan, w).dist)
  }

  /** What the phases need of the world c they start in, the merge base aside. */
  ghost predicate FinishesBut(plan: GenerationPlan, c: World) {
    && FilesPresent(plan, c.dist)
    && Agrees(plan, R2, c, c.dist) && Agrees(plan, GitHub, c, c.dist)
    && RedirectPresent(plan, c.dist)
  }

  ghost predicate CanFinish(site: Site, plan: GenerationPlan, opts: PublishOptions, c: World) {
    FinishesBut(plan, c) && MergeBaseHolds(site, plan, opts, c.r2)
  }

  /** The report once the hashed assets are on both stores. */
  ghost function UploadReport(plan: GenerationPlan, c: World, githubMissing: seq<nat>,
                              notes: seq<(string, Store)>): PublishReport
    requires Within(githubMissing, |plan.assets|)
  {
    PublishReport(
      NamesWhere(plan, View(plan, R2, c.r2, c.releases), true, |plan.assets|),
      NamesWhere(plan, View(plan, R2, c.r2, c.releases), false, |plan.assets|),
      NamesAt(plan, githubMissing),
      NamesWhere(plan, View(plan, GitHub, c.r2, c.releases), false, |plan.assets|),
      plan.generationTag !in c.releases, false, notes)
  }

  ghost function PhaseReport(plan: GenerationPlan, c: World, githubMissing: seq<nat>,
                             notes: seq<(string, Store)>): PublishReport
    requires Within(githubMissing, |plan.assets|)
  {
    UploadReport(plan, c, githubMissing, notes).(r2RedirectMoved := !R2Serves(plan, c))
  }

  /** What moving the redirects does from h on, through m, to w'. */
  ghost predicate RedirectsMoved(site: Site, plan: GenerationPlan, opts: PublishOptions, h: World, m: World, w': World,
                                 ok: bool)
  {
    && R2Moves(plan, h, m) && (m.r2 != h.r2 || w' != m || ok ==> MergeBaseHolds(site, plan, opts, h.r2))
    && (w' == m || (GitHubMoves(plan, m, w') && R2Serves(plan, m)))
    && (ok ==> R2Serves(plan, w') && GitHubServes(plan, w'))
  }

  ghost predicate RedirectStage(site: Site, plan: GenerationPlan, opts: PublishOptions, c: World, h: World, m: World,
                                w': World, res: Result<PublishReport, PublishError>)
  {
    HashedStep(plan, c, h) && Complete(plan, h) && RedirectsMoved(site, plan, opts, h, m, w', res.Success?)
  }

  /** The phases stopped while adding hashed assets, or went on to the redirects. */
  ghost predicate Stages(site: Site, plan: GenerationPlan, opts: PublishOptions, c: World, w': World,
                         res: Result<PublishReport, PublishError>)
  {
    || (res.Failure? && HashedStep(plan, c, w'))
    || (exists h, m :: RedirectStage(site, plan, opts, c, h, m, w', res))
  }

  lemma SameRedirect(site: Site, plan: GenerationPlan, opts: PublishOptions, c: World, h: World)
    requires HashedStep(plan, c, h)
    ensures MergeBaseHolds(site, plan, opts, h.r2) <==> MergeBaseHolds(site, plan, opts, c.r2)
    ensures forall error | StopsInRedirects(site, plan, opts, h.r2, h.dist, error) ::
              StopsInRedirects(site, plan, opts, c.r2, c.dist, error)
    ensures R2Serves(plan, h) <==> R2Serves(plan, c)
  {
  }

  lemma LastStage(site: Site, plan: GenerationPlan, opts: PublishOptions, c: World, h: World, m: World, w': World,
                  res: Result<PublishReport, PublishError>)
    requires HashedStep(plan, c, h) && Complete(plan, h) && RedirectsMoved(site, plan, opts, h, m, w', res.Success?)
    ensures Stages(site, plan, opts, c, w', res)
  {
    assert RedirectStage(site, plan, opts, c, h, m, w', res);
  }

  /** Adoption leaves the redirect files alone. */
  lemma AdoptionKeepsRedirect(site: Site, plan: GenerationPlan, w: World, dist: Objects)
    requires WellFormed(plan) && FilesAdopt(site, plan, w, dist)
    ensures RedirectPresent(plan, dist) <==> RedirectPresent(plan, w.dist)
    ensures R2Serves(plan, w.(dist := dist)) <==> R2Serves(plan, w)
  {
    assert forall name | name in {plan.redirect.json, plan.redirect.bundle, plan.redirect.sigstore} ::
             name !in Names(plan);
  }

  lemma PhaseReportExact(site: Site, plan: GenerationPlan, opts: PublishOptions, w: World)
    requires WellFormed(plan) && Ready(site, plan, opts, w)
    requires Within(AfterGitHub(site, plan, w).missing, |plan.assets|)
    ensures Reports(site, plan, w,
      PhaseReport(plan, w.(dist := AfterGitHub(site, plan, w).dist), AfterGitHub(site, plan, w).missing,
                  AfterGitHub(site, plan, w).notes))
  {
    AdoptionKeepsRedirect(site, plan, w, AfterGitHub(site, plan, w).dist);
  }

  lemma CanFinishExact(site: Site, plan: GenerationPlan, opts: PublishOptions, w: World)
    requires WellFormed(plan) && Ready(site, plan, opts, w)
    ensures FinishesBut(plan, w.(dist := AfterGitHub(site, plan, w).dist)) <==> CanUpload(site, plan, opts, w)
    ensures CanFinish(site, plan, opts, w.(dist := AfterGitHub(site, plan, w).dist)) <==>
            CanPublish(site, plan, opts, w)
  {
    Checked(site, plan, w);
    AdoptionKeepsRedirect(site, plan, w, AfterGitHub(site, plan, w).dist);
  }

  /** How the phases end from c, when no operation fails. */
  ghost predicate PhasesEnd(site: Site, plan: GenerationPlan, opts: PublishOptions, c: World,
                            res: Result<PublishReport, PublishError>)
  {
    match res
    case Success(_) => CanFinish(site, plan, opts, c)
    case Failure(error) => !CanFinish(site, plan, opts, c) && StopsInPhases(site, plan, opts, c, c.dist, error)
  }

  lemma UploadsStop(site: Site, plan: GenerationPlan, opts: PublishOptions, c: World, error: PublishError)
    requires FilesPresent(plan, c.dist) && !(Agrees(plan, R2, c, c.dist) && Agrees(plan, GitHub, c, c.dist))
    requires error.PublicMismatch? && Disagree(plan, c, c.dist, error.names)
    ensures PhasesEnd(site, plan, opts, c, Failure(error))
  {
  }

  lemma RedirectsEnd(site: Site, plan: GenerationPlan, opts: PublishOptions, c: World,
                     res: Result<PublishReport, PublishError>)
    requires FilesPresent(plan, c.dist) && Agrees(plan, R2, c, c.dist) && Agrees(plan, GitHub, c, c.dist)
    requires res.Success? <==> RedirectPresent(plan, c.dist) && MergeBaseHolds(site, plan, opts, c.r2)
    requires res.Failure? ==> StopsInRedirects(site, plan, opts, c.r2, c.dist, res.error)
    ensures PhasesEnd(site, plan, opts, c, res)
  {
  }

  /** What stops the phases stops the run. */
  lemma PhasesStopRun(site: Site, plan: GenerationPlan, opts: PublishOptions, w: World, error: PublishError)
    requires Admitted(site, plan, opts, w)
    requires var c := w.(dist := AfterGitHub(site, plan, w).dist); StopsInPhases(site, plan, opts, c, c.dist, error)
    ensures StopsWith(site, plan, opts, w, error)
  {
    var c := w.(dist := AfterGitHub(site, plan, w).dist);
    forall store, i | 0 <= i < |plan.assets|
      ensures AgreesAt(plan, store, w, c.dist, i) <==> AgreesAt(plan, store, c, c.dist, i)
    {
    }
    assert Agrees(plan, R2, w, c.dist) <==> Agrees(plan, R2, c, c.dist);
    assert Agrees(plan, GitHub, w, c.dist) <==> Agrees(plan, GitHub, c, c.dist);
    forall name ensures DisagreesOn(plan, w, c.dist, name) <==> DisagreesOn(plan, c, c.dist, name) {
    }
  }

  /** The public copies that do not verify after phases 1 and 2 are those that disagreed before. */
  lemma MismatchesDisagree(plan: GenerationPlan, w: World, w': World, names: seq<string>)
    requires WellFormed(plan) && BothUploaded(plan, w, w')
    requires MismatchesAre(plan, w', Digests(plan, w.dist), PublicMismatch(names))
    ensures Disagree(plan, w, w.dist, names)
  {
    forall i | 0 <= i < |plan.assets|
      ensures VerifiedAt(plan, w', Digests(plan, w.dist)[i], i) <==>
              AgreesAt(plan, R2, w, w.dist, i) && AgreesAt(plan, GitHub, w, w.dist, i)
    {
      CopyAt(plan, w, w', i);
    }
    forall name ensures DisagreesOn(plan, w, w.dist, name) <==> Mismatches(plan, w', Digests(plan, w.dist), name) {
      forall i | 0 <= i < |plan.assets|
        ensures MismatchAt(plan, w', Digests(plan, w.dist), i, name) <==>
          plan.assets[i].name == name && !(AgreesAt(plan, R2, w, w.dist, i) && AgreesAt(plan, GitHub, w, w.dist, i))
      {
      }
    }
  }

  /** Some copy of the asset of that name does not verify. */
  ghost predicate Mismatches(plan: GenerationPlan, w: World, digests: seq<Digest>, name: string)
    requires |digests| == |plan.assets|
  {
    MismatchesAmong(plan, w, digests, |digests|, name)
  }

  ghost predicate MismatchesAre(plan: GenerationPlan, w: World, digests: seq<Digest>, error: PublishError)
    requires |digests| == |plan.assets|
  {
    error.PublicMismatch? && forall name :: name in error.names <==> Mismatches(plan, w, digests, name)
  }

  ghost predicate MismatchesAmong(plan: GenerationPlan, w: World, digests: seq<Digest>, n: nat, name: string)
    requires n <= |digests| == |plan.assets|
  {
    exists i | 0 <= i < n :: MismatchAt(plan, w, digests, i, name)
  }

  ghost predicate MismatchAt(plan: GenerationPlan, w: World, digests: seq<Digest>, i: nat, name: string)
    requires i < |digests| == |plan.assets|
  {
    plan.assets[i].name == name && !VerifiedAt(plan, w, digests[i], i)
  }

  lemma MismatchesMore(plan: GenerationPlan, w: World, digests: seq<Digest>, n: nat, name: string)
    requires n < |digests| == |plan.assets|
    ensures MismatchesAmong(plan, w, digests, n + 1, name) <==>
            MismatchesAmong(plan, w, digests, n, name) || MismatchAt(plan, w, digests, n, name)
  {
    if i :| 0 <= i < n && MismatchAt(plan, w, digests, i, name) {
      assert MismatchAt(plan, w, digests, i, name) && i < n + 1;
    }
    if i :| 0 <= i < n + 1 && MismatchAt(plan, w, digests, i, name) {
      assert i < n || i == n;
    }
  }

  /** The names so far, when the n-th is added because its copy does not verify. */
  lemma OneMoreMismatch(plan: GenerationPlan, w: World, digests: seq<Digest>, n: nat, names: seq<string>,
                        more: seq<string>)
    requires n < |digests| == |plan.assets|
    requires forall name :: name in names <==> MismatchesAmong(plan, w, digests, n, name)
    requires forall name :: name in more <==>
               name in names || (name == plan.assets[n].name && !VerifiedAt(plan, w, digests[n], n))
    ensures forall name :: name in more <==> MismatchesAmong(plan, w, digests, n + 1, name)
  {
    forall name ensures name in more <==> MismatchesAmong(plan, w, digests, n + 1, name) {
      MismatchesMore(plan, w, digests, n, name);
    }
  }

  lemma MismatchesExact(plan: GenerationPlan, w: World, digests: seq<Digest>, names: seq<string>)
    requires |digests| == |plan.assets|
    requires forall name :: name in names <==> MismatchesAmong(plan, w, digests, |digests|, name)
    ensures forall name :: name in names <==> Mismatches(plan, w, digests, name)
    ensures names == [] <==> AllVerified(plan, w, digests)
  {
    if names != [] {
      assert Mismatches(plan, w, digests, names[0]);
    }
    forall i | 0 <= i < |plan.assets| && !VerifiedAt(plan, w, digests[i], i) ensures plan.assets[i].name in names {
      assert MismatchAt(plan, w, digests, i, plan.assets[i].name);
    }
  }

  /** Both stores have a copy of every asset. */
  ghost predicate AllThere(plan: GenerationPlan, w: World) {
    forall i | 0 <= i < |plan.assets| ::
      Remote(plan, R2, w.r2, w.releases, i).Some? && Remote(plan, GitHub, w.r2, w.releases, i).Some?
  }

  lemma UploadedAreThere(plan: GenerationPlan, w: World, w': World)
    requires WellFormed(plan) && BothUploaded(plan, w, w')
    ensures AllThere(plan, w')
  {
    forall i | 0 <= i < |plan.assets|
      ensures Remote(plan, R2, w'.r2, w'.releases, i).Some? && Remote(plan, GitHub, w'.r2, w'.releases, i).Some?
    {
      var url, name := plan.assets[i].r2Url, plan.assets[i].name;
      assert url in w.r2 ==> SameAt(w.r2, w'.r2, url);
      if name in ReleaseOf(w.releases, plan.generationTag) {
        assert SameAt(w.releases[plan.generationTag], ReleaseOf(w'.releases, plan.generationTag), name);
      }
    }
  }

  lemma StagesAreARun(site: Site, plan: GenerationPlan, opts: PublishOptions, w: World, w': World,
                      res: Result<PublishReport, PublishError>)
    requires WellFormed(plan) && Ready(site, plan, opts, w)
    requires Stages(site, plan, opts, w.(dist := AfterGitHub(site, plan, w).dist), w', res)
    requires res.Success? ==> Reports(site, plan, w, res.value)
    ensures RunEffect(site, plan, opts, w, w', res)
  {
    var c := w.(dist := AfterGitHub(site, plan, w).dist);
    if res.Failure? && HashedStep(plan, c, w') {
      StoppedInHashed(site, plan, opts, w, w', res.error);
    } else {
      var h, m :| RedirectStage(site, plan, opts, c, h, m, w', res);
      StoppedInRedirects(site, plan, opts, w, h, m, w', res);
    }
  }

  /** A batch upload of files the generation release lacks only extends it. */
  lemma BatchExtends(plan: GenerationPlan, start: map<string, Objects>, after: map<string, Objects>, dist: Objects,
                     missing: seq<nat>)
    requires WellFormed(plan) && FilesPresent(plan, dist) && Within(missing, |plan.assets|)
    requires plan.generationTag in start && plan.generationTag in after
    requires forall i | 0 <= i < |plan.assets| :: i in missing <==> plan.assets[i].name !in start[plan.generationTag]
    requires after == start[plan.generationTag := after[plan.generationTag]]
    requires forall name | !SameAt(start[plan.generationTag], after[plan.generationTag], name) ::
               name in NamesAt(plan, missing)
               && (name in after[plan.generationTag] ==> name in dist && after[plan.generationTag][name] == dist[name])
    ensures ReleasesExtend(plan, start, after, dist)
  {
    var was, now := start[plan.generationTag], after[plan.generationTag];
    var names := NamesAt(plan, missing);
    assert forall k | 0 <= k < |missing| :: missing[k] in missing && names[k] !in was;
    forall name | name in was ensures SameAt(start[plan.generationTag], now, name) {
      assert name !in names;
    }
    forall name | name in now && name !in was
      ensures exists i | 0 <= i < |plan.assets| :: plan.assets[i].name == name && Planned(plan, dist, i, now[name])
    {
      assert !SameAt(was, now, name);
      var k :| 0 <= k < |names| && names[k] == name;
      assert Planned(plan, dist, missing[k], now[name]);
    }
  }

  /** These are the assets a store lacks. */
  ghost predicate Lacks(plan: GenerationPlan, store: Store, w: World, missing: seq<nat>) {
    && Within(missing, |plan.assets|)
    && forall i | 0 <= i < |plan.assets| :: i in missing <==> Remote(plan, store, w.r2, w.releases, i).None?
  }

  lemma LacksExact(plan: GenerationPlan, w: World, r2Missing: seq<nat>, githubMissing: seq<nat>)
    requires Lacks(plan, R2, w, r2Missing) && Lacks(plan, GitHub, w, githubMissing)
    ensures forall i | 0 <= i < |plan.assets| :: i in r2Missing <==> plan.assets[i].r2Url !in w.r2
    ensures forall i | 0 <= i < |plan.assets| ::
              i in githubMissing <==> plan.assets[i].name !in ReleaseOf(w.releases, plan.generationTag)
  {
    forall i | 0 <= i < |plan.assets|
      ensures i in r2Missing <==> plan.assets[i].r2Url !in w.r2
      ensures i in githubMissing <==> plan.assets[i].name !in ReleaseOf(w.releases, plan.generationTag)
    {
      assert i in r2Missing <==> Remote(plan, R2, w.r2, w.releases, i).None?;
      assert i in githubMissing <==> Remote(plan, GitHub, w.r2, w.releases, i).None?;
    }
  }

  lemma PassLacks(plan: GenerationPlan, store: Store, w: World)
    ensures Within(PreflightOrder(plan), |plan.assets|)
    ensures Lacks(plan, store, w, Absent(View(plan, store, w.r2, w.releases), PreflightOrder(plan)))
  {
    PreflightOrderExact(plan);
    AbsentExact(View(plan, store, w.r2, w.releases), PreflightOrder(plan));
  }

  lemma UploadedIsThere(plan: GenerationPlan, w: World, r2: Objects)
    requires WellFormed(plan) && FilesPresent(plan, w.dist) && r2 == Uploaded(plan, w.r2, w.dist, |plan.assets|)
    ensures forall i, releases | 0 <= i < |plan.assets| && Remote(plan, R2, w.r2, w.releases, i).None? ::
              Remote(plan, R2, r2, releases, i) == Some(w.dist[plan.assets[i].name])
  {
    UploadedExact(plan, w.r2, w.dist, |plan.assets|);
  }

  /** Both public copies of asset i have this digest. */
  ghost predicate VerifiedAt(plan: GenerationPlan, w: World, digest: Digest, i: nat)
    requires i < |plan.assets|
  {
    && Remote(plan, R2, w.r2, w.releases, i).Some? && Sha256(Remote(plan, R2, w.r2, w.releases, i).value) == digest
    && Remote(plan, GitHub, w.r2, w.releases, i).Some?
       && Sha256(Remote(plan, GitHub, w.r2, w.releases, i).value) == digest
  }

  ghost predicate AllVerified(plan: GenerationPlan, w: World, digests: seq<Digest>)
    requires |digests| == |plan.assets|
  {
    forall i | 0 <= i < |plan.assets| :: VerifiedAt(plan, w, digests[i], i)
  }

  /** Comparing digests is comparing files. */
  lemma VerifiedExact(plan: GenerationPlan, w: World, digests: seq<Digest>)
    requires FilesPresent(plan, w.dist) && digests == Digests(plan, w.dist)
    ensures AllVerified(plan, w, digests) <==> Complete(plan, w)
  {
    forall i | 0 <= i < |plan.assets|
      ensures VerifiedAt(plan, w, digests[i], i) <==>
        && Remote(plan, R2, w.r2, w.releases, i) == Some(w.dist[plan.assets[i].name])
        && Remote(plan, GitHub, w.r2, w.releases, i) == Some(w.dist[plan.assets[i].name])
    {
      assert digests[i] == Sha256(w.dist[plan.assets[i].name]);
    }
    if Complete(plan, w) {
      forall i | 0 <= i < |plan.assets| ensures VerifiedAt(plan, w, digests[i], i) {
      }
    }
  }

  /** Uploads, wherever they stop, only add hashed assets. */
  lemma UploadsAreHashed(plan: GenerationPlan, w: World, w': World, reached: nat)
    requires WellFormed(plan) && FilesPresent(plan, w.dist) && reached <= |plan.assets|
    requires w'.dist == w.dist && w'.r2 == Uploaded(plan, w.r2, w.dist, reached)
    requires ReleasesExtend(plan, w.releases, w'.releases, w.dist) && RedirectReleaseKept(plan, w, w')
    ensures HashedStep(plan, w, w')
  {
    UploadedKeeps(plan, w.r2, w.dist, reached);
  }

  lemma OpenThenExtend(plan: GenerationPlan, start: map<string, Objects>, open: map<string, Objects>,
                       after: map<string, Objects>, dist: Objects)
    requires WellFormed(plan) && open == start[plan.generationTag := ReleaseOf(start, plan.generationTag)]
    requires ReleasesExtend(plan, open, after, dist)
    ensures ReleasesExtend(plan, start, after, dist)
  {
  }

  /** An asset is missing exactly when one of its name is. */
  lemma NamesMissing(plan: GenerationPlan, missing: seq<nat>, i: nat)
    requires WellFormed(plan) && Within(missing, |plan.assets|) && i < |plan.assets|
    ensures i in missing <==> exists k | 0 <= k < |missing| :: plan.assets[missing[k]].name == plan.assets[i].name
  {
    if k :| 0 <= k < |missing| && plan.assets[missing[k]].name == plan.assets[i].name {
      assert missing[k] == i;
    }
  }

  /** After phases 1 and 2: what R2 lacked is on it, and of what GitHub lacked all is on it. */
  ghost predicate BothUploaded(plan: GenerationPlan, w: World, w': World) {
    && FilesPresent(plan, w.dist)
    && HashedStep(plan, w, w')
    && (forall i | 0 <= i < |plan.assets| && Remote(plan, R2, w.r2, w.releases, i).None? ::
          Remote(plan, R2, w'.r2, w'.releases, i) == Some(w.dist[plan.assets[i].name]))
    && (forall i | 0 <= i < |plan.assets| && Remote(plan, GitHub, w.r2, w.releases, i).None? ::
          Remote(plan, GitHub, w'.r2, w'.releases, i) == Some(w.dist[plan.assets[i].name]))
  }

  lemma CopyAt(plan: GenerationPlan, w: World, w': World, i: nat)
    requires WellFormed(plan) && BothUploaded(plan, w, w') && i < |plan.assets|
    ensures AgreesAt(plan, R2, w, w.dist, i) <==>
            Remote(plan, R2, w'.r2, w'.releases, i) == Some(w.dist[plan.assets[i].name])
    ensures AgreesAt(plan, GitHub, w, w.dist, i) <==>
            Remote(plan, GitHub, w'.r2, w'.releases, i) == Some(w.dist[plan.assets[i].name])
  {
    var url, name := plan.assets[i].r2Url, plan.assets[i].name;
    assert url in w.r2 ==> SameAt(w.r2, w'.r2, url);
    if name in ReleaseOf(w.releases, plan.generationTag) {
      assert SameAt(w.releases[plan.generationTag], ReleaseOf(w'.releases, plan.generationTag), name);
    }
  }

  /** After phases 1 and 2, the public copies are the files exactly when what was published before
      already was. */
  lemma PublicCopies(plan: GenerationPlan, w: World, w': World)
    requires WellFormed(plan) && BothUploaded(plan, w, w')
    ensures Agrees(plan, R2, w, w.dist) && Agrees(plan, GitHub, w, w.dist) <==> Complete(plan, w')
  {
    forall i | 0 <= i < |plan.assets|
      ensures AgreesAt(plan, R2, w, w.dist, i) <==>
              Remote(plan, R2, w'.r2, w'.releases, i) == Some(w.dist[plan.assets[i].name])
      ensures AgreesAt(plan, GitHub, w, w.dist, i) <==>
              Remote(plan, GitHub, w'.r2, w'.releases, i) == Some(w.dist[plan.assets[i].name])
    {
      CopyAt(plan, w, w', i);
    }
  }

  /** What the checks leave for the phases. */
  lemma Checked(site: Site, plan: GenerationPlan, w: World)
    requires WellFormed(plan) && FilesPresent(plan, w.dist) && Digested(plan, AfterGitHub(site, plan, w))
    ensures AfterGitHub(site, plan, w).digests == Digests(plan, AfterGitHub(site, plan, w).dist)
    ensures Lacks(plan, R2, w.(dist := AfterGitHub(site, plan, w).dist), AfterR2(site, plan, w).missing)
    ensures Lacks(plan, GitHub, w.(dist := AfterGitHub(site, plan, w).dist), AfterGitHub(site, plan, w).missing)
    ensures var settled := AfterGitHub(site, plan, w).dist;
            Agrees(plan, R2, w, settled) <==> Agrees(plan, R2, w.(dist := settled), settled)
    ensures var settled := AfterGitHub(site, plan, w).dist;
            AfterGitHub(site, plan, w).conflicts == [] ==> Agrees(plan, GitHub, w.(dist := settled), settled)
  {
    var c := w.(dist := AfterGitHub(site, plan, w).dist);
    forall store, i | 0 <= i < |plan.assets|
      ensures AgreesAt(plan, store, w, c.dist, i) <==> AgreesAt(plan, store, c, c.dist, i)
    {
    }
    var r2, gh := View(plan, R2, w.r2, w.releases), View(plan, GitHub, w.r2, w.releases);
    var p, q := Unexamined(plan, w.dist), AfterR2(site, plan, w);
    PassExact(site, plan, R2, r2, p);
    PassExact(site, plan, GitHub, gh, q);
    PassLacks(plan, R2, w.(dist := AfterGitHub(site, plan, w).dist));
    PassLacks(plan, GitHub, w.(dist := AfterGitHub(site, plan, w).dist));
    LastPassAgrees(site, plan, w, q, AfterGitHub(site, plan, w));
  }

  /** A conflict-free pass leaves files that agree with its own store. */
  lemma LastPassAgrees(site: Site, plan: GenerationPlan, w: World, q: Preflight, r: Preflight)
    requires Digested(plan, q) && PassOutcome(site, plan, View(plan, GitHub, w.r2, w.releases), q, r)
    ensures q.conflicts <= r.conflicts
    ensures r.conflicts == [] ==> Agrees(plan, GitHub, w, r.dist)
  {
    var gh := View(plan, GitHub, w.r2, w.releases);
    if r.conflicts == [] {
      forall i | 0 <= i < |plan.assets| ensures AgreesAt(plan, GitHub, w, r.dist, i) {
        assert gh[i] == Remote(plan, GitHub, w.r2, w.releases, i);
        assert Fits(site, plan, gh, q.dist, q.adopted, i);
        assert r.dist[plan.assets[i].name] == Settled(site, plan, gh, q.dist, q.adopted, i);
      }
    }
  }

  lemma RewriteAdopts(site: Site, plan: GenerationPlan, w: World, dist: Objects)
    requires FilesPresent(plan, w.dist)
    requires Rewritten(site, plan, View(plan, R2, w.r2, w.releases), w.dist, {}, dist)
    ensures FilesAdopt(site, plan, w, dist)
  {
  }

  /** A rewrite in the second pass, from the files of the first, is one of the original files. */
  lemma SecondRewriteAdopts(site: Site, plan: GenerationPlan, w: World, q: Preflight, dist: Objects)
    requires WellFormed(plan) && FilesPresent(plan, w.dist) && Digested(plan, q)
    requires Rewritten(site, plan, View(plan, R2, w.r2, w.releases), w.dist, {}, q.dist)
    requires Rewritten(site, plan, View(plan, GitHub, w.r2, w.releases), q.dist, q.adopted, dist)
    ensures FilesAdopt(site, plan, w, dist)
  {
    var r2, gh := View(plan, R2, w.r2, w.releases), View(plan, GitHub, w.r2, w.releases);
    forall i | 0 <= i < |plan.assets| && dist[plan.assets[i].name] != w.dist[plan.assets[i].name]
      ensures Replaceable(site, plan, r2, w.dist, {}, i) || Replaceable(site, plan, gh, w.dist, {}, i)
    {
      if q.dist[plan.assets[i].name] == w.dist[plan.assets[i].name] {
        assert Replaceable(site, plan, gh, q.dist, q.adopted, i);
        var j := DataOf(plan, i);
        assert IsData(plan, j) && !Replaceable(site, plan, r2, w.dist, {}, j);
        assert q.dist[plan.assets[j].name] == w.dist[plan.assets[j].name];
      }
    }
  }

  /** The files when examining asset i from p was interrupted: at most that companion is torn, and
      only if it was being replaced. */
  ghost predicate TornAt(site: Site, plan: GenerationPlan, remote: Option<Bytes>, i: nat, p: Preflight, dist: Objects)
    requires i < |plan.assets| == |p.digests|
  {
    || dist == p.dist
    || (&& dist.Keys == p.dist.Keys
        && (forall other | other in dist && other != plan.assets[i].name :: dist[other] == p.dist[other])
        && remote.Some? && Adoptable(plan.assets[i], p) && Sha256(remote.value) != p.digests[i]
        && site.verify(DataBytes(p.dist, plan.assets[i].signatureOf.value), plan.assets[i].name, remote.value))
  }

  /** One more file changed where a companion may replace it. */
  lemma RewrittenExcept(site: Site, plan: GenerationPlan, view: seq<Option<Bytes>>, start: Objects,
                        adopted: set<string>, before: Objects, after: Objects, i: nat)
    requires FilesPresent(plan, start) && |view| == |plan.assets| && i < |plan.assets|
    requires Rewritten(site, plan, view, start, adopted, before) && Replaceable(site, plan, view, start, adopted, i)
    requires after.Keys == before.Keys && forall other | other in after && other != plan.assets[i].name ::
               after[other] == before[other]
    requires DistinctNames(plan)
    ensures Rewritten(site, plan, view, start, adopted, after)
  {
    assert plan.assets[i].name in Names(plan);
    forall k | 0 <= k < |plan.assets|
      ensures after[plan.assets[k].name] == start[plan.assets[k].name]
              || Replaceable(site, plan, view, start, adopted, k)
    {
      assert before[plan.assets[k].name] == start[plan.assets[k].name]
             || Replaceable(site, plan, view, start, adopted, k);
    }
  }

  /** A companion torn while it is adopted is one a pass may replace. */
  lemma TornIsReplaceable(site: Site, plan: GenerationPlan, view: seq<Option<Bytes>>, done: seq<nat>, i: nat,
                          p: Preflight, q: Preflight)
    requires DistinctNames(plan) && DataFirst(plan) && Digested(plan, p) && |view| == |plan.assets| && i < |plan.assets|
    requires Within(done, |plan.assets|) && NextInOrder(plan, done, i)
    requires Examined(site, plan, view, done, p, q)
    requires view[i].Some? && Adoptable(plan.assets[i], q) && Sha256(view[i].value) != q.digests[i]
    requires site.verify(DataBytes(q.dist, plan.assets[i].signatureOf.value), plan.assets[i].name, view[i].value)
    ensures Replaceable(site, plan, view, p.dist, p.adopted, i)
  {
    AdoptableExact(site, plan, view, done, i, p, q);
    assert q.dist[plan.assets[i].name] == p.dist[plan.assets[i].name];
  }

  /** A pass interrupted at step n leaves a partial rewrite. */
  lemma TornPass(site: Site, plan: GenerationPlan, store: Store, view: seq<Option<Bytes>>, start: Preflight, n: nat,
                 dist: Objects)
    requires WellFormed(plan) && Digested(plan, start) && |view| == |plan.assets| && start == StartPass(start)
    requires Within(PreflightOrder(plan), |plan.assets|) && n < |PreflightOrder(plan)|
    requires TornAt(site, plan, view[PreflightOrder(plan)[n]], PreflightOrder(plan)[n],
                    ExamineAll(site, plan, store, view, PreflightOrder(plan)[..n], start), dist)
    ensures Rewritten(site, plan, view, start.dist, start.adopted, dist)
  {
    var done, i := PreflightOrder(plan)[..n], PreflightOrder(plan)[n];
    var p := ExamineAll(site, plan, store, view, done, start);
    PrefixOfPass(site, plan, store, view, start, n);
    ExaminedRewrites(site, plan, view, done, start, p);
    if dist != p.dist {
      NextIsLegal(plan, n);
      TornIsReplaceable(site, plan, view, done, i, start, p);
      RewrittenExcept(site, plan, view, start.dist, start.adopted, p.dist, dist, i);
    }
  }

  lemma NextIsLegal(plan: GenerationPlan, n: nat)
    requires Within(PreflightOrder(plan), |plan.assets|) && n < |PreflightOrder(plan)|
    ensures NextInOrder(plan, PreflightOrder(plan)[..n], PreflightOrder(plan)[n])
  {
    var order := PreflightOrder(plan);
    OrderIsLegal(plan, n + 1);
    assert order[..n + 1][n] == order[n] && order[..n + 1][..n] == order[..n];
  }
}
