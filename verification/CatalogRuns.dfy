/** What one publish run may do to the two stores, wherever it is interrupted, and what that keeps
    over any number of runs. */
module CatalogRuns {
  import opened Wrappers
  import opened ByteStrings
  import opened CatalogPreflight

  datatype PublishReport = PublishReport(
    r2Uploaded: seq<string>,
    r2Skipped: seq<string>,
    githubUploaded: seq<string>,
    githubSkipped: seq<string>,
    generationReleaseCreated: bool,
    r2RedirectMoved: bool,
    adoptedSignatures: seq<(string, Store)>)

  datatype PublishError =
    | NoRedirectRelease
    | TagRefused
    | FileUnreadable
    | StoreFailed
    | Conflicted(conflicts: seq<Conflict>)
    | PublicMismatch(names: seq<string>)
    | NoLiveRedirect
    | LiveRedirectUnreadable
    | MergeBaseMoved(live: string)
    | GitHubRedirectNotUpdated

  /* ---------- what a run needs ---------- */

  ghost predicate RedirectPresent(plan: GenerationPlan, dist: Objects) {
    plan.redirect.json in dist && plan.redirect.bundle in dist && plan.redirect.sigstore in dist
  }

  /** The compare half of the compare-and-set on the live redirect. */
  predicate MergeBaseHolds(site: Site, plan: GenerationPlan, opts: PublishOptions, r2: Objects) {
    if plan.redirect.jsonUrl !in r2 then opts.expectedMergeBase.None?
    else
      match site.lastArtifact(r2[plan.redirect.jsonUrl])
      case None => false
      case Some(live) => opts.expectedMergeBase in {None, Some(live)} || live == plan.masterName
  }

  /** The checks made before anything is written. */
  ghost predicate Admitted(site: Site, plan: GenerationPlan, opts: PublishOptions, w: World) {
    && FilesPresent(plan, w.dist)
    && plan.redirectTag in w.releases
    && site.tagOk(plan.generationTag, opts.targetCommit)
    && AfterGitHub(site, plan, w).conflicts == []
  }

  /** Nothing but the live redirect is in the way. */
  ghost predicate CanUpload(site: Site, plan: GenerationPlan, opts: PublishOptions, w: World) {
    && WellFormed(plan)
    && Admitted(site, plan, opts, w)
    && (forall i | 0 <= i < |plan.assets| :: plan.assets[i].name in AfterGitHub(site, plan, w).dist)
    && Agrees(plan, R2, w, AfterGitHub(site, plan, w).dist)
    && RedirectPresent(plan, w.dist)
  }

  /** Exactly when a run whose every store operation works ends well. */
  ghost predicate CanPublish(site: Site, plan: GenerationPlan, opts: PublishOptions, w: World) {
    CanUpload(site, plan, opts, w) && MergeBaseHolds(site, plan, opts, w.r2)
  }

  /** The live redirect is refused with this error. */
  ghost predicate RefusedWith(site: Site, plan: GenerationPlan, opts: PublishOptions, r2: Objects,
                              error: PublishError)
  {
    match error
    case NoLiveRedirect => plan.redirect.jsonUrl !in r2 && opts.expectedMergeBase.Some?
    case LiveRedirectUnreadable =>
      plan.redirect.jsonUrl in r2 && site.lastArtifact(r2[plan.redirect.jsonUrl]) == None
    case MergeBaseMoved(live) =>
      && plan.redirect.jsonUrl in r2 && site.lastArtifact(r2[plan.redirect.jsonUrl]) == Some(live)
      && opts.expectedMergeBase.Some? && live !in {opts.expectedMergeBase.value, plan.masterName}
    case _ => false
  }

  /** What the checks of a run stop with, one after the other. */
  ghost predicate StopsInChecks(site: Site, plan: GenerationPlan, opts: PublishOptions, w: World,
                                error: PublishError)
  {
    if !FilesPresent(plan, w.dist) then error == FileUnreadable
    else if plan.redirectTag !in w.releases then error == NoRedirectRelease
    else if !site.tagOk(plan.generationTag, opts.targetCommit) then error == TagRefused
    else error == Conflicted(AfterGitHub(site, plan, w).conflicts)
  }

  /** These are the assets of which a store publishes other bytes than the files'. */
  ghost predicate Disagree(plan: GenerationPlan, w: World, dist: Objects, names: seq<string>)
    requires FilesPresent(plan, dist)
  {
    forall name :: name in names <==> DisagreesOn(plan, w, dist, name)
  }

  ghost predicate DisagreesOn(plan: GenerationPlan, w: World, dist: Objects, name: string)
    requires FilesPresent(plan, dist)
  {
    exists i | 0 <= i < |plan.assets| ::
      && plan.assets[i].name == name
      && !(AgreesAt(plan, R2, w, dist, i) && AgreesAt(plan, GitHub, w, dist, i))
  }

  /** What moving the redirects stops with. */
  ghost predicate StopsInRedirects(site: Site, plan: GenerationPlan, opts: PublishOptions, r2: Objects, dist: Objects,
                                   error: PublishError)
  {
    if plan.redirect.json !in dist || plan.redirect.bundle !in dist then error == FileUnreadable
    else if !MergeBaseHolds(site, plan, opts, r2) then RefusedWith(site, plan, opts, r2, error)
    else plan.redirect.sigstore !in dist && error == GitHubRedirectNotUpdated
  }

  /** What the phases of a run with these settled files stop with. */
  ghost predicate StopsInPhases(site: Site, plan: GenerationPlan, opts: PublishOptions, w: World, dist: Objects,
                                error: PublishError)
  {
    && FilesPresent(plan, dist)
    && if Agrees(plan, R2, w, dist) && Agrees(plan, GitHub, w, dist)
       then StopsInRedirects(site, plan, opts, w.r2, dist, error)
       else error.PublicMismatch? && Disagree(plan, w, dist, error.names)
  }

  /** The error of a run whose every store operation works. */
  ghost predicate StopsWith(site: Site, plan: GenerationPlan, opts: PublishOptions, w: World, error: PublishError) {
    if !Admitted(site, plan, opts, w) then StopsInChecks(site, plan, opts, w, error)
    else StopsInPhases(site, plan, opts, w, AfterGitHub(site, plan, w).dist, error)
  }

  /** The settled files are under the names of the prepared ones, and agree with GitHub. */
  lemma SettledFiles(site: Site, plan: GenerationPlan, opts: PublishOptions, w: World)
    requires WellFormed(plan) && Admitted(site, plan, opts, w)
    ensures var dist := AfterGitHub(site, plan, w).dist;
      && FilesPresent(plan, dist) && Agrees(plan, GitHub, w, dist)
      && (RedirectPresent(plan, dist) <==> RedirectPresent(plan, w.dist))
  {
    ConflictFreeExact(site, plan, w);
    PassExact(site, plan, R2, View(plan, R2, w.r2, w.releases), Unexamined(plan, w.dist));
    PassExact(site, plan, GitHub, View(plan, GitHub, w.r2, w.releases), AfterR2(site, plan, w));
    assert AfterGitHub(site, plan, w).dist.Keys == w.dist.Keys;
  }

  /** When nothing but the live redirect is in the way, that is what a run stops with. */
  lemma StopsAtRedirect(site: Site, plan: GenerationPlan, opts: PublishOptions, w: World, error: PublishError)
    requires CanUpload(site, plan, opts, w) && StopsWith(site, plan, opts, w, error)
    ensures !MergeBaseHolds(site, plan, opts, w.r2) && RefusedWith(site, plan, opts, w.r2, error)
  {
    SettledFiles(site, plan, opts, w);
  }

  /* ---------- what a run may do ---------- */

  ghost predicate SameAt(m: Objects, m': Objects, key: string) {
    (key in m <==> key in m') && (key in m ==> m'[key] == m[key])
  }

  ghost predicate Planned(plan: GenerationPlan, dist: Objects, i: nat, bytes: Bytes)
    requires i < |plan.assets|
  {
    plan.assets[i].name in dist && bytes == dist[plan.assets[i].name]
  }

  /** Hashed objects on R2 keep their bytes; a new object is an asset with its file's bytes. */
  ghost predicate R2Extends(plan: GenerationPlan, r2: Objects, r2': Objects, dist: Objects) {
    && (forall url | url in r2 && url !in {plan.redirect.jsonUrl, plan.redirect.bundleUrl} :: SameAt(r2, r2', url))
    && (forall url | url in r2' && url !in r2 && url !in {plan.redirect.jsonUrl, plan.redirect.bundleUrl} ::
          exists i | 0 <= i < |plan.assets| :: plan.assets[i].r2Url == url && Planned(plan, dist, i, r2'[url]))
  }

  function ReleaseOf(releases: map<string, Objects>, tag: string): Objects {
    if tag in releases then releases[tag] else map[]
  }

  /** The same for the generation release. No other release changes but the redirect release, and
      no release goes away. */
  ghost predicate ReleasesExtend(plan: GenerationPlan, releases: map<string, Objects>, releases': map<string, Objects>,
                                 dist: Objects)
  {
    && releases.Keys <= releases'.Keys <= releases.Keys + {plan.generationTag}
    && (forall tag | tag in releases && tag !in {plan.generationTag, plan.redirectTag} ::
         releases'[tag] == releases[tag])
    && (forall name | name in ReleaseOf(releases, plan.generationTag) ::
          SameAt(releases[plan.generationTag], ReleaseOf(releases', plan.generationTag), name))
    && (forall name | name in ReleaseOf(releases', plan.generationTag)
        && name !in ReleaseOf(releases, plan.generationTag) ::
          exists i | 0 <= i < |plan.assets| ::
            plan.assets[i].name == name && Planned(plan, dist, i, releases'[plan.generationTag][name]))
  }

  /** On the redirect release only the redirect files change, and a replaced one is the old file, the
      new file, or deleted and not yet uploaded. */
  ghost predicate RedirectReleaseStep(plan: GenerationPlan, release: Objects, release': Objects, dist: Objects) {
    forall name | !SameAt(release, release', name) ::
      && name in {plan.redirect.json, plan.redirect.bundle, plan.redirect.sigstore}
      && (name in release' ==> name in dist && release'[name] == dist[name])
  }

  /** Every hashed asset is on both stores with its file's bytes. */
  ghost predicate Complete(plan: GenerationPlan, w: World) {
    forall i | 0 <= i < |plan.assets| ::
      && plan.assets[i].name in w.dist
      && Remote(plan, R2, w.r2, w.releases, i) == Some(w.dist[plan.assets[i].name])
      && Remote(plan, GitHub, w.r2, w.releases, i) == Some(w.dist[plan.assets[i].name])
  }

  ghost predicate R2Serves(plan: GenerationPlan, w: World) {
    && RedirectPresent(plan, w.dist)
    && plan.redirect.jsonUrl in w.r2 && w.r2[plan.redirect.jsonUrl] == w.dist[plan.redirect.json]
    && plan.redirect.bundleUrl in w.r2 && w.r2[plan.redirect.bundleUrl] == w.dist[plan.redirect.bundle]
  }

  ghost predicate GitHubServes(plan: GenerationPlan, w: World) {
    && RedirectPresent(plan, w.dist)
    && var release := ReleaseOf(w.releases, plan.redirectTag);
       forall name | name in {plan.redirect.json, plan.redirect.bundle, plan.redirect.sigstore} ::
         name in release && release[name] == w.dist[name]
  }

  ghost predicate R2RedirectKept(plan: GenerationPlan, w: World, w': World) {
    SameAt(w.r2, w'.r2, plan.redirect.jsonUrl) && SameAt(w.r2, w'.r2, plan.redirect.bundleUrl)
  }

  ghost predicate RedirectReleaseKept(plan: GenerationPlan, w: World, w': World) {
    plan.redirectTag in w.releases ==>
    plan.redirectTag in w'.releases && w'.releases[plan.redirectTag] == w.releases[plan.redirectTag]
  }

  /** The R2 redirect moves json first, then bundle. */
  ghost predicate R2RedirectStep(plan: GenerationPlan, w: World, w': World) {
    !R2RedirectKept(plan, w, w') ==>
      && plan.redirect.json in w'.dist && plan.redirect.jsonUrl in w'.r2
      && w'.r2[plan.redirect.jsonUrl] == w'.dist[plan.redirect.json]
      && (|| SameAt(w.r2, w'.r2, plan.redirect.bundleUrl)
          || (&& plan.redirect.bundle in w'.dist && plan.redirect.bundleUrl in w'.r2
              && w'.r2[plan.redirect.bundleUrl] == w'.dist[plan.redirect.bundle]))
  }

  /** A prepared file changes only where a published companion, beside identical data and verified,
      may replace it. */
  ghost predicate FilesAdopt(site: Site, plan: GenerationPlan, w: World, dist': Objects) {
    && dist'.Keys == w.dist.Keys
    && (forall name | name in w.dist && name !in Names(plan) :: dist'[name] == w.dist[name])
    && (forall i | 0 <= i < |plan.assets| && plan.assets[i].name in w.dist
        && dist'[plan.assets[i].name] != w.dist[plan.assets[i].name] ::
          && FilesPresent(plan, w.dist)
          && (|| Replaceable(site, plan, View(plan, R2, w.r2, w.releases), w.dist, {}, i)
              || Replaceable(site, plan, View(plan, GitHub, w.r2, w.releases), w.dist, {}, i)))
  }

  ghost predicate StoresKept(w: World, w': World) {
    w'.r2 == w.r2 && w'.releases == w.releases
  }

  /* ---------- phase 1 ---------- */

  /** R2 after the first n assets: those it lacked are uploaded, in plan order. */
  function Uploaded(plan: GenerationPlan, r2: Objects, dist: Objects, n: nat): Objects
    requires n <= |plan.assets| && FilesPresent(plan, dist)
  {
    if n == 0 then r2
    else
      var before := Uploaded(plan, r2, dist, n - 1);
      var asset := plan.assets[n - 1];
      if asset.r2Url in r2 then before else before[asset.r2Url := dist[asset.name]]
  }

  lemma {:induction false} UploadedExact(plan: GenerationPlan, r2: Objects, dist: Objects, n: nat)
    requires n <= |plan.assets| && FilesPresent(plan, dist) && DistinctNames(plan)
    ensures forall url :: url in Uploaded(plan, r2, dist, n) ==>
              url in r2 || exists i | 0 <= i < n :: plan.assets[i].r2Url == url
    ensures forall url | url in r2 :: SameAt(r2, Uploaded(plan, r2, dist, n), url)
    ensures forall i | 0 <= i < n :: plan.assets[i].r2Url in Uploaded(plan, r2, dist, n)
    ensures forall i | 0 <= i < n && plan.assets[i].r2Url !in r2 ::
              Uploaded(plan, r2, dist, n)[plan.assets[i].r2Url] == dist[plan.assets[i].name]
  {
    if n > 0 {
      UploadedExact(plan, r2, dist, n - 1);
      var before, after := Uploaded(plan, r2, dist, n - 1), Uploaded(plan, r2, dist, n);
      var u := plan.assets[n - 1].r2Url;
      forall url | url in r2 ensures SameAt(r2, after, url) {
        assert SameAt(r2, before, url);
      }
      assert u in r2 ==> SameAt(r2, before, u);
    }
  }

  /** Wherever phase 1 stops, R2 is only extended, and a companion on it still implies its data: data
      is planned, and so uploaded, before its companions. */
  lemma UploadedKeeps(plan: GenerationPlan, r2: Objects, dist: Objects, n: nat)
    requires n <= |plan.assets| && FilesPresent(plan, dist) && WellFormed(plan)
    ensures R2Extends(plan, r2, Uploaded(plan, r2, dist, n), dist)
    ensures SameAt(r2, Uploaded(plan, r2, dist, n), plan.redirect.jsonUrl)
    ensures SameAt(r2, Uploaded(plan, r2, dist, n), plan.redirect.bundleUrl)
    ensures CompanionsHaveData(plan, r2) ==> CompanionsHaveData(plan, Uploaded(plan, r2, dist, n))
  {
    UploadedExact(plan, r2, dist, n);
    var after := Uploaded(plan, r2, dist, n);
    forall url | url in after && url !in r2
      ensures exists i | 0 <= i < |plan.assets| :: plan.assets[i].r2Url == url && Planned(plan, dist, i, after[url])
    {
      var i :| 0 <= i < n && plan.assets[i].r2Url == url;
      assert Planned(plan, dist, i, after[url]);
    }
    if CompanionsHaveData(plan, r2) {
      forall i | 0 <= i < |plan.assets| && !IsData(plan, i) && plan.assets[i].r2Url in after
        ensures DataOf(plan, i) < |plan.assets| ==> plan.assets[DataOf(plan, i)].r2Url in after
      {
        var j := DataOf(plan, i);
        if plan.assets[i].r2Url !in r2 {
          var k :| 0 <= k < n && plan.assets[k].r2Url == plan.assets[i].r2Url;
          assert k == i && j < i;
        }
      }
    }
  }

  /* ---------- reports ---------- */

  /** The names of the assets, in plan order, that a view lacks (or has). */
  function NamesWhere(plan: GenerationPlan, view: seq<Option<Bytes>>, absent: bool, n: nat): seq<string>
    requires n <= |plan.assets| == |view|
  {
    if n == 0 then []
    else NamesWhere(plan, view, absent, n - 1) + (if view[n - 1].None? == absent then [plan.assets[n - 1].name] else [])
  }

  function NamesAt(plan: GenerationPlan, indexes: seq<nat>): (names: seq<string>)
    requires Within(indexes, |plan.assets|)
    ensures |names| == |indexes|
  {
    seq(|indexes|, k requires 0 <= k < |indexes| => plan.assets[indexes[k]].name)
  }

  ghost predicate Reports(site: Site, plan: GenerationPlan, w: World, report: PublishReport)
    requires FilesPresent(plan, w.dist)
  {
    var r2, gh := View(plan, R2, w.r2, w.releases), View(plan, GitHub, w.r2, w.releases);
    var n := |plan.assets|;
    && report.r2Uploaded == NamesWhere(plan, r2, true, n)
    && report.r2Skipped == NamesWhere(plan, r2, false, n)
    && report.githubSkipped == NamesWhere(plan, gh, false, n)
    && Within(AfterGitHub(site, plan, w).missing, n)
    && report.githubUploaded == NamesAt(plan, AfterGitHub(site, plan, w).missing)
    && (report.generationReleaseCreated <==> plan.generationTag !in w.releases)
    && (report.r2RedirectMoved <==> !R2Serves(plan, w))
    && report.adoptedSignatures == AfterGitHub(site, plan, w).notes
  }

  /* ---------- a run ---------- */

  /** What a run from w may leave behind, wherever it stops. */
  ghost predicate RunEffect(site: Site, plan: GenerationPlan, opts: PublishOptions, w: World, w': World,
                            res: Result<PublishReport, PublishError>)
  {
    && FilesAdopt(site, plan, w, w'.dist)
    && R2Extends(plan, w.r2, w'.r2, w'.dist)
    && ReleasesExtend(plan, w.releases, w'.releases, w'.dist)
    && RedirectReleaseStep(plan, ReleaseOf(w.releases, plan.redirectTag), ReleaseOf(w'.releases, plan.redirectTag),
                           w'.dist)
    && R2RedirectStep(plan, w, w')
    && (CompanionsHaveData(plan, w.r2) ==> CompanionsHaveData(plan, w'.r2))
       // Nothing is written before every check passed, and then with the adopted files.
    && (!StoresKept(w, w') || res.Success? ==>
        Admitted(site, plan, opts, w) && w'.dist == AfterGitHub(site, plan, w).dist)
       // No redirect moves before both stores are complete and the merge base holds.
    && (!R2RedirectKept(plan, w, w') || !RedirectReleaseKept(plan, w, w') || res.Success? ==>
          Complete(plan, w') && MergeBaseHolds(site, plan, opts, w.r2))
       // The stable release moves last.
    && (!RedirectReleaseKept(plan, w, w') || res.Success? ==> R2Serves(plan, w'))
    && (res.Success? ==> GitHubServes(plan, w') && Reports(site, plan, w, res.value))
  }

  datatype Run = Run(
    reliable: bool,
    plan: GenerationPlan,
    opts: PublishOptions,
    before: World,
    after: World,
    result: Result<PublishReport, PublishError>)

  /** A run of the publisher: its effect, and if every store operation worked, its verdict. */
  ghost predicate Ran(site: Site, run: Run) {
    && WellFormed(run.plan)
    && RunEffect(site, run.plan, run.opts, run.before, run.after, run.result)
    && (run.reliable ==> (run.result.Success? <==> CanPublish(site, run.plan, run.opts, run.before)))
    && (run.reliable && run.result.Failure? ==>
          StopsWith(site, run.plan, run.opts, run.before, run.result.error))
  }

  /* ---------- the stages of a run ---------- */

  /** Phases 1 to 3: only hashed assets are added. */
  ghost predicate HashedStep(plan: GenerationPlan, w: World, w': World) {
    && w'.dist == w.dist
    && R2Extends(plan, w.r2, w'.r2, w.dist)
    && ReleasesExtend(plan, w.releases, w'.releases, w.dist)
    && R2RedirectKept(plan, w, w')
    && RedirectReleaseKept(plan, w, w')
    && (CompanionsHaveData(plan, w.r2) ==> CompanionsHaveData(plan, w'.r2))
  }

  /** Phase 4, as far as it got. */
  ghost predicate R2Moves(plan: GenerationPlan, w: World, w': World) {
    || w' == w
    || R2MovesTo(plan, w, w')
  }

  ghost predicate R2MovesTo(plan: GenerationPlan, w: World, w': World) {
    && w'.dist == w.dist && w'.releases == w.releases
    && plan.redirect.json in w.dist && plan.redirect.bundle in w.dist
    && var json := w.r2[plan.redirect.jsonUrl := w.dist[plan.redirect.json]];
       w'.r2 in {w.r2, json, json[plan.redirect.bundleUrl := w.dist[plan.redirect.bundle]]}
  }

  /** Phase 5, as far as it got. */
  ghost predicate GitHubMoves(plan: GenerationPlan, w: World, w': World) {
    && w'.dist == w.dist && w'.r2 == w.r2
    && plan.redirectTag in w.releases && plan.redirectTag in w'.releases
    && w'.releases == w.releases[plan.redirectTag := w'.releases[plan.redirectTag]]
    && RedirectReleaseStep(plan, w.releases[plan.redirectTag], w'.releases[plan.redirectTag], w.dist)
  }

  /** The redirects move over the hashed assets without touching them. */
  lemma MovesKeepAssets(plan: GenerationPlan, w: World, w': World)
    requires WellFormed(plan) && (R2Moves(plan, w, w') || GitHubMoves(plan, w, w'))
    ensures Complete(plan, w) ==> Complete(plan, w')
    ensures CompanionsHaveData(plan, w.r2) ==> CompanionsHaveData(plan, w'.r2)
    ensures forall url | url !in {plan.redirect.jsonUrl, plan.redirect.bundleUrl} :: SameAt(w.r2, w'.r2, url)
    ensures w'.releases.Keys == w.releases.Keys
    ensures forall tag | tag in w.releases && tag != plan.redirectTag :: w'.releases[tag] == w.releases[tag]
  {
    forall i | 0 <= i < |plan.assets|
      ensures SameAt(w.r2, w'.r2, plan.assets[i].r2Url)
      ensures Remote(plan, R2, w'.r2, w'.releases, i) == Remote(plan, R2, w.r2, w.releases, i)
      ensures Remote(plan, GitHub, w'.r2, w'.releases, i) == Remote(plan, GitHub, w.r2, w.releases, i)
    {
    }
  }

  /** A run that stops in its checks. */
  lemma StoppedInChecks(site: Site, plan: GenerationPlan, opts: PublishOptions, w: World, w': World,
                        error: PublishError)
    requires WellFormed(plan) && StoresKept(w, w') && FilesAdopt(site, plan, w, w'.dist)
    ensures RunEffect(site, plan, opts, w, w', Failure(error))
  {
  }

  /** A run that stops before its redirects move. */
  lemma StoppedInHashed(site: Site, plan: GenerationPlan, opts: PublishOptions, w: World, w': World,
                        error: PublishError)
    requires WellFormed(plan) && Admitted(site, plan, opts, w)
    requires FilesAdopt(site, plan, w, AfterGitHub(site, plan, w).dist)
    requires HashedStep(plan, w.(dist := AfterGitHub(site, plan, w).dist), w')
    ensures RunEffect(site, plan, opts, w, w', Failure(error))
  {
  }

  /** Phase 4 on top of the hashed phases. */
  lemma R2AfterMoves(plan: GenerationPlan, c: World, h: World, m: World)
    requires WellFormed(plan) && HashedStep(plan, c, h) && R2Moves(plan, h, m)
    ensures R2Extends(plan, c.r2, m.r2, c.dist)
    ensures R2RedirectStep(plan, c, m)
    ensures !R2RedirectKept(plan, c, m) ==> m.r2 != h.r2
  {
    MovesKeepAssets(plan, h, m);
    forall url | url in m.r2 && url !in c.r2 && url !in {plan.redirect.jsonUrl, plan.redirect.bundleUrl}
      ensures exists i | 0 <= i < |plan.assets| :: plan.assets[i].r2Url == url && Planned(plan, c.dist, i, m.r2[url])
    {
      assert SameAt(h.r2, m.r2, url);
      assert url in h.r2;
    }
    forall url | url in c.r2 && url !in {plan.redirect.jsonUrl, plan.redirect.bundleUrl}
      ensures SameAt(c.r2, m.r2, url)
    {
      assert SameAt(c.r2, h.r2, url) && SameAt(h.r2, m.r2, url);
    }
  }

  /** Phase 5 on top of the hashed phases. */
  lemma ReleasesAfterMoves(plan: GenerationPlan, c: World, h: World, m: World, w': World)
    requires WellFormed(plan) && HashedStep(plan, c, h) && R2Moves(plan, h, m) && plan.redirectTag in c.releases
    requires w' == m || GitHubMoves(plan, m, w')
    ensures ReleasesExtend(plan, c.releases, w'.releases, c.dist)
    ensures RedirectReleaseStep(plan, ReleaseOf(c.releases, plan.redirectTag), ReleaseOf(w'.releases, plan.redirectTag),
                                c.dist)
    ensures !RedirectReleaseKept(plan, c, w') ==> w' != m
  {
    assert h.releases.Keys == w'.releases.Keys;
    assert forall tag | tag in h.releases && tag != plan.redirectTag :: w'.releases[tag] == h.releases[tag];
    assert ReleaseOf(w'.releases, plan.generationTag) == ReleaseOf(h.releases, plan.generationTag);
  }

  /** A run that gets to its redirects, stopped or not. */
  lemma StoppedInRedirects(site: Site, plan: GenerationPlan, opts: PublishOptions, w: World, h: World, m: World,
                           w': World, res: Result<PublishReport, PublishError>)
    requires WellFormed(plan) && Admitted(site, plan, opts, w)
    requires FilesAdopt(site, plan, w, AfterGitHub(site, plan, w).dist)
    requires HashedStep(plan, w.(dist := AfterGitHub(site, plan, w).dist), h) && Complete(plan, h)
    requires R2Moves(plan, h, m) && (m.r2 != h.r2 || w' != m || res.Success? ==> MergeBaseHolds(site, plan, opts, h.r2))
    requires w' == m || (GitHubMoves(plan, m, w') && R2Serves(plan, m))
    requires res.Success? ==> R2Serves(plan, w') && GitHubServes(plan, w') && Reports(site, plan, w, res.value)
    ensures RunEffect(site, plan, opts, w, w', res)
  {
    var c := w.(dist := AfterGitHub(site, plan, w).dist);
    R2AfterMoves(plan, c, h, m);
    ReleasesAfterMoves(plan, c, h, m, w');
    MovesKeepAssets(plan, h, m);
    if w' != m {
      MovesKeepAssets(plan, m, w');
    }
    assert w'.dist == c.dist && w'.r2 == m.r2;
    assert MergeBaseHolds(site, plan, opts, h.r2) <==> MergeBaseHolds(site, plan, opts, w.r2);
  }
}
