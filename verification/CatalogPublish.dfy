/** The publisher: the five phases over the two stores. A store operation that fails may or may not
    have taken effect, so the state a run leaves when one fails is the state of a crash there. */
module CatalogPublish {
  import opened Wrappers
  import opened ByteStrings
  import opened CatalogPreflight
  import opened CatalogRuns
  import opened CatalogPhases

  class Publisher {
    const site: Site

    /** No store operation fails. */
    var reliable: bool

    // The stores and the prepared directory.
    var r2: Objects
    var releases: map<string, Objects>
    var dist: Objects

    // The variables of a run.
    var digests: seq<Digest>
    var adopted: set<string>
    var conflicts: seq<Conflict>
    var report: PublishReport

    constructor (site: Site, world: World, reliable: bool)
      ensures this.site == site && this.reliable == reliable && TheWorld() == world
    {
      this.site, this.reliable := site, reliable;
      this.r2, this.releases, this.dist := world.r2, world.releases, world.dist;
      this.digests, this.adopted, this.conflicts := [], {}, [];
      this.report := PublishReport([], [], [], [], false, false, []);
    }

    ghost function TheWorld(): World
      reads this
    {
      World(r2, releases, dist)
    }

    /** The run's preflight variables, with those local to a pass. */
    ghost function Progress(missing: seq<nat>, identical: set<string>): Preflight
      reads this
    {
      Preflight(dist, digests, adopted, conflicts, report.adoptedSignatures, missing, identical)
    }

    /* ---------- store operations ---------- */

    /** Whether the next operation is interrupted. */
    method Interrupted() returns (yes: bool)
      ensures reliable ==> !yes
    {
      yes := *;
      yes := yes && !reliable;
    }

    /** Read asset i from a store: the bucket, or the assets the generation release lists. */
    method Fetch(store: Store, plan: GenerationPlan, i: nat) returns (ok: bool, remote: Option<Bytes>)
      requires i < |plan.assets|
      ensures ok ==> remote == Remote(plan, store, r2, releases, i)
      ensures reliable ==> ok
    {
      var failed := Interrupted();
      ok, remote := !failed, Remote(plan, store, r2, releases, i);
    }

    method ReadR2(url: string) returns (ok: bool, bytes: Option<Bytes>)
      ensures ok ==> bytes == if url in r2 then Some(r2[url]) else None
      ensures reliable ==> ok
    {
      var failed := Interrupted();
      ok, bytes := !failed, if url in r2 then Some(r2[url]) else None;
    }

    /** Upload a local file to R2, replacing what is there. */
    method Put(name: string, url: string) returns (ok: bool)
      modifies this`r2
      ensures ok ==> name in dist && r2 == old(r2)[url := dist[name]]
      ensures !ok ==> r2 == old(r2) || (name in dist && r2 == old(r2)[url := dist[name]])
      ensures reliable && name in dist ==> ok
    {
      if name !in dist {
        return false;
      }
      var before := Interrupted();
      if before {
        return false;
      }
      r2 := r2[url := dist[name]];
      var after := Interrupted();
      ok := !after;
    }

    /** Overwrite a local file. A write cut short leaves any bytes. */
    method WriteFile(name: string, bytes: Bytes) returns (ok: bool)
      requires name in dist
      modifies this`dist
      ensures ok ==> dist == old(dist)[name := bytes]
      ensures !ok ==> dist.Keys == old(dist).Keys && forall other | other in dist && other != name ::
                dist[other] == old(dist)[other]
      ensures reliable ==> ok
    {
      var before := Interrupted();
      if before {
        var torn: Bytes := *;
        dist := dist[name := torn];
        return false;
      }
      dist := dist[name := bytes];
      ok := true;
    }

    /** Create an empty release on a tag that validates. */
    method CreateRelease(tag: string, target: string) returns (ok: bool)
      requires tag !in releases
      modifies this`releases
      ensures ok ==> releases == old(releases)[tag := map[]]
      ensures !ok ==> releases == old(releases) || releases == old(releases)[tag := map[]]
      ensures reliable && site.tagOk(tag, target) ==> ok
    {
      if !site.tagOk(tag, target) {
        return false;
      }
      var before := Interrupted();
      if before {
        return false;
      }
      releases := releases[tag := map[]];
      var after := Interrupted();
      ok := !after;
    }

    /** Upload files to a release, each replacing the asset of its name. When interrupted, each file
        may be untouched, deleted, or uploaded. */
    method UploadAssets(tag: string, files: seq<string>) returns (ok: bool)
      modifies this`releases
      ensures tag !in old(releases) || (exists name | name in files :: name !in dist) ==> releases == old(releases)
      ensures tag in old(releases) ==> tag in releases && releases == old(releases)[tag := releases[tag]]
      ensures tag in old(releases) ==> forall name | !SameAt(old(releases)[tag], releases[tag], name) ::
                name in files && (name in releases[tag] ==> name in dist && releases[tag][name] == dist[name])
      ensures ok ==> tag in old(releases) && forall name | name in files ::
                name in dist && name in releases[tag] && releases[tag][name] == dist[name]
      ensures reliable && tag in old(releases) && (forall name | name in files :: name in dist) ==> ok
    {
      if tag !in releases || exists k | 0 <= k < |files| :: files[k] !in dist {
        assert tag in releases ==> releases == releases[tag := releases[tag]];
        return false;
      }
      assert forall k | 0 <= k < |files| :: files[k] in dist;
      ghost var start := releases;
      ok := true;
      for k := 0 to |files|
        invariant tag in releases && releases == start[tag := releases[tag]]
        invariant forall name | !SameAt(start[tag], releases[tag], name) ::
                    name in files[..k] && (name in releases[tag] ==> name in dist && releases[tag][name] == dist[name])
        invariant ok ==> forall name | name in files[..k] :: name in releases[tag] && releases[tag][name] == dist[name]
        invariant reliable ==> ok
      {
        var skipped := Interrupted();
        var deletedOnly := Interrupted();
        var release := releases[tag];
        assert files[..k + 1] == files[..k] + [files[k]];
        if skipped {
          ok := false;
        } else if deletedOnly {
          releases := releases[tag := release - {files[k]}];
          ok := false;
        } else {
          releases := releases[tag := release[files[k] := dist[files[k]]]];
        }
      }
      assert files[..|files|] == files;
      var after := Interrupted();
      ok := ok && !after;
    }

    /* ---------- preflight ---------- */

    method ReadDigests(plan: GenerationPlan) returns (ok: bool)
      modifies this`digests
      ensures ok <==> FilesPresent(plan, dist)
      ensures ok ==> digests == Digests(plan, dist)
    {
      digests := [];
      for i := 0 to |plan.assets|
        invariant |digests| == i
        invariant forall k | 0 <= k < i ::
                    plan.assets[k].name in dist && digests[k] == Sha256(dist[plan.assets[k].name])
      {
        if plan.assets[i].name !in dist {
          return false;
        }
        digests := digests + [Sha256(dist[plan.assets[i].name])];
      }
      ok := true;
    }

    /** Compare one asset with one store. */
    method ExamineAsset(store: Store, plan: GenerationPlan, i: nat, missing: seq<nat>, identical: set<string>)
      returns (ok: bool, missing': seq<nat>, identical': set<string>)
      requires i < |plan.assets| == |digests| && FilesPresent(plan, dist)
      requires identical <= Names(plan)
      modifies this`dist, this`digests, this`adopted, this`conflicts, this`report
      ensures ok ==>
        Progress(missing', identical') ==
        Examine(site, plan, store, Remote(plan, store, r2, releases, i), i, old(Progress(missing, identical)))
      ensures !ok ==>
              TornAt(site, plan, Remote(plan, store, r2, releases, i), i, old(Progress(missing, identical)), dist)
      ensures report == old(report).(adoptedSignatures := report.adoptedSignatures)
      ensures reliable ==> ok
    {
      var asset := plan.assets[i];
      missing', identical' := missing, identical;
      var fetched, remote := Fetch(store, plan, i);
      if !fetched {
        return false, missing, identical;
      }
      var adoptable := asset.signatureOf.Some? && asset.signatureOf.value in identical && asset.name !in adopted;
      if remote.Some? && adoptable {
        var refused;
        ok, refused := AdoptCompanion(store, plan, i, remote.value, missing, identical);
        if !ok || refused {
          return;
        }
      }
      missing', identical' := CompareAsset(store, plan, i, remote, missing, identical);
      ok := true;
    }

    /** A companion beside identical data: the published bytes replace the local ones once they verify. */
    method AdoptCompanion(store: Store, plan: GenerationPlan, i: nat, bytes: Bytes, ghost missing: seq<nat>,
                          identical: set<string>)
        returns (ok: bool, refused: bool)
      requires i < |plan.assets| == |digests| && FilesPresent(plan, dist) && identical <= Names(plan)
      requires Adoptable(plan.assets[i], Progress(missing, identical))
      modifies this`dist, this`digests, this`adopted, this`conflicts, this`report
      ensures ok ==>
        |digests| == |old(digests)|
        && Examine(site, plan, store, Some(bytes), i, old(Progress(missing, identical))) ==
           if refused then Progress(missing, identical)
           else Classify(store, plan.assets[i], i, Some(bytes), Progress(missing, identical))
      ensures !ok ==> TornAt(site, plan, Some(bytes), i, old(Progress(missing, identical)), dist)
      ensures report == old(report).(adoptedSignatures := report.adoptedSignatures)
      ensures reliable ==> ok
    {
      var asset := plan.assets[i];
      if Sha256(bytes) != digests[i] {
        var data := FindAsset(plan, asset.signatureOf.value, 0);
        // "Signs an unplanned asset" cannot happen: only planned names are ever identical.
        assert data < |plan.assets|;
        if !site.verify(dist[plan.assets[data].name], asset.name, bytes) {
          conflicts := conflicts + [Unverifiable(asset.name, store)];
          return true, true;
        }
        var written := WriteFile(asset.name, bytes);
        if !written {
          return false, false;
        }
        digests := digests[i := Sha256(bytes)];
        report := report.(adoptedSignatures := report.adoptedSignatures + [(asset.name, store)]);
      }
      adopted := adopted + {asset.name};
      return true, false;
    }

    /** Whether the published asset is missing, identical or in conflict. */
    method CompareAsset(store: Store, plan: GenerationPlan, i: nat, remote: Option<Bytes>, missing: seq<nat>,
                        identical: set<string>)
        returns (missing': seq<nat>, identical': set<string>)
      requires i < |plan.assets| == |digests|
      modifies this`conflicts
      ensures Progress(missing', identical') ==
              Classify(store, plan.assets[i], i, remote, old(Progress(missing, identical)))
    {
      var asset := plan.assets[i];
      missing', identical' := missing, identical;
      match remote {
        case None => missing' := missing' + [i];
        case Some(bytes) =>
          if Sha256(bytes) == digests[i] {
            if asset.signatureOf.None? {
              identical' := identical' + {asset.name};
            }
          } else {
            conflicts := conflicts + [Differs(asset.name, store, digests[i], Sha256(bytes))];
          }
      }
    }

    /** Compare the assets of `order` with one store, up to the first operation that fails. */
    method ExamineInOrder(store: Store, plan: GenerationPlan, order: seq<nat>)
      returns (ok: bool, missing: seq<nat>, identical: set<string>, ghost failed: nat)
      requires |digests| == |plan.assets| && FilesPresent(plan, dist) && Within(order, |plan.assets|)
      modifies this`dist, this`digests, this`adopted, this`conflicts, this`report
      ensures ok ==>
        Progress(missing, identical) ==
        ExamineAll(site, plan, store, View(plan, store, r2, releases), order, old(Progress([], {})))
      ensures !ok ==> failed < |order|
      ensures !ok ==>
        TornAt(site, plan, View(plan, store, r2, releases)[order[failed]], order[failed],
               ExamineAll(site, plan, store, View(plan, store, r2, releases), order[..failed], old(Progress([], {}))),
               dist)
      ensures report == old(report).(adoptedSignatures := report.adoptedSignatures)
      ensures reliable ==> ok
    {
      ghost var view := View(plan, store, r2, releases);
      ghost var start := Progress([], {});
      missing, identical, failed := [], {}, 0;
      for n := 0 to |order|
        invariant Progress(missing, identical) == ExamineAll(site, plan, store, view, order[..n], start)
        invariant identical <= Names(plan) && FilesPresent(plan, dist)
        invariant report == old(report).(adoptedSignatures := report.adoptedSignatures)
      {
        failed := n;
        assert view[order[n]] == Remote(plan, store, r2, releases, order[n]);
        assert plan.assets[order[n]].name in Names(plan);
        ExamineAllStep(site, plan, store, view, order, n, start);
        ok, missing, identical := ExamineAsset(store, plan, order[n], missing, identical);
        if !ok {
          return;
        }
      }
      assert order[..|order|] == order;
      ok := true;
    }

    /** Compare every asset with one store: the closed form of the pass, or when an operation fails, a
        partial rewrite of the companions. */
    method PreflightStore(store: Store, plan: GenerationPlan) returns (ok: bool, missing: seq<nat>)
      requires WellFormed(plan) && Digested(plan, Progress([], {}))
      modifies this`dist, this`digests, this`adopted, this`conflicts, this`report
      ensures ok ==>
        var pass := Pass(site, plan, store, View(plan, store, r2, releases), old(Progress([], {})));
        missing == pass.missing && Progress(missing, pass.identical) == pass
      ensures !ok ==> Rewritten(site, plan, View(plan, store, r2, releases), old(dist), old(adopted), dist)
      ensures report == old(report).(adoptedSignatures := report.adoptedSignatures)
      ensures reliable ==> ok
    {
      ghost var start := Progress([], {});
      PreflightOrderExact(plan);
      var identical: set<string>;
      ghost var failed;
      ok, missing, identical, failed := ExamineInOrder(store, plan, PreflightOrder(plan));
      if !ok {
        TornPass(site, plan, store, View(plan, store, r2, releases), start, failed, dist);
      }
    }

    /** Read the prepared files and compare them with both stores, before anything is written. */
    method Check(plan: GenerationPlan, opts: PublishOptions)
      returns (error: Option<PublishError>, r2Missing: seq<nat>, githubMissing: seq<nat>)
      requires WellFormed(plan)
      modifies this`dist, this`digests, this`adopted, this`conflicts, this`report
      ensures FilesAdopt(site, plan, old(TheWorld()), dist)
      ensures error.None? ==>
        && Admitted(site, plan, opts, old(TheWorld()))
        && dist == AfterGitHub(site, plan, old(TheWorld())).dist
        && digests == AfterGitHub(site, plan, old(TheWorld())).digests
        && Digested(plan, AfterGitHub(site, plan, old(TheWorld())))
        && r2Missing == AfterR2(site, plan, old(TheWorld())).missing
        && githubMissing == AfterGitHub(site, plan, old(TheWorld())).missing
        && report == PublishReport([], [], [], [], false, false, AfterGitHub(site, plan, old(TheWorld())).notes)
      ensures reliable ==> (error.None? <==> Admitted(site, plan, opts, old(TheWorld())))
      ensures reliable && error.Some? ==> StopsInChecks(site, plan, opts, old(TheWorld()), error.value)
    {
      ghost var w := TheWorld();
      r2Missing, githubMissing := [], [];
      report := PublishReport([], [], [], [], false, false, []);
      adopted, conflicts := {}, [];
      var read := ReadDigests(plan);
      if !read {
        return Some(FileUnreadable), [], [];
      }
      var failed := Interrupted();
      if failed {
        return Some(StoreFailed), [], [];
      }
      if plan.redirectTag !in releases {
        return Some(NoRedirectRelease), [], [];
      }
      if !site.tagOk(plan.generationTag, opts.targetCommit) {
        return Some(TagRefused), [], [];
      }
      ghost var p := Unexamined(plan, dist);
      assert Progress([], {}) == p;
      var r2Ok;
      r2Ok, r2Missing := PreflightStore(R2, plan);
      if !r2Ok {
        RewriteAdopts(site, plan, w, dist);
        return Some(StoreFailed), [], [];
      }
      PassExact(site, plan, R2, View(plan, R2, w.r2, w.releases), p);
      PassRewrites(site, plan, R2, View(plan, R2, w.r2, w.releases), p);
      ghost var q := AfterR2(site, plan, w);
      assert Progress([], {}) == q.(missing := [], identical := {});
      var githubOk;
      githubOk, githubMissing := PreflightStore(GitHub, plan);
      if !githubOk {
        SecondRewriteAdopts(site, plan, w, q, dist);
        return Some(StoreFailed), [], [];
      }
      PassExact(site, plan, GitHub, View(plan, GitHub, w.r2, w.releases), q);
      PassRewrites(site, plan, GitHub, View(plan, GitHub, w.r2, w.releases), q);
      SecondRewriteAdopts(site, plan, w, q, dist);
      if conflicts != [] {
        return Some(Conflicted(conflicts)), [], [];
      }
      error := None;
    }

    /* ---------- phases 1 to 3 ---------- */

    method UploadToR2(plan: GenerationPlan, missing: seq<nat>) returns (ok: bool, ghost reached: nat)
      requires WellFormed(plan) && FilesPresent(plan, dist) && Within(missing, |plan.assets|)
      requires forall i | 0 <= i < |plan.assets| :: i in missing <==> plan.assets[i].r2Url !in r2
      requires report.r2Uploaded == [] && report.r2Skipped == []
      modifies this`r2, this`report
      ensures reached <= |plan.assets| && r2 == Uploaded(plan, old(r2), dist, reached)
      ensures ok ==> reached == |plan.assets| && report == old(report).(
        r2Uploaded := NamesWhere(plan, View(plan, R2, old(r2), releases), true, |plan.assets|),
        r2Skipped := NamesWhere(plan, View(plan, R2, old(r2), releases), false, |plan.assets|))
      ensures reliable ==> ok
    {
      ghost var start := r2;
      ghost var view := View(plan, R2, r2, releases);
      reached := 0;
      for i := 0 to |plan.assets|
        invariant reached == i && r2 == Uploaded(plan, start, dist, i)
        invariant report == old(report).(r2Uploaded := NamesWhere(plan, view, true, i),
                                         r2Skipped := NamesWhere(plan, view, false, i))
      {
        ok := UploadOneToR2(plan, missing, i, start);
        if !ok {
          return false, if r2 == Uploaded(plan, start, dist, i) then i else i + 1;
        }
        reached := i + 1;
      }
      ok := true;
    }

    /** Upload one asset, if it is missing. */
    method UploadOneToR2(plan: GenerationPlan, missing: seq<nat>, i: nat, ghost start: Objects) returns (ok: bool)
      requires WellFormed(plan) && FilesPresent(plan, dist) && Within(missing, |plan.assets|) && i < |plan.assets|
      requires forall k | 0 <= k < |plan.assets| :: k in missing <==> plan.assets[k].r2Url !in start
      requires r2 == Uploaded(plan, start, dist, i)
      modifies this`r2, this`report
      ensures r2 == Uploaded(plan, start, dist, i + 1) || (!ok && r2 == old(r2))
      ensures ok ==> report == old(report).(
        r2Uploaded := old(report).r2Uploaded + (if plan.assets[i].r2Url !in start then [plan.assets[i].name] else []),
        r2Skipped := old(report).r2Skipped + (if plan.assets[i].r2Url in start then [plan.assets[i].name] else []))
      ensures reliable ==> ok
    {
      var asset := plan.assets[i];
      NamesMissing(plan, missing, i);
      if exists k | 0 <= k < |missing| :: plan.assets[missing[k]].name == asset.name {
        ok := Put(asset.name, asset.r2Url);
        if ok {
          report := report.(r2Uploaded := report.r2Uploaded + [asset.name]);
        }
      } else {
        ok := true;
        report := report.(r2Skipped := report.r2Skipped + [asset.name]);
      }
    }

    /** Create the generation release when there is none, and note the assets it already has. */
    method OpenGenerationRelease(plan: GenerationPlan, opts: PublishOptions, missing: seq<nat>) returns (ok: bool)
      requires WellFormed(plan) && Within(missing, |plan.assets|)
      requires forall i | 0 <= i < |plan.assets| ::
                 i in missing <==> plan.assets[i].name !in ReleaseOf(releases, plan.generationTag)
      requires report.githubSkipped == [] && !report.generationReleaseCreated
      modifies this`releases, this`report
      ensures releases == old(releases)
              || releases == old(releases)[plan.generationTag := ReleaseOf(old(releases), plan.generationTag)]
      ensures ok ==> releases == old(releases)[plan.generationTag := ReleaseOf(old(releases), plan.generationTag)]
      ensures ok ==> report == old(report).(
        generationReleaseCreated := plan.generationTag !in old(releases),
        githubSkipped := NamesWhere(plan, View(plan, GitHub, r2, old(releases)), false, |plan.assets|))
      ensures reliable && site.tagOk(plan.generationTag, opts.targetCommit) ==> ok
    {
      ghost var view := View(plan, GitHub, r2, releases);
      ghost var start := releases;
      if plan.generationTag !in releases {
        var created := CreateRelease(plan.generationTag, opts.targetCommit);
        if !created {
          return false;
        }
        report := report.(generationReleaseCreated := true);
      }
      ghost var withRelease := releases;
      for i := 0 to |plan.assets|
        invariant releases == withRelease
        invariant report == old(report).(
          generationReleaseCreated := plan.generationTag !in start, githubSkipped := NamesWhere(plan, view, false, i))
      {
        assert view[i] == Remote(plan, GitHub, r2, start, i);
        if !exists k | 0 <= k < |missing| :: plan.assets[missing[k]].name == plan.assets[i].name {
          report := report.(githubSkipped := report.githubSkipped + [plan.assets[i].name]);
        }
      }
      ok := true;
    }

    /** Upload what the generation release lacks, in one batch. */
    method UploadMissing(plan: GenerationPlan, missing: seq<nat>) returns (ok: bool)
      requires WellFormed(plan) && FilesPresent(plan, dist) && Within(missing, |plan.assets|)
      requires plan.redirectTag in releases && plan.generationTag in releases
      requires forall i | 0 <= i < |plan.assets| ::
                 i in missing <==> plan.assets[i].name !in ReleaseOf(releases, plan.generationTag)
      requires report.githubUploaded == []
      modifies this`releases, this`report
      ensures ReleasesExtend(plan, old(releases), releases, dist)
      ensures plan.redirectTag in releases && releases[plan.redirectTag] == old(releases)[plan.redirectTag]
      ensures ok ==> report == old(report).(githubUploaded := NamesAt(plan, missing))
      ensures ok ==> forall i | 0 <= i < |plan.assets| && i in missing ::
                Remote(plan, GitHub, r2, releases, i) == Some(dist[plan.assets[i].name])
      ensures reliable ==> ok
    {
      ghost var start := releases;
      ok := true;
      if missing != [] {
        var files := NamesAt(plan, missing);
        ok := UploadAssets(plan.generationTag, files);
        BatchExtends(plan, start, releases, dist, missing);
        if !ok {
          return;
        }
        report := report.(githubUploaded := files);
        forall i | 0 <= i < |plan.assets| && i in missing
          ensures Remote(plan, GitHub, r2, releases, i) == Some(dist[plan.assets[i].name])
        {
          var k :| 0 <= k < |missing| && missing[k] == i;
          assert files[k] == plan.assets[i].name;
        }
      } else {
        assert NamesAt(plan, missing) == [];
      }
    }

    /** Download both public copies of every asset and compare them with the prepared digests. */
    method VerifyPublicCopies(plan: GenerationPlan) returns (error: Option<PublishError>)
      requires |digests| == |plan.assets|
      ensures error.None? ==> AllVerified(plan, TheWorld(), digests)
      ensures reliable ==> (error.None? <==> AllVerified(plan, TheWorld(), digests))
      ensures reliable && AllThere(plan, TheWorld()) && error.Some? ==>
        MismatchesAre(plan, TheWorld(), digests, error.value)
    {
      var mismatches: seq<string> := [];
      for i := 0 to |plan.assets|
        invariant forall name :: name in mismatches <==> MismatchesAmong(plan, TheWorld(), digests, i, name)
      {
        assert AllVerified(plan, TheWorld(), digests) ==> VerifiedAt(plan, TheWorld(), digests[i], i);
        ghost var names := mismatches;
        var fromR2Ok, fromR2 := Fetch(R2, plan, i);
        if !fromR2Ok || fromR2.None? {
          return Some(StoreFailed);
        }
        if Sha256(fromR2.value) != digests[i] {
          mismatches := mismatches + [plan.assets[i].name];
        }
        var fromGitHubOk, fromGitHub := Fetch(GitHub, plan, i);
        if !fromGitHubOk || fromGitHub.None? {
          return Some(StoreFailed);
        }
        if Sha256(fromGitHub.value) != digests[i] {
          mismatches := mismatches + [plan.assets[i].name];
        }
        OneMoreMismatch(plan, TheWorld(), digests, i, names, mismatches);
      }
      MismatchesExact(plan, TheWorld(), digests, mismatches);
      error := if mismatches != [] then Some(PublicMismatch(mismatches)) else None;
    }

    /** Phases 1 and 2: upload what each store lacks. */
    method UploadBoth(plan: GenerationPlan, opts: PublishOptions, r2Missing: seq<nat>, githubMissing: seq<nat>)
        returns (ok: bool)
      requires WellFormed(plan) && FilesPresent(plan, dist) && plan.redirectTag in releases
      requires Lacks(plan, R2, TheWorld(), r2Missing) && Lacks(plan, GitHub, TheWorld(), githubMissing)
      requires report == PublishReport([], [], [], [], false, false, report.adoptedSignatures)
      modifies this`r2, this`releases, this`report
      ensures HashedStep(plan, old(TheWorld()), TheWorld())
      ensures ok ==> BothUploaded(plan, old(TheWorld()), TheWorld())
      ensures ok ==> report == UploadReport(plan, old(TheWorld()), githubMissing, old(report).adoptedSignatures)
      ensures reliable && site.tagOk(plan.generationTag, opts.targetCommit) ==> ok
    {
      ghost var w := TheWorld();
      LacksExact(plan, w, r2Missing, githubMissing);
      ghost var reached;
      ok, reached := UploadToR2(plan, r2Missing);
      assert View(plan, GitHub, r2, releases) == View(plan, GitHub, w.r2, w.releases);
      if ok {
        ok := UploadToGitHub(plan, opts, githubMissing);
        if ok {
          UploadedIsThere(plan, w, r2);
        }
      }
      UploadsAreHashed(plan, w, TheWorld(), reached);
    }

    /** The GitHub half: open the release, then upload what it lacks. */
    method UploadToGitHub(plan: GenerationPlan, opts: PublishOptions, missing: seq<nat>) returns (ok: bool)
      requires WellFormed(plan) && FilesPresent(plan, dist) && plan.redirectTag in releases
               && Within(missing, |plan.assets|)
      requires forall i | 0 <= i < |plan.assets| ::
                 i in missing <==> plan.assets[i].name !in ReleaseOf(releases, plan.generationTag)
      requires report.githubUploaded == [] && report.githubSkipped == [] && !report.generationReleaseCreated
      modifies this`releases, this`report
      ensures ReleasesExtend(plan, old(releases), releases, dist)
      ensures plan.redirectTag in releases && releases[plan.redirectTag] == old(releases)[plan.redirectTag]
      ensures ok ==> report == old(report).(
        generationReleaseCreated := plan.generationTag !in old(releases),
        githubSkipped := NamesWhere(plan, View(plan, GitHub, r2, old(releases)), false, |plan.assets|),
        githubUploaded := NamesAt(plan, missing))
      ensures ok ==> forall i | 0 <= i < |plan.assets| && i in missing ::
                Remote(plan, GitHub, r2, releases, i) == Some(dist[plan.assets[i].name])
      ensures reliable && site.tagOk(plan.generationTag, opts.targetCommit) ==> ok
    {
      ghost var start := releases;
      ok := OpenGenerationRelease(plan, opts, missing);
      if ok {
        ghost var open := releases;
        ok := UploadMissing(plan, missing);
        OpenThenExtend(plan, start, open, releases, dist);
      }
    }

    /** Phases 1 to 3: then compare both public copies. */
    method UploadHashed(plan: GenerationPlan, opts: PublishOptions, r2Missing: seq<nat>, githubMissing: seq<nat>)
      returns (error: Option<PublishError>)
      requires WellFormed(plan) && FilesPresent(plan, dist) && digests == Digests(plan, dist)
               && plan.redirectTag in releases
      requires Lacks(plan, R2, TheWorld(), r2Missing) && Lacks(plan, GitHub, TheWorld(), githubMissing)
      requires report == PublishReport([], [], [], [], false, false, report.adoptedSignatures)
      modifies this`r2, this`releases, this`report
      ensures HashedStep(plan, old(TheWorld()), TheWorld())
      ensures error.None? ==> Complete(plan, TheWorld())
      ensures error.None? ==>
              report == UploadReport(plan, old(TheWorld()), githubMissing, old(report).adoptedSignatures)
      ensures reliable && site.tagOk(plan.generationTag, opts.targetCommit) ==>
        (error.None? <==> Agrees(plan, R2, old(TheWorld()), dist) && Agrees(plan, GitHub, old(TheWorld()), dist))
      ensures reliable && site.tagOk(plan.generationTag, opts.targetCommit) && error.Some? ==>
        error.value.PublicMismatch? && Disagree(plan, old(TheWorld()), dist, error.value.names)
    {
      ghost var w := TheWorld();
      var ok := UploadBoth(plan, opts, r2Missing, githubMissing);
      if !ok {
        return Some(StoreFailed);
      }
      error := VerifyPublicCopies(plan);
      VerifiedExact(plan, TheWorld(), digests);
      PublicCopies(plan, w, TheWorld());
      UploadedAreThere(plan, w, TheWorld());
      if reliable && error.Some? {
        MismatchesDisagree(plan, w, TheWorld(), error.value.names);
      }
    }

    /* ---------- phases 4 and 5 ---------- */

    /** Move the redirect on R2, json then bundle, after comparing the live one with the merge base. */
    method MoveR2Redirect(plan: GenerationPlan, opts: PublishOptions) returns (error: Option<PublishError>)
      requires WellFormed(plan) && !report.r2RedirectMoved
      modifies this`r2, this`report
      ensures r2 != old(r2) || error.None? ==> plan.redirect.json in dist && plan.redirect.bundle in dist
      ensures r2 != old(r2) || error.None? ==> MergeBaseHolds(site, plan, opts, old(r2))
      ensures r2 == old(r2)
           || r2 == old(r2)[plan.redirect.jsonUrl := dist[plan.redirect.json]]
           || r2 == old(r2)[plan.redirect.jsonUrl := dist[plan.redirect.json]]
                           [plan.redirect.bundleUrl := dist[plan.redirect.bundle]]
      ensures error.None? ==>
        r2 == old(r2)[plan.redirect.jsonUrl := dist[plan.redirect.json]]
                     [plan.redirect.bundleUrl := dist[plan.redirect.bundle]]
      ensures error.None? ==> report == old(report).(r2RedirectMoved := r2 != old(r2))
      ensures reliable ==> (error.None? <==>
        plan.redirect.json in dist && plan.redirect.bundle in dist && MergeBaseHolds(site, plan, opts, old(r2)))
      ensures reliable && error.Some? ==>
        (if plan.redirect.json in dist && plan.redirect.bundle in dist
         then RefusedWith(site, plan, opts, old(r2), error.value)
         else error.value == FileUnreadable)
    {
      if plan.redirect.json !in dist || plan.redirect.bundle !in dist {
        return Some(FileUnreadable);
      }
      var liveOk, live := ReadR2(plan.redirect.jsonUrl);
      if !liveOk {
        return Some(StoreFailed);
      }
      var bundleOk, liveBundle := ReadR2(plan.redirect.bundleUrl);
      if !bundleOk {
        return Some(StoreFailed);
      }
      match live {
        case None =>
          if opts.expectedMergeBase.Some? {
            return Some(NoLiveRedirect);
          }
        case Some(bytes) =>
          var last := site.lastArtifact(bytes);
          if last.None? {
            return Some(LiveRedirectUnreadable);
          }
          var resumed := last.value == plan.masterName;
          if opts.expectedMergeBase.Some? && opts.expectedMergeBase.value != last.value && !resumed {
            return Some(MergeBaseMoved(last.value));
          }
      }
      if live == Some(dist[plan.redirect.json]) && liveBundle == Some(dist[plan.redirect.bundle]) {
        assert r2 == r2[plan.redirect.jsonUrl := dist[plan.redirect.json]]
                       [plan.redirect.bundleUrl := dist[plan.redirect.bundle]];
      } else {
        var jsonPut := Put(plan.redirect.json, plan.redirect.jsonUrl);
        if !jsonPut {
          return Some(StoreFailed);
        }
        var bundlePut := Put(plan.redirect.bundle, plan.redirect.bundleUrl);
        if !bundlePut {
          return Some(StoreFailed);
        }
        report := report.(r2RedirectMoved := true);
      }
      error := None;
    }

    /** Replace the redirect files of the stable release. */
    method MoveGitHubRedirect(plan: GenerationPlan) returns (error: Option<PublishError>)
      requires plan.redirectTag in releases
      modifies this`releases
      ensures plan.redirectTag in releases && releases == old(releases)[plan.redirectTag := releases[plan.redirectTag]]
      ensures RedirectReleaseStep(plan, old(releases)[plan.redirectTag], releases[plan.redirectTag], dist)
      ensures releases != old(releases) || error.None? ==> RedirectPresent(plan, dist)
      ensures error.None? ==> GitHubServes(plan, TheWorld())
      ensures reliable ==> (error.None? <==> RedirectPresent(plan, dist))
      ensures error.Some? ==> error.value == GitHubRedirectNotUpdated
    {
      var files := [plan.redirect.json, plan.redirect.bundle, plan.redirect.sigstore];
      assert plan.redirect.json == files[0] && plan.redirect.bundle == files[1] && plan.redirect.sigstore == files[2];
      assert RedirectPresent(plan, dist) <==> forall name | name in files :: name in dist;
      var ok := UploadAssets(plan.redirectTag, files);
      error := if ok then None else Some(GitHubRedirectNotUpdated);
    }

    /** Phases 4 and 5: the redirects, R2's before the stable release's. */
    method MoveRedirects(plan: GenerationPlan, opts: PublishOptions)
        returns (error: Option<PublishError>, ghost between: World)
      requires WellFormed(plan) && plan.redirectTag in releases && !report.r2RedirectMoved
      modifies this`r2, this`releases, this`report
      ensures RedirectsMoved(site, plan, opts, old(TheWorld()), between, TheWorld(), error.None?)
      ensures error.None? ==> report == old(report).(r2RedirectMoved := !R2Serves(plan, old(TheWorld())))
      ensures reliable ==> (error.None? <==> RedirectPresent(plan, dist) && MergeBaseHolds(site, plan, opts, old(r2)))
      ensures reliable && error.Some? ==> StopsInRedirects(site, plan, opts, old(r2), dist, error.value)
    {
      error := MoveR2Redirect(plan, opts);
      between := TheWorld();
      if error.Some? {
        return;
      }
      error := MoveGitHubRedirect(plan);
    }

    /** The five phases, after the checks passed. */
    method Phases(plan: GenerationPlan, opts: PublishOptions, r2Missing: seq<nat>, githubMissing: seq<nat>)
      returns (res: Result<PublishReport, PublishError>)
      requires WellFormed(plan) && FilesPresent(plan, dist) && digests == Digests(plan, dist)
               && plan.redirectTag in releases
      requires Lacks(plan, R2, TheWorld(), r2Missing) && Lacks(plan, GitHub, TheWorld(), githubMissing)
      requires report == PublishReport([], [], [], [], false, false, report.adoptedSignatures)
      modifies this`r2, this`releases, this`report
      ensures Stages(site, plan, opts, old(TheWorld()), TheWorld(), res)
      ensures res.Success? ==>
              res.value == PhaseReport(plan, old(TheWorld()), githubMissing, old(report).adoptedSignatures)
      ensures reliable && site.tagOk(plan.generationTag, opts.targetCommit) ==>
        PhasesEnd(site, plan, opts, old(TheWorld()), res)
    {
      ghost var c := TheWorld();
      var error := UploadHashed(plan, opts, r2Missing, githubMissing);
      if error.Some? {
        if reliable && site.tagOk(plan.generationTag, opts.targetCommit) {
          UploadsStop(site, plan, opts, c, error.value);
        }
        return Failure(error.value);
      }
      res := LastPhases(plan, opts, c, githubMissing, report.adoptedSignatures);
      if reliable && site.tagOk(plan.generationTag, opts.targetCommit) {
        RedirectsEnd(site, plan, opts, c, res);
      }
    }

    /** The phases after every hashed asset is on both stores. */
    method LastPhases(plan: GenerationPlan, opts: PublishOptions, ghost c: World, ghost githubMissing: seq<nat>,
                      ghost notes: seq<(string, Store)>)
      returns (res: Result<PublishReport, PublishError>)
      requires WellFormed(plan) && HashedStep(plan, c, TheWorld()) && Complete(plan, TheWorld())
               && plan.redirectTag in releases
      requires Within(githubMissing, |plan.assets|) && report == UploadReport(plan, c, githubMissing, notes)
      modifies this`r2, this`releases, this`report
      ensures Stages(site, plan, opts, c, TheWorld(), res)
      ensures res.Success? ==> res.value == PhaseReport(plan, c, githubMissing, notes)
      ensures reliable ==> (res.Success? <==> RedirectPresent(plan, c.dist) && MergeBaseHolds(site, plan, opts, c.r2))
      ensures reliable && res.Failure? ==> StopsInRedirects(site, plan, opts, c.r2, c.dist, res.error)
    {
      ghost var h := TheWorld();
      SameRedirect(site, plan, opts, c, h);
      var error, between := MoveRedirects(plan, opts);
      res := if error.None? then Success(report) else Failure(error.value);
      LastStage(site, plan, opts, c, h, between, TheWorld(), res);
    }

    /** Publish a prepared generation. Wherever it stops, it leaves what RunEffect allows. */
    method PublishGeneration(plan: GenerationPlan, opts: PublishOptions)
        returns (res: Result<PublishReport, PublishError>)
      requires WellFormed(plan)
      modifies this
      ensures reliable == old(reliable)
      ensures Ran(site, Run(reliable, plan, opts, old(TheWorld()), TheWorld(), res))
    {
      ghost var w := TheWorld();
      var error, r2Missing, githubMissing := Check(plan, opts);
      if error.Some? {
        StoppedInChecks(site, plan, opts, w, TheWorld(), error.value);
        return Failure(error.value);
      }
      Checked(site, plan, w);
      res := Phases(plan, opts, r2Missing, githubMissing);
      PhaseReportExact(site, plan, opts, w);
      CanFinishExact(site, plan, opts, w);
      if reliable && res.Failure? {
        PhasesStopRun(site, plan, opts, w, res.error);
      }
      StagesAreARun(site, plan, opts, w, TheWorld(), res);
    }
  }
}
