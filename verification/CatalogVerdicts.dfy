/** What a publish run says: the conflicts and adoptions of its checks, its report, and its error. */
module CatalogVerdicts {
  import opened Wrappers
  import opened ByteStrings
  import opened CatalogPreflight
  import opened CatalogRuns

  /* ---------- what a pass says ---------- */

  /** The conflict of asset i: a companion beside its data that does not verify, or other bytes than the file's. */
  ghost function ConflictOf(site: Site, plan: GenerationPlan, store: Store, view: seq<Option<Bytes>>, dist: Objects,
                            adopted: set<string>, i: nat): Option<Conflict>
    requires FilesPresent(plan, dist) && |view| == |plan.assets| && i < |plan.assets|
  {
    var name := plan.assets[i].name;
    if view[i].None? || view[i].value == dist[name] || Replaceable(site, plan, view, dist, adopted, i) then None
    else if BesideItsData(plan, view, dist, adopted, i) then Some(Unverifiable(name, store))
    else Some(Differs(name, store, Sha256(dist[name]), Sha256(view[i].value)))
  }

  ghost function NoteOf(site: Site, plan: GenerationPlan, store: Store, view: seq<Option<Bytes>>, dist: Objects,
                        adopted: set<string>, i: nat): Option<(string, Store)>
    requires FilesPresent(plan, dist) && |view| == |plan.assets| && i < |plan.assets|
  {
    if Replaceable(site, plan, view, dist, adopted, i) then Some((plan.assets[i].name, store)) else None
  }

  function Added<T>(said: Option<T>): seq<T> {
    if said.None? then [] else [said.value]
  }

  /** What examining one asset adds, in terms of the variables of the pass. */
  function SaidOf(site: Site, asset: HashedAsset, store: Store, remote: Option<Bytes>, digest: Digest,
                  adoptable: bool, verifies: bool): (Option<Conflict>, Option<(string, Store)>)
  {
    if remote.None? || Sha256(remote.value) == digest then (None, None)
    else if !adoptable then (Some(Differs(asset.name, store, digest, Sha256(remote.value))), None)
    else if verifies then (None, Some((asset.name, store)))
    else (Some(Unverifiable(asset.name, store)), None)
  }

  predicate VerifiesIn(site: Site, asset: HashedAsset, remote: Option<Bytes>, dist: Objects) {
    && remote.Some? && asset.signatureOf.Some?
    && site.verify(DataBytes(dist, asset.signatureOf.value), asset.name, remote.value)
  }

  lemma ExamineAdds(site: Site, plan: GenerationPlan, store: Store, remote: Option<Bytes>, i: nat, q: Preflight)
    requires i < |plan.assets| == |q.digests|
    ensures var r, asset := Examine(site, plan, store, remote, i, q), plan.assets[i];
      var said := SaidOf(site, asset, store, remote, q.digests[i], Adoptable(asset, q),
                         VerifiesIn(site, asset, remote, q.dist));
      r.conflicts == q.conflicts + Added(said.0) && r.notes == q.notes + Added(said.1)
  {
    assert q.conflicts + [] == q.conflicts && q.notes + [] == q.notes;
  }

  /** The same in terms of the start of the pass. */
  lemma SaysTheSame(site: Site, plan: GenerationPlan, store: Store, view: seq<Option<Bytes>>, dist: Objects,
                    adopted: set<string>, i: nat, adoptable: bool, verifies: bool)
    requires FilesPresent(plan, dist) && |view| == |plan.assets| && i < |plan.assets|
    requires view[i].Some? ==> (adoptable <==> BesideItsData(plan, view, dist, adopted, i))
    requires view[i].Some? && adoptable ==>
               (verifies <==> site.verify(dist[plan.assets[DataOf(plan, i)].name], plan.assets[i].name, view[i].value))
    ensures SaidOf(site, plan.assets[i], store, view[i], Sha256(dist[plan.assets[i].name]), adoptable, verifies) ==
            (ConflictOf(site, plan, store, view, dist, adopted, i), NoteOf(site, plan, store, view, dist, adopted, i))
  {
  }

  /** Examining one asset adds its conflict and its note. */
  lemma ExamineSays(site: Site, plan: GenerationPlan, store: Store, view: seq<Option<Bytes>>, done: seq<nat>, i: nat,
                    p: Preflight, q: Preflight)
    requires DistinctNames(plan) && DataFirst(plan) && Digested(plan, p) && |view| == |plan.assets| && i < |plan.assets|
    requires Within(done, |plan.assets|) && NextInOrder(plan, done, i)
    requires Examined(site, plan, view, done, p, q)
    ensures var r := Examine(site, plan, store, view[i], i, q);
      && r.conflicts == q.conflicts + Added(ConflictOf(site, plan, store, view, p.dist, p.adopted, i))
      && r.notes == q.notes + Added(NoteOf(site, plan, store, view, p.dist, p.adopted, i))
  {
    var asset := plan.assets[i];
    ExamineAdds(site, plan, store, view[i], i, q);
    StillUnexamined(site, plan, view, done, i, p, q);
    if view[i].Some? {
      BesideExact(site, plan, view, done, i, p, q);
    }
    SaysTheSame(site, plan, store, view, p.dist, p.adopted, i, Adoptable(asset, q),
                VerifiesIn(site, asset, view[i], q.dist));
  }

  lemma StillUnexamined(site: Site, plan: GenerationPlan, view: seq<Option<Bytes>>, done: seq<nat>, i: nat,
                        p: Preflight, q: Preflight)
    requires Digested(plan, p) && |view| == |plan.assets| && i < |plan.assets|
    requires Within(done, |plan.assets|) && i !in done && Examined(site, plan, view, done, p, q)
    ensures |q.digests| == |plan.assets| && q.digests[i] == Sha256(p.dist[plan.assets[i].name])
  {
    assert q.dist[plan.assets[i].name] == p.dist[plan.assets[i].name];
  }

  /** When a companion counts as published beside its data. */
  lemma BesideExact(site: Site, plan: GenerationPlan, view: seq<Option<Bytes>>, done: seq<nat>, i: nat, p: Preflight,
                    q: Preflight)
    requires DistinctNames(plan) && DataFirst(plan) && Digested(plan, p) && |view| == |plan.assets| && i < |plan.assets|
    requires Within(done, |plan.assets|) && NextInOrder(plan, done, i)
    requires Examined(site, plan, view, done, p, q) && view[i].Some?
    ensures BesideItsData(plan, view, p.dist, p.adopted, i) <==> Adoptable(plan.assets[i], q)
    ensures !IsData(plan, i) ==>
              DataBytes(q.dist, plan.assets[i].signatureOf.value) == p.dist[plan.assets[DataOf(plan, i)].name]
  {
    if !IsData(plan, i) {
      var j := DataOf(plan, i);
      assert j in done;
      assert Settled(site, plan, view, p.dist, p.adopted, j) == p.dist[plan.assets[j].name];
    }
  }

  ghost predicate SaysConflict(site: Site, plan: GenerationPlan, store: Store, view: seq<Option<Bytes>>, p: Preflight,
                               order: seq<nat>, c: Conflict)
    requires FilesPresent(plan, p.dist) && |view| == |plan.assets|
  {
    exists i | i in order && 0 <= i < |plan.assets| ::
      ConflictOf(site, plan, store, view, p.dist, p.adopted, i) == Some(c)
  }

  ghost predicate SaysNote(site: Site, plan: GenerationPlan, store: Store, view: seq<Option<Bytes>>, p: Preflight,
                           order: seq<nat>, note: (string, Store))
    requires FilesPresent(plan, p.dist) && |view| == |plan.assets|
  {
    exists i | i in order && 0 <= i < |plan.assets| ::
      NoteOf(site, plan, store, view, p.dist, p.adopted, i) == Some(note)
  }

  /** One more asset in the order, one more that says something. */
  lemma SaysMore(site: Site, plan: GenerationPlan, store: Store, view: seq<Option<Bytes>>, p: Preflight,
                 done: seq<nat>, i: nat)
    requires FilesPresent(plan, p.dist) && |view| == |plan.assets| && i < |plan.assets|
    ensures forall c :: SaysConflict(site, plan, store, view, p, done + [i], c) <==>
              || SaysConflict(site, plan, store, view, p, done, c)
              || c in Added(ConflictOf(site, plan, store, view, p.dist, p.adopted, i))
    ensures forall n :: SaysNote(site, plan, store, view, p, done + [i], n) <==>
              || SaysNote(site, plan, store, view, p, done, n)
              || n in Added(NoteOf(site, plan, store, view, p.dist, p.adopted, i))
  {
    assert forall k :: k in done + [i] <==> k in done || k == i;
  }

  ghost predicate Says(site: Site, plan: GenerationPlan, store: Store, view: seq<Option<Bytes>>, p: Preflight,
                       order: seq<nat>, conflicts: seq<Conflict>, notes: seq<(string, Store)>)
    requires FilesPresent(plan, p.dist) && |view| == |plan.assets|
  {
    && (forall c :: c in conflicts <==> c in p.conflicts || SaysConflict(site, plan, store, view, p, order, c))
    && (forall n :: n in notes <==> n in p.notes || SaysNote(site, plan, store, view, p, order, n))
  }

  lemma SaysNext(site: Site, plan: GenerationPlan, store: Store, view: seq<Option<Bytes>>, p: Preflight,
                 done: seq<nat>, i: nat, conflicts: seq<Conflict>, notes: seq<(string, Store)>)
    requires FilesPresent(plan, p.dist) && |view| == |plan.assets| && i < |plan.assets|
    requires Says(site, plan, store, view, p, done, conflicts, notes)
    ensures Says(site, plan, store, view, p, done + [i],
                 conflicts + Added(ConflictOf(site, plan, store, view, p.dist, p.adopted, i)),
                 notes + Added(NoteOf(site, plan, store, view, p.dist, p.adopted, i)))
  {
    SaysMore(site, plan, store, view, p, done, i);
  }

  lemma {:induction false} ExamineAllSays(site: Site, plan: GenerationPlan, store: Store, view: seq<Option<Bytes>>,
                                          order: seq<nat>, p: Preflight)
    requires DistinctNames(plan) && DataFirst(plan) && Digested(plan, p) && |view| == |plan.assets|
    requires Within(order, |plan.assets|) && Legal(plan, order) && p.missing == [] && p.identical == {}
    ensures var q := ExamineAll(site, plan, store, view, order, p);
      Says(site, plan, store, view, p, order, q.conflicts, q.notes)
  {
    if order != [] {
      var done, i := order[..|order| - 1], order[|order| - 1];
      assert order == done + [i];
      LegalPrefix(plan, order);
      var q := ExamineAll(site, plan, store, view, done, p);
      ExamineAllSays(site, plan, store, view, done, p);
      ExamineAllExact(site, plan, store, view, done, p);
      ExamineSays(site, plan, store, view, done, i, p, q);
      SaysNext(site, plan, store, view, p, done, i, q.conflicts, q.notes);
    }
  }

  /** A pass reports the conflict of every asset that has one, and every companion that it replaces, and nothing
      else. */
  lemma PassSays(site: Site, plan: GenerationPlan, store: Store, view: seq<Option<Bytes>>, p: Preflight)
    requires DistinctNames(plan) && DataFirst(plan) && Digested(plan, p) && |view| == |plan.assets|
    ensures var q := Pass(site, plan, store, view, p);
      && (forall c :: c in q.conflicts <==> c in p.conflicts || exists i | 0 <= i < |plan.assets| ::
            ConflictOf(site, plan, store, view, p.dist, p.adopted, i) == Some(c))
      && (forall n :: n in q.notes <==> n in p.notes || exists i | 0 <= i < |plan.assets| ::
            NoteOf(site, plan, store, view, p.dist, p.adopted, i) == Some(n))
  {
    PreflightOrderExact(plan);
    var order, start := PreflightOrder(plan), StartPass(p);
    OrderIsLegal(plan, |order|);
    assert order[..|order|] == order;
    ExamineAllSays(site, plan, store, view, order, start);
    forall c ensures SaysConflict(site, plan, store, view, start, order, c) <==> exists i | 0 <= i < |plan.assets| ::
      ConflictOf(site, plan, store, view, p.dist, p.adopted, i) == Some(c)
    {
    }
    forall n ensures SaysNote(site, plan, store, view, start, order, n) <==> exists i | 0 <= i < |plan.assets| ::
      NoteOf(site, plan, store, view, p.dist, p.adopted, i) == Some(n)
    {
    }
  }

  /* ---------- what a report says ---------- */

  /** The indexes below n of what a view lacks (or has), in order, and the names there. */
  ghost predicate ListsAt(plan: GenerationPlan, view: seq<Option<Bytes>>, absent: bool, n: nat, names: seq<string>,
                          indexes: seq<nat>)
    requires n <= |plan.assets| == |view|
  {
    && Within(indexes, n)
    && (forall a, b | 0 <= a < b < |indexes| :: indexes[a] < indexes[b])
    && (forall i | 0 <= i < n :: i in indexes <==> view[i].None? == absent)
    && names == NamesAt(plan, indexes)
  }

  ghost predicate Lists(plan: GenerationPlan, view: seq<Option<Bytes>>, absent: bool, names: seq<string>)
    requires |plan.assets| == |view|
  {
    exists indexes :: ListsAt(plan, view, absent, |view|, names, indexes)
  }

  lemma {:induction false} NamesWhereExact(plan: GenerationPlan, view: seq<Option<Bytes>>, absent: bool, n: nat)
      returns (indexes: seq<nat>)
    requires n <= |plan.assets| == |view|
    ensures ListsAt(plan, view, absent, n, NamesWhere(plan, view, absent, n), indexes)
  {
    if n == 0 {
      indexes := [];
    } else {
      indexes := NamesWhereExact(plan, view, absent, n - 1);
      if view[n - 1].None? == absent {
        assert NamesAt(plan, indexes + [n - 1]) == NamesAt(plan, indexes) + [plan.assets[n - 1].name];
        indexes := indexes + [n - 1];
      }
    }
  }

  lemma NamesWhereLists(plan: GenerationPlan, view: seq<Option<Bytes>>, absent: bool)
    requires |plan.assets| == |view|
    ensures Lists(plan, view, absent, NamesWhere(plan, view, absent, |view|))
  {
    var indexes := NamesWhereExact(plan, view, absent, |view|);
  }

  /** A success reports, of each store, the assets that it lacked as uploaded and the others as skipped, each
      once; that it created the generation release if there was none; and that it moved the redirect on R2 if a
      redirect file there is another than before. */
  lemma ReportExact(site: Site, run: Run)
    requires Ran(site, run) && run.result.Success?
    ensures var plan, report := run.plan, run.result.value;
      var r2 := View(plan, R2, run.before.r2, run.before.releases);
      var gh := View(plan, GitHub, run.before.r2, run.before.releases);
      && Lists(plan, r2, true, report.r2Uploaded) && Lists(plan, r2, false, report.r2Skipped)
      && Lists(plan, gh, false, report.githubSkipped)
      && (forall name :: name in report.githubUploaded <==>
            exists i | 0 <= i < |plan.assets| :: plan.assets[i].name == name && gh[i].None?)
      && (forall a, b | 0 <= a < b < |report.githubUploaded| :: report.githubUploaded[a] != report.githubUploaded[b])
      && (report.generationReleaseCreated <==> plan.generationTag !in run.before.releases)
      && (report.r2RedirectMoved <==> !R2RedirectKept(plan, run.before, run.after))
  {
    var plan := run.plan;
    var r2 := View(plan, R2, run.before.r2, run.before.releases);
    var gh := View(plan, GitHub, run.before.r2, run.before.releases);
    NamesWhereLists(plan, r2, true);
    NamesWhereLists(plan, r2, false);
    NamesWhereLists(plan, gh, false);
    SettledFiles(site, plan, run.opts, run.before);
    MissingOnGitHub(site, plan, run.before, run.result.value.githubUploaded);
    MovedExactly(site, run);
  }

  lemma MissingOnGitHub(site: Site, plan: GenerationPlan, w: World, names: seq<string>)
    requires WellFormed(plan) && FilesPresent(plan, w.dist)
    requires Within(AfterGitHub(site, plan, w).missing, |plan.assets|)
    requires names == NamesAt(plan, AfterGitHub(site, plan, w).missing)
    ensures var gh := View(plan, GitHub, w.r2, w.releases);
      && (forall name :: name in names <==>
            exists i | 0 <= i < |plan.assets| :: plan.assets[i].name == name && gh[i].None?)
      && (forall a, b | 0 <= a < b < |names| :: names[a] != names[b])
  {
    var gh, order := View(plan, GitHub, w.r2, w.releases), PreflightOrder(plan);
    PassExact(site, plan, R2, View(plan, R2, w.r2, w.releases), Unexamined(plan, w.dist));
    PassExact(site, plan, GitHub, gh, AfterR2(site, plan, w));
    PreflightOrderExact(plan);
    AbsentExact(gh, order);
    AbsentOnce(gh, order);
    NamesOfAbsent(plan, gh, Absent(gh, order));
  }

  lemma NamesOfAbsent(plan: GenerationPlan, view: seq<Option<Bytes>>, missing: seq<nat>)
    requires DistinctNames(plan) && |view| == |plan.assets| && Within(missing, |plan.assets|)
    requires forall i | 0 <= i < |view| :: i in missing <==> view[i].None?
    requires forall a, b | 0 <= a < b < |missing| :: missing[a] != missing[b]
    ensures var names := NamesAt(plan, missing);
      && (forall name :: name in names <==>
            exists i | 0 <= i < |plan.assets| :: plan.assets[i].name == name && view[i].None?)
      && (forall a, b | 0 <= a < b < |names| :: names[a] != names[b])
  {
    var names := NamesAt(plan, missing);
    forall name ensures name in names <==>
                        exists i | 0 <= i < |plan.assets| :: plan.assets[i].name == name && view[i].None?
    {
      if k :| 0 <= k < |names| && names[k] == name {
        assert missing[k] in missing;
      }
      if i :| 0 <= i < |plan.assets| && plan.assets[i].name == name && view[i].None? {
        var k :| 0 <= k < |missing| && missing[k] == i;
        assert names[k] == name;
      }
    }
  }

  lemma {:induction false} AbsentOnce(view: seq<Option<Bytes>>, order: seq<nat>)
    requires Within(order, |view|) && forall a, b | 0 <= a < b < |order| :: order[a] != order[b]
    ensures forall a, b | 0 <= a < b < |Absent(view, order)| :: Absent(view, order)[a] != Absent(view, order)[b]
  {
    if order != [] {
      var done, i := order[..|order| - 1], order[|order| - 1];
      AbsentOnce(view, done);
      AbsentExact(view, done);
      assert i !in done;
      assert forall a | 0 <= a < |Absent(view, done)| :: Absent(view, done)[a] in done;
    }
  }

  lemma MovedExactly(site: Site, run: Run)
    requires Ran(site, run) && run.result.Success?
    ensures run.result.value.r2RedirectMoved <==> !R2RedirectKept(run.plan, run.before, run.after)
  {
    var plan, w := run.plan, run.before;
    assert forall name | name in {plan.redirect.json, plan.redirect.bundle} :: name !in Names(plan);
    assert R2Serves(plan, run.after);
  }

  /** What two passes note of asset i. */
  lemma AdoptedAt(site: Site, plan: GenerationPlan, r2: seq<Option<Bytes>>, gh: seq<Option<Bytes>>, p: Preflight,
                  q: Preflight, r: Preflight, i: nat)
    requires WellFormed(plan) && Digested(plan, p) && p.adopted == {} && i < |plan.assets| == |r2| == |gh|
    requires PassOutcome(site, plan, r2, p, q) && PassOutcome(site, plan, gh, q, r)
    ensures var name := plan.assets[i].name;
      var first := NoteOf(site, plan, R2, r2, p.dist, p.adopted, i);
      var second := NoteOf(site, plan, GitHub, gh, q.dist, q.adopted, i);
      && (r.dist[name] != p.dist[name] <==> first.Some? || second.Some?)
      && (first.Some? ==> !IsData(plan, i) && r2[i] == Some(r.dist[name]))
      && (second.Some? ==> !IsData(plan, i) && gh[i] == Some(r.dist[name]))
  {
    assert q.dist[plan.assets[i].name] == Settled(site, plan, r2, p.dist, p.adopted, i);
    assert r.dist[plan.assets[i].name] == Settled(site, plan, gh, q.dist, q.adopted, i);
  }

  /** The notes of a pass about one name are those of its one asset. */
  lemma NotesOfAsset(site: Site, plan: GenerationPlan, store: Store, view: seq<Option<Bytes>>, p: Preflight, i: nat)
    requires WellFormed(plan) && Digested(plan, p) && |view| == |plan.assets| && i < |plan.assets|
    ensures forall s :: (plan.assets[i].name, s) in Pass(site, plan, store, view, p).notes <==>
              || (plan.assets[i].name, s) in p.notes
              || NoteOf(site, plan, store, view, p.dist, p.adopted, i) == Some((plan.assets[i].name, s))
  {
    PassSays(site, plan, store, view, p);
    forall s, k | 0 <= k < |plan.assets|
                  && NoteOf(site, plan, store, view, p.dist, p.adopted, k) == Some((plan.assets[i].name, s))
      ensures k == i
    {
    }
  }

  lemma NotesOfNoAsset(site: Site, plan: GenerationPlan, store: Store, view: seq<Option<Bytes>>, p: Preflight,
                       name: string)
    requires WellFormed(plan) && Digested(plan, p) && |view| == |plan.assets| && name !in Names(plan)
    ensures forall s :: (name, s) in Pass(site, plan, store, view, p).notes <==> (name, s) in p.notes
  {
    PassSays(site, plan, store, view, p);
  }

  /** The notes about the asset after both passes. */
  lemma SettlingNotes(site: Site, plan: GenerationPlan, w: World, i: nat) returns (first: bool, second: bool)
    requires WellFormed(plan) && FilesPresent(plan, w.dist) && i < |plan.assets|
    ensures FilesPresent(plan, AfterGitHub(site, plan, w).dist)
    ensures var r, name := AfterGitHub(site, plan, w), plan.assets[i].name;
      && ((name, R2) in r.notes <==> first) && ((name, GitHub) in r.notes <==> second)
      && (r.dist[name] != w.dist[name] <==> first || second)
      && (first ==> !IsData(plan, i) && Remote(plan, R2, w.r2, w.releases, i) == Some(r.dist[name]))
      && (second ==> !IsData(plan, i) && Remote(plan, GitHub, w.r2, w.releases, i) == Some(r.dist[name]))
  {
    var r2, gh := View(plan, R2, w.r2, w.releases), View(plan, GitHub, w.r2, w.releases);
    var p, q, r := Unexamined(plan, w.dist), AfterR2(site, plan, w), AfterGitHub(site, plan, w);
    PassExact(site, plan, R2, r2, p);
    PassExact(site, plan, GitHub, gh, q);
    AdoptedAt(site, plan, r2, gh, p, q, r, i);
    NotesOfAsset(site, plan, R2, r2, p, i);
    NotesOfAsset(site, plan, GitHub, gh, q, i);
    first := NoteOf(site, plan, R2, r2, p.dist, p.adopted, i).Some?;
    second := NoteOf(site, plan, GitHub, gh, q.dist, q.adopted, i).Some?;
  }

  /** The notes of both passes say which store a companion's file was taken from. */
  lemma SettlingSays(site: Site, plan: GenerationPlan, w: World, i: nat)
    requires WellFormed(plan) && FilesPresent(plan, w.dist) && i < |plan.assets|
    ensures FilesPresent(plan, AfterGitHub(site, plan, w).dist)
    ensures var r, name := AfterGitHub(site, plan, w), plan.assets[i].name;
      && (r.dist[name] != w.dist[name] <==> exists store :: (name, store) in r.notes)
      && forall store | (name, store) in r.notes ::
           !IsData(plan, i) && Remote(plan, store, w.r2, w.releases, i) == Some(r.dist[name])
  {
    var first, second := SettlingNotes(site, plan, w, i);
    var name, notes := plan.assets[i].name, AfterGitHub(site, plan, w).notes;
    assert first ==> (name, R2) in notes;
    assert second ==> (name, GitHub) in notes;
    forall store | (name, store) in notes ensures if store == R2 then first else second {
    }
  }

  lemma SettlingKeepsOthers(site: Site, plan: GenerationPlan, w: World, name: string)
    requires WellFormed(plan) && FilesPresent(plan, w.dist) && name in w.dist && name !in Names(plan)
    ensures var r := AfterGitHub(site, plan, w);
      && name in r.dist && r.dist[name] == w.dist[name] && forall store :: (name, store) !in r.notes
  {
    var r2, gh := View(plan, R2, w.r2, w.releases), View(plan, GitHub, w.r2, w.releases);
    var p, q := Unexamined(plan, w.dist), AfterR2(site, plan, w);
    PassExact(site, plan, R2, r2, p);
    PassExact(site, plan, GitHub, gh, q);
    NotesOfNoAsset(site, plan, R2, r2, p, name);
    NotesOfNoAsset(site, plan, GitHub, gh, q, name);
  }

  /** A success reports a signature as adopted from a store exactly when the file was replaced by what that store
      publishes. */
  lemma AdoptionsExact(site: Site, run: Run, name: string)
    requires Ran(site, run) && run.result.Success? && name in run.before.dist
    ensures name in run.after.dist
    ensures run.after.dist[name] != run.before.dist[name] <==>
            exists store :: (name, store) in run.result.value.adoptedSignatures
    ensures forall store | (name, store) in run.result.value.adoptedSignatures ::
              exists i | 0 <= i < |run.plan.assets| ::
                && run.plan.assets[i].name == name && !IsData(run.plan, i)
                && Remote(run.plan, store, run.before.r2, run.before.releases, i) == Some(run.after.dist[name])
  {
    var plan, w := run.plan, run.before;
    assert run.after.dist == AfterGitHub(site, plan, w).dist;
    assert run.result.value.adoptedSignatures == AfterGitHub(site, plan, w).notes;
    if i :| 0 <= i < |plan.assets| && plan.assets[i].name == name {
      SettlingSays(site, plan, w, i);
    } else {
      SettlingKeepsOthers(site, plan, w, name);
    }
  }

  /* ---------- what an error says ---------- */

  /** The error of a run whose operations all work says why it failed, and only that. */
  lemma ErrorsExact(site: Site, run: Run)
    requires Ran(site, run) && run.reliable && run.result.Failure?
    ensures var plan, w, error := run.plan, run.before, run.result.error;
      && (error == NoRedirectRelease <==> FilesPresent(plan, w.dist) && plan.redirectTag !in w.releases)
      && (error == TagRefused <==>
            FilesPresent(plan, w.dist) && plan.redirectTag in w.releases
            && !site.tagOk(plan.generationTag, run.opts.targetCommit))
      && (error.Conflicted? <==>
            && FilesPresent(plan, w.dist) && plan.redirectTag in w.releases
            && site.tagOk(plan.generationTag, run.opts.targetCommit) && AfterGitHub(site, plan, w).conflicts != [])
      && (error.PublicMismatch? <==> Admitted(site, plan, run.opts, w) && Stranded(plan, w))
      && (error == GitHubRedirectNotUpdated ==>
            plan.redirect.sigstore !in w.dist && MergeBaseHolds(site, plan, run.opts, w.r2))
      && error != StoreFailed
  {
    var plan, w := run.plan, run.before;
    if Admitted(site, plan, run.opts, w) {
      SettledFiles(site, plan, run.opts, w);
      ConflictFreeExact(site, plan, w);
      SettledRedirect(site, plan, run.opts, w);
    }
  }

  lemma SettledRedirect(site: Site, plan: GenerationPlan, opts: PublishOptions, w: World)
    requires WellFormed(plan) && Admitted(site, plan, opts, w)
    ensures plan.redirect.sigstore in AfterGitHub(site, plan, w).dist <==> plan.redirect.sigstore in w.dist
  {
    PassExact(site, plan, R2, View(plan, R2, w.r2, w.releases), Unexamined(plan, w.dist));
    PassExact(site, plan, GitHub, View(plan, GitHub, w.r2, w.releases), AfterR2(site, plan, w));
    assert AfterGitHub(site, plan, w).dist.Keys == w.dist.Keys;
  }

  /** A conflicting run names every conflict of both passes, those of R2 with the prepared files and those of GitHub
      with the files that R2 left. */
  lemma ConflictsExact(site: Site, run: Run, c: Conflict)
    requires Ran(site, run) && run.reliable && run.result.Failure? && run.result.error.Conflicted?
    ensures FilesPresent(run.plan, run.before.dist) && FilesPresent(run.plan, AfterR2(site, run.plan, run.before).dist)
    ensures var plan, w, q := run.plan, run.before, AfterR2(site, run.plan, run.before);
      c in run.result.error.conflicts <==> exists i | 0 <= i < |plan.assets| ::
        || ConflictOf(site, plan, R2, View(plan, R2, w.r2, w.releases), w.dist, {}, i) == Some(c)
        || ConflictOf(site, plan, GitHub, View(plan, GitHub, w.r2, w.releases), q.dist, q.adopted, i) == Some(c)
  {
    var plan, w := run.plan, run.before;
    ErrorsExact(site, run);
    var r2, gh := View(plan, R2, w.r2, w.releases), View(plan, GitHub, w.r2, w.releases);
    PassExact(site, plan, R2, r2, Unexamined(plan, w.dist));
    PassSays(site, plan, R2, r2, Unexamined(plan, w.dist));
    PassSays(site, plan, GitHub, gh, AfterR2(site, plan, w));
    assert run.result.error.conflicts == AfterGitHub(site, plan, w).conflicts;
  }
}
