/** The data model of a generation publish, and what comparing the prepared files with one store
    decides: a fold over the assets, data before companions, with its closed form. */
module CatalogPreflight {
  import opened Wrappers
  import opened ByteStrings

  /* ---------- data model ---------- */

  /** A SHA-256 digest, taken to be collision free: it is the free constructor over what it hashes. */
  datatype Digest = Sha256(preimage: Bytes)

  datatype Store = R2 | GitHub

  /** One immutable file. It lives in the prepared directory under its own name. A signature
      companion names the data asset it signs. */
  datatype HashedAsset = HashedAsset(name: string, r2Url: string, signatureOf: Option<string>)

  datatype RedirectFiles = RedirectFiles(
    json: string, jsonUrl: string, bundle: string, bundleUrl: string, sigstore: string)

  datatype GenerationPlan = GenerationPlan(
    generationTag: string,
    redirectTag: string,
    masterName: string,
    assets: seq<HashedAsset>,
    redirect: RedirectFiles)

  datatype PublishOptions = PublishOptions(expectedMergeBase: Option<string>, targetCommit: string)

  /** What the publisher calls but does not define: cosign, GitHub's tag check, and the reader of a
      redirect's last artifact name. */
  datatype Site = Site(
    verify: (Bytes, string, Bytes) -> bool,
    tagOk: (string, string) -> bool,
    lastArtifact: Bytes -> Option<string>)

  type Objects = map<string, Bytes>

  /** The two stores and the prepared directory. */
  datatype World = World(r2: Objects, releases: map<string, Objects>, dist: Objects)

  /* ---------- plans ---------- */

  ghost predicate IsData(plan: GenerationPlan, i: nat)
    requires i < |plan.assets|
  {
    plan.assets[i].signatureOf.None?
  }

  /** The first asset of that name from index `from` on, or |assets| when there is none. */
  function FindAsset(plan: GenerationPlan, name: string, from: nat): (j: nat)
    requires from <= |plan.assets|
    ensures from <= j <= |plan.assets|
    ensures j < |plan.assets| ==> plan.assets[j].name == name
    ensures forall k | from <= k < j :: plan.assets[k].name != name
    decreases |plan.assets| - from
  {
    if from == |plan.assets| || plan.assets[from].name == name then from else FindAsset(plan, name, from + 1)
  }

  /** The index of the data asset companion i signs. */
  function DataOf(plan: GenerationPlan, i: nat): (j: nat)
    requires i < |plan.assets| && plan.assets[i].signatureOf.Some?
    ensures j <= |plan.assets|
    ensures j < |plan.assets| ==> plan.assets[j].name == plan.assets[i].signatureOf.value
  {
    FindAsset(plan, plan.assets[i].signatureOf.value, 0)
  }

  ghost function Names(plan: GenerationPlan): set<string> {
    set i | 0 <= i < |plan.assets| :: plan.assets[i].name
  }

  ghost predicate DistinctNames(plan: GenerationPlan) {
    forall i, j | 0 <= i < j < |plan.assets| ::
      plan.assets[i].name != plan.assets[j].name && plan.assets[i].r2Url != plan.assets[j].r2Url
  }

  /** A companion's data asset is planned before it. */
  ghost predicate DataFirst(plan: GenerationPlan) {
    forall i | 0 <= i < |plan.assets| && !IsData(plan, i) :: DataOf(plan, i) < i && IsData(plan, DataOf(plan, i))
  }

  ghost predicate RedirectApart(plan: GenerationPlan) {
    && (forall i | 0 <= i < |plan.assets| ::
          && plan.assets[i].r2Url !in {plan.redirect.jsonUrl, plan.redirect.bundleUrl}
          && plan.assets[i].name !in {plan.redirect.json, plan.redirect.bundle, plan.redirect.sigstore})
    && plan.redirect.jsonUrl != plan.redirect.bundleUrl
    && plan.redirect.json != plan.redirect.bundle
    && plan.redirect.sigstore !in {plan.redirect.json, plan.redirect.bundle}
    && plan.generationTag != plan.redirectTag
  }

  ghost predicate WellFormed(plan: GenerationPlan) {
    DistinctNames(plan) && DataFirst(plan) && RedirectApart(plan)
  }

  ghost predicate FilesPresent(plan: GenerationPlan, dist: Objects) {
    forall i | 0 <= i < |plan.assets| :: plan.assets[i].name in dist
  }

  /** What a store serves for asset i. */
  function Remote(plan: GenerationPlan, store: Store, r2: Objects, releases: map<string, Objects>,
                  i: nat): Option<Bytes>
    requires i < |plan.assets|
  {
    var asset := plan.assets[i];
    match store
    case R2 => if asset.r2Url in r2 then Some(r2[asset.r2Url]) else None
    case GitHub =>
      if plan.generationTag in releases && asset.name in releases[plan.generationTag]
      then Some(releases[plan.generationTag][asset.name])
      else None
  }

  function View(plan: GenerationPlan, store: Store, r2: Objects,
                releases: map<string, Objects>): (view: seq<Option<Bytes>>)
    ensures |view| == |plan.assets|
  {
    seq(|plan.assets|, i requires 0 <= i < |plan.assets| => Remote(plan, store, r2, releases, i))
  }

  /* ---------- the order of a preflight ---------- */

  ghost predicate Within(order: seq<nat>, n: nat) {
    forall a | 0 <= a < |order| :: order[a] < n
  }

  function IndexesOf(plan: GenerationPlan, data: bool, n: nat): seq<nat>
    requires n <= |plan.assets|
  {
    if n == 0 then []
    else if plan.assets[n - 1].signatureOf.None? == data then IndexesOf(plan, data, n - 1) + [n - 1]
    else IndexesOf(plan, data, n - 1)
  }

  /** Data assets first, so companions know whether their data matched. */
  function PreflightOrder(plan: GenerationPlan): seq<nat> {
    IndexesOf(plan, true, |plan.assets|) + IndexesOf(plan, false, |plan.assets|)
  }

  lemma {:induction false} IndexesOfExact(plan: GenerationPlan, data: bool, n: nat)
    requires n <= |plan.assets|
    ensures forall i :: i in IndexesOf(plan, data, n) <==> 0 <= i < n && plan.assets[i].signatureOf.None? == data
    ensures forall a, b | 0 <= a < b < |IndexesOf(plan, data, n)| ::
              IndexesOf(plan, data, n)[a] < IndexesOf(plan, data, n)[b]
  {
    if n > 0 {
      IndexesOfExact(plan, data, n - 1);
      var rest := IndexesOf(plan, data, n - 1);
      assert forall a | 0 <= a < |rest| :: rest[a] in rest;
    }
  }

  /** Every asset is visited exactly once, and a companion only after all data assets. */
  lemma PreflightOrderExact(plan: GenerationPlan)
    ensures forall i :: i in PreflightOrder(plan) <==> 0 <= i < |plan.assets|
    ensures forall a, b | 0 <= a < b < |PreflightOrder(plan)| :: PreflightOrder(plan)[a] != PreflightOrder(plan)[b]
    ensures Within(PreflightOrder(plan), |plan.assets|)
    ensures forall a, b | 0 <= a < |PreflightOrder(plan)| && 0 <= b < |PreflightOrder(plan)| ::
              IsData(plan, PreflightOrder(plan)[a]) && !IsData(plan, PreflightOrder(plan)[b]) ==> a < b
  {
    var n := |plan.assets|;
    IndexesOfExact(plan, true, n);
    IndexesOfExact(plan, false, n);
    var d, c := IndexesOf(plan, true, n), IndexesOf(plan, false, n);
    assert forall a | 0 <= a < |d| :: d[a] in d;
    assert forall a | 0 <= a < |c| :: c[a] in c;
    forall i ensures i in d + c <==> 0 <= i < n {
      assert i in d + c <==> i in d || i in c;
    }
  }

  /* ---------- one preflight pass ---------- */

  datatype Conflict =
    | Differs(name: string, store: Store, local: Digest, published: Digest)
    | Unverifiable(name: string, store: Store)

  /** The variables a preflight updates. */
  datatype Preflight = Preflight(
    dist: Objects,
    digests: seq<Digest>,
    adopted: set<string>,
    conflicts: seq<Conflict>,
    notes: seq<(string, Store)>,
    missing: seq<nat>,
    identical: set<string>)

  predicate Adoptable(asset: HashedAsset, p: Preflight) {
    asset.signatureOf.Some? && asset.signatureOf.value in p.identical && asset.name !in p.adopted
  }

  function DataBytes(dist: Objects, name: string): Bytes {
    if name in dist then dist[name] else []
  }

  function Classify(store: Store, asset: HashedAsset, i: nat, remote: Option<Bytes>, p: Preflight): Preflight
    requires i < |p.digests|
  {
    match remote
    case None => p.(missing := p.missing + [i])
    case Some(bytes) =>
      if Sha256(bytes) == p.digests[i] then
        if asset.signatureOf.None? then p.(identical := p.identical + {asset.name}) else p
      else
        p.(conflicts := p.conflicts + [Differs(asset.name, store, p.digests[i], Sha256(bytes))])
  }

  /** One asset against one store. A published companion beside identical data replaces the local
      one once it verifies; the first store to do so wins. */
  function Examine(site: Site, plan: GenerationPlan, store: Store, remote: Option<Bytes>, i: nat,
                   p: Preflight): (q: Preflight)
    requires i < |plan.assets| == |p.digests|
    ensures |q.digests| == |p.digests|
  {
    var asset := plan.assets[i];
    if remote.Some? && Adoptable(asset, p) then
      var bytes := remote.value;
      if Sha256(bytes) == p.digests[i] then
        Classify(store, asset, i, remote, p.(adopted := p.adopted + {asset.name}))
      else if site.verify(DataBytes(p.dist, asset.signatureOf.value), asset.name, bytes) then
        Classify(store, asset, i, remote, p.(
          dist := p.dist[asset.name := bytes],
          digests := p.digests[i := Sha256(bytes)],
          notes := p.notes + [(asset.name, store)],
          adopted := p.adopted + {asset.name}))
      else
        p.(conflicts := p.conflicts + [Unverifiable(asset.name, store)])
    else
      Classify(store, asset, i, remote, p)
  }

  function ExamineAll(site: Site, plan: GenerationPlan, store: Store, view: seq<Option<Bytes>>, order: seq<nat>,
                      p: Preflight): (q: Preflight)
    requires |view| == |plan.assets| == |p.digests|
    requires Within(order, |plan.assets|)
    ensures |q.digests| == |p.digests|
  {
    if order == [] then p
    else
      var i := order[|order| - 1];
      Examine(site, plan, store, view[i], i, ExamineAll(site, plan, store, view, order[..|order| - 1], p))
  }

  /** The state a pass starts from: nothing missing and nothing matched yet. */
  function StartPass(p: Preflight): Preflight {
    p.(missing := [], identical := {})
  }

  function Pass(site: Site, plan: GenerationPlan, store: Store, view: seq<Option<Bytes>>, p: Preflight): (q: Preflight)
    requires |view| == |plan.assets| == |p.digests|
    ensures |q.digests| == |p.digests|
  {
    PreflightOrderExact(plan);
    ExamineAll(site, plan, store, view, PreflightOrder(plan), StartPass(p))
  }

  /* ---------- the closed form of a pass ---------- */

  /** Digests and files agree, and every asset has a file. */
  ghost predicate Digested(plan: GenerationPlan, p: Preflight) {
    && |p.digests| == |plan.assets|
    && FilesPresent(plan, p.dist)
    && forall i | 0 <= i < |plan.assets| :: p.digests[i] == Sha256(p.dist[plan.assets[i].name])
  }

  /** In a pass that starts from these files and adoptions, companion i is published and its data is
      published with the local bytes; no earlier pass adopted it. */
  ghost predicate BesideItsData(plan: GenerationPlan, view: seq<Option<Bytes>>, dist: Objects, adopted: set<string>,
                                i: nat)
    requires FilesPresent(plan, dist) && |view| == |plan.assets| && i < |plan.assets|
  {
    && view[i].Some?
    && plan.assets[i].name !in adopted
    && !IsData(plan, i)
    && var j := DataOf(plan, i);
       j < |plan.assets| && view[j] == Some(dist[plan.assets[j].name])
  }

  /** The published companion replaces the local one: it differs and verifies against the data. */
  ghost predicate Replaceable(site: Site, plan: GenerationPlan, view: seq<Option<Bytes>>, dist: Objects,
                              adopted: set<string>, i: nat)
    requires FilesPresent(plan, dist) && |view| == |plan.assets| && i < |plan.assets|
  {
    && BesideItsData(plan, view, dist, adopted, i)
    && view[i].value != dist[plan.assets[i].name]
    && site.verify(dist[plan.assets[DataOf(plan, i)].name], plan.assets[i].name, view[i].value)
  }

  ghost predicate Adopts(site: Site, plan: GenerationPlan, view: seq<Option<Bytes>>, dist: Objects,
                         adopted: set<string>, i: nat)
    requires FilesPresent(plan, dist) && |view| == |plan.assets| && i < |plan.assets|
  {
    && BesideItsData(plan, view, dist, adopted, i)
    && (view[i].value == dist[plan.assets[i].name] || Replaceable(site, plan, view, dist, adopted, i))
  }

  /** Asset i raises no conflict in such a pass. */
  ghost predicate Fits(site: Site, plan: GenerationPlan, view: seq<Option<Bytes>>, dist: Objects, adopted: set<string>,
                       i: nat)
    requires FilesPresent(plan, dist) && |view| == |plan.assets| && i < |plan.assets|
  {
    || view[i].None?
    || view[i].value == dist[plan.assets[i].name]
    || Adopts(site, plan, view, dist, adopted, i)
  }

  /** The bytes of asset i's file after such a pass. */
  ghost function Settled(site: Site, plan: GenerationPlan, view: seq<Option<Bytes>>, dist: Objects,
                         adopted: set<string>, i: nat): Bytes
    requires FilesPresent(plan, dist) && |view| == |plan.assets| && i < |plan.assets|
  {
    if Adopts(site, plan, view, dist, adopted, i) then view[i].value else dist[plan.assets[i].name]
  }

  function Absent(view: seq<Option<Bytes>>, order: seq<nat>): seq<nat>
    requires Within(order, |view|)
  {
    if order == [] then []
    else
      var i := order[|order| - 1];
      Absent(view, order[..|order| - 1]) + (if view[i].None? then [i] else [])
  }

  ghost predicate ExaminedFiles(site: Site, plan: GenerationPlan, view: seq<Option<Bytes>>, order: seq<nat>,
                                p: Preflight, q: Preflight)
    requires Digested(plan, p) && |view| == |plan.assets|
  {
    && Digested(plan, q)
    && q.dist.Keys == p.dist.Keys
    && (forall name | name in p.dist && name !in Names(plan) :: q.dist[name] == p.dist[name])
    && (forall i | 0 <= i < |plan.assets| :: q.dist[plan.assets[i].name] ==
          if i in order then Settled(site, plan, view, p.dist, p.adopted, i) else p.dist[plan.assets[i].name])
  }

  ghost predicate ExaminedSets(site: Site, plan: GenerationPlan, view: seq<Option<Bytes>>, order: seq<nat>,
                               p: Preflight, q: Preflight)
    requires Digested(plan, p) && |view| == |plan.assets|
  {
    && (forall i | 0 <= i < |plan.assets| :: plan.assets[i].name in q.adopted <==>
          plan.assets[i].name in p.adopted || (i in order && Adopts(site, plan, view, p.dist, p.adopted, i)))
    && (forall i | 0 <= i < |plan.assets| :: plan.assets[i].name in q.identical <==>
          i in order && IsData(plan, i) && view[i] == Some(p.dist[plan.assets[i].name]))
    && q.identical <= Names(plan)
  }

  /** What holds of q after the assets in `order` were examined from p. */
  ghost predicate Examined(site: Site, plan: GenerationPlan, view: seq<Option<Bytes>>, order: seq<nat>, p: Preflight,
                           q: Preflight)
    requires Digested(plan, p) && |view| == |plan.assets|
    requires Within(order, |plan.assets|)
  {
    && ExaminedFiles(site, plan, view, order, p, q)
    && ExaminedSets(site, plan, view, order, p, q)
    && p.conflicts <= q.conflicts
    && (q.conflicts == p.conflicts <==>
        forall i | i in order :: i < |plan.assets| ==> Fits(site, plan, view, p.dist, p.adopted, i))
    && q.missing == Absent(view, order)
  }

  /** The next asset can be examined after those in `done`: it is not among them, and if it is a
      companion all data assets are. */
  ghost predicate NextInOrder(plan: GenerationPlan, done: seq<nat>, i: nat)
    requires i < |plan.assets|
  {
    && i !in done
    && (!IsData(plan, i) ==> forall j | 0 <= j < |plan.assets| && IsData(plan, j) :: j in done)
  }

  /** When the examined companion is adoptable, in the pass and in the closed form. */
  lemma AdoptableExact(site: Site, plan: GenerationPlan, view: seq<Option<Bytes>>, done: seq<nat>, i: nat, p: Preflight,
                       q: Preflight)
    requires DistinctNames(plan) && DataFirst(plan) && Digested(plan, p) && |view| == |plan.assets| && i < |plan.assets|
    requires Within(done, |plan.assets|)
    requires NextInOrder(plan, done, i)
    requires Examined(site, plan, view, done, p, q)
    requires view[i].Some?
    ensures Adopts(site, plan, view, p.dist, p.adopted, i) <==>
            && Adoptable(plan.assets[i], q)
            && (|| Sha256(view[i].value) == q.digests[i]
                || site.verify(DataBytes(q.dist, plan.assets[i].signatureOf.value), plan.assets[i].name, view[i].value))
  {
    if !IsData(plan, i) {
      var j := DataOf(plan, i);
      assert j in done;
      assert Settled(site, plan, view, p.dist, p.adopted, j) == p.dist[plan.assets[j].name];
      assert q.dist[plan.assets[j].name] == p.dist[plan.assets[j].name];
      assert DataBytes(q.dist, plan.assets[i].signatureOf.value) == p.dist[plan.assets[j].name];
      assert q.digests[i] == Sha256(p.dist[plan.assets[i].name]);
    }
  }

  /** One examination, told in terms of the start of the pass. */
  lemma ExamineFilesExact(site: Site, plan: GenerationPlan, store: Store, view: seq<Option<Bytes>>, done: seq<nat>,
                          i: nat, p: Preflight, q: Preflight)
    requires DistinctNames(plan) && DataFirst(plan) && Digested(plan, p) && |view| == |plan.assets| && i < |plan.assets|
    requires Within(done, |plan.assets|) && NextInOrder(plan, done, i)
    requires Examined(site, plan, view, done, p, q)
    ensures var r := Examine(site, plan, store, view[i], i, q);
            var name := plan.assets[i].name;
      && r.dist == q.dist[name := Settled(site, plan, view, p.dist, p.adopted, i)]
      && r.digests == q.digests[i := Sha256(Settled(site, plan, view, p.dist, p.adopted, i))]
      && r.adopted == q.adopted + (if Adopts(site, plan, view, p.dist, p.adopted, i) then {name} else {})
  {
    if view[i].Some? {
      AdoptableExact(site, plan, view, done, i, p, q);
    }
    assert i !in done;
    assert q.dist[plan.assets[i].name] == p.dist[plan.assets[i].name];
    assert q.dist == q.dist[plan.assets[i].name := p.dist[plan.assets[i].name]];
    assert q.digests == q.digests[i := Sha256(p.dist[plan.assets[i].name])];
  }

  lemma ExamineNotesExact(site: Site, plan: GenerationPlan, store: Store, view: seq<Option<Bytes>>, done: seq<nat>,
                          i: nat, p: Preflight, q: Preflight)
    requires DistinctNames(plan) && DataFirst(plan) && Digested(plan, p) && |view| == |plan.assets| && i < |plan.assets|
    requires Within(done, |plan.assets|) && NextInOrder(plan, done, i)
    requires Examined(site, plan, view, done, p, q)
    ensures var r := Examine(site, plan, store, view[i], i, q);
            var name := plan.assets[i].name;
      && r.identical == q.identical + (if IsData(plan, i) && view[i] == Some(p.dist[name]) then {name} else {})
      && r.missing == q.missing + (if view[i].None? then [i] else [])
      && q.conflicts <= r.conflicts
      && (r.conflicts == q.conflicts <==> Fits(site, plan, view, p.dist, p.adopted, i))
  {
    if view[i].Some? {
      AdoptableExact(site, plan, view, done, i, p, q);
    }
    assert i !in done;
    assert q.dist[plan.assets[i].name] == p.dist[plan.assets[i].name];
  }

  lemma ExamineExact(site: Site, plan: GenerationPlan, store: Store, view: seq<Option<Bytes>>, done: seq<nat>, i: nat,
                     p: Preflight, q: Preflight)
    requires DistinctNames(plan) && DataFirst(plan) && Digested(plan, p) && |view| == |plan.assets| && i < |plan.assets|
    requires Within(done, |plan.assets|) && NextInOrder(plan, done, i)
    requires Examined(site, plan, view, done, p, q)
    ensures var r := Examine(site, plan, store, view[i], i, q);
            var name := plan.assets[i].name;
      && r.dist == q.dist[name := Settled(site, plan, view, p.dist, p.adopted, i)]
      && r.digests == q.digests[i := Sha256(Settled(site, plan, view, p.dist, p.adopted, i))]
      && r.adopted == q.adopted + (if Adopts(site, plan, view, p.dist, p.adopted, i) then {name} else {})
      && r.identical == q.identical + (if IsData(plan, i) && view[i] == Some(p.dist[name]) then {name} else {})
      && r.missing == q.missing + (if view[i].None? then [i] else [])
      && q.conflicts <= r.conflicts
      && (r.conflicts == q.conflicts <==> Fits(site, plan, view, p.dist, p.adopted, i))
  {
    ExamineFilesExact(site, plan, store, view, done, i, p, q);
    ExamineNotesExact(site, plan, store, view, done, i, p, q);
  }

  lemma ExamineAllStep(site: Site, plan: GenerationPlan, store: Store, view: seq<Option<Bytes>>, order: seq<nat>,
                       n: nat, p: Preflight)
    requires n < |order| && Within(order, |plan.assets|) && |view| == |plan.assets|
    requires |p.digests| == |plan.assets| && FilesPresent(plan, p.dist)
    ensures ExamineAll(site, plan, store, view, order[..n + 1], p) ==
            Examine(site, plan, store, view[order[n]], order[n], ExamineAll(site, plan, store, view, order[..n], p))
  {
    assert order[..n + 1][..n] == order[..n];
  }

  lemma ExaminedStep(site: Site, plan: GenerationPlan, store: Store, view: seq<Option<Bytes>>, done: seq<nat>, i: nat,
                     p: Preflight, q: Preflight)
    requires DistinctNames(plan) && DataFirst(plan) && Digested(plan, p) && |view| == |plan.assets| && i < |plan.assets|
    requires Within(done, |plan.assets|) && NextInOrder(plan, done, i)
    requires Examined(site, plan, view, done, p, q)
    ensures Examined(site, plan, view, done + [i], p, Examine(site, plan, store, view[i], i, q))
  {
    var r := Examine(site, plan, store, view[i], i, q);
    var order := done + [i];
    ExamineExact(site, plan, store, view, done, i, p, q);
    StepKeepsFiles(site, plan, view, done, i, p, q, r);
    StepKeepsSets(site, plan, view, done, i, p, q, r);
    StepKeepsConflicts(site, plan, store, view, done, i, p, q, r);
  }

  lemma StepKeepsConflicts(site: Site, plan: GenerationPlan, store: Store, view: seq<Option<Bytes>>, done: seq<nat>,
                           i: nat, p: Preflight, q: Preflight, r: Preflight)
    requires Digested(plan, p) && |view| == |plan.assets| && i < |plan.assets| && Within(done, |plan.assets|)
    requires p.conflicts <= q.conflicts <= r.conflicts
    requires q.conflicts == p.conflicts <==>
             forall j | j in done :: j < |plan.assets| ==> Fits(site, plan, view, p.dist, p.adopted, j)
    requires r.conflicts == q.conflicts <==> Fits(site, plan, view, p.dist, p.adopted, i)
    requires q.missing == Absent(view, done) && r.missing == if view[i].None? then q.missing + [i] else q.missing
    ensures var order := done + [i];
      && p.conflicts <= r.conflicts && r.missing == Absent(view, order)
      && (r.conflicts == p.conflicts <==>
          forall j | j in order :: j < |plan.assets| ==> Fits(site, plan, view, p.dist, p.adopted, j))
  {
    var order := done + [i];
    assert order[..|order| - 1] == done && order[|order| - 1] == i;
    assert forall j :: j in order <==> j in done || j == i;
    assert r.conflicts == p.conflicts <==> r.conflicts == q.conflicts && q.conflicts == p.conflicts;
  }

  lemma StepKeepsFiles(site: Site, plan: GenerationPlan, view: seq<Option<Bytes>>, done: seq<nat>, i: nat, p: Preflight,
                       q: Preflight, r: Preflight)
    requires DistinctNames(plan) && Digested(plan, p) && |view| == |plan.assets| && i < |plan.assets|
    requires ExaminedFiles(site, plan, view, done, p, q)
    requires r.dist == q.dist[plan.assets[i].name := Settled(site, plan, view, p.dist, p.adopted, i)]
    requires r.digests == q.digests[i := Sha256(Settled(site, plan, view, p.dist, p.adopted, i))]
    ensures ExaminedFiles(site, plan, view, done + [i], p, r)
  {
    var order := done + [i];
    assert forall j :: j in order <==> j in done || j == i;
    assert plan.assets[i].name in Names(plan);
    forall k | 0 <= k < |plan.assets|
      ensures r.dist[plan.assets[k].name] == if k in order then Settled(site, plan, view, p.dist, p.adopted, k)
                else p.dist[plan.assets[k].name]
      ensures r.digests[k] == Sha256(r.dist[plan.assets[k].name])
    {
      assert k != i ==> plan.assets[k].name != plan.assets[i].name;
    }
  }

  lemma StepKeepsSets(site: Site, plan: GenerationPlan, view: seq<Option<Bytes>>, done: seq<nat>, i: nat, p: Preflight,
                      q: Preflight, r: Preflight)
    requires DistinctNames(plan) && Digested(plan, p) && |view| == |plan.assets| && i < |plan.assets|
    requires ExaminedSets(site, plan, view, done, p, q)
    requires r.adopted ==
             q.adopted + (if Adopts(site, plan, view, p.dist, p.adopted, i) then {plan.assets[i].name} else {})
    requires r.identical ==
             q.identical
             + (if IsData(plan, i) && view[i] == Some(p.dist[plan.assets[i].name]) then {plan.assets[i].name} else {})
    ensures ExaminedSets(site, plan, view, done + [i], p, r)
  {
    var order := done + [i];
    assert forall j :: j in order <==> j in done || j == i;
    assert plan.assets[i].name in Names(plan);
    forall k | 0 <= k < |plan.assets|
      ensures plan.assets[k].name in r.adopted <==>
          plan.assets[k].name in p.adopted || (k in order && Adopts(site, plan, view, p.dist, p.adopted, k))
      ensures plan.assets[k].name in r.identical <==>
          k in order && IsData(plan, k) && view[k] == Some(p.dist[plan.assets[k].name])
    {
      assert k != i ==> plan.assets[k].name != plan.assets[i].name;
    }
  }

  /** Every asset can be examined when its turn comes. */
  ghost predicate Legal(plan: GenerationPlan, order: seq<nat>) {
    forall a | 0 <= a < |order| :: order[a] < |plan.assets| && NextInOrder(plan, order[..a], order[a])
  }

  lemma LegalPrefix(plan: GenerationPlan, order: seq<nat>)
    requires order != [] && Legal(plan, order)
    ensures var n := |order| - 1; order[n] < |plan.assets| && NextInOrder(plan, order[..n], order[n])
    ensures Legal(plan, order[..|order| - 1])
  {
    var done := order[..|order| - 1];
    forall a | 0 <= a < |done| ensures done[a] < |plan.assets| && NextInOrder(plan, done[..a], done[a]) {
      assert done[..a] == order[..a];
    }
  }

  lemma {:induction false} ExamineAllExact(site: Site, plan: GenerationPlan, store: Store, view: seq<Option<Bytes>>,
                                           order: seq<nat>, p: Preflight)
    requires DistinctNames(plan) && DataFirst(plan) && Digested(plan, p) && |view| == |plan.assets|
    requires Within(order, |plan.assets|) && Legal(plan, order)
    requires p.missing == [] && p.identical == {}
    ensures Examined(site, plan, view, order, p, ExamineAll(site, plan, store, view, order, p))
  {
    if order != [] {
      var done, i := order[..|order| - 1], order[|order| - 1];
      assert order == done + [i];
      LegalPrefix(plan, order);
      ExamineAllExact(site, plan, store, view, done, p);
      ExaminedStep(site, plan, store, view, done, i, p, ExamineAll(site, plan, store, view, done, p));
    }
  }

  lemma OrderIsLegal(plan: GenerationPlan, k: nat)
    requires k <= |PreflightOrder(plan)|
    ensures Legal(plan, PreflightOrder(plan)[..k])
  {
    PreflightOrderExact(plan);
    var full := PreflightOrder(plan);
    var order := full[..k];
    forall a | 0 <= a < |order| ensures order[a] < |plan.assets| && NextInOrder(plan, order[..a], order[a]) {
      assert full[a] in full;
      assert order[..a] == full[..a];
      forall j | 0 <= j < |plan.assets| && IsData(plan, j) && !IsData(plan, order[a]) ensures j in full[..a] {
        assert j in full;
        var b :| 0 <= b < |full| && full[b] == j;
        assert b < a;
        assert full[..a][b] == j;
      }
    }
  }

  /** The closed form of the first k steps of a pass. */
  lemma PrefixOfPass(site: Site, plan: GenerationPlan, store: Store, view: seq<Option<Bytes>>, p: Preflight, k: nat)
    requires DistinctNames(plan) && DataFirst(plan) && Digested(plan, p) && |view| == |plan.assets|
             && k <= |PreflightOrder(plan)|
    ensures Within(PreflightOrder(plan)[..k], |plan.assets|)
    ensures Digested(plan, StartPass(p))
    ensures Examined(site, plan, view, PreflightOrder(plan)[..k], StartPass(p),
                     ExamineAll(site, plan, store, view, PreflightOrder(plan)[..k], StartPass(p)))
  {
    OrderIsLegal(plan, k);
    ExamineAllExact(site, plan, store, view, PreflightOrder(plan)[..k], StartPass(p));
  }

  /** The closed form of a whole pass. */
  ghost predicate PassOutcome(site: Site, plan: GenerationPlan, view: seq<Option<Bytes>>, p: Preflight, q: Preflight)
    requires Digested(plan, p) && |view| == |plan.assets|
  {
    && Digested(plan, q)
    && q.dist.Keys == p.dist.Keys
    && (forall name | name in p.dist && name !in Names(plan) :: q.dist[name] == p.dist[name])
    && (forall i | 0 <= i < |plan.assets| ::
         q.dist[plan.assets[i].name] == Settled(site, plan, view, p.dist, p.adopted, i))
    && (forall i | 0 <= i < |plan.assets| :: plan.assets[i].name in q.adopted <==>
          plan.assets[i].name in p.adopted || Adopts(site, plan, view, p.dist, p.adopted, i))
    && p.conflicts <= q.conflicts
    && (q.conflicts == p.conflicts <==>
        forall i | 0 <= i < |plan.assets| :: Fits(site, plan, view, p.dist, p.adopted, i))
  }

  lemma FullOrderOutcome(site: Site, plan: GenerationPlan, view: seq<Option<Bytes>>, order: seq<nat>, p: Preflight,
                         q: Preflight)
    requires Digested(plan, p) && |view| == |plan.assets| && Within(order, |plan.assets|)
    requires forall i | 0 <= i < |plan.assets| :: i in order
    requires Examined(site, plan, view, order, p, q)
    ensures PassOutcome(site, plan, view, p, q)
  {
    forall i | 0 <= i < |plan.assets|
      ensures q.dist[plan.assets[i].name] == Settled(site, plan, view, p.dist, p.adopted, i)
      ensures plan.assets[i].name in q.adopted <==>
              plan.assets[i].name in p.adopted || Adopts(site, plan, view, p.dist, p.adopted, i)
    {
      assert i in order;
    }
  }

  lemma PassExact(site: Site, plan: GenerationPlan, store: Store, view: seq<Option<Bytes>>, p: Preflight)
    requires DistinctNames(plan) && DataFirst(plan) && Digested(plan, p) && |view| == |plan.assets|
    ensures PassOutcome(site, plan, view, p, Pass(site, plan, store, view, p))
    ensures Within(PreflightOrder(plan), |plan.assets|)
    ensures Pass(site, plan, store, view, p).missing == Absent(view, PreflightOrder(plan))
  {
    PreflightOrderExact(plan);
    var order := PreflightOrder(plan);
    PrefixOfPass(site, plan, store, view, p, |order|);
    assert order[..|order|] == order;
    FullOrderOutcome(site, plan, view, order, StartPass(p), Pass(site, plan, store, view, p));
  }

  /* ---------- both stores ---------- */

  function Digests(plan: GenerationPlan, dist: Objects): (digests: seq<Digest>)
    requires FilesPresent(plan, dist)
    ensures |digests| == |plan.assets|
  {
    seq(|plan.assets|, i requires 0 <= i < |plan.assets| => Sha256(dist[plan.assets[i].name]))
  }

  function Unexamined(plan: GenerationPlan, dist: Objects): (p: Preflight)
    requires FilesPresent(plan, dist)
    ensures Digested(plan, p)
  {
    Preflight(dist, Digests(plan, dist), {}, [], [], [], {})
  }

  function AfterR2(site: Site, plan: GenerationPlan, w: World): (p: Preflight)
    requires FilesPresent(plan, w.dist)
    ensures |p.digests| == |plan.assets|
  {
    Pass(site, plan, R2, View(plan, R2, w.r2, w.releases), Unexamined(plan, w.dist))
  }

  function AfterGitHub(site: Site, plan: GenerationPlan, w: World): (p: Preflight)
    requires FilesPresent(plan, w.dist)
    ensures |p.digests| == |plan.assets|
  {
    Pass(site, plan, GitHub, View(plan, GitHub, w.r2, w.releases), AfterR2(site, plan, w))
  }

  /** On R2 a companion implies its data. */
  ghost predicate CompanionsHaveData(plan: GenerationPlan, r2: Objects) {
    forall i | 0 <= i < |plan.assets| && !IsData(plan, i) && plan.assets[i].r2Url in r2 ::
      DataOf(plan, i) < |plan.assets| ==> plan.assets[DataOf(plan, i)].r2Url in r2
  }

  ghost predicate CompanionsHaveDataIn(plan: GenerationPlan, view: seq<Option<Bytes>>)
    requires |view| == |plan.assets|
  {
    forall i | 0 <= i < |plan.assets| && !IsData(plan, i) && view[i].Some? ::
      DataOf(plan, i) < |plan.assets| ==> view[DataOf(plan, i)].Some?
  }

  /** These bytes can stand for asset i: they are its file, or a companion that verifies against the
      data file. */
  ghost predicate Acceptable(site: Site, plan: GenerationPlan, dist: Objects, i: nat, bytes: Bytes)
    requires FilesPresent(plan, dist) && i < |plan.assets|
  {
    || bytes == dist[plan.assets[i].name]
    || (&& !IsData(plan, i) && DataOf(plan, i) < |plan.assets|
        && site.verify(dist[plan.assets[DataOf(plan, i)].name], plan.assets[i].name, bytes))
  }

  /** What R2 publishes of asset i can stand for it. */
  ghost predicate CleanR2At(site: Site, plan: GenerationPlan, r2: seq<Option<Bytes>>, dist: Objects, i: nat)
    requires FilesPresent(plan, dist) && i < |plan.assets| == |r2|
  {
    r2[i].Some? ==> Acceptable(site, plan, dist, i, r2[i].value)
  }

  /** What GitHub publishes of asset i agrees with a companion on R2, and is otherwise the prepared
      file or a companion published beside its data that verifies. */
  ghost predicate CleanGitHubAt(site: Site, plan: GenerationPlan, r2: seq<Option<Bytes>>, gh: seq<Option<Bytes>>,
                                dist: Objects, i: nat)
    requires FilesPresent(plan, dist) && i < |plan.assets| == |r2| == |gh|
  {
    gh[i].Some? ==>
      if !IsData(plan, i) && r2[i].Some? then gh[i] == r2[i]
      else
        && Acceptable(site, plan, dist, i, gh[i].value)
        && (gh[i].value != dist[plan.assets[i].name] ==> gh[DataOf(plan, i)].Some?)
  }

  ghost predicate CleanViews(site: Site, plan: GenerationPlan, r2: seq<Option<Bytes>>, gh: seq<Option<Bytes>>,
                             dist: Objects)
    requires FilesPresent(plan, dist) && |plan.assets| == |r2| == |gh|
  {
    forall i | 0 <= i < |plan.assets| ::
      CleanR2At(site, plan, r2, dist, i) && CleanGitHubAt(site, plan, r2, gh, dist, i)
  }

  ghost predicate Clean(site: Site, plan: GenerationPlan, w: World)
    requires FilesPresent(plan, w.dist)
  {
    CleanViews(site, plan, View(plan, R2, w.r2, w.releases), View(plan, GitHub, w.r2, w.releases), w.dist)
  }

  /** R2's bytes first, then GitHub's, then the prepared ones. */
  ghost function FirstPublished(r2: Option<Bytes>, gh: Option<Bytes>, prepared: Bytes): Bytes {
    if r2.Some? then r2.value else if gh.Some? then gh.value else prepared
  }

  /** Everything published of asset i, on either store, is these files' bytes. */
  ghost predicate AgreesAt(plan: GenerationPlan, store: Store, w: World, dist: Objects, i: nat)
    requires FilesPresent(plan, dist) && i < |plan.assets|
  {
    Remote(plan, store, w.r2, w.releases, i) in {None, Some(dist[plan.assets[i].name])}
  }

  ghost predicate Agrees(plan: GenerationPlan, store: Store, w: World, dist: Objects)
    requires FilesPresent(plan, dist)
  {
    forall i | 0 <= i < |plan.assets| :: AgreesAt(plan, store, w, dist, i)
  }

  lemma R2FitsExact(site: Site, plan: GenerationPlan, r2: seq<Option<Bytes>>, dist: Objects)
    requires DataFirst(plan) && FilesPresent(plan, dist) && |r2| == |plan.assets| && CompanionsHaveDataIn(plan, r2)
    ensures (forall i | 0 <= i < |plan.assets| :: Fits(site, plan, r2, dist, {}, i)) <==>
            (forall i | 0 <= i < |plan.assets| :: CleanR2At(site, plan, r2, dist, i))
    ensures (forall i | 0 <= i < |plan.assets| :: CleanR2At(site, plan, r2, dist, i)) ==>
            forall i | 0 <= i < |plan.assets| ::
              Adopts(site, plan, r2, dist, {}, i) <==> !IsData(plan, i) && r2[i].Some?
  {
    if forall i | 0 <= i < |plan.assets| :: Fits(site, plan, r2, dist, {}, i) {
      forall i | 0 <= i < |plan.assets| ensures CleanR2At(site, plan, r2, dist, i) {
        assert Fits(site, plan, r2, dist, {}, i);
      }
    }
    if forall i | 0 <= i < |plan.assets| :: CleanR2At(site, plan, r2, dist, i) {
      forall i | 0 <= i < |plan.assets|
        ensures Fits(site, plan, r2, dist, {}, i)
        ensures Adopts(site, plan, r2, dist, {}, i) <==> !IsData(plan, i) && r2[i].Some?
      {
        assert CleanR2At(site, plan, r2, dist, i);
        if !IsData(plan, i) && r2[i].Some? {
          assert CleanR2At(site, plan, r2, dist, DataOf(plan, i));
        }
      }
    }
  }

  lemma GitHubFitsExact(site: Site, plan: GenerationPlan, r2: seq<Option<Bytes>>, gh: seq<Option<Bytes>>, dist: Objects,
                        settled: Objects, adopted: set<string>)
    requires DataFirst(plan) && FilesPresent(plan, dist) && FilesPresent(plan, settled) && |r2| == |gh| == |plan.assets|
    requires forall i | 0 <= i < |plan.assets| :: CleanR2At(site, plan, r2, dist, i)
    requires forall i | 0 <= i < |plan.assets| ::
               settled[plan.assets[i].name] == FirstPublished(r2[i], None, dist[plan.assets[i].name])
    requires forall i | 0 <= i < |plan.assets| :: plan.assets[i].name in adopted <==> !IsData(plan, i) && r2[i].Some?
    ensures (forall i | 0 <= i < |plan.assets| :: Fits(site, plan, gh, settled, adopted, i)) <==>
            (forall i | 0 <= i < |plan.assets| :: CleanGitHubAt(site, plan, r2, gh, dist, i))
    ensures (forall i | 0 <= i < |plan.assets| :: CleanGitHubAt(site, plan, r2, gh, dist, i)) ==>
            forall i | 0 <= i < |plan.assets| ::
              Settled(site, plan, gh, settled, adopted, i) == FirstPublished(r2[i], gh[i], dist[plan.assets[i].name])
  {
    if forall i | 0 <= i < |plan.assets| :: Fits(site, plan, gh, settled, adopted, i) {
      forall i | 0 <= i < |plan.assets| ensures CleanGitHubAt(site, plan, r2, gh, dist, i) {
        assert Fits(site, plan, gh, settled, adopted, i) && CleanR2At(site, plan, r2, dist, i);
        if !IsData(plan, i) {
          assert CleanR2At(site, plan, r2, dist, DataOf(plan, i));
        }
      }
    }
    if forall i | 0 <= i < |plan.assets| :: CleanGitHubAt(site, plan, r2, gh, dist, i) {
      forall i | 0 <= i < |plan.assets|
        ensures Fits(site, plan, gh, settled, adopted, i)
        ensures Settled(site, plan, gh, settled, adopted, i) == FirstPublished(r2[i], gh[i], dist[plan.assets[i].name])
      {
        assert CleanGitHubAt(site, plan, r2, gh, dist, i) && CleanR2At(site, plan, r2, dist, i);
        if !IsData(plan, i) {
          assert CleanR2At(site, plan, r2, dist, DataOf(plan, i));
          assert CleanGitHubAt(site, plan, r2, gh, dist, DataOf(plan, i));
        }
      }
    }
  }

  lemma R2PassSound(site: Site, plan: GenerationPlan, w: World)
    requires WellFormed(plan) && FilesPresent(plan, w.dist) && CompanionsHaveData(plan, w.r2)
    ensures var q := AfterR2(site, plan, w);
            var r2 := View(plan, R2, w.r2, w.releases);
      && Digested(plan, q)
      && (q.conflicts == [] <==> forall i | 0 <= i < |plan.assets| :: CleanR2At(site, plan, r2, w.dist, i))
      && (q.conflicts == [] ==> forall i | 0 <= i < |plan.assets| ::
            q.dist[plan.assets[i].name] == FirstPublished(r2[i], None, w.dist[plan.assets[i].name]))
      && (q.conflicts == [] ==> forall i | 0 <= i < |plan.assets| ::
            plan.assets[i].name in q.adopted <==> !IsData(plan, i) && r2[i].Some?)
  {
    var r2 := View(plan, R2, w.r2, w.releases);
    PassExact(site, plan, R2, r2, Unexamined(plan, w.dist));
    R2FitsExact(site, plan, r2, w.dist);
    var q := AfterR2(site, plan, w);
    if q.conflicts == [] {
      forall i | 0 <= i < |plan.assets|
        ensures q.dist[plan.assets[i].name] == FirstPublished(r2[i], None, w.dist[plan.assets[i].name])
      {
        assert CleanR2At(site, plan, r2, w.dist, i);
        assert q.dist[plan.assets[i].name] == Settled(site, plan, r2, w.dist, {}, i);
      }
    }
  }

  /** Preflight soundness. When companions on R2 have their data there, the two passes find no
      conflict exactly in the clean worlds. Then the files settle on what R2 publishes, else on what
      GitHub publishes, else on what was prepared; so they agree with everything published, and
      what a pass calls missing is exactly what its store lacks. */
  lemma PreflightSound(site: Site, plan: GenerationPlan, w: World)
    requires WellFormed(plan) && FilesPresent(plan, w.dist) && CompanionsHaveData(plan, w.r2)
    ensures Digested(plan, AfterGitHub(site, plan, w))
    ensures AfterGitHub(site, plan, w).conflicts == [] <==> Clean(site, plan, w)
    ensures Clean(site, plan, w) ==>
            && (forall i | 0 <= i < |plan.assets| :: AfterGitHub(site, plan, w).dist[plan.assets[i].name] ==
                  FirstPublished(Remote(plan, R2, w.r2, w.releases, i), Remote(plan, GitHub, w.r2, w.releases, i),
                                 w.dist[plan.assets[i].name]))
            && Agrees(plan, R2, w, AfterGitHub(site, plan, w).dist)
            && Agrees(plan, GitHub, w, AfterGitHub(site, plan, w).dist)
  {
    R2PassSound(site, plan, w);
    var r2, gh := View(plan, R2, w.r2, w.releases), View(plan, GitHub, w.r2, w.releases);
    var q := AfterR2(site, plan, w);
    PassExact(site, plan, GitHub, gh, q);
    if q.conflicts == [] {
      GitHubFitsExact(site, plan, r2, gh, w.dist, q.dist, q.adopted);
      if Clean(site, plan, w) {
        SettledAgrees(site, plan, w, AfterGitHub(site, plan, w).dist);
      }
    }
  }

  /** R2 holds companion i without its data, while GitHub holds another companion of that name. */
  ghost predicate StrandedAt(plan: GenerationPlan, r2: seq<Option<Bytes>>, gh: seq<Option<Bytes>>, i: nat)
    requires i < |plan.assets| == |r2| == |gh|
  {
    && !IsData(plan, i)
    && var j := DataOf(plan, i);
       j < |plan.assets| && r2[j].None? && r2[i].Some? && gh[i].Some? && gh[i] != r2[i]
  }

  ghost predicate Stranded(plan: GenerationPlan, w: World) {
    var r2, gh := View(plan, R2, w.r2, w.releases), View(plan, GitHub, w.r2, w.releases);
    exists i | 0 <= i < |plan.assets| :: StrandedAt(plan, r2, gh, i)
  }

  /** What two passes without conflicts leave of asset i, unless it is stranded: what R2 has, and what
      GitHub has. */
  lemma TwoPassesAt(site: Site, plan: GenerationPlan, r2: seq<Option<Bytes>>, gh: seq<Option<Bytes>>,
                    p: Preflight, q: Preflight, r: Preflight, i: nat)
    requires DataFirst(plan) && Digested(plan, p) && p.adopted == {} && i < |plan.assets| == |r2| == |gh|
    requires PassOutcome(site, plan, r2, p, q) && q.conflicts == p.conflicts
    requires PassOutcome(site, plan, gh, q, r) && r.conflicts == q.conflicts
    ensures gh[i].Some? ==> gh[i].value == r.dist[plan.assets[i].name]
    ensures r2[i].Some? ==> (r2[i].value == r.dist[plan.assets[i].name] <==> !StrandedAt(plan, r2, gh, i))
  {
    assert Fits(site, plan, r2, p.dist, p.adopted, i) && Fits(site, plan, gh, q.dist, q.adopted, i);
    assert q.dist[plan.assets[i].name] == Settled(site, plan, r2, p.dist, p.adopted, i);
    assert r.dist[plan.assets[i].name] == Settled(site, plan, gh, q.dist, q.adopted, i);
    if !IsData(plan, i) {
      assert Fits(site, plan, r2, p.dist, p.adopted, DataOf(plan, i));
    }
  }

  /** The exact condition. In every world whose preflights end without conflicts the files agree with
      GitHub, and they agree with R2 if and only if no companion is stranded there. */
  lemma ConflictFreeExact(site: Site, plan: GenerationPlan, w: World)
    requires WellFormed(plan) && FilesPresent(plan, w.dist) && AfterGitHub(site, plan, w).conflicts == []
    ensures FilesPresent(plan, AfterGitHub(site, plan, w).dist)
    ensures Agrees(plan, GitHub, w, AfterGitHub(site, plan, w).dist)
    ensures Agrees(plan, R2, w, AfterGitHub(site, plan, w).dist) <==> !Stranded(plan, w)
  {
    var r2, gh := View(plan, R2, w.r2, w.releases), View(plan, GitHub, w.r2, w.releases);
    var p, q, r := Unexamined(plan, w.dist), AfterR2(site, plan, w), AfterGitHub(site, plan, w);
    PassExact(site, plan, R2, r2, p);
    PassExact(site, plan, GitHub, gh, q);
    forall i | 0 <= i < |plan.assets|
      ensures AgreesAt(plan, GitHub, w, r.dist, i)
      ensures AgreesAt(plan, R2, w, r.dist, i) <==> !StrandedAt(plan, r2, gh, i)
    {
      TwoPassesAt(site, plan, r2, gh, p, q, r, i);
      assert r2[i] == Remote(plan, R2, w.r2, w.releases, i) && gh[i] == Remote(plan, GitHub, w.r2, w.releases, i);
    }
  }

  lemma SettledAgrees(site: Site, plan: GenerationPlan, w: World, dist: Objects)
    requires FilesPresent(plan, w.dist) && FilesPresent(plan, dist) && Clean(site, plan, w)
    requires forall i | 0 <= i < |plan.assets| ::
               dist[plan.assets[i].name] ==
               FirstPublished(Remote(plan, R2, w.r2, w.releases, i), Remote(plan, GitHub, w.r2, w.releases, i),
                              w.dist[plan.assets[i].name])
    ensures Agrees(plan, R2, w, dist) && Agrees(plan, GitHub, w, dist)
  {
    var r2, gh := View(plan, R2, w.r2, w.releases), View(plan, GitHub, w.r2, w.releases);
    forall i | 0 <= i < |plan.assets| ensures AgreesAt(plan, R2, w, dist, i) && AgreesAt(plan, GitHub, w, dist, i) {
      assert CleanR2At(site, plan, r2, w.dist, i) && CleanGitHubAt(site, plan, r2, gh, w.dist, i);
      assert r2[i] == Remote(plan, R2, w.r2, w.releases, i);
      assert gh[i] == Remote(plan, GitHub, w.r2, w.releases, i);
    }
  }

  /* ---------- interrupted passes ---------- */

  /** Files after part of a pass: a file differs only where a published companion may replace it.
      A write that is cut short leaves any bytes there. */
  ghost predicate Rewritten(site: Site, plan: GenerationPlan, view: seq<Option<Bytes>>, dist: Objects,
                            adopted: set<string>, after: Objects)
    requires FilesPresent(plan, dist) && |view| == |plan.assets|
  {
    && after.Keys == dist.Keys
    && (forall name | name in dist && name !in Names(plan) :: after[name] == dist[name])
    && (forall i | 0 <= i < |plan.assets| ::
          after[plan.assets[i].name] == dist[plan.assets[i].name] || Replaceable(site, plan, view, dist, adopted, i))
  }

  lemma ExaminedRewrites(site: Site, plan: GenerationPlan, view: seq<Option<Bytes>>, order: seq<nat>, p: Preflight,
                         q: Preflight)
    requires Digested(plan, p) && |view| == |plan.assets| && Within(order, |plan.assets|)
    requires Examined(site, plan, view, order, p, q)
    ensures Rewritten(site, plan, view, p.dist, p.adopted, q.dist)
  {
    forall i | 0 <= i < |plan.assets|
      ensures q.dist[plan.assets[i].name] == p.dist[plan.assets[i].name]
              || Replaceable(site, plan, view, p.dist, p.adopted, i)
    {
    }
  }

  lemma PassRewrites(site: Site, plan: GenerationPlan, store: Store, view: seq<Option<Bytes>>, p: Preflight)
    requires DistinctNames(plan) && DataFirst(plan) && Digested(plan, p) && |view| == |plan.assets|
    ensures Rewritten(site, plan, view, p.dist, p.adopted, Pass(site, plan, store, view, p).dist)
  {
    PreflightOrderExact(plan);
    var order := PreflightOrder(plan);
    PrefixOfPass(site, plan, store, view, p, |order|);
    assert order[..|order|] == order;
    ExaminedRewrites(site, plan, view, order, StartPass(p), ExamineAll(site, plan, store, view, order, StartPass(p)));
  }

  lemma {:induction false} AbsentExact(view: seq<Option<Bytes>>, order: seq<nat>)
    requires Within(order, |view|)
    ensures forall i :: i in Absent(view, order) <==> i in order && view[i].None?
    ensures Within(Absent(view, order), |view|)
  {
    if order != [] {
      var done, i := order[..|order| - 1], order[|order| - 1];
      AbsentExact(view, done);
      assert order == done + [i];
    }
  }

  function CounterSite(): Site {
    Site((d, n, c) => true, (t, c) => true, b => None)
  }

  function CounterPlan(): GenerationPlan {
    GenerationPlan("g", "r", "d", [HashedAsset("d", "u/d", None), HashedAsset("c", "u/c", Some("d"))],
                   RedirectFiles("j", "u/j", "b", "u/b", "s"))
  }

  function CounterWorld(): World {
    World(map["u/c" := [1]], map["g" := map["d" := [0], "c" := [2]]], map["d" := [0], "c" := [1]])
  }

  /** A preflight can end without conflicts while R2 keeps other bytes than the adopted ones: the data
      is only on GitHub, with another companion. */
  lemma UnsoundWithoutData()
    ensures WellFormed(CounterPlan()) && FilesPresent(CounterPlan(), CounterWorld().dist)
    ensures Stranded(CounterPlan(), CounterWorld())
    ensures AfterGitHub(CounterSite(), CounterPlan(), CounterWorld()).conflicts == []
    ensures FilesPresent(CounterPlan(), AfterGitHub(CounterSite(), CounterPlan(), CounterWorld()).dist)
    ensures !Agrees(CounterPlan(), R2, CounterWorld(), AfterGitHub(CounterSite(), CounterPlan(), CounterWorld()).dist)
  {
    CounterShape();
    CounterPasses(CounterSite(), CounterPlan(), CounterWorld());
    ConflictFreeExact(CounterSite(), CounterPlan(), CounterWorld());
  }

  lemma CounterShape()
    ensures WellFormed(CounterPlan()) && FilesPresent(CounterPlan(), CounterWorld().dist)
    ensures DataOf(CounterPlan(), 1) == 0
    ensures View(CounterPlan(), R2, CounterWorld().r2, CounterWorld().releases) == [None, Some([1])]
    ensures View(CounterPlan(), GitHub, CounterWorld().r2, CounterWorld().releases) == [Some([0]), Some([2])]
    ensures Stranded(CounterPlan(), CounterWorld())
  {
    var plan, w := CounterPlan(), CounterWorld();
    assert DataOf(plan, 1) == 0;
    assert plan.assets[1].r2Url in w.r2 && plan.assets[0].r2Url !in w.r2;
    assert StrandedAt(plan, View(plan, R2, w.r2, w.releases), View(plan, GitHub, w.r2, w.releases), 1);
  }

  lemma CounterPasses(site: Site, plan: GenerationPlan, w: World)
    requires site == CounterSite() && plan == CounterPlan() && w == CounterWorld()
    requires WellFormed(plan) && FilesPresent(plan, w.dist) && DataOf(plan, 1) == 0
    requires View(plan, R2, w.r2, w.releases) == [None, Some([1])]
    requires View(plan, GitHub, w.r2, w.releases) == [Some([0]), Some([2])]
    ensures AfterGitHub(site, plan, w).conflicts == []
  {
    var r2, gh := View(plan, R2, w.r2, w.releases), View(plan, GitHub, w.r2, w.releases);
    var p, q := Unexamined(plan, w.dist), AfterR2(site, plan, w);
    PassExact(site, plan, R2, r2, p);
    CounterFirstPass(site, plan, r2, p, q);
    PassExact(site, plan, GitHub, gh, q);
    CounterSecondPass(site, plan, gh, q);
  }

  lemma CounterFirstPass(site: Site, plan: GenerationPlan, r2: seq<Option<Bytes>>, p: Preflight, q: Preflight)
    requires plan == CounterPlan() && r2 == [None, Some([1])] && DataOf(plan, 1) == 0
    requires FilesPresent(plan, CounterWorld().dist) && p == Unexamined(plan, CounterWorld().dist)
    requires PassOutcome(site, plan, r2, p, q)
    ensures q.conflicts == p.conflicts && plan.assets[1].name !in q.adopted
    ensures q.dist[plan.assets[0].name] == [0]
  {
    assert Fits(site, plan, r2, p.dist, p.adopted, 0) && Fits(site, plan, r2, p.dist, p.adopted, 1);
    assert q.dist[plan.assets[0].name] == Settled(site, plan, r2, p.dist, p.adopted, 0);
  }

  lemma CounterSecondPass(site: Site, plan: GenerationPlan, gh: seq<Option<Bytes>>, q: Preflight)
    requires site == CounterSite() && plan == CounterPlan() && gh == [Some([0]), Some([2])] && DataOf(plan, 1) == 0
    requires FilesPresent(plan, q.dist) && q.dist[plan.assets[0].name] == [0] && plan.assets[1].name !in q.adopted
    ensures forall i | 0 <= i < |plan.assets| :: Fits(site, plan, gh, q.dist, q.adopted, i)
  {
    assert BesideItsData(plan, gh, q.dist, q.adopted, 1);
    assert site.verify(q.dist[plan.assets[0].name], plan.assets[1].name, [2]);
    assert Adopts(site, plan, gh, q.dist, q.adopted, 1);
  }
}
