/** Reading a prepared directory into a plan: where the shape the publisher relies on comes from. */
module CatalogPlanning {
  import opened Wrappers
  import opened Numbers
  import opened CatalogPreflight

  /** A catalog artifact or redirect rung: its data, its signature bundle, and their mirrors. */
  datatype Location = Location(url: string, mirrors: seq<string>, signatureUrl: string, signatureMirrors: seq<string>)

  /** How things are named: the file name of a URL, the mirror URL of an asset on a release, the tags,
      and where the redirect lives on R2. */
  datatype Naming = Naming(
    fileName: string -> Option<string>,
    mirror: (string, string) -> string,
    generationTag: nat -> string,
    redirectTag: string,
    redirectBase: string)

  /** A decoded prepared directory: the generations of the redirect and of the catalog, the rungs of the
      redirect, and the artifacts of the rule packs. */
  datatype Prepared = Prepared(
    generation: nat, catalogGeneration: nat, rungs: seq<Location>, artifacts: seq<Location>, files: set<string>)

  datatype PlanError =
    | GenerationsDiffer
    | NoArtifacts
    | NoFileName(url: string)
    | WrongMaster(name: string)
    | BadName(name: string)
    | WrongMirror(name: string)
    | MissingFile(name: string)
    | ListedTwice(name: string)

  const SIGSTORE := ".sigstore.json"

  const REDIRECT_JSON := "catalog-v3.modern.redirect.json"
  const REDIRECT_BUNDLE := "catalog-v3.modern.redirect.bundle.json"
  const REDIRECT_SIGSTORE := "catalog-v3.modern.redirect.sigstore.json"

  predicate NameOk(name: string) {
    && name != ""
    && forall i | 0 <= i < |name| ::
         'a' <= name[i] <= 'z' || 'A' <= name[i] <= 'Z' || '0' <= name[i] <= '9' || name[i] in ".-_"
  }

  /* ---------- what is planned ---------- */

  predicate Named(naming: Naming, l: Location) {
    naming.fileName(l.url).Some? && naming.fileName(l.signatureUrl).Some?
  }

  predicate Mirrored(naming: Naming, tag: string, l: Location)
    requires Named(naming, l)
  {
    && naming.mirror(tag, naming.fileName(l.url).value) in l.mirrors
    && naming.mirror(tag, naming.fileName(l.signatureUrl).value) in l.signatureMirrors
  }

  /** A location's data asset, its bundle, and the raw sigstore bundle beside it. */
  function PlanOf(naming: Naming, l: Location): (assets: seq<HashedAsset>)
    requires Named(naming, l)
    ensures |assets| == 3
  {
    var name := naming.fileName(l.url).value;
    [HashedAsset(name, l.url, None),
     HashedAsset(naming.fileName(l.signatureUrl).value, l.signatureUrl, Some(name)),
     HashedAsset(name + SIGSTORE, l.url + SIGSTORE, Some(name))]
  }

  predicate AllNamed(naming: Naming, locations: seq<Location>) {
    forall k | 0 <= k < |locations| :: Named(naming, locations[k])
  }

  function Planned(naming: Naming, locations: seq<Location>): (assets: seq<HashedAsset>)
    requires AllNamed(naming, locations)
    ensures |assets| == 3 * |locations|
  {
    if locations == [] then []
    else Planned(naming, locations[..|locations| - 1]) + PlanOf(naming, locations[|locations| - 1])
  }

  /** Literal names, each once, with their files. */
  ghost predicate Checked(files: set<string>, assets: seq<HashedAsset>) {
    && (forall i | 0 <= i < |assets| :: NameOk(assets[i].name) && assets[i].name in files)
    && (forall i, j | 0 <= i < j < |assets| :: assets[i].name != assets[j].name)
  }

  ghost predicate Plannable(naming: Naming, tag: string, files: set<string>, locations: seq<Location>) {
    && AllNamed(naming, locations)
    && (forall k | 0 <= k < |locations| :: Mirrored(naming, tag, locations[k]))
    && Checked(files, Planned(naming, locations))
  }

  lemma CheckedPrefix(files: set<string>, a: seq<HashedAsset>, b: seq<HashedAsset>)
    requires Checked(files, a + b)
    ensures Checked(files, a)
  {
    assert forall i | 0 <= i < |a| :: (a + b)[i] == a[i];
  }

  lemma {:induction false} PlannedPrefix(naming: Naming, locations: seq<Location>, k: nat)
    requires AllNamed(naming, locations) && k <= |locations|
    ensures Planned(naming, locations[..k]) <= Planned(naming, locations)
    decreases |locations|
  {
    if k == |locations| {
      assert locations[..k] == locations;
    } else {
      var init := locations[..|locations| - 1];
      assert init[..k] == locations[..k];
      PlannedPrefix(naming, init, k);
    }
  }

  /** What cannot be planned up to location k cannot be planned at all. */
  lemma PlannableUpTo(naming: Naming, tag: string, files: set<string>, locations: seq<Location>, k: nat)
    requires k < |locations| && Plannable(naming, tag, files, locations)
    ensures Plannable(naming, tag, files, locations[..k + 1])
    ensures Named(naming, locations[k]) && Mirrored(naming, tag, locations[k])
    ensures Checked(files, Planned(naming, locations[..k]) + PlanOf(naming, locations[k]))
  {
    var all, upTo := Planned(naming, locations), locations[..k + 1];
    PlannedPrefix(naming, locations, k + 1);
    assert all == Planned(naming, upTo) + all[|Planned(naming, upTo)|..];
    CheckedPrefix(files, Planned(naming, upTo), all[|Planned(naming, upTo)|..]);
    assert upTo[..k] == locations[..k] && upTo[k] == locations[k];
  }

  /* ---------- the planner ---------- */

  method Push(naming: Naming, tag: string, files: set<string>, assets: seq<HashedAsset>, asset: HashedAsset,
              mirrors: Option<seq<string>>)
    returns (error: Option<PlanError>)
    requires Checked(files, assets)
    ensures error.None? <==>
      Checked(files, assets + [asset]) && (mirrors.Some? ==> naming.mirror(tag, asset.name) in mirrors.value)
  {
    assert (assets + [asset])[|assets|] == asset;
    if !NameOk(asset.name) {
      return Some(BadName(asset.name));
    }
    if mirrors.Some? && naming.mirror(tag, asset.name) !in mirrors.value {
      return Some(WrongMirror(asset.name));
    }
    if asset.name !in files {
      return Some(MissingFile(asset.name));
    }
    if i :| 0 <= i < |assets| && assets[i].name == asset.name {
      assert (assets + [asset])[i].name == (assets + [asset])[|assets|].name;
      return Some(ListedTwice(asset.name));
    }
    error := None;
  }

  /** Plan one location's three assets after those planned already. */
  method PlanLocation(naming: Naming, tag: string, files: set<string>, assets: seq<HashedAsset>, l: Location)
    returns (error: Option<PlanError>, planned: seq<HashedAsset>)
    requires Checked(files, assets)
    ensures error.None? <==>
      Named(naming, l) && Mirrored(naming, tag, l) && Checked(files, assets + PlanOf(naming, l))
    ensures error.None? ==> planned == assets + PlanOf(naming, l)
  {
    planned := assets;
    var name := naming.fileName(l.url);
    if name.None? {
      return Some(NoFileName(l.url)), planned;
    }
    var data := HashedAsset(name.value, l.url, None);
    error := Push(naming, tag, files, planned, data, Some(l.mirrors));
    var signature := naming.fileName(l.signatureUrl);
    if error.Some? || signature.None? {
      CheckedParts(files, assets, [data], naming, l);
      return if error.Some? then error else Some(NoFileName(l.signatureUrl)), planned;
    }
    var bundle := HashedAsset(signature.value, l.signatureUrl, Some(data.name));
    planned := planned + [data];
    error := Push(naming, tag, files, planned, bundle, Some(l.signatureMirrors));
    planned := planned + [bundle];
    assert planned == assets + [data, bundle];
    if error.Some? {
      CheckedParts(files, assets, [data, bundle], naming, l);
      return;
    }
    var raw := HashedAsset(data.name + SIGSTORE, l.url + SIGSTORE, Some(data.name));
    error := Push(naming, tag, files, planned, raw, None);
    planned := planned + [raw];
    assert planned == assets + PlanOf(naming, l);
  }

  lemma CheckedParts(files: set<string>, assets: seq<HashedAsset>, part: seq<HashedAsset>, naming: Naming, l: Location)
    requires Named(naming, l) ==> part <= PlanOf(naming, l)
    ensures Named(naming, l) && Checked(files, assets + PlanOf(naming, l)) ==> Checked(files, assets + part)
  {
    if Named(naming, l) && Checked(files, assets + PlanOf(naming, l)) {
      var rest := PlanOf(naming, l)[|part|..];
      assert assets + PlanOf(naming, l) == assets + part + rest;
      CheckedPrefix(files, assets + part, rest);
    }
  }

  /** Plan every location, or fail on the first asset that may not be planned. */
  method PlanAssets(naming: Naming, tag: string, files: set<string>, locations: seq<Location>)
    returns (res: Result<seq<HashedAsset>, PlanError>)
    ensures res.Success? <==> Plannable(naming, tag, files, locations)
    ensures res.Success? ==> res.value == Planned(naming, locations)
  {
    var assets: seq<HashedAsset> := [];
    for k := 0 to |locations|
      invariant Plannable(naming, tag, files, locations[..k]) && assets == Planned(naming, locations[..k])
    {
      var error, planned := PlanLocation(naming, tag, files, assets, locations[k]);
      if error.Some? {
        if Plannable(naming, tag, files, locations) {
          PlannableUpTo(naming, tag, files, locations, k);
        }
        return Failure(error.value);
      }
      var upTo := locations[..k + 1];
      assert upTo[..k] == locations[..k] && upTo[k] == locations[k];
      assets := planned;
    }
    assert locations[..|locations|] == locations;
    res := Success(assets);
  }

  /* ---------- the plan of a generation ---------- */

  function MasterPrefix(generation: nat): string {
    "catalog-v3." + Decimal(generation) + "."
  }

  predicate MasterNamed(naming: Naming, generation: nat, url: string) {
    naming.fileName(url).Some? && MasterPrefix(generation) <= naming.fileName(url).value
  }

  function RedirectOf(naming: Naming): RedirectFiles {
    RedirectFiles(REDIRECT_JSON, naming.redirectBase + "/" + REDIRECT_JSON,
                  REDIRECT_BUNDLE, naming.redirectBase + "/" + REDIRECT_BUNDLE, REDIRECT_SIGSTORE)
  }

  /** The catalog and its redirect are of one generation, the last rung is named after it, every
      location can be planned, and the redirect's three files are there. */
  ghost predicate CanPlan(naming: Naming, prepared: Prepared) {
    && prepared.catalogGeneration == prepared.generation
    && prepared.rungs != []
    && MasterNamed(naming, prepared.generation, prepared.rungs[|prepared.rungs| - 1].url)
    && Plannable(naming, naming.generationTag(prepared.generation), prepared.files, prepared.rungs + prepared.artifacts)
    && {REDIRECT_JSON, REDIRECT_BUNDLE, REDIRECT_SIGSTORE} <= prepared.files
  }

  method PlanGeneration(naming: Naming, prepared: Prepared) returns (res: Result<GenerationPlan, PlanError>)
    ensures res.Success? <==> CanPlan(naming, prepared)
    ensures res.Success? ==>
      res.value == GenerationPlan(
        naming.generationTag(prepared.generation), naming.redirectTag,
        naming.fileName(prepared.rungs[|prepared.rungs| - 1].url).value,
        Planned(naming, prepared.rungs + prepared.artifacts), RedirectOf(naming))
  {
    if REDIRECT_JSON !in prepared.files {
      return Failure(MissingFile(REDIRECT_JSON));
    }
    if prepared.catalogGeneration != prepared.generation {
      return Failure(GenerationsDiffer);
    }
    if prepared.rungs == [] {
      return Failure(NoArtifacts);
    }
    var last := prepared.rungs[|prepared.rungs| - 1].url;
    var master := naming.fileName(last);
    if master.None? {
      return Failure(NoFileName(last));
    }
    if !(MasterPrefix(prepared.generation) <= master.value) {
      return Failure(WrongMaster(master.value));
    }
    var tag := naming.generationTag(prepared.generation);
    var assets := PlanAssets(naming, tag, prepared.files, prepared.rungs + prepared.artifacts);
    if assets.Failure? {
      return Failure(assets.error);
    }
    if REDIRECT_BUNDLE !in prepared.files {
      return Failure(MissingFile(REDIRECT_BUNDLE));
    }
    if REDIRECT_SIGSTORE !in prepared.files {
      return Failure(MissingFile(REDIRECT_SIGSTORE));
    }
    return Success(GenerationPlan(tag, naming.redirectTag, master.value, assets.value, RedirectOf(naming)));
  }

  /* ---------- the shape of a plan ---------- */

  /** What the file name of a raw sigstore bundle's URL is, when the data URL ends in its file name. */
  ghost predicate NamesExtend(naming: Naming, locations: seq<Location>) {
    forall k | 0 <= k < |locations| && naming.fileName(locations[k].url).Some? ::
      naming.fileName(locations[k].url + SIGSTORE) == Some(naming.fileName(locations[k].url).value + SIGSTORE)
  }

  lemma {:induction false} PlannedAt(naming: Naming, locations: seq<Location>, k: nat)
    requires AllNamed(naming, locations) && k < |locations|
    ensures var assets, next := Planned(naming, locations), PlanOf(naming, locations[k]);
      assets[3 * k] == next[0] && assets[3 * k + 1] == next[1] && assets[3 * k + 2] == next[2]
    decreases |locations|
  {
    if k < |locations| - 1 {
      PlannedAt(naming, locations[..|locations| - 1], k);
    }
  }

  lemma AssetAt(naming: Naming, locations: seq<Location>, i: nat)
    requires AllNamed(naming, locations) && NamesExtend(naming, locations) && i < 3 * |locations|
    ensures var assets := Planned(naming, locations);
      && naming.fileName(assets[i].r2Url) == Some(assets[i].name)
      && (i % 3 == 0 <==> assets[i].signatureOf.None?)
      && (i % 3 != 0 ==> assets[i].signatureOf == Some(assets[i - i % 3].name))
  {
    PlannedAt(naming, locations, i / 3);
    assert i == 3 * (i / 3) + i % 3;
  }

  /** In a plan read from a prepared directory names and objects are distinct and a companion comes after the
      data it signs; so it is well formed exactly when no asset is named or addressed like a redirect file. */
  lemma PlannedIsWellFormed(naming: Naming, tag: string, files: set<string>, locations: seq<Location>,
                            plan: GenerationPlan)
    requires Plannable(naming, tag, files, locations) && plan.assets == Planned(naming, locations)
    requires NamesExtend(naming, locations)
    ensures DistinctNames(plan) && DataFirst(plan)
    ensures WellFormed(plan) <==> RedirectApart(plan)
  {
    forall i, j | 0 <= i < j < |plan.assets| ensures plan.assets[i].r2Url != plan.assets[j].r2Url {
      AssetAt(naming, locations, i);
      AssetAt(naming, locations, j);
    }
    forall i | 0 <= i < |plan.assets| && !IsData(plan, i) ensures DataOf(plan, i) < i && IsData(plan, DataOf(plan, i)) {
      AssetAt(naming, locations, i);
      AssetAt(naming, locations, i - i % 3);
      assert DataOf(plan, i) == i - i % 3;
    }
  }

  /* ---------- which directories are planned ---------- */

  /** A name that needs no quoting and no directory. */
  predicate Literal(name: string) {
    name != "" && forall i | 0 <= i < |name| ::
      name[i] in "abcdefghijklmnopqrstuvwxyz" + "ABCDEFGHIJKLMNOPQRSTUVWXYZ" + "0123456789" + ".-_"
  }

  lemma LiteralExact(name: string)
    ensures NameOk(name) <==> Literal(name)
  {
    var small, large, digits := "abcdefghijklmnopqrstuvwxyz", "ABCDEFGHIJKLMNOPQRSTUVWXYZ", "0123456789";
    assert forall k | 0 <= k < 26 :: small[k] as int == 97 + k;
    assert forall k | 0 <= k < 26 :: large[k] as int == 65 + k;
    assert forall k | 0 <= k < 10 :: digits[k] as int == 48 + k;
    forall c: char
      ensures c in small + large + digits + ".-_" <==>
              'a' <= c <= 'z' || 'A' <= c <= 'Z' || '0' <= c <= '9' || c in ".-_"
    {
      if 'a' <= c <= 'z' {
        assert small[c as int - 97] == c;
      }
      if 'A' <= c <= 'Z' {
        assert large[c as int - 65] == c;
      }
      if '0' <= c <= '9' {
        assert digits[c as int - 48] == c;
      }
    }
  }

  /** The location's data, bundle and raw bundle are these names: literal, in the directory, and mirrored on the
      release by the location's own mirrors. */
  ghost predicate Stored(naming: Naming, tag: string, files: set<string>, l: Location, names: seq<string>) {
    && |names| == 3
    && naming.fileName(l.url) == Some(names[0]) && naming.fileName(l.signatureUrl) == Some(names[1])
    && names[2] == names[0] + ".sigstore.json"
    && naming.mirror(tag, names[0]) in l.mirrors && naming.mirror(tag, names[1]) in l.signatureMirrors
    && forall i | 0 <= i < 3 :: Literal(names[i]) && names[i] in files
  }

  ghost predicate AllStored(naming: Naming, tag: string, files: set<string>, locations: seq<Location>,
                            names: seq<string>) {
    && |names| == 3 * |locations|
    && (forall k | 0 <= k < |locations| :: Stored(naming, tag, files, locations[k], names[3 * k..3 * k + 3]))
    && (forall i, j | 0 <= i < j < |names| :: names[i] != names[j])
  }

  function NamesOf(assets: seq<HashedAsset>): (names: seq<string>)
    ensures |names| == |assets| && forall i | 0 <= i < |assets| :: names[i] == assets[i].name
  {
    seq(|assets|, i requires 0 <= i < |assets| => assets[i].name)
  }

  predicate AllOk(files: set<string>, names: seq<string>) {
    forall i | 0 <= i < |names| :: NameOk(names[i]) && names[i] in files
  }

  lemma StoredExact(naming: Naming, tag: string, files: set<string>, l: Location, names: seq<string>)
    requires Named(naming, l)
    ensures Stored(naming, tag, files, l, names) <==>
            Mirrored(naming, tag, l) && names == NamesOf(PlanOf(naming, l)) && AllOk(files, names)
  {
    forall i | 0 <= i < |names| ensures NameOk(names[i]) <==> Literal(names[i]) {
      LiteralExact(names[i]);
    }
    var planned := NamesOf(PlanOf(naming, l));
    if Stored(naming, tag, files, l, names) {
      assert names[0] == planned[0] && names[1] == planned[1] && names[2] == planned[2];
    }
  }

  lemma PlannedNames(naming: Naming, locations: seq<Location>, k: nat)
    requires AllNamed(naming, locations) && k < |locations|
    ensures NamesOf(Planned(naming, locations))[3 * k..3 * k + 3] == NamesOf(PlanOf(naming, locations[k]))
  {
    PlannedAt(naming, locations, k);
  }

  /** Locations can be planned exactly when the three files of each are stored, under names that are all
      distinct; these are the names of the plan, in order. */
  lemma PlannableExact(naming: Naming, tag: string, files: set<string>, locations: seq<Location>, names: seq<string>)
    ensures AllStored(naming, tag, files, locations, names) <==>
            Plannable(naming, tag, files, locations) && names == NamesOf(Planned(naming, locations))
  {
    if Plannable(naming, tag, files, locations) && names == NamesOf(Planned(naming, locations)) {
      PlannedAreStored(naming, tag, files, locations);
    }
    if AllStored(naming, tag, files, locations, names) {
      forall k | 0 <= k < |locations| ensures Named(naming, locations[k]) {
        assert Stored(naming, tag, files, locations[k], names[3 * k..3 * k + 3]);
      }
      StoredArePlanned(naming, tag, files, locations, names);
    }
  }

  lemma PlannedAreStored(naming: Naming, tag: string, files: set<string>, locations: seq<Location>)
    requires Plannable(naming, tag, files, locations)
    ensures AllStored(naming, tag, files, locations, NamesOf(Planned(naming, locations)))
  {
    var names := NamesOf(Planned(naming, locations));
    forall k | 0 <= k < |locations| ensures Stored(naming, tag, files, locations[k], names[3 * k..3 * k + 3]) {
      PlannedNames(naming, locations, k);
      StoredExact(naming, tag, files, locations[k], names[3 * k..3 * k + 3]);
    }
  }

  lemma StoredArePlanned(naming: Naming, tag: string, files: set<string>, locations: seq<Location>, names: seq<string>)
    requires AllNamed(naming, locations) && AllStored(naming, tag, files, locations, names)
    ensures Plannable(naming, tag, files, locations) && names == NamesOf(Planned(naming, locations))
  {
    var assets := Planned(naming, locations);
    forall k | 0 <= k < |locations|
      ensures Mirrored(naming, tag, locations[k]) && AllOk(files, names[3 * k..3 * k + 3])
      ensures names[3 * k..3 * k + 3] == NamesOf(assets)[3 * k..3 * k + 3]
    {
      PlannedNames(naming, locations, k);
      StoredExact(naming, tag, files, locations[k], names[3 * k..3 * k + 3]);
    }
    forall i | 0 <= i < |names| ensures names[i] == assets[i].name && NameOk(names[i]) && names[i] in files {
      var k, j := i / 3, i % 3;
      assert names[3 * k..3 * k + 3] == NamesOf(assets)[3 * k..3 * k + 3] && AllOk(files, names[3 * k..3 * k + 3]);
      assert names[i] == names[3 * k..3 * k + 3][j] && assets[i].name == NamesOf(assets)[3 * k..3 * k + 3][j];
    }
  }

  /** Which prepared directories have a plan. */
  lemma CanPlanExact(naming: Naming, prepared: Prepared)
    ensures CanPlan(naming, prepared) <==>
            && prepared.generation == prepared.catalogGeneration && prepared.rungs != []
            && (exists rest :: naming.fileName(prepared.rungs[|prepared.rungs| - 1].url) ==
                               Some("catalog-v3." + Decimal(prepared.generation) + "." + rest))
            && (exists names :: AllStored(naming, naming.generationTag(prepared.generation), prepared.files,
                                          prepared.rungs + prepared.artifacts, names))
            && "catalog-v3.modern.redirect.json" in prepared.files
            && "catalog-v3.modern.redirect.bundle.json" in prepared.files
            && "catalog-v3.modern.redirect.sigstore.json" in prepared.files
  {
    var tag, all := naming.generationTag(prepared.generation), prepared.rungs + prepared.artifacts;
    if Plannable(naming, tag, prepared.files, all) {
      PlannableExact(naming, tag, prepared.files, all, NamesOf(Planned(naming, all)));
    }
    if names :| AllStored(naming, tag, prepared.files, all, names) {
      PlannableExact(naming, tag, prepared.files, all, names);
    }
    if prepared.rungs != [] {
      MasterNameExact(naming, prepared.generation, prepared.rungs[|prepared.rungs| - 1].url);
    }
  }

  lemma MasterNameExact(naming: Naming, generation: nat, url: string)
    ensures MasterNamed(naming, generation, url) <==>
            exists rest :: naming.fileName(url) == Some("catalog-v3." + Decimal(generation) + "." + rest)
  {
    var front := "catalog-v3." + Decimal(generation) + ".";
    if MasterNamed(naming, generation, url) {
      var name := naming.fileName(url).value;
      assert name == front + name[|front|..];
    }
  }

  /** What is planned of a location, and where the redirect goes. */
  lemma PlanExact(naming: Naming, locations: seq<Location>, k: nat)
    requires AllNamed(naming, locations) && k < |locations|
    ensures var assets, l := Planned(naming, locations), locations[k];
      && |assets| == 3 * |locations|
      && assets[3 * k].r2Url == l.url && assets[3 * k].signatureOf == None
      && assets[3 * k + 1].r2Url == l.signatureUrl && assets[3 * k + 1].signatureOf == Some(assets[3 * k].name)
      && assets[3 * k + 2].r2Url == l.url + ".sigstore.json"
      && assets[3 * k + 2].signatureOf == Some(assets[3 * k].name)
    ensures RedirectOf(naming).jsonUrl == naming.redirectBase + "/catalog-v3.modern.redirect.json"
    ensures RedirectOf(naming).bundleUrl == naming.redirectBase + "/catalog-v3.modern.redirect.bundle.json"
  {
    PlannedAt(naming, locations, k);
  }
}
