/** The rows that the upstream files and the built-in seeds give. */
module GroupRows {
  import opened Wrappers
  import opened Text
  import opened GroupTiers

  datatype Stem = Stem(tier: string, context: string)

  /** A file with the matchers distilled from its records: each a text, and whether it is exact. */
  datatype RawFile = RawFile(path: string, stem: string, matchers: seq<(string, bool)>)

  datatype Seed = Seed(name: string, tier: string, context: string)

  const PREFIXES: seq<(string, string)> := [
    ("web-tier-", "web"), ("hd-bluray-tier-", "bluray"), ("uhd-bluray-tier-", "uhd_bluray"),
    ("remux-tier-", "remux"), ("anime-bd-tier-", "anime_bd"), ("anime-web-tier-", "anime_web")]

  const SEEDS: seq<Seed> := [
    Seed("BDMV", "banned", "anime"), Seed("BDVD", "banned", "anime"), Seed("BakedFish", "banned", "anime"),
    Seed("D3US", "banned", "any"), Seed("DaddySubs", "banned", "anime"), Seed("DeadFish", "banned", "anime"),
    Seed("Deadmau RAWS", "banned", "anime"), Seed("Erai-raws", "bronze", "anime"), Seed("GSK_kun", "silver", "anime"),
    Seed("Iznjie Biznjie", "silver", "anime"), Seed("Judgment", "bronze", "anime"), Seed("M2TS", "banned", "anime"),
    Seed("Mr.Deadpool", "banned", "anime"), Seed("NAN0", "gold", "anime"), Seed("NoGrop", "banned", "any"),
    Seed("NoobSubs", "banned", "anime"), Seed("PiRaTeS", "banned", "any"), Seed("PMR", "gold", "anime"),
    Seed("QAS", "banned", "anime"), Seed("SpaceFish", "banned", "anime"), Seed("SubsPlus+", "silver", "anime"),
    Seed("tenshi", "silver", "anime"), Seed("VISIONPLUSHDR-X", "banned", "any"),
    Seed("VISIONPLUSHDR1000", "banned", "any"), Seed("WtF Anime", "banned", "anime"), Seed("YTS.AG", "banned", "any"),
    Seed("YTS.LT", "banned", "any"), Seed("YTS.MX", "banned", "any"), Seed("jennaortega", "banned", "any"),
    Seed("mal lu zen", "banned", "anime")]

  /* ---------- stems ---------- */

  function MapTier(value: string): (tier: string)
    ensures tier in {"gold", "silver", "bronze"}
  {
    if value == "01" || value == "1" then "gold"
    else if value == "02" || value == "2" then "silver"
    else "bronze"
  }

  /** What the stem of a file says of its groups, from the i-th prefix on. */
  function StemFrom(stem: string, i: nat): Option<Stem>
    requires i <= |PREFIXES|
    decreases |PREFIXES| - i
  {
    if i < |PREFIXES| then
      var (prefix, context) := PREFIXES[i];
      if prefix <= stem then Some(Stem(MapTier(stem[|prefix|..]), context)) else StemFrom(stem, i + 1)
    else if stem == "lq" || stem == "bad-dual-groups" then Some(Stem("banned", "any"))
    else if stem == "anime-lq-groups" then Some(Stem("banned", "anime"))
    else None
  }

  method GroupStem(stem: string) returns (found: Option<Stem>)
    ensures found == StemFrom(stem, 0)
    ensures found.Some? ==> KnownTier(found.value.tier)
  {
    for i := 0 to |PREFIXES|
      invariant StemFrom(stem, i) == StemFrom(stem, 0)
    {
      var (prefix, context) := PREFIXES[i];
      if prefix <= stem {
        return Some(Stem(MapTier(stem[|prefix|..]), context));
      }
    }
    if stem == "lq" || stem == "bad-dual-groups" {
      return Some(Stem("banned", "any"));
    }
    if stem == "anime-lq-groups" {
      return Some(Stem("banned", "anime"));
    }
    return None;
  }

  lemma {:induction false} StemTiersKnown(stem: string, i: nat)
    requires i <= |PREFIXES| && StemFrom(stem, i).Some?
    ensures KnownTier(StemFrom(stem, i).value.tier)
    decreases |PREFIXES| - i
  {
    if i < |PREFIXES| && !(PREFIXES[i].0 <= stem) {
      StemTiersKnown(stem, i + 1);
    }
  }

  /** The two digits of a tier, with or without a leading zero. */
  function TierOf(rest: string): string {
    if rest in {"01", "1"} then "gold" else if rest in {"02", "2"} then "silver" else "bronze"
  }

  lemma StemOfPrefix(i: nat, rest: string)
    requires i < |PREFIXES|
    ensures StemFrom(PREFIXES[i].0 + rest, 0) == Some(Stem(TierOf(rest), PREFIXES[i].1))
  {
    var stem := PREFIXES[i].0 + rest;
    assert stem[|PREFIXES[i].0|..] == rest;
    forall k | 0 <= k < i ensures !(PREFIXES[k].0 <= stem) {
      DifferentFirst(k, i, rest);
    }
    SkipTo(stem, 0, i);
  }

  /** No prefix of the list is the start of another with anything behind it. */
  lemma DifferentFirst(k: nat, i: nat, rest: string)
    requires k < i < |PREFIXES|
    ensures !(PREFIXES[k].0 <= PREFIXES[i].0 + rest)
  {
    var p, q := PREFIXES[k].0, PREFIXES[i].0;
    assert p[0] != q[0] || (p[6] != q[6] && q[6] == (q + rest)[6]);
    assert (q + rest)[0] == q[0];
  }

  lemma {:induction false} SkipTo(stem: string, k: nat, i: nat)
    requires k <= i <= |PREFIXES| && forall j | k <= j < i :: !(PREFIXES[j].0 <= stem)
    ensures StemFrom(stem, k) == StemFrom(stem, i)
    decreases i - k
  {
    if k < i {
      SkipTo(stem, k + 1, i);
    }
  }

  /** Which stems give which tier and context; every other stem gives none. */
  lemma StemExact(stem: string, rest: string)
    ensures StemFrom("web-tier-" + rest, 0) == Some(Stem(TierOf(rest), "web"))
    ensures StemFrom("hd-bluray-tier-" + rest, 0) == Some(Stem(TierOf(rest), "bluray"))
    ensures StemFrom("uhd-bluray-tier-" + rest, 0) == Some(Stem(TierOf(rest), "uhd_bluray"))
    ensures StemFrom("remux-tier-" + rest, 0) == Some(Stem(TierOf(rest), "remux"))
    ensures StemFrom("anime-bd-tier-" + rest, 0) == Some(Stem(TierOf(rest), "anime_bd"))
    ensures StemFrom("anime-web-tier-" + rest, 0) == Some(Stem(TierOf(rest), "anime_web"))
    ensures (forall i | 0 <= i < |PREFIXES| :: !(PREFIXES[i].0 <= stem)) ==>
              StemFrom(stem, 0) == if stem in {"lq", "bad-dual-groups"} then Some(Stem("banned", "any"))
                                   else if stem == "anime-lq-groups" then Some(Stem("banned", "anime"))
                                   else None
  {
    StemOfPrefix(0, rest);
    StemOfPrefix(1, rest);
    StemOfPrefix(2, rest);
    StemOfPrefix(3, rest);
    StemOfPrefix(4, rest);
    StemOfPrefix(5, rest);
    if forall i | 0 <= i < |PREFIXES| :: !(PREFIXES[i].0 <= stem) {
      SkipTo(stem, 0, |PREFIXES|);
    }
  }

  /* ---------- rows ---------- */

  function FacetOf(file: RawFile): string {
    if "anime-" <= file.stem then "anime"
    else if exists i | 0 <= i <= |file.path| :: OccursAt(file.path, "/radarr/", i) then "movie"
    else "series"
  }

  /** The row is one that the file gives. */
  predicate FileRow(file: RawFile, row: Row) {
    && StemFrom(file.stem, 0).Some?
    && (row.matcher, row.exact) in file.matchers
    && row.tier == StemFrom(file.stem, 0).value.tier
    && row.context == StemFrom(file.stem, 0).value.context
    && row.facet == FacetOf(file)
  }

  predicate SeedRow(seed: Seed, row: Row) {
    && row.matcher == seed.name && row.exact && row.tier == seed.tier && row.context == seed.context
    && (row.facet == "anime" || (seed.context == "any" && row.facet in {"movie", "series"}))
  }

  ghost predicate Given(files: seq<RawFile>, row: Row) {
    (exists file :: file in files && FileRow(file, row)) || exists seed :: seed in SEEDS && SeedRow(seed, row)
  }

  /** What a row is made of: a matcher of a file with the tier and context of the file's stem, or a seed, which
      stands in every facet when it has no context. */
  lemma GivenExact(files: seq<RawFile>, row: Row)
    ensures Given(files, row) <==>
            || (exists file, matcher, exact, stem ::
                  file in files && (matcher, exact) in file.matchers && StemFrom(file.stem, 0) == Some(stem)
                  && row == Row(matcher, exact, stem.tier, FacetOf(file), stem.context))
            || (exists seed, facet ::
                  seed in SEEDS && (facet == "anime" || (facet in {"movie", "series"} && seed.context == "any"))
                  && row == Row(seed.name, true, seed.tier, facet, seed.context))
  {
    if file :| file in files && FileRow(file, row) {
      var stem := StemFrom(file.stem, 0).value;
      assert row == Row(row.matcher, row.exact, stem.tier, FacetOf(file), stem.context);
    }
    if seed :| seed in SEEDS && SeedRow(seed, row) {
      assert row == Row(seed.name, true, seed.tier, row.facet, seed.context);
    }
    if file, matcher, exact, stem :|
      file in files && (matcher, exact) in file.matchers && StemFrom(file.stem, 0) == Some(stem)
      && row == Row(matcher, exact, stem.tier, FacetOf(file), stem.context) {
      assert FileRow(file, row);
    }
    if seed, facet :|
      seed in SEEDS && (facet == "anime" || (facet in {"movie", "series"} && seed.context == "any"))
      && row == Row(seed.name, true, seed.tier, facet, seed.context) {
      assert SeedRow(seed, row);
    }
  }

  /** The rows of a list of seeds. */
  method SeedRows(seeds: seq<Seed>) returns (rows: seq<Row>)
    ensures forall row :: row in rows <==> exists seed :: seed in seeds && SeedRow(seed, row)
  {
    rows := [];
    for i := 0 to |seeds|
      invariant forall row :: row in rows <==> exists seed :: seed in seeds[..i] && SeedRow(seed, row)
    {
      var seed := seeds[i];
      assert seeds[..i + 1] == seeds[..i] + [seed];
      var facets := if seed.context == "any" then ["movie", "series", "anime"] else ["anime"];
      var more: seq<Row> := [];
      for k := 0 to |facets|
        invariant forall row :: row in more <==>
                    row.facet in facets[..k] && row == Row(seed.name, true, seed.tier, row.facet, seed.context)
      {
        assert facets[..k + 1] == facets[..k] + [facets[k]];
        more := more + [Row(seed.name, true, seed.tier, facets[k], seed.context)];
      }
      assert facets[..|facets|] == facets;
      assert forall row :: row in more <==> SeedRow(seed, row);
      rows := rows + more;
    }
    assert seeds[..|seeds|] == seeds;
  }

  /** The rows of one file. */
  method FileRows(file: RawFile) returns (rows: seq<Row>)
    ensures forall row :: row in rows <==> FileRow(file, row)
  {
    rows := [];
    var stem := GroupStem(file.stem);
    if stem.None? {
      return;
    }
    var facet := "series";
    if exists i | 0 <= i <= |file.path| :: OccursAt(file.path, "/radarr/", i) {
      facet := "movie";
    }
    if "anime-" <= file.stem {
      facet := "anime";
    }
    for i := 0 to |file.matchers|
      invariant forall row :: row in rows <==>
                  && (row.matcher, row.exact) in file.matchers[..i]
                  && row == Row(row.matcher, row.exact, stem.value.tier, facet, stem.value.context)
    {
      assert file.matchers[..i + 1] == file.matchers[..i] + [file.matchers[i]];
      rows := rows + [Row(file.matchers[i].0, file.matchers[i].1, stem.value.tier, facet, stem.value.context)];
    }
    assert file.matchers[..|file.matchers|] == file.matchers;
  }

  /** All rows, in the order of the files and then the seeds. */
  method BuildRows(files: seq<RawFile>) returns (rows: seq<Row>)
    ensures forall row :: row in rows <==> Given(files, row)
  {
    rows := [];
    for i := 0 to |files|
      invariant forall row :: row in rows <==> exists file :: file in files[..i] && FileRow(file, row)
    {
      assert files[..i + 1] == files[..i] + [files[i]];
      var more := FileRows(files[i]);
      rows := rows + more;
    }
    assert files[..|files|] == files;
    var seeds := SeedRows(SEEDS);
    rows := rows + seeds;
  }

  /* ---------- what holds of every row ---------- */

  lemma SeedTiersKnown(seed: Seed)
    requires seed in SEEDS
    ensures KnownTier(seed.tier)
  {
  }

  /** Whatever the files are, every row has one of the four tiers. */
  lemma GivenTiersKnown(files: seq<RawFile>, row: Row)
    requires Given(files, row)
    ensures KnownTier(row.tier)
  {
    if file :| file in files && FileRow(file, row) {
      StemTiersKnown(file.stem, 0);
    } else {
      var seed :| seed in SEEDS && SeedRow(seed, row);
      SeedTiersKnown(seed);
    }
  }

  lemma {:induction false} StemContextFree(stem: string, i: nat)
    requires i <= |PREFIXES| && StemFrom(stem, i).Some?
    ensures '\0' !in StemFrom(stem, i).value.context
    decreases |PREFIXES| - i
  {
    if i < |PREFIXES| && !(PREFIXES[i].0 <= stem) {
      StemContextFree(stem, i + 1);
    }
  }

  lemma SeedContextFree(seed: Seed)
    requires seed in SEEDS
    ensures seed.context in {"any", "anime"}
  {
  }

  lemma KnownFree(word: string)
    requires word in {"banned", "gold", "silver", "bronze", "movie", "series", "anime", "any"}
    ensures '\0' !in word
  {
  }

  /** No field of a row but its matcher can hold a NUL. */
  lemma GivenNulFree(files: seq<RawFile>, row: Row)
    requires Given(files, row)
    ensures NulFree(row)
  {
    GivenTiersKnown(files, row);
    KnownFree(row.tier);
    if file :| file in files && FileRow(file, row) {
      StemContextFree(file.stem, 0);
      KnownFree(row.facet);
    } else {
      var seed :| seed in SEEDS && SeedRow(seed, row);
      SeedContextFree(seed);
      KnownFree(row.facet);
      KnownFree(row.context);
    }
  }

  ghost predicate GivenBy(rows: seq<Row>, files: seq<RawFile>) {
    forall row :: row in rows <==> Given(files, row)
  }

  ghost predicate SameFiles(a: seq<RawFile>, b: seq<RawFile>) {
    forall file :: file in a <==> file in b
  }

  lemma SameFilesSameRows(a: seq<RawFile>, b: seq<RawFile>, row: Row)
    requires SameFiles(a, b) && Given(a, row)
    ensures Given(b, row)
  {
    if file :| file in a && FileRow(file, row) {
      assert file in b && FileRow(file, row);
    }
  }

  /** The collapsed rows do not depend on the order of the files, for any files. */
  lemma FileOrderIsIgnored(a: seq<RawFile>, b: seq<RawFile>, rows: seq<Row>, other: seq<Row>)
    requires SameFiles(a, b) && GivenBy(rows, a) && GivenBy(other, b)
    ensures KnownTiers(rows) && BestUnique(rows) && SameRows(rows, other) && Collapsed(rows) == Collapsed(other)
  {
    forall row | row in rows ensures KnownTier(row.tier) {
      GivenTiersKnown(a, row);
    }
    KnownTiersAreUnique(rows);
    forall row ensures row in rows <==> row in other {
      if Given(a, row) {
        SameFilesSameRows(a, b, row);
      }
      if Given(b, row) {
        SameFilesSameRows(b, a, row);
      }
    }
    CollapseIgnoresOrder(rows, other);
  }

  /** The emitted rows and their indexes are the same for every order of the files if and only if no two
      collapsed rows differ in the kind of match only. */
  lemma SnapshotDeterminedExactly(files: seq<RawFile>, rows: seq<Row>, out: seq<Row>)
    requires GivenBy(rows, files) && Emits(rows, out)
    ensures (forall same, others, other | SameFiles(files, same) && GivenBy(others, same) && Emits(others, other) ::
              other == out)
            <==> NoTwins(rows)
  {
    FileOrderIsIgnored(files, files, rows, rows);
    forall row | row in rows ensures NulFree(row) {
      GivenNulFree(files, row);
    }
    if NoTwins(rows) {
      forall same, others, other | SameFiles(files, same) && GivenBy(others, same) && Emits(others, other)
        ensures other == out
      {
        FileOrderIsIgnored(files, same, rows, others);
        EmissionIsDetermined(rows, others, out, other);
      }
    } else {
      DeterminedExactly(rows, out);
      var other :| Emits(rows, other) && other != out;
      assert SameFiles(files, files) && GivenBy(rows, files);
    }
  }

  /* ---------- facets ---------- */

  lemma PrefixExact(s: string, prefix: string)
    ensures prefix <= s <==> exists rest :: s == prefix + rest
  {
    if prefix <= s {
      assert s == prefix + s[|prefix|..];
    }
  }

  /** Stems that start with anime- are anime; other files are movies below a radarr directory and series
      elsewhere. */
  lemma FacetExact(file: RawFile)
    ensures FacetOf(file) == "anime" <==> exists rest :: file.stem == "anime-" + rest
    ensures FacetOf(file) == "movie" <==>
            FacetOf(file) != "anime" && exists before, after :: file.path == before + "/radarr/" + after
    ensures FacetOf(file) in {"anime", "movie", "series"}
  {
    PrefixExact(file.stem, "anime-");
    OccursExact(file.path, "/radarr/");
  }
}
