/** Merging rule-pack entries: published releases are immutable. */
module RulePackMerge {
  import opened Wrappers
  import opened Versions

  /** `labels` stands for the name, description and author. */
  datatype Pack = Pack(id: string, labels: string, releases: seq<Release>)

  datatype Differs = Differs(id: string, version: string)

  /* ---------- the merge ---------- */

  /** The index of the first release of the version, or the length. */
  function IndexOf(s: seq<Release>, version: string): (i: nat)
    ensures i <= |s| && (i < |s| ==> s[i].version == version)
    ensures forall k | 0 <= k < i :: s[k].version != version
  {
    if s == [] || s[0].version == version then 0 else 1 + IndexOf(s[1..], version)
  }

  /** The index of the first pack with the id, or the length. */
  function Find(packs: seq<Pack>, id: string): (i: nat)
    ensures i <= |packs| && (i < |packs| ==> packs[i].id == id)
    ensures forall k | 0 <= k < i :: packs[k].id != id
  {
    if packs == [] || packs[0].id == id then 0 else 1 + Find(packs[1..], id)
  }

  function AddOne(current: seq<Release>, release: Release): Option<seq<Release>> {
    var i := IndexOf(current, release.version);
    if i == |current| then Some(current + [release])
    else if current[i].identity != release.identity then None
    else Some(current)
  }

  function Add(current: seq<Release>, releases: seq<Release>): Result<seq<Release>, string> {
    if releases == [] then Success(current)
    else
      var before := Add(current, releases[..|releases| - 1]);
      if before.Failure? then before
      else
        var after := AddOne(before.value, releases[|releases| - 1]);
        if after.None? then Failure(releases[|releases| - 1].version) else Success(after.value)
  }

  function MergeOne(order: Order, packs: seq<Pack>, update: Pack): Result<seq<Pack>, Differs> {
    var i := Find(packs, update.id);
    if i == |packs| then Success(packs + [update])
    else
      var added := Add(packs[i].releases, update.releases);
      if added.Failure? then Failure(Differs(update.id, added.error))
      else Success(packs[i := Pack(update.id, update.labels, NewestFirst(order, added.value))])
  }

  function MergeAll(order: Order, packs: seq<Pack>, updates: seq<Pack>): Result<seq<Pack>, Differs> {
    if updates == [] then Success(packs)
    else
      var before := MergeAll(order, packs, updates[..|updates| - 1]);
      if before.Failure? then before else MergeOne(order, before.value, updates[|updates| - 1])
  }

  lemma {:induction false} AddFails(current: seq<Release>, releases: seq<Release>, n: nat)
    requires n <= |releases| && Add(current, releases[..n]).Failure?
    ensures Add(current, releases) == Add(current, releases[..n])
    decreases |releases|
  {
    if n == |releases| {
      assert releases[..n] == releases;
    } else {
      assert releases[..|releases| - 1][..n] == releases[..n];
      AddFails(current, releases[..|releases| - 1], n);
    }
  }

  lemma {:induction false} MergeFails(order: Order, packs: seq<Pack>, updates: seq<Pack>, n: nat)
    requires n <= |updates| && MergeAll(order, packs, updates[..n]).Failure?
    ensures MergeAll(order, packs, updates) == MergeAll(order, packs, updates[..n])
    decreases |updates|
  {
    if n == |updates| {
      assert updates[..n] == updates;
    } else {
      assert updates[..|updates| - 1][..n] == updates[..n];
      MergeFails(order, packs, updates[..|updates| - 1], n);
    }
  }

  method AddReleases(current: seq<Release>, releases: seq<Release>) returns (result: Result<seq<Release>, string>)
    ensures result == Add(current, releases)
  {
    var merged := current;
    for i := 0 to |releases|
      invariant Add(current, releases[..i]) == Success(merged)
    {
      assert releases[..i + 1][..i] == releases[..i];
      var previous := IndexOf(merged, releases[i].version);
      if previous < |merged| {
        if merged[previous].identity != releases[i].identity {
          AddFails(current, releases, i + 1);
          return Failure(releases[i].version);
        }
      } else {
        merged := merged + [releases[i]];
      }
    }
    assert releases[..|releases|] == releases;
    return Success(merged);
  }

  /** The merged packs; the final sort by id is left to the caller. */
  method MergeCatalogV3RulePackEntries(order: Order, existing: seq<Pack>, updates: seq<Pack>)
      returns (result: Result<seq<Pack>, Differs>)
    ensures result == MergeAll(order, existing, updates)
  {
    var packs := existing;
    for i := 0 to |updates|
      invariant MergeAll(order, existing, updates[..i]) == Success(packs)
    {
      assert updates[..i + 1][..i] == updates[..i];
      var update := updates[i];
      var at := Find(packs, update.id);
      if at < |packs| {
        var added := AddReleases(packs[at].releases, update.releases);
        if added.Failure? {
          MergeFails(order, existing, updates, i + 1);
          return Failure(Differs(update.id, added.error));
        }
        packs := packs[at := Pack(update.id, update.labels, NewestFirst(order, added.value))];
      } else {
        packs := packs + [update];
      }
    }
    assert updates[..|updates|] == updates;
    return Success(packs);
  }

  /* ---------- what is published stays ---------- */

  lemma {:induction false} AddKeeps(current: seq<Release>, releases: seq<Release>)
    requires Add(current, releases).Success?
    ensures current <= Add(current, releases).value
  {
    if releases != [] {
      AddKeeps(current, releases[..|releases| - 1]);
    }
  }

  /** Each pack is still there, with each of its releases as it was. */
  ghost predicate Keeps(before: seq<Pack>, after: seq<Pack>) {
    && |before| <= |after|
    && forall i | 0 <= i < |before| ::
         after[i].id == before[i].id && forall r | r in before[i].releases :: r in after[i].releases
  }

  lemma MergeOneKeeps(order: Order, packs: seq<Pack>, update: Pack)
    requires TotalOrder(order) && MergeOne(order, packs, update).Success?
    ensures Keeps(packs, MergeOne(order, packs, update).value)
  {
    var i := Find(packs, update.id);
    if i < |packs| {
      var added := Add(packs[i].releases, update.releases).value;
      AddKeeps(packs[i].releases, update.releases);
      NewestFirstSorts(order, added);
      SameElements(added, NewestFirst(order, added));
      forall r | r in packs[i].releases ensures r in NewestFirst(order, added) {
        var k :| 0 <= k < |packs[i].releases| && packs[i].releases[k] == r;
        assert added[k] == r;
      }
    }
  }

  /** A merge fails, or keeps every published release of every pack unchanged, mirrors and all. */
  lemma {:induction false} MergeKeepsReleases(order: Order, existing: seq<Pack>, updates: seq<Pack>)
    requires TotalOrder(order) && MergeAll(order, existing, updates).Success?
    ensures Keeps(existing, MergeAll(order, existing, updates).value)
  {
    if updates != [] {
      var before := MergeAll(order, existing, updates[..|updates| - 1]).value;
      MergeKeepsReleases(order, existing, updates[..|updates| - 1]);
      MergeOneKeeps(order, before, updates[|updates| - 1]);
    }
  }

  /* ---------- when it fails ---------- */

  /** The releases that the packs list for the id. */
  function Listed(packs: seq<Pack>, id: string): seq<Release> {
    var i := Find(packs, id);
    if i < |packs| then packs[i].releases else []
  }

  /** The releases published for the id, and then those that the updates bring for it. */
  function Sources(existing: seq<Pack>, updates: seq<Pack>, id: string): seq<Release> {
    if updates == [] then Listed(existing, id)
    else
      var last := updates[|updates| - 1];
      Sources(existing, updates[..|updates| - 1], id) + if last.id == id then last.releases else []
  }

  /** Two releases of one version that differ. */
  predicate Clash(a: Release, b: Release) {
    a.version == b.version && a.identity != b.identity
  }

  ghost predicate Clashes(s: seq<Release>) {
    exists a, b :: a in s && b in s && Clash(a, b)
  }

  ghost predicate Carries(s: seq<Release>, r: Release) {
    exists p :: p in s && p.version == r.version && p.identity == r.identity
  }

  /** The release is in the sources, and no other of its version is before it. */
  ghost predicate FirstOf(sources: seq<Release>, r: Release) {
    exists k :: FirstAt(sources, r, k)
  }

  ghost predicate FirstAt(sources: seq<Release>, r: Release, k: int) {
    0 <= k < |sources| && sources[k] == r && forall l | 0 <= l < k :: sources[l].version != r.version
  }

  /** The list has exactly one release of each version of the sources, the first. */
  ghost predicate Represents(s: seq<Release>, sources: seq<Release>) {
    Unique(s) && (forall r :: r in s <==> FirstOf(sources, r)) && forall r | r in sources :: Carries(s, r)
  }

  lemma FirstOfMore(sources: seq<Release>, last: Release, r: Release)
    ensures FirstOf(sources + [last], r) <==>
            FirstOf(sources, r) || (r == last && forall p | p in sources :: p.version != last.version)
  {
    var more := sources + [last];
    if k :| FirstAt(more, r, k) {
      if k < |sources| {
        assert forall l | 0 <= l <= k :: sources[l] == more[l];
        assert FirstAt(sources, r, k);
      } else {
        assert forall l | 0 <= l < |sources| :: sources[l] == more[l];
      }
    }
    if k :| FirstAt(sources, r, k) {
      assert forall l | 0 <= l <= k :: sources[l] == more[l];
      assert FirstAt(more, r, k);
    }
    if r == last && forall p | p in sources :: p.version != last.version {
      assert forall l | 0 <= l < |sources| :: sources[l] == more[l] && sources[l] in sources;
      assert FirstAt(more, r, |sources|);
    }
  }

  lemma SameVersionSame(s: seq<Release>, p: Release, q: Release)
    requires Unique(s) && p in s && q in s && p.version == q.version
    ensures p == q
  {
    var i :| 0 <= i < |s| && s[i] == p;
    var j :| 0 <= j < |s| && s[j] == q;
    assert i == j;
  }

  lemma NoClash(s: seq<Release>, sources: seq<Release>)
    requires Represents(s, sources)
    ensures !Clashes(sources)
  {
    forall a, b | a in sources && b in sources ensures !Clash(a, b) {
      assert Carries(s, a) && Carries(s, b);
      var p :| p in s && p.version == a.version && p.identity == a.identity;
      var q :| q in s && q.version == b.version && q.identity == b.identity;
      if a.version == b.version {
        SameVersionSame(s, p, q);
      }
    }
  }

  lemma AddOneRepresents(s: seq<Release>, sources: seq<Release>, release: Release)
    requires Represents(s, sources) && AddOne(s, release).Some?
    ensures Represents(AddOne(s, release).value, sources + [release])
  {
    var i, t := IndexOf(s, release.version), AddOne(s, release).value;
    assert release in t || s[i] in t;
    AddOneFirsts(s, sources, release);
    forall r | r in sources + [release] ensures Carries(t, r) {
      if r in sources {
        assert Carries(s, r);
        var p :| p in s && p.version == r.version && p.identity == r.identity;
        assert p in t;
      }
    }
  }

  lemma AddOneFirsts(s: seq<Release>, sources: seq<Release>, release: Release)
    requires Represents(s, sources) && AddOne(s, release).Some?
    ensures forall r :: r in AddOne(s, release).value <==> FirstOf(sources + [release], r)
  {
    var i := IndexOf(s, release.version);
    if i < |s| {
      assert s[i] in s && FirstOf(sources, s[i]);
    } else {
      forall p | p in sources ensures p.version != release.version {
        assert Carries(s, p);
      }
    }
    forall r ensures r in AddOne(s, release).value <==> FirstOf(sources + [release], r) {
      FirstOfMore(sources, release, r);
    }
  }

  lemma AddOneClashes(s: seq<Release>, sources: seq<Release>, release: Release)
    requires Represents(s, sources) && AddOne(s, release).None?
    ensures Clashes(sources + [release])
  {
    var p := s[IndexOf(s, release.version)];
    assert p in s && p in sources + [release] && release in sources + [release] && Clash(p, release);
  }

  lemma ClashesMore(a: seq<Release>, b: seq<Release>)
    requires Clashes(a)
    ensures Clashes(a + b)
  {
    var x, y :| x in a && y in a && Clash(x, y);
    assert x in a + b && y in a + b;
  }

  lemma {:induction false} AddRepresents(s: seq<Release>, sources: seq<Release>, releases: seq<Release>)
    requires Represents(s, sources)
    ensures var added := Add(s, releases);
      if added.Success? then Represents(added.value, sources + releases) else Clashes(sources + releases)
  {
    if releases == [] {
      assert sources + releases == sources;
    } else {
      var init, last := releases[..|releases| - 1], releases[|releases| - 1];
      AddRepresents(s, sources, init);
      assert sources + releases == sources + init + [last];
      if Add(s, init).Failure? {
        ClashesMore(sources + init, [last]);
      } else if AddOne(Add(s, init).value, last).Some? {
        AddOneRepresents(Add(s, init).value, sources + init, last);
      } else {
        AddOneClashes(Add(s, init).value, sources + init, last);
      }
    }
  }

  lemma SortedRepresents(order: Order, s: seq<Release>, sources: seq<Release>)
    requires TotalOrder(order) && Represents(s, sources)
    ensures Represents(NewestFirst(order, s), sources)
  {
    var t := NewestFirst(order, s);
    NewestFirstSorts(order, s);
    SameElements(s, t);
    UniqueByCount(s, t);
    forall r | r in sources ensures Carries(t, r) {
      assert Carries(s, r);
      var p :| p in s && p.version == r.version && p.identity == r.identity;
      assert p in t;
    }
  }

  lemma ItselfRepresents(s: seq<Release>)
    requires Unique(s)
    ensures Represents(s, s)
  {
    forall r | r in s ensures Carries(s, r) && FirstOf(s, r) {
      var k :| 0 <= k < |s| && s[k] == r;
      assert FirstAt(s, r, k);
    }
  }

  ghost predicate AllUnique(packs: seq<Pack>) {
    forall i | 0 <= i < |packs| :: Unique(packs[i].releases)
  }

  /** Each pack represents what is published and brought for its id. */
  ghost predicate AllRepresent(packs: seq<Pack>, existing: seq<Pack>, updates: seq<Pack>) {
    forall id :: Represents(Listed(packs, id), Sources(existing, updates, id))
  }

  lemma {:induction false} FindAppended(packs: seq<Pack>, pack: Pack, id: string)
    ensures Find(packs + [pack], id) ==
            if Find(packs, id) < |packs| then Find(packs, id) else if pack.id == id then |packs| else |packs| + 1
  {
    if packs == [] {
      assert packs + [pack] == [pack] && [pack][1..] == [];
    } else {
      assert (packs + [pack])[1..] == packs[1..] + [pack];
      FindAppended(packs[1..], pack, id);
    }
  }

  lemma {:induction false} FindReplaced(packs: seq<Pack>, i: nat, pack: Pack, id: string)
    requires i < |packs| && packs[i].id == pack.id
    ensures Find(packs[i := pack], id) == Find(packs, id)
  {
    if i == 0 {
      assert packs[0 := pack][1..] == packs[1..];
    } else {
      assert packs[i := pack][1..] == packs[1..][i - 1 := pack];
      FindReplaced(packs[1..], i - 1, pack, id);
    }
  }

  /** What one update changes of the listing of an id. */
  lemma ListedAfter(order: Order, packs: seq<Pack>, update: Pack, id: string)
    requires MergeOne(order, packs, update).Success?
    ensures Listed(MergeOne(order, packs, update).value, id) ==
            if id != update.id then Listed(packs, id)
            else if Find(packs, id) == |packs| then update.releases
            else NewestFirst(order, Add(Listed(packs, id), update.releases).value)
  {
    var merged, i := MergeOne(order, packs, update).value, Find(packs, update.id);
    if i < |packs| {
      FindReplaced(packs, i, merged[i], id);
    } else {
      FindAppended(packs, update, id);
    }
  }

  lemma MergeOneRepresents(order: Order, packs: seq<Pack>, update: Pack, existing: seq<Pack>, updates: seq<Pack>)
    requires TotalOrder(order) && updates != [] && update == updates[|updates| - 1] && Unique(update.releases)
    requires AllRepresent(packs, existing, updates[..|updates| - 1])
    ensures var merged := MergeOne(order, packs, update);
      if merged.Success? then AllRepresent(merged.value, existing, updates)
        else Clashes(Sources(existing, updates, update.id))
  {
    var merged, was := MergeOne(order, packs, update), Listed(packs, update.id);
    var before := Sources(existing, updates[..|updates| - 1], update.id);
    assert Represents(was, before);
    AddRepresents(was, before, update.releases);
    if merged.Success? {
      UpdatedRepresents(order, was, before, update.releases);
      forall id ensures Represents(Listed(merged.value, id), Sources(existing, updates, id)) {
        ListedAfter(order, packs, update, id);
        SameSources(existing, updates, update, id);
        assert Represents(Listed(packs, id), Sources(existing, updates[..|updates| - 1], id));
      }
    }
  }

  lemma SameSources(existing: seq<Pack>, updates: seq<Pack>, update: Pack, id: string)
    requires updates != [] && update == updates[|updates| - 1]
    ensures Sources(existing, updates, id) ==
            if id == update.id then Sources(existing, updates[..|updates| - 1], id) + update.releases
            else Sources(existing, updates[..|updates| - 1], id)
  {
    assert Sources(existing, updates[..|updates| - 1], id) + [] == Sources(existing, updates[..|updates| - 1], id);
  }

  lemma UpdatedRepresents(order: Order, was: seq<Release>, before: seq<Release>, releases: seq<Release>)
    requires TotalOrder(order) && Represents(was, before) && Unique(releases)
    requires Add(was, releases).Success? ==> Represents(Add(was, releases).value, before + releases)
    ensures Add(was, releases).Success? ==>
              Represents(NewestFirst(order, Add(was, releases).value), before + releases)
    ensures was == [] ==> Represents(releases, before + releases)
  {
    if Add(was, releases).Success? {
      SortedRepresents(order, Add(was, releases).value, before + releases);
    }
    if was == [] {
      FreshRepresents(before, releases);
    }
  }

  /** With nothing published for an id, its first update stands for itself. */
  lemma FreshRepresents(before: seq<Release>, releases: seq<Release>)
    requires Unique(releases)
    ensures Represents([], before) ==> Represents(releases, before + releases)
  {
    assert before == [] || before[0] in before;
    assert forall r :: !Carries([], r);
    if Represents([], before) {
      assert before + releases == releases;
      ItselfRepresents(releases);
    }
  }

  lemma {:induction false} MergeRepresents(order: Order, existing: seq<Pack>, updates: seq<Pack>)
    requires TotalOrder(order) && AllUnique(existing) && AllUnique(updates)
    ensures var merged := MergeAll(order, existing, updates);
      if merged.Success? then AllRepresent(merged.value, existing, updates)
      else exists id :: Clashes(Sources(existing, updates, id))
  {
    if updates == [] {
      forall id ensures Represents(Listed(existing, id), Sources(existing, updates, id)) {
        ItselfRepresents(Listed(existing, id));
      }
    } else {
      var init, last := updates[..|updates| - 1], updates[|updates| - 1];
      MergeRepresents(order, existing, init);
      if MergeAll(order, existing, init).Success? {
        MergeOneRepresents(order, MergeAll(order, existing, init).value, last, existing, updates);
      } else {
        var id :| Clashes(Sources(existing, init, id));
        ClashesMore(Sources(existing, init, id), if last.id == id then last.releases else []);
        assert Clashes(Sources(existing, updates, id));
      }
    }
  }

  /** When no pack lists a version twice, a merge fails exactly when, for some pack, two releases of one
      version, published or brought, differ in more than their mirrors. */
  lemma FailsExactly(order: Order, existing: seq<Pack>, updates: seq<Pack>)
    requires TotalOrder(order) && AllUnique(existing) && AllUnique(updates)
    ensures MergeAll(order, existing, updates).Failure? <==> exists id :: Clashes(Sources(existing, updates, id))
  {
    MergeRepresents(order, existing, updates);
    if MergeAll(order, existing, updates).Success? {
      var packs := MergeAll(order, existing, updates).value;
      forall id ensures !Clashes(Sources(existing, updates, id)) {
        NoClash(Listed(packs, id), Sources(existing, updates, id));
      }
    }
  }

  /* ---------- what a merge lists ---------- */

  /** The updates of the id, in order. */
  function Concerning(updates: seq<Pack>, id: string): (some: seq<Pack>)
    ensures forall k | 0 <= k < |some| :: some[k].id == id
  {
    if updates == [] then []
    else
      var last := updates[|updates| - 1];
      Concerning(updates[..|updates| - 1], id) + if last.id == id then [last] else []
  }

  /** What came of the id: untouched, as its only update brought it, or with the labels of its last update and
      newest first. */
  ghost predicate PackMerged(order: Order, existing: seq<Pack>, updates: seq<Pack>, merged: seq<Pack>, id: string) {
    var was, now, some := Find(existing, id), Find(merged, id), Concerning(updates, id);
    && (now < |merged| <==> was < |existing| || some != [])
    && (now < |merged| ==>
          if some == [] then was < |existing| && merged[now] == existing[was]
          else if was == |existing| && |some| == 1 then merged[now] == some[0]
          else merged[now].labels == some[|some| - 1].labels && Descending(order, merged[now].releases))
  }

  lemma PackAfter(order: Order, packs: seq<Pack>, update: Pack, id: string)
    requires TotalOrder(order) && MergeOne(order, packs, update).Success?
    ensures var merged := MergeOne(order, packs, update).value;
      var was, now := Find(packs, id), Find(merged, id);
      && (id != update.id ==> (now < |merged| <==> was < |packs|) && (now < |merged| ==> merged[now] == packs[was]))
      && (id == update.id ==>
            && now < |merged| && merged[now].labels == update.labels
            && if was == |packs| then merged[now] == update else Descending(order, merged[now].releases))
  {
    var merged, i := MergeOne(order, packs, update).value, Find(packs, update.id);
    if i < |packs| {
      FindReplaced(packs, i, merged[i], id);
      NewestFirstSorts(order, Add(packs[i].releases, update.releases).value);
    } else {
      FindAppended(packs, update, id);
    }
  }

  lemma {:induction false} PacksMerged(order: Order, existing: seq<Pack>, updates: seq<Pack>, id: string)
    requires TotalOrder(order) && MergeAll(order, existing, updates).Success?
    ensures PackMerged(order, existing, updates, MergeAll(order, existing, updates).value, id)
  {
    if updates != [] {
      var init, last := updates[..|updates| - 1], updates[|updates| - 1];
      PacksMerged(order, existing, init, id);
      PackAfter(order, MergeAll(order, existing, init).value, last, id);
      assert Concerning(updates, id) == Concerning(init, id) + if last.id == id then [last] else [];
    }
  }

  /** For every pack of a successful merge: one that was there and that an update concerns, or that two do, has
      the labels of its last update and lists its releases newest first; one that a single update brings is as
      it was brought, and any other is as it was. When no pack lists a version twice, it lists of each version
      the release that came first, published ones before those of the updates. */
  lemma MergedPackExact(order: Order, existing: seq<Pack>, updates: seq<Pack>, id: string)
    requires TotalOrder(order) && MergeAll(order, existing, updates).Success?
    ensures var merged := MergeAll(order, existing, updates).value;
      && PackMerged(order, existing, updates, merged, id)
      && (AllUnique(existing) && AllUnique(updates) ==>
            forall r :: r in Listed(merged, id) <==> FirstOf(Sources(existing, updates, id), r))
  {
    PacksMerged(order, existing, updates, id);
    if AllUnique(existing) && AllUnique(updates) {
      MergeRepresents(order, existing, updates);
      assert Represents(Listed(MergeAll(order, existing, updates).value, id), Sources(existing, updates, id));
    }
  }
}
