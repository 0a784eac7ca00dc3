/** Merging plugin entries into a catalog, and the check that nothing published is lost. */
module CatalogMerge {
  import opened Wrappers
  import opened Versions

  datatype Entry = Entry(id: string, metadata: string, releases: seq<Release>)

  type ById = map<string, Entry>

  /* ---------- the newest version of an entry ---------- */

  function Newest(order: Order, a: Option<string>, b: Option<string>): Option<string> {
    if a.None? then b else if b.None? then a else if order(a.value, b.value) then b else a
  }

  function Latest(order: Order, s: seq<Release>): Option<string> {
    if s == [] then None else Newest(order, Latest(order, s[..|s| - 1]), Some(s[|s| - 1].version))
  }

  /** a is no newer than b; nothing is older than any version. */
  predicate NoNewer(order: Order, a: Option<string>, b: Option<string>) {
    a.None? || (b.Some? && order(a.value, b.value))
  }

  ghost predicate IsLatest(order: Order, s: seq<Release>, v: Option<string>) {
    if s == [] then v.None?
    else v.Some? && (exists r | r in s :: r.version == v.value) && forall r | r in s :: order(r.version, v.value)
  }

  lemma {:induction false} LatestExact(order: Order, s: seq<Release>)
    requires TotalOrder(order)
    ensures IsLatest(order, s, Latest(order, s))
  {
    if s != [] {
      var init, last := s[..|s| - 1], s[|s| - 1];
      LatestExact(order, init);
      assert s == init + [last] && last in s;
    }
  }

  /* ---------- the merge ---------- */

  ghost function Listing(order: Order, m: map<string, Release>): (s: seq<Release>)
    requires TotalOrder(order) && Keyed(m)
    ensures Lists(order, m, s)
  {
    ListingExists(order, m);
    var s :| Lists(order, m, s);
    s
  }

  lemma {:induction false} ListingExists(order: Order, m: map<string, Release>)
    requires TotalOrder(order) && Keyed(m)
    ensures exists s :: Lists(order, m, s)
    decreases |m|
  {
    if m == map[] {
      assert Lists(order, m, []);
    } else {
      var v :| v in m;
      var rest := m - {v};
      ListingExists(order, rest);
      var s :| Lists(order, rest, s);
      OneMoreListed(order, rest, s, m[v]);
      assert m == rest[v := m[v]];
    }
  }

  lemma OneMoreListed(order: Order, m: map<string, Release>, s: seq<Release>, r: Release)
    requires TotalOrder(order) && Lists(order, m, s) && r.version !in m
    ensures Lists(order, m[r.version := r], Insert(order, s, r))
  {
    var t := Insert(order, s, r);
    InsertSorts(order, s, r);
    InsertAdds(order, s, r);
    assert multiset(s + [r]) == multiset(t);
    UniqueAppended(order, m, s, r);
    UniqueByCount(s + [r], t);
    SameElements(s + [r], t);
    assert forall x :: x in t <==> x in s || x == r;
    MoreMapped(order, m, s, r, t);
  }

  lemma MoreMapped(order: Order, m: map<string, Release>, s: seq<Release>, r: Release, t: seq<Release>)
    requires Lists(order, m, s) && r.version !in m && forall x :: x in t <==> x in s || x == r
    ensures var more := m[r.version := r];
      && Keyed(more)
      && (forall x | x in t :: x.version in more && more[x.version] == x)
      && (forall v | v in more :: more[v] in t)
  {
  }

  lemma UniqueAppended(order: Order, m: map<string, Release>, s: seq<Release>, r: Release)
    requires Lists(order, m, s) && r.version !in m
    ensures Unique(s + [r])
  {
    assert forall i | 0 <= i < |s| :: s[i] in s && s[i].version in m;
  }

  ghost function MergedReleases(order: Order, entry: Entry, update: Entry): seq<Release>
    requires TotalOrder(order)
  {
    ByVersionKeyed(entry.releases);
    ByVersionKeyed(update.releases);
    Listing(order, ByVersion(entry.releases) + ByVersion(update.releases))
  }

  ghost function Merged(order: Order, entry: Entry, update: Entry): Entry
    requires TotalOrder(order)
  {
    (if NoNewer(order, Latest(order, entry.releases), Latest(order, update.releases)) then update else entry)
      .(releases := MergedReleases(order, entry, update))
  }

  ghost function MergeOne(order: Order, byId: ById, update: Entry): ById
    requires TotalOrder(order)
  {
    if update.id in byId then
      byId[update.id := Merged(order, byId[update.id], update)]
    else
      byId[update.id := update.(releases := NewestFirst(order, update.releases))]
  }

  ghost function MergeAll(order: Order, byId: ById, updates: seq<Entry>): ById
    requires TotalOrder(order)
  {
    if updates == [] then byId
    else MergeOne(order, MergeAll(order, byId, updates[..|updates| - 1]), updates[|updates| - 1])
  }

  /** Entries by id; a later one with the same id replaces an earlier one. */
  function Indexed(entries: seq<Entry>): ById {
    if entries == [] then map[]
    else Indexed(entries[..|entries| - 1])[entries[|entries| - 1].id := entries[|entries| - 1]]
  }

  /** Each id with the entry that the merged catalog lists for it. */
  ghost function Merge(order: Order, existing: seq<Entry>, updates: seq<Entry>): ById
    requires TotalOrder(order)
  {
    MergeAll(order, Indexed(existing), updates)
  }

  method MergeReleases(order: Order, entry: Entry, update: Entry) returns (releases: seq<Release>)
    requires TotalOrder(order)
    ensures releases == MergedReleases(order, entry, update)
  {
    ghost var m := ByVersion(entry.releases) + ByVersion(update.releases);
    var byVersion := map[];
    for i := 0 to |entry.releases|
      invariant byVersion == ByVersion(entry.releases[..i])
    {
      assert entry.releases[..i + 1][..i] == entry.releases[..i];
      byVersion := byVersion[entry.releases[i].version := entry.releases[i]];
    }
    assert entry.releases[..|entry.releases|] == entry.releases;
    for i := 0 to |update.releases|
      invariant byVersion == ByVersion(entry.releases) + ByVersion(update.releases[..i])
    {
      assert update.releases[..i + 1][..i] == update.releases[..i];
      byVersion := byVersion[update.releases[i].version := update.releases[i]];
    }
    assert update.releases[..|update.releases|] == update.releases;
    ByVersionKeyed(entry.releases);
    ByVersionKeyed(update.releases);
    releases := SortValues(order, byVersion);
    ListsOnce(order, m, releases, MergedReleases(order, entry, update));
  }

  method SortValues(order: Order, byVersion: map<string, Release>) returns (releases: seq<Release>)
    requires TotalOrder(order) && Keyed(byVersion)
    ensures Lists(order, byVersion, releases)
  {
    var left := byVersion.Keys;
    releases := [];
    while left != {}
      invariant left <= byVersion.Keys && Lists(order, byVersion - left, releases)
      decreases |left|
    {
      var v :| v in left;
      OneMoreListed(order, byVersion - left, releases, byVersion[v]);
      OneLess(byVersion, left, v);
      releases := Insert(order, releases, byVersion[v]);
      left := left - {v};
    }
    assert byVersion - {} == byVersion;
  }

  lemma OneLess<K, V>(m: map<K, V>, left: set<K>, k: K)
    requires left <= m.Keys && k in left
    ensures (m - left)[k := m[k]] == m - (left - {k})
  {
  }

  method MergeCatalogV3PluginEntries(order: Order, existing: seq<Entry>, updates: seq<Entry>) returns (byId: ById)
    requires TotalOrder(order)
    ensures byId == Merge(order, existing, updates)
  {
    byId := map[];
    for i := 0 to |existing|
      invariant byId == Indexed(existing[..i])
    {
      assert existing[..i + 1][..i] == existing[..i];
      byId := byId[existing[i].id := existing[i]];
    }
    assert existing[..|existing|] == existing;
    for i := 0 to |updates|
      invariant byId == MergeAll(order, Indexed(existing), updates[..i])
    {
      assert updates[..i + 1][..i] == updates[..i];
      var entry := updates[i];
      if entry.id in byId {
        var existingEntry := byId[entry.id];
        var releases := MergeReleases(order, existingEntry, entry);
        var merged := existingEntry;
        if NoNewer(order, Latest(order, existingEntry.releases), Latest(order, entry.releases)) {
          merged := entry;
        }
        byId := byId[entry.id := merged.(releases := releases)];
      } else {
        byId := byId[entry.id := entry.(releases := NewestFirst(order, entry.releases))];
      }
    }
    assert updates[..|updates|] == updates;
  }
}
