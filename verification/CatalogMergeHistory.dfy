/** What merging keeps of a catalog, and what merging twice does. */
module CatalogMergeHistory {
  import opened Wrappers
  import opened Versions
  import opened CatalogMerge

  /* ---------- the preservation check ---------- */

  datatype ReleaseKey = ReleaseKey(pluginId: string, version: string)

  predicate HasVersion(entry: Entry, version: string) {
    exists i | 0 <= i < |entry.releases| :: entry.releases[i].version == version
  }

  predicate Has(byId: ById, key: ReleaseKey) {
    key.pluginId in byId && HasVersion(byId[key.pluginId], key.version)
  }

  /** Some entry lists the release; the same id may be listed more than once. */
  ghost predicate Published(entries: seq<Entry>, key: ReleaseKey) {
    exists i | 0 <= i < |entries| :: entries[i].id == key.pluginId && HasVersion(entries[i], key.version)
  }

  /** The releases that the check reports, in order. */
  method MissingReleases(existing: seq<Entry>, candidate: seq<Entry>, allowed: set<ReleaseKey>)
      returns (missing: seq<ReleaseKey>)
    ensures forall key ::
              key in missing <==> Published(existing, key) && key !in allowed && !Has(Indexed(candidate), key)
  {
    var byId := Indexed(candidate);
    missing := [];
    for i := 0 to |existing|
      invariant forall key :: key in missing <==>
                  Published(existing[..i], key) && key !in allowed && !Has(byId, key)
    {
      var plugin := existing[i];
      var more := MissingOf(plugin, byId, allowed);
      forall key ensures Published(existing[..i + 1], key) <==>
                         Published(existing[..i], key) || (plugin.id == key.pluginId && HasVersion(plugin, key.version))
      {
        PublishedMore(existing, i, key);
      }
      missing := missing + more;
    }
    assert existing[..|existing|] == existing;
  }

  method MissingOf(plugin: Entry, byId: ById, allowed: set<ReleaseKey>) returns (missing: seq<ReleaseKey>)
    ensures forall key :: key in missing <==>
              plugin.id == key.pluginId && HasVersion(plugin, key.version) && key !in allowed && !Has(byId, key)
  {
    missing := [];
    for j := 0 to |plugin.releases|
      invariant forall key :: key in missing <==>
                  && plugin.id == key.pluginId && key !in allowed && !Has(byId, key)
                  && exists k | 0 <= k < j :: plugin.releases[k].version == key.version
    {
      var key := ReleaseKey(plugin.id, plugin.releases[j].version);
      if key !in allowed && !Has(byId, key) {
        missing := missing + [key];
      }
    }
  }

  lemma PublishedMore(entries: seq<Entry>, i: nat, key: ReleaseKey)
    requires i < |entries|
    ensures Published(entries[..i + 1], key) <==>
            Published(entries[..i], key) || (entries[i].id == key.pluginId && HasVersion(entries[i], key.version))
  {
    var before, after := entries[..i], entries[..i + 1];
    assert after == before + [entries[i]];
    if k :| 0 <= k < |after| && after[k].id == key.pluginId && HasVersion(after[k], key.version) {
      assert k < i ==> before[k] == after[k];
    }
    if k :| 0 <= k < |before| && before[k].id == key.pluginId && HasVersion(before[k], key.version) {
      assert after[k] == before[k];
    }
    assert after[i] == entries[i];
  }

  /* ---------- which releases a merge has ---------- */

  lemma MergedHas(order: Order, entry: Entry, update: Entry, version: string)
    requires TotalOrder(order)
    ensures HasVersion(Merged(order, entry, update), version) <==>
            HasVersion(entry, version) || HasVersion(update, version)
  {
    ListedHas(order, ByVersion(entry.releases) + ByVersion(update.releases), Merged(order, entry, update), version);
    InByVersion(entry, version);
    InByVersion(update, version);
  }

  lemma InByVersion(entry: Entry, version: string)
    ensures version in ByVersion(entry.releases) <==> HasVersion(entry, version)
  {
    ByVersionKeyed(entry.releases);
    if HasVersion(entry, version) {
      var i :| 0 <= i < |entry.releases| && entry.releases[i].version == version;
      assert entry.releases[i] in entry.releases;
    }
  }

  lemma ListedHas(order: Order, m: map<string, Release>, entry: Entry, version: string)
    requires Lists(order, m, entry.releases)
    ensures HasVersion(entry, version) <==> version in m
  {
    if version in m {
      var i :| 0 <= i < |entry.releases| && entry.releases[i] == m[version];
      assert entry.releases[i].version == version;
    }
    if HasVersion(entry, version) {
      var i :| 0 <= i < |entry.releases| && entry.releases[i].version == version;
      assert entry.releases[i] in entry.releases;
    }
  }

  lemma SortedHas(order: Order, entry: Entry, version: string)
    requires TotalOrder(order)
    ensures HasVersion(entry.(releases := NewestFirst(order, entry.releases)), version) <==> HasVersion(entry, version)
  {
    var sorted := entry.(releases := NewestFirst(order, entry.releases));
    NewestFirstSorts(order, entry.releases);
    SameElements(entry.releases, sorted.releases);
    if i :| 0 <= i < |entry.releases| && entry.releases[i].version == version {
      assert entry.releases[i] in sorted.releases;
    }
    if i :| 0 <= i < |sorted.releases| && sorted.releases[i].version == version {
      assert sorted.releases[i] in entry.releases;
    }
  }

  lemma {:induction false} MergeHas(order: Order, byId: ById, updates: seq<Entry>, key: ReleaseKey)
    requires TotalOrder(order)
    ensures Has(MergeAll(order, byId, updates), key) <==> Has(byId, key) || Published(updates, key)
  {
    if updates != [] {
      var n := |updates| - 1;
      var before := MergeAll(order, byId, updates[..n]);
      MergeHas(order, byId, updates[..n], key);
      PublishedMore(updates, n, key);
      assert updates[..n + 1] == updates;
      MergeOneHas(order, before, updates[n], key);
    }
  }

  lemma MergeOneHas(order: Order, byId: ById, update: Entry, key: ReleaseKey)
    requires TotalOrder(order)
    ensures Has(MergeOne(order, byId, update), key) <==>
            Has(byId, key) || (update.id == key.pluginId && HasVersion(update, key.version))
  {
    if update.id == key.pluginId {
      if update.id in byId {
        MergedHas(order, byId[update.id], update, key.version);
      } else {
        SortedHas(order, update, key.version);
      }
    }
  }

  /** A candidate is the merged catalog when it lists each merged entry once. */
  ghost predicate IsMerge(order: Order, existing: seq<Entry>, updates: seq<Entry>, candidate: seq<Entry>)
    requires TotalOrder(order)
  {
    Indexed(candidate) == Merge(order, existing, updates)
  }

  /** The check passes a merge exactly when each published release that may not be removed is in the
      last entry of its plugin or in an update. */
  lemma PreservationExact(order: Order, existing: seq<Entry>, updates: seq<Entry>, candidate: seq<Entry>,
                          allowed: set<ReleaseKey>)
    requires TotalOrder(order) && IsMerge(order, existing, updates, candidate)
    ensures (forall key | Published(existing, key) && key !in allowed :: Has(Indexed(candidate), key)) <==>
            (forall key | Published(existing, key) && key !in allowed ::
              Has(Indexed(existing), key) || Published(updates, key))
  {
    forall key ensures Has(Indexed(candidate), key) <==> Has(Indexed(existing), key) || Published(updates, key) {
      MergeHas(order, Indexed(existing), updates, key);
    }
  }

  ghost predicate UniqueIds(entries: seq<Entry>) {
    forall i, j | 0 <= i < j < |entries| :: entries[i].id != entries[j].id
  }

  lemma {:induction false} IndexedHasAll(entries: seq<Entry>)
    requires UniqueIds(entries)
    ensures forall i | 0 <= i < |entries| ::
              entries[i].id in Indexed(entries) && Indexed(entries)[entries[i].id] == entries[i]
  {
    if entries != [] {
      var init := entries[..|entries| - 1];
      IndexedHasAll(init);
      assert forall i | 0 <= i < |init| :: entries[i] == init[i];
    }
  }

  /** With unique plugin ids every published release survives any merge, and no removal need be allowed. */
  lemma MergeKeepsHistory(order: Order, existing: seq<Entry>, updates: seq<Entry>, candidate: seq<Entry>)
    requires TotalOrder(order) && UniqueIds(existing) && IsMerge(order, existing, updates, candidate)
    ensures forall key | Published(existing, key) :: Has(Indexed(candidate), key)
  {
    IndexedHasAll(existing);
    forall key | Published(existing, key) ensures Has(Indexed(candidate), key) {
      MergeHas(order, Indexed(existing), updates, key);
    }
  }

  /** Of two entries of one plugin the first is lost, even when nothing is updated. */
  lemma DuplicateIdsLoseReleases(order: Order, first: Entry, second: Entry, release: Release)
    requires TotalOrder(order) && first.id == second.id && first.releases == [release] && second.releases == []
    ensures Published([first, second], ReleaseKey(first.id, release.version))
    ensures !Has(Merge(order, [first, second], []), ReleaseKey(first.id, release.version))
  {
    var entries := [first, second];
    assert entries[0] == first && HasVersion(first, release.version) by {
      assert first.releases[0] == release;
    }
    assert Indexed(entries)[first.id] == second;
  }
}
