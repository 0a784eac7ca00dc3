/** What a merged plugin entry is made of, in terms of the entries that were merged. */
module CatalogMergeLineage {
  import opened Wrappers
  import opened Versions
  import opened CatalogMerge
  import opened CatalogMergeTwice

  /** The entry of the id, if there is one, and then the updates of it, in order. */
  function Lineage(o: Option<Entry>, updates: seq<Entry>, id: string): seq<Entry> {
    if updates == [] then if o.Some? then [o.value] else []
    else
      var last := updates[|updates| - 1];
      Lineage(o, updates[..|updates| - 1], id) + if last.id == id then [last] else []
  }

  /* ---------- the metadata ---------- */

  /** The entry has the newest of all versions, and no later entry has one as new. Nothing is older than any
      version. */
  ghost predicate LastNewest(order: Order, all: seq<Entry>, k: nat) {
    && k < |all|
    && (forall i | 0 <= i < k :: NoNewer(order, Latest(order, all[i].releases), Latest(order, all[k].releases)))
    && (forall i | k < i < |all| :: !NoNewer(order, Latest(order, all[k].releases), Latest(order, all[i].releases)))
  }

  lemma LastNewestMore(order: Order, all: seq<Entry>, k: nat, last: Entry)
    requires TotalOrder(order) && LastNewest(order, all, k)
    ensures var newer := NoNewer(order, Latest(order, all[k].releases), Latest(order, last.releases));
      LastNewest(order, all + [last], if newer then |all| else k)
  {
    var more := all + [last];
    assert forall i | 0 <= i < |all| :: more[i] == all[i];
    var top, brought := Latest(order, all[k].releases), Latest(order, last.releases);
    if NoNewer(order, top, brought) {
      forall i | 0 <= i < |all| ensures NoNewer(order, Latest(order, more[i].releases), brought) {
        NoNewerOrder(order, Latest(order, all[i].releases), top, brought);
        NoNewerOrder(order, top, top, top);
      }
    }
  }

  lemma {:induction false} HeadIsLastNewest(order: Order, o: Option<Entry>, updates: seq<Entry>, id: string)
      returns (k: nat)
    requires TotalOrder(order) && Lineage(o, updates, id) != []
    ensures var all := Lineage(o, updates, id);
      && LastNewest(order, all, k)
      && FoldHead(order, Head(order, o, id), updates, id) ==
         (all[k].(releases := []), Latest(order, all[k].releases))
  {
    if updates == [] {
      k := 0;
    } else {
      var init, last := updates[..|updates| - 1], updates[|updates| - 1];
      var before := Lineage(o, init, id);
      if before == [] {
        NothingYet(order, o, init, id);
        k := 0;
      } else {
        k := HeadIsLastNewest(order, o, init, id);
        if last.id == id {
          LastNewestMore(order, before, k, last);
          if NoNewer(order, Latest(order, before[k].releases), Latest(order, last.releases)) {
            k := |before|;
          }
        } else {
          assert before + [] == before;
        }
      }
    }
  }

  lemma {:induction false} NothingYet(order: Order, o: Option<Entry>, updates: seq<Entry>, id: string)
    requires Lineage(o, updates, id) == []
    ensures FoldHead(order, Head(order, o, id), updates, id) == (Entry(id, "", []), None)
  {
    if updates != [] {
      NothingYet(order, o, updates[..|updates| - 1], id);
    }
  }

  lemma {:induction false} LineageIsThere(order: Order, o: Option<Entry>, updates: seq<Entry>, id: string)
    requires TotalOrder(order)
    ensures Fold(order, o, updates, id).Some? <==> Lineage(o, updates, id) != []
  {
    if updates != [] {
      LineageIsThere(order, o, updates[..|updates| - 1], id);
    }
  }

  /* ---------- the releases ---------- */

  /** The release is there, and no later one has its version. */
  ghost predicate LastOf(s: seq<Release>, r: Release) {
    exists k :: LastAt(s, r, k)
  }

  ghost predicate LastAt(s: seq<Release>, r: Release, k: int) {
    0 <= k < |s| && s[k] == r && forall l | k < l < |s| :: s[l].version != r.version
  }

  lemma LastOfMore(s: seq<Release>, last: Release, r: Release)
    ensures LastOf(s + [last], r) <==> r == last || (r.version != last.version && LastOf(s, r))
  {
    var more := s + [last];
    assert more[|s|] == last && forall l | 0 <= l < |s| :: more[l] == s[l];
    if r == last {
      assert LastAt(more, r, |s|);
    }
    if k :| LastAt(more, r, k) {
      assert k < |s| ==> LastAt(s, r, k);
    }
    if k :| r.version != last.version && LastAt(s, r, k) {
      assert LastAt(more, r, k);
    }
  }

  lemma {:induction false} ByVersionLast(s: seq<Release>, r: Release)
    ensures r.version in ByVersion(s) && ByVersion(s)[r.version] == r <==> LastOf(s, r)
  {
    if s != [] {
      ByVersionLast(s[..|s| - 1], r);
      LastOfMore(s[..|s| - 1], s[|s| - 1], r);
      assert s == s[..|s| - 1] + [s[|s| - 1]];
    }
  }

  lemma {:induction false} ByVersionPlus(a: seq<Release>, b: seq<Release>)
    ensures ByVersion(a + b) == ByVersion(a) + ByVersion(b)
  {
    if b == [] {
      assert a + b == a;
    } else {
      ByVersionPlus(a, b[..|b| - 1]);
      assert (a + b)[..|a + b| - 1] == a + b[..|b| - 1];
    }
  }

  function AllReleases(all: seq<Entry>): seq<Release> {
    if all == [] then [] else AllReleases(all[..|all| - 1]) + all[|all| - 1].releases
  }

  lemma {:induction false} BroughtIsLineage(o: Option<Entry>, updates: seq<Entry>, id: string)
    ensures Base(o) + Brought(updates, id) == ByVersion(AllReleases(Lineage(o, updates, id)))
  {
    if updates == [] {
      if o.Some? {
        assert [o.value][..0] == [] && [] + o.value.releases == o.value.releases;
      }
    } else {
      var init, last := updates[..|updates| - 1], updates[|updates| - 1];
      BroughtIsLineage(o, init, id);
      var before := Lineage(o, init, id);
      if last.id == id {
        assert (before + [last])[..|before|] == before;
        ByVersionPlus(AllReleases(before), last.releases);
        PlusAssoc(Base(o), Brought(init, id), ByVersion(last.releases));
      } else {
        assert before + [] == before;
      }
    }
  }

  /* ---------- both ---------- */

  /** A merged plugin that an update concerns: everything but its releases is from the last of the merged entries
      with the newest version; of each version it lists the release that came last. */
  lemma MergedPluginIsLastNewest(order: Order, byId: ById, updates: seq<Entry>, id: string) returns (k: nat)
    requires TotalOrder(order) && UniqueVersions(updates) && Concerns(updates, id)
    ensures var all, merged := Lineage(Get(byId, id), updates, id), MergeAll(order, byId, updates);
      && LastNewest(order, all, k)
      && id in merged && merged[id].(releases := []) == all[k].(releases := [])
      && forall r :: r in merged[id].releases <==> LastOf(AllReleases(all), r)
  {
    var o, merged := Get(byId, id), MergeAll(order, byId, updates);
    MergeIsFold(order, byId, updates, id);
    MergedPluginExact(order, byId, updates, id);
    LineageIsThere(order, o, updates, id);
    k := HeadIsLastNewest(order, o, updates, id);
    FoldIsFoldHead(order, o, updates, id);
    BroughtIsLineage(o, updates, id);
    ListsLast(order, Lineage(o, updates, id), merged[id].releases);
  }

  lemma ListsLast(order: Order, all: seq<Entry>, s: seq<Release>)
    requires Lists(order, ByVersion(AllReleases(all)), s)
    ensures forall r :: r in s <==> LastOf(AllReleases(all), r)
  {
    forall r ensures r in s <==> LastOf(AllReleases(all), r) {
      ByVersionLast(AllReleases(all), r);
    }
  }
}
