/** Merging the same updates twice is merging them once. */
module CatalogMergeTwice {
  import opened Wrappers
  import opened Versions
  import opened CatalogMerge

  function Get(byId: ById, id: string): Option<Entry> {
    if id in byId then Some(byId[id]) else None
  }

  ghost function Step(order: Order, o: Option<Entry>, update: Entry): Entry
    requires TotalOrder(order)
  {
    if o.Some? then Merged(order, o.value, update) else update.(releases := NewestFirst(order, update.releases))
  }

  /** What the updates make of the entry of one id. */
  ghost function Fold(order: Order, o: Option<Entry>, updates: seq<Entry>, id: string): Option<Entry>
    requires TotalOrder(order)
  {
    if updates == [] then o
    else
      var before, last := Fold(order, o, updates[..|updates| - 1], id), updates[|updates| - 1];
      if last.id == id then Some(Step(order, before, last)) else before
  }

  lemma {:induction false} MergeIsFold(order: Order, byId: ById, updates: seq<Entry>, id: string)
    requires TotalOrder(order)
    ensures Get(MergeAll(order, byId, updates), id) == Fold(order, Get(byId, id), updates, id)
  {
    if updates != [] {
      MergeIsFold(order, byId, updates[..|updates| - 1], id);
    }
  }

  ghost predicate UniqueVersions(updates: seq<Entry>) {
    forall i | 0 <= i < |updates| :: Unique(updates[i].releases)
  }

  predicate Concerns(updates: seq<Entry>, id: string) {
    exists i | 0 <= i < |updates| :: updates[i].id == id
  }

  lemma ConcernsLast(updates: seq<Entry>, id: string)
    requires updates != []
    ensures Concerns(updates, id) <==>
            Concerns(updates[..|updates| - 1], id) || updates[|updates| - 1].id == id
  {
    var init := updates[..|updates| - 1];
    assert updates == init + [updates[|updates| - 1]];
    if i :| 0 <= i < |init| && init[i].id == id {
      assert updates[i].id == id;
    }
  }

  /* ---------- the releases ---------- */

  function Base(o: Option<Entry>): map<string, Release> {
    if o.Some? then ByVersion(o.value.releases) else map[]
  }

  /** The releases that the updates of one id bring, by version. */
  function Brought(updates: seq<Entry>, id: string): map<string, Release> {
    if updates == [] then map[]
    else
      var before, last := Brought(updates[..|updates| - 1], id), updates[|updates| - 1];
      if last.id == id then before + ByVersion(last.releases) else before
  }

  lemma ListedMap(order: Order, m: map<string, Release>, s: seq<Release>)
    requires Lists(order, m, s)
    ensures ByVersion(s) == m
  {
    ByVersionKeyed(s);
    forall v ensures v in ByVersion(s) <==> v in m {
      if v in m {
        assert m[v] in s && m[v].version == v;
      }
    }
    forall v | v in m ensures ByVersion(s)[v] == m[v] {
      assert m[v] in s;
    }
  }

  lemma StepLists(order: Order, o: Option<Entry>, update: Entry)
    requires TotalOrder(order) && Unique(update.releases)
    ensures Lists(order, Base(o) + ByVersion(update.releases), Step(order, o, update).releases)
  {
    if o.None? {
      SortedLists(order, update.releases);
      assert map[] + ByVersion(update.releases) == ByVersion(update.releases);
    }
  }

  /** The releases of an updated entry: those it had, replaced and joined by those the updates bring,
      newest first. */
  lemma {:induction false} FoldLists(order: Order, o: Option<Entry>, updates: seq<Entry>, id: string)
    requires TotalOrder(order) && UniqueVersions(updates)
    ensures if Concerns(updates, id)
            then var e := Fold(order, o, updates, id);
              e.Some? && Lists(order, Base(o) + Brought(updates, id), e.value.releases)
            else Fold(order, o, updates, id) == o && Brought(updates, id) == map[]
    decreases |updates|
  {
    if updates != [] {
      var init, last := updates[..|updates| - 1], updates[|updates| - 1];
      ConcernsLast(updates, id);
      FoldLists(order, o, init, id);
      if last.id == id {
        var before := Fold(order, o, init, id);
        StepLists(order, before, last);
        if Concerns(init, id) {
          ListedMap(order, Base(o) + Brought(init, id), before.value.releases);
          PlusAssoc(Base(o), Brought(init, id), ByVersion(last.releases));
        } else {
          assert map[] + ByVersion(last.releases) == ByVersion(last.releases);
        }
      }
    }
  }

  lemma PlusAssoc(a: map<string, Release>, b: map<string, Release>, c: map<string, Release>)
    ensures a + b + c == a + (b + c)
  {
  }

  lemma PlusTwice(a: map<string, Release>, b: map<string, Release>)
    ensures a + b + b == a + b
  {
  }

  /* ---------- the rest of the entry ---------- */

  /** An entry without its releases, beside its newest version. */
  function Head(order: Order, o: Option<Entry>, id: string): (Entry, Option<string>) {
    if o.Some? then (o.value.(releases := []), Latest(order, o.value.releases)) else (Entry(id, "", []), None)
  }

  function StepHead(order: Order, head: (Entry, Option<string>), update: Entry): (Entry, Option<string>) {
    var latest := Latest(order, update.releases);
    if NoNewer(order, head.1, latest) then (update.(releases := []), latest) else head
  }

  function FoldHead(order: Order, head: (Entry, Option<string>), updates: seq<Entry>, id: string):
      (Entry, Option<string>)
  {
    if updates == [] then head
    else
      var before, last := FoldHead(order, head, updates[..|updates| - 1], id), updates[|updates| - 1];
      if last.id == id then StepHead(order, before, last) else before
  }

  lemma LatestUnique(order: Order, s: seq<Release>, v: Option<string>)
    requires TotalOrder(order) && IsLatest(order, s, v)
    ensures v == Latest(order, s)
  {
    LatestExact(order, s);
    if s != [] {
      var a, b :| a in s && a.version == v.value && b in s && b.version == Latest(order, s).value;
      assert order(a.version, b.version) && order(b.version, a.version);
    }
  }

  lemma LatestSorted(order: Order, s: seq<Release>)
    requires TotalOrder(order)
    ensures Latest(order, NewestFirst(order, s)) == Latest(order, s)
  {
    NewestFirstSorts(order, s);
    SameElements(s, NewestFirst(order, s));
    assert |multiset(s)| == |s| && |multiset(NewestFirst(order, s))| == |NewestFirst(order, s)|;
    LatestExact(order, s);
    LatestUnique(order, NewestFirst(order, s), Latest(order, s));
  }

  /** The newest version of a merged entry is the newer of the two. */
  lemma LatestMerged(order: Order, entry: Entry, update: Entry)
    requires TotalOrder(order)
    ensures Latest(order, MergedReleases(order, entry, update)) ==
            Newest(order, Latest(order, entry.releases), Latest(order, update.releases))
  {
    var s := MergedReleases(order, entry, update);
    assert s == [] || s[0] in s;
    var v := Newest(order, Latest(order, entry.releases), Latest(order, update.releases));
    var a, b := ByVersion(entry.releases), ByVersion(update.releases);
    LatestExact(order, entry.releases);
    LatestExact(order, update.releases);
    ByVersionKeyed(entry.releases);
    ByVersionKeyed(update.releases);
    var both: map<string, Release> := a + b;
    assert forall x | x in both :: both[x] in s && both[x].version == x;
    if v.Some? {
      assert v.value in both;
      forall r | r in s ensures order(r.version, v.value) {
        assert r.version in a || r.version in b;
      }
      assert both[v.value] in s;
    }
    LatestUnique(order, s, v);
  }

  lemma StepIsStepHead(order: Order, o: Option<Entry>, update: Entry, id: string)
    requires TotalOrder(order) && update.id == id
    ensures Head(order, Some(Step(order, o, update)), id) == StepHead(order, Head(order, o, id), update)
  {
    if o.Some? {
      LatestMerged(order, o.value, update);
    } else {
      LatestSorted(order, update.releases);
    }
  }

  lemma {:induction false} FoldIsFoldHead(order: Order, o: Option<Entry>, updates: seq<Entry>, id: string)
    requires TotalOrder(order)
    ensures Head(order, Fold(order, o, updates, id), id) == FoldHead(order, Head(order, o, id), updates, id)
  {
    if updates != [] {
      var init, last := updates[..|updates| - 1], updates[|updates| - 1];
      FoldIsFoldHead(order, o, init, id);
      if last.id == id {
        StepIsStepHead(order, Fold(order, o, init, id), last, id);
      }
    }
  }

  /** No update of the id is newer than v. */
  ghost predicate Above(order: Order, v: Option<string>, updates: seq<Entry>, id: string) {
    forall i | 0 <= i < |updates| && updates[i].id == id :: NoNewer(order, Latest(order, updates[i].releases), v)
  }

  lemma NoNewerOrder(order: Order, a: Option<string>, b: Option<string>, c: Option<string>)
    requires TotalOrder(order)
    ensures NoNewer(order, a, b) || NoNewer(order, b, a)
    ensures NoNewer(order, a, b) && NoNewer(order, b, c) ==> NoNewer(order, a, c)
    ensures NoNewer(order, a, b) && NoNewer(order, b, a) ==> a == b
  {
  }

  lemma {:induction false} FoldHeadAbove(order: Order, head: (Entry, Option<string>), updates: seq<Entry>, id: string)
    requires TotalOrder(order)
    ensures Above(order, FoldHead(order, head, updates, id).1, updates, id)
    ensures NoNewer(order, head.1, FoldHead(order, head, updates, id).1)
    ensures Above(order, head.1, updates, id) ==> FoldHead(order, head, updates, id).1 == head.1
  {
    if updates == [] {
      NoNewerOrder(order, head.1, head.1, head.1);
    } else {
      var init, last := updates[..|updates| - 1], updates[|updates| - 1];
      FoldHeadAbove(order, head, init, id);
      var before, after := FoldHead(order, head, init, id).1, FoldHead(order, head, updates, id).1;
      forall i | 0 <= i < |updates| && updates[i].id == id
        ensures NoNewer(order, Latest(order, updates[i].releases), after)
      {
        assert i < |init| ==> updates[i] == init[i];
        NoNewerOrder(order, Latest(order, updates[i].releases), before, after);
        NoNewerOrder(order, after, after, after);
        NoNewerOrder(order, Latest(order, last.releases), before, before);
      }
      NoNewerOrder(order, head.1, before, after);
      NoNewerOrder(order, before, before, before);
      if Above(order, head.1, updates, id) {
        assert Above(order, head.1, init, id) by {
          assert forall i | 0 <= i < |init| :: init[i] == updates[i];
        }
        NoNewerOrder(order, Latest(order, last.releases), head.1, head.1);
      }
    }
  }

  lemma {:induction false} FoldHeadTwice(order: Order, head: (Entry, Option<string>), updates: seq<Entry>, id: string)
    requires TotalOrder(order)
    ensures FoldHead(order, FoldHead(order, head, updates, id), updates, id) == FoldHead(order, head, updates, id)
  {
    if updates != [] {
      var init, last := updates[..|updates| - 1], updates[|updates| - 1];
      var before, after := FoldHead(order, head, init, id), FoldHead(order, head, updates, id);
      FoldHeadTwice(order, head, init, id);
      if last.id == id && NoNewer(order, before.1, Latest(order, last.releases)) {
        FoldHeadAbove(order, head, updates, id);
        assert Above(order, after.1, init, id) by {
          assert forall i | 0 <= i < |init| :: init[i] == updates[i];
        }
        FoldHeadAbove(order, after, init, id);
        NoNewerOrder(order, after.1, after.1, after.1);
      }
    }
  }

  /* ---------- both together ---------- */

  lemma FoldTwice(order: Order, o: Option<Entry>, updates: seq<Entry>, id: string)
    requires TotalOrder(order) && UniqueVersions(updates)
    ensures Fold(order, Fold(order, o, updates, id), updates, id) == Fold(order, o, updates, id)
  {
    var once := Fold(order, o, updates, id);
    var twice := Fold(order, once, updates, id);
    FoldLists(order, o, updates, id);
    FoldLists(order, once, updates, id);
    FoldIsFoldHead(order, o, updates, id);
    FoldIsFoldHead(order, once, updates, id);
    FoldHeadTwice(order, Head(order, o, id), updates, id);
    if Concerns(updates, id) {
      ListedMap(order, Base(o) + Brought(updates, id), once.value.releases);
      PlusTwice(Base(o), Brought(updates, id));
      ListsOnce(order, Base(o) + Brought(updates, id), once.value.releases, twice.value.releases);
      assert once.value.(releases := []) == twice.value.(releases := []);
      SameEntry(once.value, twice.value);
    }
  }

  lemma SameEntry(a: Entry, b: Entry)
    requires a.(releases := []) == b.(releases := []) && a.releases == b.releases
    ensures a == b
  {
    assert a == a.(releases := []).(releases := a.releases);
  }

  /** When no update lists a version twice, merging the same updates again changes nothing: neither the
      releases, nor which entry the rest is taken from. */
  lemma MergeTwice(order: Order, byId: ById, updates: seq<Entry>)
    requires TotalOrder(order) && UniqueVersions(updates)
    ensures MergeAll(order, MergeAll(order, byId, updates), updates) == MergeAll(order, byId, updates)
  {
    var once := MergeAll(order, byId, updates);
    var twice := MergeAll(order, once, updates);
    forall id ensures Get(twice, id) == Get(once, id) {
      MergeIsFold(order, byId, updates, id);
      MergeIsFold(order, once, updates, id);
      FoldTwice(order, Get(byId, id), updates, id);
    }
    SameMap(once, twice);
  }

  lemma SameMap(a: ById, b: ById)
    requires forall id :: Get(a, id) == Get(b, id)
    ensures a == b
  {
    forall id ensures id in a <==> id in b {
      assert Get(a, id) == Get(b, id);
    }
    forall id | id in a ensures a[id] == b[id] {
      assert Get(a, id) == Get(b, id);
    }
  }

  /** Every plugin an update concerns lists, newest first and each version once, what it listed before,
      replaced and joined by what the updates bring; the others are as they were. */
  lemma MergedPluginExact(order: Order, byId: ById, updates: seq<Entry>, id: string)
    requires TotalOrder(order) && UniqueVersions(updates)
    ensures var merged := MergeAll(order, byId, updates);
      if Concerns(updates, id)
      then id in merged && Lists(order, Base(Get(byId, id)) + Brought(updates, id), merged[id].releases)
      else Get(merged, id) == Get(byId, id)
  {
    MergeIsFold(order, byId, updates, id);
    FoldLists(order, Get(byId, id), updates, id);
  }
}
