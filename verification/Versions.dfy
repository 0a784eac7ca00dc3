/** Releases in the order of their versions, newest first. */
module Versions {
  /** The versions of a catalog all parse, and `order(a, b)` says that a is no newer than b. */
  ghost predicate TotalOrder(order: (string, string) -> bool) {
    && (forall a, b :: order(a, b) || order(b, a))
    && (forall a, b :: order(a, b) && order(b, a) ==> a == b)
    && (forall a, b, c :: order(a, b) && order(b, c) ==> order(a, c))
  }

  datatype Release = Release(version: string, identity: string, mirrors: string)

  type Order = (string, string) -> bool

  ghost predicate Descending(order: Order, s: seq<Release>) {
    forall i, j | 0 <= i < j < |s| :: order(s[j].version, s[i].version)
  }

  ghost predicate Unique(s: seq<Release>) {
    forall i, j | 0 <= i < j < |s| :: s[i].version != s[j].version
  }

  /** The releases by version; a later one replaces an earlier one. */
  function ByVersion(s: seq<Release>): map<string, Release> {
    if s == [] then map[] else ByVersion(s[..|s| - 1])[s[|s| - 1].version := s[|s| - 1]]
  }

  /** The list holds exactly the releases of the map, newest first. */
  ghost predicate Lists(order: Order, m: map<string, Release>, s: seq<Release>) {
    && Keyed(m) && Unique(s) && Descending(order, s)
    && (forall r | r in s :: r.version in m && m[r.version] == r)
    && (forall v | v in m :: m[v] in s)
  }

  predicate Keyed(m: map<string, Release>) {
    forall v | v in m :: m[v].version == v
  }

  lemma {:induction false} ByVersionKeyed(s: seq<Release>)
    ensures Keyed(ByVersion(s))
    ensures forall v :: v in ByVersion(s) <==> exists r :: r in s && r.version == v
    ensures forall v | v in ByVersion(s) :: ByVersion(s)[v] in s
    ensures Unique(s) ==> forall r | r in s :: ByVersion(s)[r.version] == r
  {
    if s != [] {
      var init, last := s[..|s| - 1], s[|s| - 1];
      ByVersionKeyed(init);
      assert s == init + [last];
    }
  }

  /* ---------- sorting ---------- */

  /** The release after those that are no older than it. */
  function Insert(order: Order, s: seq<Release>, r: Release): seq<Release> {
    if s == [] || !order(r.version, s[0].version) then [r] + s else [s[0]] + Insert(order, s[1..], r)
  }

  /** The stable sort, newest first. */
  function NewestFirst(order: Order, s: seq<Release>): seq<Release> {
    if s == [] then [] else Insert(order, NewestFirst(order, s[..|s| - 1]), s[|s| - 1])
  }

  lemma {:induction false} InsertAdds(order: Order, s: seq<Release>, r: Release)
    ensures multiset(Insert(order, s, r)) == multiset(s) + multiset{r}
  {
    if s == [] || !order(r.version, s[0].version) {
      assert multiset([r] + s) == multiset{r} + multiset(s);
    } else {
      InsertAdds(order, s[1..], r);
      assert s == [s[0]] + s[1..];
    }
  }

  lemma {:induction false} InsertSorts(order: Order, s: seq<Release>, r: Release)
    requires TotalOrder(order) && Descending(order, s)
    ensures Descending(order, Insert(order, s, r))
  {
    if s != [] && order(r.version, s[0].version) {
      InsertSorts(order, s[1..], r);
      InsertAdds(order, s[1..], r);
      var rest := Insert(order, s[1..], r);
      forall j | 0 <= j < |rest| ensures order(rest[j].version, s[0].version) {
        assert rest[j] in multiset(rest);
        assert rest[j] == r || rest[j] in s[1..];
      }
    }
  }

  lemma {:induction false} NewestFirstSorts(order: Order, s: seq<Release>)
    requires TotalOrder(order)
    ensures Descending(order, NewestFirst(order, s)) && multiset(NewestFirst(order, s)) == multiset(s)
  {
    if s != [] {
      NewestFirstSorts(order, s[..|s| - 1]);
      InsertSorts(order, NewestFirst(order, s[..|s| - 1]), s[|s| - 1]);
      InsertAdds(order, NewestFirst(order, s[..|s| - 1]), s[|s| - 1]);
      assert s == s[..|s| - 1] + [s[|s| - 1]];
    }
  }

  lemma {:induction false} UniqueByCount(s: seq<Release>, t: seq<Release>)
    requires Unique(s) && multiset(s) == multiset(t)
    ensures Unique(t)
  {
    forall i, j | 0 <= i < j < |t| && t[i].version == t[j].version ensures false {
      assert t[i] in multiset(t) && t[j] in multiset(t);
      assert t[i] in s && t[j] in s;
      if t[i] == t[j] {
        TwiceCounted(t, i, j);
        OnceCounted(s, t[i]);
      }
    }
  }

  lemma TwiceCounted(t: seq<Release>, i: nat, j: nat)
    requires i < j < |t| && t[i] == t[j]
    ensures multiset(t)[t[i]] >= 2
  {
    assert t == t[..i] + [t[i]] + t[i + 1..j] + [t[j]] + t[j + 1..];
  }

  lemma {:induction false} OnceCounted(s: seq<Release>, r: Release)
    requires Unique(s)
    ensures multiset(s)[r] <= 1
  {
    if s != [] {
      assert s == [s[0]] + s[1..];
      OnceCounted(s[1..], r);
      assert forall k | 0 <= k < |s| - 1 :: s[1..][k] == s[k + 1] && s[k + 1].version != s[0].version;
      assert s[0] !in s[1..];
    }
  }

  /** Sorting releases of distinct versions lists their map. */
  lemma SortedLists(order: Order, s: seq<Release>)
    requires TotalOrder(order) && Unique(s)
    ensures Lists(order, ByVersion(s), NewestFirst(order, s))
  {
    var t := NewestFirst(order, s);
    NewestFirstSorts(order, s);
    UniqueByCount(s, t);
    ByVersionKeyed(s);
    SameElements(s, t);
  }

  lemma SameElements(s: seq<Release>, t: seq<Release>)
    requires multiset(s) == multiset(t)
    ensures forall r :: r in s <==> r in t
  {
    forall r ensures r in s <==> r in t {
      assert r in multiset(s) <==> r in multiset(t);
    }
  }

  /** There is one listing of a map at most. */
  lemma {:induction false} ListsOnce(order: Order, m: map<string, Release>, s: seq<Release>, t: seq<Release>)
    requires TotalOrder(order) && Lists(order, m, s) && Lists(order, m, t)
    ensures s == t
    decreases |s|
  {
    assert t == [] || (t[0] in t && m[t[0].version] in s);
    if s != [] {
      assert s[0] in s && m[s[0].version] == s[0];
      assert s[0] in t && t[0] in t && m[t[0].version] in s && t[0] in s;
      assert order(t[0].version, s[0].version) && order(s[0].version, t[0].version);
      assert s[0] == t[0];
      ListsRest(order, m, s);
      ListsRest(order, m, t);
      ListsOnce(order, m - {s[0].version}, s[1..], t[1..]);
      assert s == [s[0]] + s[1..] && t == [t[0]] + t[1..];
    }
  }

  lemma ListsRest(order: Order, m: map<string, Release>, s: seq<Release>)
    requires Lists(order, m, s) && s != []
    ensures Lists(order, m - {s[0].version}, s[1..])
  {
    var rest := s[1..];
    forall r | r in rest ensures r.version in m - {s[0].version} && m[r.version] == r {
      var k :| 0 <= k < |rest| && rest[k] == r;
      assert s[k + 1] == r && r in s && s[0].version != s[k + 1].version;
    }
    forall v | v in m - {s[0].version} ensures m[v] in rest {
      assert m[v] in s;
      var k :| 0 <= k < |s| && s[k] == m[v];
      assert k > 0 ==> rest[k - 1] == m[v];
      assert s[0] in s && m[s[0].version] == s[0];
    }
  }
}
