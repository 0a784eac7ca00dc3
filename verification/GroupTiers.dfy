/** Collapsing release-group rows by tier, and numbering what is left. */
module GroupTiers {
  import opened Text
  import opened DetectionIndex

  datatype Row = Row(matcher: string, exact: bool, tier: string, facet: string, context: string)

  /** What the key of a row joins by NUL (see JoinedKeysExact). */
  datatype Key = Key(matcher: string, exact: bool, facet: string, context: string)

  function KeyOf(row: Row): Key {
    Key(row.matcher, row.exact, row.facet, row.context)
  }

  function TierRank(tier: string): nat {
    if tier == "banned" then 0 else if tier == "gold" then 1 else if tier == "silver" then 2 else 3
  }

  /** The tiers that the files give; every other tier ranks with bronze. */
  predicate KnownTier(tier: string) {
    tier in {"banned", "gold", "silver", "bronze"}
  }

  /* ---------- the collapse ---------- */

  function CollapseOne(collapsed: map<Key, Row>, row: Row): map<Key, Row> {
    var key := KeyOf(row);
    if key !in collapsed || TierRank(row.tier) < TierRank(collapsed[key].tier) then collapsed[key := row] else collapsed
  }

  function Collapsed(rows: seq<Row>): map<Key, Row> {
    if rows == [] then map[] else CollapseOne(Collapsed(rows[..|rows| - 1]), rows[|rows| - 1])
  }

  method CollapseRows(rows: seq<Row>) returns (collapsed: map<Key, Row>)
    ensures collapsed == Collapsed(rows)
  {
    collapsed := map[];
    for i := 0 to |rows|
      invariant collapsed == Collapsed(rows[..i])
    {
      assert rows[..i + 1][..i] == rows[..i];
      var key := KeyOf(rows[i]);
      if key !in collapsed || TierRank(rows[i].tier) < TierRank(collapsed[key].tier) {
        collapsed := collapsed[key := rows[i]];
      }
    }
    assert rows[..|rows|] == rows;
  }

  /** The row is one of those with its key, and none of them ranks before it. */
  ghost predicate BestOf(rows: seq<Row>, row: Row) {
    row in rows && forall other | other in rows && KeyOf(other) == KeyOf(row) ::
      TierRank(row.tier) <= TierRank(other.tier)
  }

  ghost predicate HasKey(rows: seq<Row>, key: Key) {
    exists row :: row in rows && KeyOf(row) == key
  }

  lemma HasKeyMore(rows: seq<Row>, last: Row, key: Key)
    ensures HasKey(rows + [last], key) <==> HasKey(rows, key) || KeyOf(last) == key
  {
    if row :| row in rows + [last] && KeyOf(row) == key {
      assert row in rows || row == last;
    }
    if row :| row in rows && KeyOf(row) == key {
      assert row in rows + [last];
    }
    assert last in rows + [last];
  }

  /** Each key of the rows is kept once, with a row of the best tier. */
  lemma {:induction false} CollapsedExact(rows: seq<Row>)
    ensures forall key :: key in Collapsed(rows) <==> HasKey(rows, key)
    ensures forall key | key in Collapsed(rows) ::
              KeyOf(Collapsed(rows)[key]) == key && BestOf(rows, Collapsed(rows)[key])
  {
    if rows != [] {
      var init, last := rows[..|rows| - 1], rows[|rows| - 1];
      CollapsedExact(init);
      assert rows == init + [last];
      forall key ensures key in Collapsed(rows) <==> HasKey(rows, key) {
        HasKeyMore(init, last, key);
      }
      forall key | key in Collapsed(rows)
        ensures KeyOf(Collapsed(rows)[key]) == key && BestOf(rows, Collapsed(rows)[key])
      {
        assert key in Collapsed(init) || key == KeyOf(last);
        assert key !in Collapsed(init) ==> forall row | row in init :: KeyOf(row) != key;
      }
    }
  }

  /** Rows of one key that no row ranks before are the same row. */
  ghost predicate BestUnique(rows: seq<Row>) {
    forall x, y | BestOf(rows, x) && BestOf(rows, y) && KeyOf(x) == KeyOf(y) :: x == y
  }

  ghost predicate SameRows(a: seq<Row>, b: seq<Row>) {
    forall row :: row in a <==> row in b
  }

  /** When the best rows are unique, the collapse does not depend on the order of the rows, or on how
      often one is repeated. */
  lemma CollapseIgnoresOrder(a: seq<Row>, b: seq<Row>)
    requires BestUnique(a) && SameRows(a, b)
    ensures Collapsed(a) == Collapsed(b)
  {
    CollapsedExact(a);
    CollapsedExact(b);
    forall key ensures HasKey(a, key) <==> HasKey(b, key) {
      if row :| row in a && KeyOf(row) == key {
        assert row in b;
      }
      if row :| row in b && KeyOf(row) == key {
        assert row in a;
      }
    }
    forall key | key in Collapsed(a) ensures Collapsed(a)[key] == Collapsed(b)[key] {
      var x, y := Collapsed(a)[key], Collapsed(b)[key];
      assert BestOf(a, x) && BestOf(b, y);
      SameBest(a, b, y);
    }
  }

  lemma SameBest(a: seq<Row>, b: seq<Row>, row: Row)
    requires SameRows(a, b) && BestOf(b, row)
    ensures BestOf(a, row)
  {
  }

  /** A row that comes first, and that none of its key ranks before, is kept. */
  lemma {:induction false} FirstBestWins(rest: seq<Row>, row: Row)
    requires forall other | other in rest && KeyOf(other) == KeyOf(row) :: TierRank(row.tier) <= TierRank(other.tier)
    ensures KeyOf(row) in Collapsed([row] + rest) && Collapsed([row] + rest)[KeyOf(row)] == row
  {
    var some := [row] + rest;
    if rest == [] {
      assert some == [row] && some[..0] == [];
    } else {
      var n := |rest| - 1;
      FirstBestWins(rest[..n], row);
      assert some[..n + 1] == [row] + rest[..n] && some[n + 1] == rest[n];
    }
  }

  /** The collapse is the same for every order of the rows if and only if their best rows are unique. */
  lemma CollapseOrderExact(rows: seq<Row>)
    ensures (forall other | multiset(other) == multiset(rows) :: Collapsed(other) == Collapsed(rows)) <==>
            BestUnique(rows)
  {
    if BestUnique(rows) {
      forall other | multiset(other) == multiset(rows) ensures Collapsed(other) == Collapsed(rows) {
        forall row ensures row in rows <==> row in other {
          assert row in multiset(rows) <==> row in multiset(other);
        }
        CollapseIgnoresOrder(rows, other);
      }
    } else {
      var other := CollapsesOtherwise(rows);
      assert multiset(other) == multiset(rows) && Collapsed(other) != Collapsed(rows);
    }
  }

  /** With two best rows of one key, moving one of them to the front makes a difference. */
  lemma CollapsesOtherwise(rows: seq<Row>) returns (other: seq<Row>)
    requires !BestUnique(rows)
    ensures multiset(other) == multiset(rows) && Collapsed(other) != Collapsed(rows)
  {
    var x, y :| BestOf(rows, x) && BestOf(rows, y) && KeyOf(x) == KeyOf(y) && x != y;
    var a := BestInFront(rows, x);
    var b := BestInFront(rows, y);
    other := if Collapsed(a) == Collapsed(rows) then b else a;
  }

  lemma BestInFront(rows: seq<Row>, row: Row) returns (other: seq<Row>)
    requires BestOf(rows, row)
    ensures multiset(other) == multiset(rows)
    ensures KeyOf(row) in Collapsed(other) && Collapsed(other)[KeyOf(row)] == row
  {
    var i :| 0 <= i < |rows| && rows[i] == row;
    var rest := rows[..i] + rows[i + 1..];
    assert rows == rows[..i] + [row] + rows[i + 1..];
    assert forall r | r in rest :: r in rows;
    FirstBestWins(rest, row);
    other := [row] + rest;
  }

  ghost predicate KnownTiers(rows: seq<Row>) {
    forall row | row in rows :: KnownTier(row.tier)
  }

  /** The four tiers rank apart, so rows that have no other are best in one way. */
  lemma KnownTiersAreUnique(rows: seq<Row>)
    requires KnownTiers(rows)
    ensures BestUnique(rows)
  {
    forall x, y | BestOf(rows, x) && BestOf(rows, y) && KeyOf(x) == KeyOf(y) ensures x == y {
      assert KnownTier(x.tier) && KnownTier(y.tier) && TierRank(x.tier) == TierRank(y.tier);
    }
  }

  ghost predicate HasTier(rows: seq<Row>, key: Key, tier: string) {
    exists row :: row in rows && KeyOf(row) == key && row.tier == tier
  }

  /** Banned goes before gold, gold before silver, and silver before bronze. */
  lemma BestTier(rows: seq<Row>, key: Key)
    requires KnownTiers(rows) && HasKey(rows, key)
    ensures key in Collapsed(rows) && KeyOf(Collapsed(rows)[key]) == key && Collapsed(rows)[key] in rows
    ensures Collapsed(rows)[key].tier ==
            if HasTier(rows, key, "banned") then "banned"
            else if HasTier(rows, key, "gold") then "gold"
            else if HasTier(rows, key, "silver") then "silver"
            else "bronze"
  {
    CollapsedExact(rows);
    var best := Collapsed(rows)[key];
    assert HasTier(rows, key, best.tier) && KnownTier(best.tier);
    forall tier | HasTier(rows, key, tier) ensures TierRank(best.tier) <= TierRank(tier) {
    }
  }

  /* ---------- sorting and numbering ---------- */

  function SortKey(row: Row): string {
    Join([row.facet, row.context, row.tier, row.matcher], '\0')
  }

  /** No field but perhaps the matcher holds a NUL. */
  ghost predicate NulFree(row: Row) {
    '\0' !in row.facet && '\0' !in row.context && '\0' !in row.tier
  }

  /** Rows that only differ in the kind of match. */
  predicate Twins(a: Row, b: Row) {
    a.(exact := b.exact) == b
  }

  lemma SortKeyExact(a: Row, b: Row)
    requires NulFree(a) && NulFree(b)
    ensures SortKey(a) == SortKey(b) <==> Twins(a, b)
  {
    var x, y := [a.facet, a.context, a.tier, a.matcher], [b.facet, b.context, b.tier, b.matcher];
    if SortKey(a) == SortKey(b) {
      assert x[..3] == [a.facet, a.context, a.tier] && y[..3] == [b.facet, b.context, b.tier];
      JoinFromLeft(x, y, '\0');
      assert x[0] == y[0] && x[1] == y[1] && x[2] == y[2] && x[3] == y[3];
    }
  }

  function CollapseKey(row: Row): string {
    Join([row.matcher, if row.exact then "exact" else "prefix", row.facet, row.context], '\0')
  }

  function DedupeKey(row: Row): string {
    Join([row.matcher, row.tier, row.facet, row.context], '\0')
  }

  /** The joined keys of the collapse and of the dedupe tell rows apart as their fields do, whatever the
      matchers are. */
  lemma JoinedKeysExact(a: Row, b: Row)
    requires NulFree(a) && NulFree(b)
    ensures CollapseKey(a) == CollapseKey(b) <==> KeyOf(a) == KeyOf(b)
    ensures DedupeKey(a) == DedupeKey(b) <==> Twins(a, b)
  {
    var kindA, kindB := if a.exact then "exact" else "prefix", if b.exact then "exact" else "prefix";
    if CollapseKey(a) == CollapseKey(b) {
      LastThree(a.matcher, [kindA, a.facet, a.context], b.matcher, [kindB, b.facet, b.context]);
    }
    if DedupeKey(a) == DedupeKey(b) {
      LastThree(a.matcher, [a.tier, a.facet, a.context], b.matcher, [b.tier, b.facet, b.context]);
    }
  }

  lemma LastThree(x: string, a: seq<string>, y: string, b: seq<string>)
    requires |a| == |b| == 3 && AllFree(a, '\0') && AllFree(b, '\0')
    requires Join([x, a[0], a[1], a[2]], '\0') == Join([y, b[0], b[1], b[2]], '\0')
    ensures x == y && a[0] == b[0] && a[1] == b[1] && a[2] == b[2]
  {
    var s, t := [x, a[0], a[1], a[2]], [y, b[0], b[1], b[2]];
    assert s[1..] == a && t[1..] == b;
    JoinFromRight(s, t, '\0');
    assert s[0] == t[0] && s[1] == t[1] && s[2] == t[2] && s[3] == t[3];
  }

  lemma {:induction false} CommonFront(front: string, a: string, b: string)
    ensures Precedes(front + a, front + b) <==> Precedes(a, b)
  {
    if front == "" {
      assert front + a == a && front + b == b;
    } else {
      assert (front + a)[1..] == front[1..] + a && (front + b)[1..] == front[1..] + b;
      CommonFront(front[1..], a, b);
    }
  }

  /** With a NUL after them, texts that differ and hold none are in the order of the texts. */
  lemma {:induction false} FieldFirst(a: string, b: string, x: string, y: string)
    requires '\0' !in a && '\0' !in b && a != b
    ensures Precedes(a + ['\0'] + x, b + ['\0'] + y) <==> Precedes(a, b)
    decreases |a|
  {
    var s, t := a + ['\0'] + x, b + ['\0'] + y;
    if a == "" || b == "" {
      assert s[0] == if a == "" then '\0' else a[0];
      assert t[0] == if b == "" then '\0' else b[0];
    } else if a[0] == b[0] {
      assert s[1..] == a[1..] + ['\0'] + x && t[1..] == b[1..] + ['\0'] + y;
      assert a == [a[0]] + a[1..] && b == [b[0]] + b[1..];
      FieldFirst(a[1..], b[1..], x, y);
    }
  }

  lemma FieldThen(a: string, b: string, x: string, y: string)
    requires '\0' !in a && '\0' !in b
    ensures Precedes(a + ['\0'] + x, b + ['\0'] + y) <==> Precedes(a, b) || (a == b && Precedes(x, y))
  {
    if a == b {
      CommonFront(a + ['\0'], x, y);
      PrecedesOrder(a, a, "");
    } else {
      FieldFirst(a, b, x, y);
    }
  }

  /** Rows are sorted by facet, then context, then tier, then matcher. */
  lemma SortKeyOrder(a: Row, b: Row)
    requires NulFree(a) && NulFree(b)
    ensures Precedes(SortKey(a), SortKey(b)) <==>
            || Precedes(a.facet, b.facet)
            || (a.facet == b.facet && Precedes(a.context, b.context))
            || (a.facet == b.facet && a.context == b.context && Precedes(a.tier, b.tier))
            || (a.facet == b.facet && a.context == b.context && a.tier == b.tier && Precedes(a.matcher, b.matcher))
  {
    JoinedFour(a.facet, a.context, a.tier, a.matcher);
    JoinedFour(b.facet, b.context, b.tier, b.matcher);
    var nul := ['\0'];
    FieldThen(a.tier, b.tier, a.matcher, b.matcher);
    FieldThen(a.context, b.context, a.tier + nul + a.matcher, b.tier + nul + b.matcher);
    FieldThen(a.facet, b.facet, a.context + nul + (a.tier + nul + a.matcher),
              b.context + nul + (b.tier + nul + b.matcher));
  }

  lemma JoinedFour(a: string, b: string, c: string, d: string)
    ensures Join([a, b, c, d], '\0') == a + ['\0'] + (b + ['\0'] + (c + ['\0'] + d))
  {
    assert [a, b, c, d][1..] == [b, c, d] && [b, c, d][1..] == [c, d] && [c, d][1..] == [d];
    assert Join([c, d], '\0') == c + ['\0'] + d;
    assert Join([b, c, d], '\0') == b + ['\0'] + Join([c, d], '\0');
  }

  /** Any order that the sort may leave: rows that differ in kind only may come either way round. */
  ghost predicate Ascends(order: seq<Row>) {
    forall i, j | 0 <= i < j < |order| :: !Precedes(SortKey(order[j]), SortKey(order[i]))
  }

  ghost predicate Enumerates(order: seq<Row>, collapsed: map<Key, Row>) {
    && (forall i, j | 0 <= i < j < |order| :: order[i] != order[j])
    && forall row :: row in order <==> KeyOf(row) in collapsed && collapsed[KeyOf(row)] == row
  }

  predicate HasTwin(rows: seq<Row>, row: Row) {
    exists i | 0 <= i < |rows| :: Twins(rows[i], row)
  }

  /** The rows whose twin does not stand before them. */
  function Deduped(order: seq<Row>): seq<Row> {
    if order == [] then []
    else
      var init, last := Deduped(order[..|order| - 1]), order[|order| - 1];
      if HasTwin(init, last) then init else init + [last]
  }

  /** What the distiller may emit for the rows; the index of a row is its place. */
  ghost predicate Emits(rows: seq<Row>, out: seq<Row>) {
    exists order :: EmitsBy(rows, order, out)
  }

  ghost predicate EmitsBy(rows: seq<Row>, order: seq<Row>, out: seq<Row>) {
    Enumerates(order, Collapsed(rows)) && Ascends(order) && out == Deduped(order)
  }

  /** No two rows of the collapse differ in the kind of match only. */
  ghost predicate NoTwins(rows: seq<Row>) {
    forall key, other | key in Collapsed(rows) && other in Collapsed(rows)
    && Twins(Collapsed(rows)[key], Collapsed(rows)[other]) ::
      key == other
  }

  lemma {:induction false} DedupedKeepsAll(order: seq<Row>)
    requires forall i, j | 0 <= i < j < |order| :: !Twins(order[i], order[j])
    ensures Deduped(order) == order
  {
    if order != [] {
      var init := order[..|order| - 1];
      DedupedKeepsAll(init);
      assert order == init + [order[|order| - 1]];
    }
  }

  ghost predicate StrictlyAscends(order: seq<Row>) {
    forall i, j | 0 <= i < j < |order| :: Precedes(SortKey(order[i]), SortKey(order[j]))
  }

  lemma {:induction false} OneAscent(a: seq<Row>, b: seq<Row>)
    requires StrictlyAscends(a) && StrictlyAscends(b) && SameRows(a, b)
    ensures a == b
    decreases |a|
  {
    assert a == [] || a[0] in b;
    assert b == [] || b[0] in a;
    if a != [] {
      PrecedesOrder(SortKey(a[0]), SortKey(b[0]), "");
      assert a[0] == b[0];
      RestSame(a, b);
      RestSame(b, a);
      OneAscent(a[1..], b[1..]);
      assert a == [a[0]] + a[1..] && b == [b[0]] + b[1..];
    }
  }

  lemma RestSame(a: seq<Row>, b: seq<Row>)
    requires StrictlyAscends(a) && a != [] && b != [] && a[0] == b[0] && SameRows(a, b)
    ensures forall row | row in a[1..] :: row in b[1..]
  {
    forall row | row in a[1..] ensures row in b[1..] {
      var i :| 0 < i < |a| && a[i] == row;
      PrecedesOrder(SortKey(a[0]), SortKey(row), "");
      assert row in b;
      var j :| 0 <= j < |b| && b[j] == row;
      assert j != 0;
      assert b[1..][j - 1] == row;
    }
  }

  ghost predicate AllNulFree(rows: seq<Row>) {
    forall row | row in rows :: NulFree(row)
  }

  lemma OrderIsStrict(rows: seq<Row>, order: seq<Row>)
    requires AllNulFree(rows) && NoTwins(rows) && Enumerates(order, Collapsed(rows)) && Ascends(order)
    ensures StrictlyAscends(order) && Deduped(order) == order
  {
    CollapsedExact(rows);
    forall i, j | 0 <= i < j < |order|
      ensures Precedes(SortKey(order[i]), SortKey(order[j])) && !Twins(order[i], order[j])
    {
      assert order[i] in order && order[j] in order;
      assert order[i] in rows && order[j] in rows;
      PrecedesOrder(SortKey(order[i]), SortKey(order[j]), "");
      SortKeyExact(order[i], order[j]);
      assert order[i] != order[j];
    }
    DedupedKeepsAll(order);
  }

  /** With unique best rows and no rows that differ in kind only, the emitted rows and their indexes are the
      same for every order of the files and every order in which the map is read. */
  lemma EmissionIsDetermined(a: seq<Row>, b: seq<Row>, outA: seq<Row>, outB: seq<Row>)
    requires AllNulFree(a) && BestUnique(a) && SameRows(a, b) && NoTwins(a)
    requires Emits(a, outA) && Emits(b, outB)
    ensures outA == outB
  {
    CollapseIgnoresOrder(a, b);
    var x :| EmitsBy(a, x, outA);
    var y :| EmitsBy(b, y, outB);
    OrderIsStrict(a, x);
    OrderIsStrict(a, y);
    OneAscent(x, y);
  }

  /* ---------- the dedupe ignores the kind of match ---------- */

  /** The row at the place, with no twin before it. */
  ghost predicate FirstTwinAt(order: seq<Row>, k: nat, row: Row) {
    k < |order| && order[k] == row && forall i | 0 <= i < k :: !Twins(order[i], row)
  }

  ghost predicate FirstTwin(order: seq<Row>, row: Row) {
    exists k: nat :: FirstTwinAt(order, k, row)
  }

  /** The dedupe keeps the first of each two rows that differ in kind only. */
  lemma {:induction false} DedupedExact(order: seq<Row>, row: Row)
    ensures row in Deduped(order) <==> FirstTwin(order, row)
  {
    if order != [] {
      var n := |order| - 1;
      var init, last := order[..n], order[n];
      DedupedExact(init, row);
      DedupedExact(init, last);
      HasTwinDeduped(init, last);
      if k: nat :| FirstTwinAt(order, k, row) {
        if k < n {
          assert FirstTwinAt(init, k, row);
        } else {
          assert forall i | 0 <= i < n :: init[i] == order[i];
        }
      }
      if k: nat :| FirstTwinAt(init, k, row) {
        assert FirstTwinAt(order, k, row);
      }
      if row == last && !HasTwin(Deduped(init), last) {
        assert forall i | 0 <= i < n :: order[i] == init[i];
        assert FirstTwinAt(order, n, row);
      }
    }
  }

  lemma {:induction false} HasTwinDeduped(order: seq<Row>, row: Row)
    ensures HasTwin(Deduped(order), row) <==> HasTwin(order, row)
  {
    if order != [] {
      var n := |order| - 1;
      HasTwinDeduped(order[..n], row);
      HasTwinMore(order[..n], order[n], row);
      HasTwinMore(Deduped(order[..n]), order[n], row);
      assert order == order[..n] + [order[n]];
      if HasTwin(Deduped(order[..n]), order[n]) && Twins(order[n], row) {
        var i :| 0 <= i < |Deduped(order[..n])| && Twins(Deduped(order[..n])[i], order[n]);
        assert Twins(Deduped(order[..n])[i], row);
      }
    }
  }

  lemma HasTwinMore(rows: seq<Row>, last: Row, row: Row)
    ensures HasTwin(rows + [last], row) <==> HasTwin(rows, row) || Twins(last, row)
  {
    var more := rows + [last];
    if i :| 0 <= i < |more| && Twins(more[i], row) {
      assert i < |rows| ==> rows[i] == more[i];
    }
    if i :| 0 <= i < |rows| && Twins(rows[i], row) {
      assert more[i] == rows[i];
    }
    assert more[|rows|] == last;
  }

  function Swapped(order: seq<Row>, i: nat, j: nat): seq<Row>
    requires i < j < |order|
  {
    order[i := order[j]][j := order[i]]
  }

  lemma SwappedSame(order: seq<Row>, i: nat, j: nat)
    requires i < j < |order| && forall k, l | 0 <= k < l < |order| :: order[k] != order[l]
    ensures SameRows(Swapped(order, i, j), order)
    ensures var other := Swapped(order, i, j); forall k, l | 0 <= k < l < |other| :: other[k] != other[l]
  {
    var other := Swapped(order, i, j);
    forall row ensures row in other <==> row in order {
      if row in order {
        var k :| 0 <= k < |order| && order[k] == row;
        assert other[k] == row || (k == i && other[j] == row) || (k == j && other[i] == row);
      }
    }
  }

  /** Twins can be emitted the other way round, and then the other one is dropped. */
  lemma TwinsSwap(rows: seq<Row>, order: seq<Row>, i: nat, j: nat)
    requires Enumerates(order, Collapsed(rows)) && Ascends(order) && i < j < |order| && Twins(order[i], order[j])
    requires forall row | row in order :: NulFree(row)
    ensures EmitsBy(rows, Swapped(order, i, j), Deduped(Swapped(order, i, j)))
    ensures Deduped(Swapped(order, i, j)) != Deduped(order)
  {
    var other := Swapped(order, i, j);
    assert order[i] in order && order[j] in order;
    SortKeyExact(order[i], order[j]);
    assert forall k | 0 <= k < |order| :: SortKey(other[k]) == SortKey(order[k]);
    assert Ascends(other);
    SwappedSame(order, i, j);
    NoThirdTwin(order, i, j);
    assert FirstTwinAt(order, i, order[i]);
    DedupedExact(order, order[i]);
    DedupedExact(other, order[i]);
    forall k: nat ensures !FirstTwinAt(other, k, order[i]) {
      if k < |other| && other[k] == order[i] {
        assert k == j && Twins(other[i], order[i]);
      }
    }
  }

  lemma NoThirdTwin(order: seq<Row>, i: nat, j: nat)
    requires i < j < |order| && Twins(order[i], order[j])
    requires forall k, l | 0 <= k < l < |order| :: order[k] != order[l]
    ensures forall k | 0 <= k < |order| && k != i && k != j :: !Twins(order[k], order[i])
  {
  }

  /** What is emitted is determined exactly when no two collapsed rows differ in the kind of match only. */
  lemma DeterminedExactly(rows: seq<Row>, out: seq<Row>)
    requires AllNulFree(rows) && BestUnique(rows) && Emits(rows, out)
    ensures (forall other | Emits(rows, other) :: other == out) <==> NoTwins(rows)
  {
    if NoTwins(rows) {
      forall other | Emits(rows, other) ensures other == out {
        EmissionIsDetermined(rows, rows, other, out);
      }
    } else {
      var other := TwinsEmitTwo(rows, out);
      assert Emits(rows, other) && other != out;
    }
  }

  lemma TwinsEmitTwo(rows: seq<Row>, out: seq<Row>) returns (other: seq<Row>)
    requires AllNulFree(rows) && Emits(rows, out) && !NoTwins(rows)
    ensures Emits(rows, other) && other != out
  {
    var order :| EmitsBy(rows, order, out);
    var i, j := TwinsInOrder(rows, order);
    CollapsedExact(rows);
    assert forall row | row in order :: row in rows;
    TwinsSwap(rows, order, i, j);
    other := Deduped(Swapped(order, i, j));
    assert EmitsBy(rows, Swapped(order, i, j), other);
  }

  lemma TwinsInOrder(rows: seq<Row>, order: seq<Row>) returns (i: nat, j: nat)
    requires Enumerates(order, Collapsed(rows)) && !NoTwins(rows)
    ensures i < j < |order| && Twins(order[i], order[j])
  {
    CollapsedExact(rows);
    var key, twin :| key in Collapsed(rows) && twin in Collapsed(rows)
      && Twins(Collapsed(rows)[key], Collapsed(rows)[twin]) && key != twin;
    var x, y := Collapsed(rows)[key], Collapsed(rows)[twin];
    assert x in order && y in order && x != y;
    i :| 0 <= i < |order| && order[i] == x;
    j :| 0 <= j < |order| && order[j] == y;
    if j < i {
      i, j := j, i;
    }
  }

  /* ---------- the emitter ---------- */

  function InsertRow(order: seq<Row>, row: Row): seq<Row> {
    if order == [] || Precedes(SortKey(row), SortKey(order[0])) then [row] + order
    else [order[0]] + InsertRow(order[1..], row)
  }

  lemma {:induction false} InsertRowExact(order: seq<Row>, row: Row)
    requires Ascends(order) && row !in order && forall i, j | 0 <= i < j < |order| :: order[i] != order[j]
    ensures var more := InsertRow(order, row);
      && (forall other :: other in more <==> other in order || other == row)
      && Ascends(more) && forall i, j | 0 <= i < j < |more| :: more[i] != more[j]
  {
    if order == [] {
    } else if Precedes(SortKey(row), SortKey(order[0])) {
      forall k | 0 <= k < |order| ensures !Precedes(SortKey(order[k]), SortKey(row)) {
        PrecedesOrder(SortKey(order[k]), SortKey(row), SortKey(order[0]));
        PrecedesOrder(SortKey(row), SortKey(order[0]), "");
      }
    } else {
      InsertRowExact(order[1..], row);
      var rest := InsertRow(order[1..], row);
      assert order == [order[0]] + order[1..];
      forall k | 0 <= k < |rest| ensures !Precedes(SortKey(rest[k]), SortKey(order[0])) && rest[k] != order[0] {
        assert rest[k] in rest;
        if rest[k] != row {
          var i :| 0 <= i < |order[1..]| && order[1..][i] == rest[k];
          assert order[i + 1] == rest[k];
        }
      }
    }
  }

  /** Collapse the rows, sort what is left and drop twins. */
  method DistillGroupRows(rows: seq<Row>) returns (out: seq<Row>)
    ensures Emits(rows, out)
  {
    var collapsed := CollapseRows(rows);
    CollapsedExact(rows);
    var left := collapsed.Keys;
    var order: seq<Row> := [];
    while left != {}
      invariant left <= collapsed.Keys && Ascends(order)
      invariant forall i, j | 0 <= i < j < |order| :: order[i] != order[j]
      invariant forall row :: row in order <==>
                  KeyOf(row) in collapsed && KeyOf(row) !in left && collapsed[KeyOf(row)] == row
      decreases |left|
    {
      var key :| key in left;
      InsertRowExact(order, collapsed[key]);
      order := InsertRow(order, collapsed[key]);
      left := left - {key};
    }
    out := [];
    for i := 0 to |order|
      invariant out == Deduped(order[..i])
    {
      assert order[..i + 1][..i] == order[..i];
      if !HasTwin(out, order[i]) {
        out := out + [order[i]];
      }
    }
    assert order[..|order|] == order;
    assert EmitsBy(rows, order, out);
  }
}
