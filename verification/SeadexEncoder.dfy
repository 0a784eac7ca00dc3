/** Building the physical form of score tables. */
module SeadexEncoder {
  import opened Wrappers
  import opened Text
  import opened TemplateCodec
  import opened Frames
  import opened TupleColumns
  import opened SeadexEncoding

  datatype Group = Group(code: char, skeleton: string, tuples: set<string>, captures: seq<seq<string>>)

  datatype EncodeError =
    | DuplicateTuple(key: string)
    | BadTemplate(restore: RestoreError)
    | BadGroup(group: GroupError)

  function GroupKey(code: char, skeleton: string): string {
    [code] + "\0" + skeleton
  }

  lemma GroupKeyInjective(a: char, b: char, s: string, t: string)
    requires GroupKey(a, s) == GroupKey(b, t)
    ensures a == b && s == t
  {
    assert GroupKey(a, s)[0] == a && GroupKey(b, t)[0] == b;
    assert GroupKey(a, s)[2..] == s && GroupKey(b, t)[2..] == t;
  }

  /* ---------- grouping ---------- */

  /** The tuple texts are those of the capture lists. */
  ghost predicate TextsOf(captures: seq<seq<string>>, tuples: set<string>) {
    tuples == set k | 0 <= k < |captures| :: Join(captures[k], ',')
  }

  ghost predicate GroupOf(entries: set<Entry>, group: Group) {
    && CapturesOf(Members(entries, group.code, group.skeleton), group.captures)
    && group.captures != []
    && TextsOf(group.captures, group.tuples)
  }

  ghost predicate Grouped(entries: set<Entry>, groups: map<string, Group>) {
    && (forall g | g in groups :: g == GroupKey(groups[g].code, groups[g].skeleton) && GroupOf(entries, groups[g]))
    && (forall e | e in entries :: GroupKey(e.0, KeySkeleton(e.1)) in groups)
  }

  /** A new key changes the members of its own template alone. */
  lemma MembersGrow(entries: set<Entry>, code: char, key: string, c: char, s: string)
    ensures Members(entries + {(code, key)}, c, s) ==
            Members(entries, c, s) + (if c == code && s == KeySkeleton(key) then {key} else {})
  {
    var e := (code, key);
    forall k ensures k in Members(entries + {e}, c, s) <==>
      k in Members(entries, c, s) || (c == code && s == KeySkeleton(key) && k == key)
    {
      assert k in Members(entries, c, s) <==> (c, k) in entries && KeySkeleton(k) == s;
      assert k in Members(entries + {e}, c, s) <==> (c, k) in entries + {e} && KeySkeleton(k) == s;
    }
  }

  lemma CapturesGrow(members: set<string>, key: string, captures: seq<seq<string>>)
    requires CapturesOf(members, captures) && key !in members
    requires forall a | a in members :: KeySkeleton(a) == KeySkeleton(key)
    ensures CapturesOf(members + {key}, captures + [KeyCaptures(key)])
  {
    var all, own := captures + [KeyCaptures(key)], KeyCaptures(key);
    if own in captures {
      CaptureOfMember(members, captures, key);
    }
    forall k | 0 <= k < |all| ensures HasKey(members + {key}, all[k]) {
      if k < |captures| {
        assert all[k] == captures[k];
        assert HasKey(members, captures[k]);
        var m :| m in members && KeyCaptures(m) == captures[k];
        assert m in members + {key};
      } else {
        assert key in members + {key} && KeyCaptures(key) == all[k];
      }
    }
    forall a | a in members + {key} ensures KeyCaptures(a) in all {
      if a in members {
        assert KeyCaptures(a) in captures;
      }
    }
  }

  lemma TextsGrow(captures: seq<seq<string>>, tuples: set<string>, own: seq<string>)
    requires TextsOf(captures, tuples)
    ensures TextsOf(captures + [own], tuples + {Join(own, ',')})
  {
    var all := captures + [own];
    forall t ensures t in tuples + {Join(own, ',')} <==> t in (set k | 0 <= k < |all| :: Join(all[k], ',')) {
      if t in tuples {
        var k :| 0 <= k < |captures| && Join(captures[k], ',') == t;
        assert all[k] == captures[k];
      }
      if t == Join(own, ',') {
        assert all[|captures|] == own;
      }
      if t in (set k | 0 <= k < |all| :: Join(all[k], ',')) {
        var k :| 0 <= k < |all| && Join(all[k], ',') == t;
        assert k < |captures| ==> all[k] == captures[k];
      }
    }
  }

  /** A tuple is taken exactly when its key is already in. */
  lemma TakenExact(members: set<string>, captures: seq<seq<string>>, tuples: set<string>, key: string)
    requires CapturesOf(members, captures) && TextsOf(captures, tuples)
    requires forall a | a in members :: KeySkeleton(a) == KeySkeleton(key)
    ensures Join(KeyCaptures(key), ',') in tuples <==> key in members
  {
    var tuple := Join(KeyCaptures(key), ',');
    if tuple in tuples {
      var k :| 0 <= k < |captures| && Join(captures[k], ',') == tuple;
      assert HasKey(members, captures[k]);
      var other :| other in members && KeyCaptures(other) == captures[k];
      TupleTextDecides(key, other);
    }
    if key in members {
      var k :| 0 <= k < |captures| && captures[k] == KeyCaptures(key);
      assert Join(captures[k], ',') == tuple;
    }
  }

  lemma OtherGroupsStay(entries: set<Entry>, groups: map<string, Group>, code: char, key: string, g: string)
    requires Grouped(entries, groups) && g in groups && g != GroupKey(code, KeySkeleton(key))
    ensures GroupOf(entries + {(code, key)}, groups[g])
  {
    MembersGrow(entries, code, key, groups[g].code, groups[g].skeleton);
    assert Members(entries + {(code, key)}, groups[g].code, groups[g].skeleton) ==
           Members(entries, groups[g].code, groups[g].skeleton);
  }

  /** Put one key into its group, unless its tuple is taken. */
  method AddKey(groups: map<string, Group>, code: char, key: string, ghost entries: set<Entry>)
    returns (ok: bool, groups': map<string, Group>)
    requires Grouped(entries, groups)
    ensures ok <==> (code, key) !in entries
    ensures ok ==> Grouped(entries + {(code, key)}, groups')
  {
    var skeleton, captures := EncodedTemplateKey(key);
    var tuple := Join(captures, ',');
    var groupKey := GroupKey(code, skeleton);
    var group := if groupKey in groups then groups[groupKey] else Group(code, skeleton, {}, []);
    ghost var members := Members(entries, code, KeySkeleton(key));
    GroupBefore(entries, groups, code, key, group);
    TakenExact(members, group.captures, group.tuples, key);
    if tuple in group.tuples {
      return false, groups;
    }
    CapturesGrow(members, key, group.captures);
    TextsGrow(group.captures, group.tuples, captures);
    MembersGrow(entries, code, key, code, KeySkeleton(key));
    groups' := groups[groupKey := group.(tuples := group.tuples + {tuple}, captures := group.captures + [captures])];
    GroupedGrows(entries, groups, code, key, groups'[groupKey]);
    ok := true;
  }

  /** The group of a key before it is added: the one there, or a new one for a template without keys. */
  lemma GroupBefore(entries: set<Entry>, groups: map<string, Group>, code: char, key: string, group: Group)
    requires Grouped(entries, groups)
    requires var g := GroupKey(code, KeySkeleton(key));
             group == if g in groups then groups[g] else Group(code, KeySkeleton(key), {}, [])
    ensures group.code == code && group.skeleton == KeySkeleton(key)
    ensures CapturesOf(Members(entries, code, KeySkeleton(key)), group.captures)
            && TextsOf(group.captures, group.tuples)
    ensures (code, key) in entries <==> key in Members(entries, code, KeySkeleton(key))
  {
    var g := GroupKey(code, KeySkeleton(key));
    if g in groups {
      GroupKeyInjective(code, group.code, KeySkeleton(key), group.skeleton);
    } else {
      assert Members(entries, code, KeySkeleton(key)) == {};
    }
  }

  lemma GroupedGrows(entries: set<Entry>, groups: map<string, Group>, code: char, key: string, group: Group)
    requires Grouped(entries, groups) && group.code == code && group.skeleton == KeySkeleton(key)
    requires GroupOf(entries + {(code, key)}, group)
    ensures Grouped(entries + {(code, key)}, groups[GroupKey(code, KeySkeleton(key)) := group])
  {
    var g := GroupKey(code, KeySkeleton(key));
    forall h | h in groups && h != g ensures GroupOf(entries + {(code, key)}, groups[h]) {
      OtherGroupsStay(entries, groups, code, key, h);
    }
  }

  /** Put the keys of one map into the groups, in any order. */
  method AddMap(groups: map<string, Group>, values: ScoreMap, ghost entries: set<Entry>)
    returns (ok: bool, clash: string, groups': map<string, Group>)
    requires Grouped(entries, groups)
    ensures ok <==> Entries(values) !! entries
    ensures !ok ==> clash in values && (ScoreCode(values[clash]), clash) in entries
    ensures ok ==> Grouped(entries + Entries(values), groups')
  {
    clash, groups' := "", groups;
    var rest := values.Keys;
    while rest != {}
      invariant rest <= values.Keys
      invariant AddedOf(values, rest) !! entries && Grouped(entries + AddedOf(values, rest), groups')
      decreases |rest|
    {
      var key :| key in rest;
      var code := ScoreCode(values[key]);
      AddedStep(values, rest, key, entries);
      ok, groups' := AddKey(groups', code, key, entries + AddedOf(values, rest));
      if !ok {
        return false, key, groups';
      }
      rest := rest - {key};
    }
    assert AddedOf(values, {}) == Entries(values);
    ok := true;
  }

  /** The entries of the keys not left in `rest`. */
  ghost function AddedOf(values: ScoreMap, rest: set<string>): set<Entry> {
    set key | key in values && key !in rest :: (ScoreCode(values[key]), key)
  }

  lemma AddedStep(values: ScoreMap, rest: set<string>, key: string, entries: set<Entry>)
    requires key in rest && rest <= values.Keys
    ensures var e := (ScoreCode(values[key]), key);
      && e in Entries(values) && e !in AddedOf(values, rest)
      && entries + AddedOf(values, rest - {key}) == entries + AddedOf(values, rest) + {e}
      && AddedOf(values, rest - {key}) == AddedOf(values, rest) + {e}
      && AddedOf(values, rest) <= Entries(values)
  {
    var e := (ScoreCode(values[key]), key);
    assert AddedOf(values, rest - {key}) == AddedOf(values, rest) + {e};
  }

  /* ---------- emitting ---------- */

  /** The table so far: exact in what it holds, and holding every entry of the groups done. */
  ghost predicate Emitted(entries: set<Entry>, done: set<string>, table: Table) {
    && (forall b | b in table.direct :: BucketExact(entries, b, table.direct[b]))
    && (forall b | b in table.routes :: RouteBucketExact(entries, b, table.routes[b]))
    && (forall e | e in entries && GroupKey(e.0, KeySkeleton(e.1)) in done :: Stored(entries, table, e))
  }

  ghost predicate RouteBucketExact(entries: set<Entry>, length: nat, bucket: map<string, Route>) {
    forall r | r in bucket ::
      |r| >= 2 && r == RouteKey(r[0], r[2..]) && length == |r| && RouteExact(entries, r[0], r[2..], bucket[r])
  }

  ghost predicate Stored(entries: set<Entry>, table: Table, e: Entry) {
    if Members(entries, e.0, KeySkeleton(e.1)) == {e.1} then
      |e.1| in table.direct && [e.0] + e.1 in table.direct[|e.1|]
    else
      var r := RouteKey(e.0, KeySkeleton(e.1));
      |r| in table.routes && r in table.routes[|r|]
  }

  lemma OneKeyOneTuple(key: string, captures: seq<seq<string>>, tuples: set<string>)
    requires CapturesOf({key}, captures) && TextsOf(captures, tuples)
    ensures tuples <= {Join(KeyCaptures(key), ',')}
  {
    forall t | t in tuples ensures t == Join(KeyCaptures(key), ',') {
      var k :| 0 <= k < |captures| && Join(captures[k], ',') == t;
      assert HasKey({key}, captures[k]);
    }
  }

  lemma OneTupleOneKey(members: set<string>, captures: seq<seq<string>>, tuples: set<string>, key: string)
    requires CapturesOf(members, captures) && TextsOf(captures, tuples) && OneTemplate(members) && key in members
    requires tuples == {Join(KeyCaptures(key), ',')}
    ensures members == {key}
  {
    forall other | other in members ensures other == key {
      TakenExact(members, captures, tuples, other);
      TupleTextDecides(key, other);
    }
  }

  /** A group has one tuple exactly when its template has one key. */
  lemma SingleExact(members: set<string>, captures: seq<seq<string>>, tuples: set<string>, key: string)
    requires CapturesOf(members, captures) && TextsOf(captures, tuples) && OneTemplate(members) && key in members
    ensures |tuples| == 1 <==> members == {key}
    ensures |tuples| == 1 ==> tuples == {Join(KeyCaptures(key), ',')}
  {
    var text := Join(KeyCaptures(key), ',');
    TakenExact(members, captures, tuples, key);
    SubsetSize({text}, tuples);
    if |tuples| == 1 {
      SameSize({text}, tuples);
      OneTupleOneKey(members, captures, tuples, key);
    }
    if members == {key} {
      OneKeyOneTuple(key, captures, tuples);
      assert tuples == {text};
    }
  }

  lemma SubsetSize<T>(a: set<T>, b: set<T>)
    requires a <= b
    ensures |a| <= |b|
  {
    assert b == a + (b - a);
  }

  lemma SameSize<T>(a: set<T>, b: set<T>)
    requires a <= b && |a| == |b|
    ensures a == b
  {
    assert b == a + (b - a);
  }

  /** The first key of a group. */
  lemma GroupKeyOf(entries: set<Entry>, group: Group) returns (key: string)
    requires GroupOf(entries, group)
    ensures key in Members(entries, group.code, group.skeleton)
    ensures (group.code, key) in entries && KeySkeleton(key) == group.skeleton
  {
    assert HasKey(Members(entries, group.code, group.skeleton), group.captures[0]);
    key :| key in Members(entries, group.code, group.skeleton) && KeyCaptures(key) == group.captures[0];
  }

  function Bucketed<V>(buckets: map<nat, map<string, V>>, b: nat, key: string, value: V): map<nat, map<string, V>> {
    buckets[b := (if b in buckets then buckets[b] else map[])[key := value]]
  }

  /** Store a group of one key directly. No template of an encoded key fails to be restored. */
  method EmitDirect(table: Table, group: Group, ghost entries: set<Entry>, ghost done: set<string>, ghost key: string)
    returns (res: Result<Table, EncodeError>)
    requires Emitted(entries, done, table) && GroupOf(entries, group)
    requires key in Members(entries, group.code, group.skeleton) && |group.tuples| == 1
    ensures res.Success? && Emitted(entries, done + {GroupKey(group.code, group.skeleton)}, res.value)
  {
    SingleExact(Members(entries, group.code, group.skeleton), group.captures, group.tuples, key);
    var tuple :| tuple in group.tuples;
    TupleCapturesExact(key);
    RoundTrip(key);
    var restored := RestoreEncodedTemplate(group.skeleton, if tuple == "" then [] else Split(tuple, ','));
    match restored {
      case Failure(error) => return Failure(BadTemplate(error));
      case Success(text) =>
        res :=
          Success(table.(direct := Bucketed(table.direct, |text|, [group.code] + text, [group.code] + BlobKey(text))));
        DirectEmitted(entries, done, table, group.code, text, BlobKey(text));
    }
  }

  lemma DirectEmitted(entries: set<Entry>, done: set<string>, table: Table, code: char, key: string, blob: string)
    requires Emitted(entries, done, table) && (code, key) in entries
             && Members(entries, code, KeySkeleton(key)) == {key}
    requires blob == BlobKey(key)
    ensures Emitted(entries, done + {GroupKey(code, KeySkeleton(key))},
                    table.(direct := Bucketed(table.direct, |key|, [code] + key, [code] + blob)))
  {
    var table' := table.(direct := Bucketed(table.direct, |key|, [code] + key, [code] + blob));
    assert ([code] + key)[0] == code && ([code] + key)[1..] == key;
    forall e | e in entries && GroupKey(e.0, KeySkeleton(e.1)) in done + {GroupKey(code, KeySkeleton(key))}
      ensures Stored(entries, table', e)
    {
      if GroupKey(e.0, KeySkeleton(e.1)) in done {
        assert Stored(entries, table, e);
      } else {
        GroupKeyInjective(e.0, code, KeySkeleton(e.1), KeySkeleton(key));
        assert e.1 in Members(entries, code, KeySkeleton(key));
      }
    }
  }

  /** Store a group of several keys as a route. Its widths agree and its tuples do not collide. */
  method EmitRoute(table: Table, group: Group, ghost entries: set<Entry>, ghost done: set<string>, ghost key: string)
    returns (res: Result<Table, EncodeError>)
    requires Emitted(entries, done, table) && GroupOf(entries, group)
    requires key in Members(entries, group.code, group.skeleton) && |group.tuples| != 1
    ensures res.Success? && Emitted(entries, done + {GroupKey(group.code, group.skeleton)}, res.value)
  {
    ghost var members := Members(entries, group.code, group.skeleton);
    SingleExact(members, group.captures, group.tuples, key);
    assert Several(members);
    CapturesAreTokens(members, group.captures);
    var encoded;
    ghost var mask;
    encoded, mask := EncodedGroupData(group.captures);
    NoCollision(group.captures, mask);
    match encoded {
      case Failure(error) => return Failure(BadGroup(error));
      case Success(route) =>
        var routeKey := RouteKey(group.code, group.skeleton);
        res := Success(table.(routes := Bucketed(table.routes, |routeKey|, routeKey, route)));
        RouteEmitted(entries, done, table, group.code, group.skeleton, route);
    }
  }

  ghost predicate Several(members: set<string>) {
    forall key | key in members :: members != {key}
  }

  lemma RouteEmitted(entries: set<Entry>, done: set<string>, table: Table, code: char, skeleton: string, route: Route)
    requires Emitted(entries, done, table) && RouteExact(entries, code, skeleton, route)
    requires Several(Members(entries, code, skeleton))
    ensures var r := RouteKey(code, skeleton);
      Emitted(entries, done + {GroupKey(code, skeleton)}, table.(routes := Bucketed(table.routes, |r|, r, route)))
  {
    var r := RouteKey(code, skeleton);
    var table' := table.(routes := Bucketed(table.routes, |r|, r, route));
    RouteBucketed(entries, table.routes, code, skeleton, route);
    forall e | e in entries && GroupKey(e.0, KeySkeleton(e.1)) in done + {GroupKey(code, skeleton)}
      ensures Stored(entries, table', e)
    {
      if GroupKey(e.0, KeySkeleton(e.1)) in done {
        StillStored(entries, table, code, skeleton, route, e);
      } else {
        GroupKeyInjective(e.0, code, KeySkeleton(e.1), skeleton);
        assert e.1 in Members(entries, code, skeleton);
      }
    }
  }

  lemma StillStored(entries: set<Entry>, table: Table, code: char, skeleton: string, route: Route, e: Entry)
    requires Stored(entries, table, e)
    ensures var r := RouteKey(code, skeleton);
      Stored(entries, table.(routes := Bucketed(table.routes, |r|, r, route)), e)
  {
  }

  lemma RouteBucketed(entries: set<Entry>, routes: map<nat, map<string, Route>>, code: char, skeleton: string,
                      route: Route)
    requires RouteExact(entries, code, skeleton, route)
    requires forall b | b in routes :: RouteBucketExact(entries, b, routes[b])
    ensures var r := RouteKey(code, skeleton);
      forall b | b in Bucketed(routes, |r|, r, route) ::
        RouteBucketExact(entries, b, Bucketed(routes, |r|, r, route)[b])
  {
    var r := RouteKey(code, skeleton);
    assert r[0] == code && r[2..] == skeleton;
  }

  lemma EmittedRepresents(entries: set<Entry>, groups: map<string, Group>, table: Table)
    requires Grouped(entries, groups) && Emitted(entries, groups.Keys, table)
    ensures Represents(entries, table)
  {
    forall e | e in entries ensures Stored(entries, table, e) {
      assert GroupKey(e.0, KeySkeleton(e.1)) in groups;
    }
    forall b, r | b in table.routes && r in table.routes[b]
      ensures |r| >= 2 && r == RouteKey(r[0], r[2..]) && b == |r|
              && RouteExact(entries, r[0], r[2..], table.routes[b][r])
    {
      assert RouteBucketExact(entries, b, table.routes[b]);
    }
  }

  /** Group the entries of all maps, unless two of them clash. */
  method GroupAll(maps: seq<ScoreMap>) returns (ok: bool, clash: string, groups: map<string, Group>)
    ensures ok <==> !Shared(maps)
    ensures ok ==> Grouped(AllEntries(maps), groups)
  {
    groups := map[];
    clash := "";
    for k := 0 to |maps|
      invariant !Shared(maps[..k]) && Grouped(AllEntries(maps[..k]), groups)
    {
      AllEntriesStep(maps, k);
      SharedStep(maps, k);
      ok, clash, groups := AddMap(groups, maps[k], AllEntries(maps[..k]));
      if !ok {
        return;
      }
    }
    assert maps[..|maps|] == maps;
    ok := true;
  }

  /** Store one group. */
  method EmitGroup(table: Table, groups: map<string, Group>, groupKey: string, ghost entries: set<Entry>,
                   ghost done: set<string>)
    returns (res: Result<Table, EncodeError>)
    requires Grouped(entries, groups) && groupKey in groups && Emitted(entries, done, table)
    ensures res.Success? && Emitted(entries, done + {groupKey}, res.value)
  {
    var group := groups[groupKey];
    ghost var key := GroupKeyOf(entries, group);
    if |group.tuples| == 1 {
      res := EmitDirect(table, group, entries, done, key);
    } else {
      res := EmitRoute(table, group, entries, done, key);
    }
  }

  /** Store every group, in any order. */
  method EmitAll(groups: map<string, Group>, ghost entries: set<Entry>) returns (res: Result<Table, EncodeError>)
    requires Grouped(entries, groups)
    ensures res.Success? && Represents(entries, res.value)
  {
    res := Success(Table(map[], map[]));
    var rest := groups.Keys;
    ghost var done: set<string> := {};
    while rest != {}
      invariant rest <= groups.Keys && done == groups.Keys - rest
      invariant res.Success? && Emitted(entries, done, res.value)
      decreases |rest|
    {
      var groupKey :| groupKey in rest;
      res := EmitGroup(res.value, groups, groupKey, entries, done);
      rest, done := rest - {groupKey}, done + {groupKey};
    }
    assert done == groups.Keys;
    EmittedRepresents(entries, groups, res.value);
  }

  /** Encode score maps into one table. It fails exactly when two of the maps give one key the same
      code; every other error is out of reach. */
  method EncodeTable(maps: seq<ScoreMap>) returns (res: Result<Table, EncodeError>)
    ensures res.Success? <==> !Shared(maps)
    ensures res.Success? ==> Represents(AllEntries(maps), res.value)
    ensures res.Failure? ==> res.error.DuplicateTuple?
  {
    var ok, clash, groups := GroupAll(maps);
    if !ok {
      return Failure(DuplicateTuple(clash));
    }
    res := EmitAll(groups, AllEntries(maps));
  }

  /** An entry of all maps is an entry of one of them. */
  lemma InAllEntries(maps: seq<ScoreMap>, e: Entry)
    ensures e in AllEntries(maps) <==> exists k | 0 <= k < |maps| :: e in Entries(maps[k])
  {
    if e in AllEntries(maps) {
      var k, key :| 0 <= k < |maps| && key in maps[k] && e == (ScoreCode(maps[k][key]), key);
      assert e in Entries(maps[k]);
    }
    if k :| 0 <= k < |maps| && e in Entries(maps[k]) {
      assert e.1 in maps[k];
    }
  }

  lemma AllEntriesStep(maps: seq<ScoreMap>, k: nat)
    requires k < |maps|
    ensures AllEntries(maps[..k + 1]) == AllEntries(maps[..k]) + Entries(maps[k])
  {
    var before, after := maps[..k], maps[..k + 1];
    assert forall l | 0 <= l < k :: before[l] == after[l];
    assert after[k] == maps[k];
    forall e ensures e in AllEntries(after) <==> e in AllEntries(before) || e in Entries(maps[k]) {
      InAllEntries(before, e);
      InAllEntries(after, e);
      if l :| 0 <= l < |before| && e in Entries(before[l]) {
        assert e in Entries(after[l]);
      }
    }
  }

  /** Two maps clash when they share an entry. */
  lemma SharedExact(maps: seq<ScoreMap>)
    ensures Shared(maps) <==> exists k, l | 0 <= k < l < |maps| :: !(Entries(maps[k]) !! Entries(maps[l]))
  {
    if Shared(maps) {
      var k, l, key :| 0 <= k < l < |maps| && key in maps[k] && key in maps[l]
                       && ScoreCode(maps[k][key]) == ScoreCode(maps[l][key]);
      var e := (ScoreCode(maps[k][key]), key);
      assert e in Entries(maps[k]) && e in Entries(maps[l]);
    }
    if k, l :| 0 <= k < l < |maps| && !(Entries(maps[k]) !! Entries(maps[l])) {
      var e :| e in Entries(maps[k]) && e in Entries(maps[l]);
      assert e.1 in maps[k] && e.1 in maps[l];
    }
  }

  lemma SharedNow(maps: seq<ScoreMap>, k: nat)
    requires k < |maps| && Shared(maps[..k + 1])
    ensures Shared(maps) && (Shared(maps[..k]) || !(Entries(maps[k]) !! AllEntries(maps[..k])))
  {
    var before, after := maps[..k], maps[..k + 1];
    var i, j, key :| 0 <= i < j < |after| && key in after[i] && key in after[j]
                     && ScoreCode(after[i][key]) == ScoreCode(after[j][key]);
    assert after[i] == maps[i] == before[i] && after[j] == maps[j];
    if j < k {
      assert before[j] == maps[j];
    } else {
      var e := (ScoreCode(maps[k][key]), key);
      assert e in Entries(before[i]) && e in Entries(maps[k]);
      InAllEntries(before, e);
    }
  }

  lemma SharedLater(maps: seq<ScoreMap>, k: nat)
    requires k < |maps| && (Shared(maps[..k]) || !(Entries(maps[k]) !! AllEntries(maps[..k])))
    ensures Shared(maps[..k + 1])
  {
    var before, after := maps[..k], maps[..k + 1];
    SharedExact(after);
    if Shared(before) {
      SharedExact(before);
      var i, j :| 0 <= i < j < |before| && !(Entries(before[i]) !! Entries(before[j]));
      assert after[i] == before[i] && after[j] == before[j];
    } else {
      var e :| e in Entries(maps[k]) && e in AllEntries(before);
      InAllEntries(before, e);
      var i :| 0 <= i < |before| && e in Entries(before[i]);
      assert after[i] == before[i] && after[k] == maps[k];
      assert !(Entries(after[i]) !! Entries(after[k]));
    }
  }

  /** Adding map k is a clash exactly when it shares an entry with an earlier one. */
  lemma SharedStep(maps: seq<ScoreMap>, k: nat)
    requires k < |maps|
    ensures Shared(maps[..k + 1]) <==> Shared(maps[..k]) || !(Entries(maps[k]) !! AllEntries(maps[..k]))
    ensures Shared(maps[..k + 1]) ==> Shared(maps)
  {
    if Shared(maps[..k + 1]) {
      SharedNow(maps, k);
    }
    if Shared(maps[..k]) || !(Entries(maps[k]) !! AllEntries(maps[..k])) {
      SharedLater(maps, k);
    }
  }
}
