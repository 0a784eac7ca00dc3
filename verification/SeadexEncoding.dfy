/** A score table in its physical form, and the policy's lookups over it. */
module SeadexEncoding {
  import opened Wrappers
  import opened Text
  import opened TemplateCodec
  import opened Frames
  import opened TupleColumns

  const MAX_LINE: nat := 1024

  type ScoreMap = map<string, int>

  /** A score code and the key it belongs to. */
  type Entry = (char, string)

  function ScoreCode(value: int): (code: char)
    ensures code != NL
  {
    if value == 400 then 'B' else if value == 1 then 'X' else 'L'
  }

  function KeySkeleton(key: string): string { Skeleton(Escaped(key)) }

  function KeyCaptures(key: string): seq<string> { Captures(Escaped(key)) }

  /* ---------- what a table stands for ---------- */

  ghost function Entries(values: ScoreMap): set<Entry> {
    set key | key in values :: (ScoreCode(values[key]), key)
  }

  ghost function AllEntries(maps: seq<ScoreMap>): set<Entry> {
    set k, key | 0 <= k < |maps| && key in maps[k] :: (ScoreCode(maps[k][key]), key)
  }

  /** Two of the maps give one key the same code. */
  ghost predicate Shared(maps: seq<ScoreMap>) {
    exists k, l, key :: 0 <= k < l < |maps| && key in maps[k] && key in maps[l] &&
      ScoreCode(maps[k][key]) == ScoreCode(maps[l][key])
  }

  /** The keys of one template among the entries. */
  ghost function Members(entries: set<Entry>, code: char, skeleton: string): set<string> {
    set e | e in entries && e.0 == code && KeySkeleton(e.1) == skeleton :: e.1
  }

  /** Some key of the set has these captures. */
  ghost predicate HasKey(members: set<string>, captures: seq<string>) {
    exists key :: key in members && KeyCaptures(key) == captures
  }

  /** These capture lists are the keys' own, each once. */
  ghost predicate CapturesOf(members: set<string>, captures: seq<seq<string>>) {
    && (forall k | 0 <= k < |captures| :: HasKey(members, captures[k]))
    && (forall key | key in members :: KeyCaptures(key) in captures)
    && (forall k, l | 0 <= k < l < |captures| :: captures[k] != captures[l])
  }

  datatype Table = Table(direct: map<nat, map<string, string>>, routes: map<nat, map<string, Route>>)

  function RouteKey(code: char, skeleton: string): string {
    [code] + "\t" + skeleton
  }

  /** A bucket's entries are of the table, by key length, each under its code and key. */
  ghost predicate BucketExact(entries: set<Entry>, length: nat, bucket: map<string, string>) {
    forall e | e in bucket ::
      e != "" && (e[0], e[1..]) in entries && length == |e[1..]| && bucket[e] == [e[0]] + BlobKey(e[1..])
  }

  /** A template with one key is stored directly, one with more as a route. */
  ghost predicate DirectExact(entries: set<Entry>, direct: map<nat, map<string, string>>) {
    && (forall b | b in direct :: BucketExact(entries, b, direct[b]))
    && (forall e | e in entries && Members(entries, e.0, KeySkeleton(e.1)) == {e.1} ::
          |e.1| in direct && [e.0] + e.1 in direct[|e.1|])
  }

  ghost predicate RouteExact(entries: set<Entry>, code: char, skeleton: string, route: Route) {
    exists captures, mask :: CapturesOf(Members(entries, code, skeleton), captures) && RouteOf(captures, mask, route)
  }

  ghost predicate RoutesExact(entries: set<Entry>, routes: map<nat, map<string, Route>>) {
    && (forall b, r | b in routes && r in routes[b] ::
          |r| >= 2 && r == RouteKey(r[0], r[2..]) && b == |r| && RouteExact(entries, r[0], r[2..], routes[b][r]))
    && (forall e | e in entries && Members(entries, e.0, KeySkeleton(e.1)) != {e.1} ::
          var r := RouteKey(e.0, KeySkeleton(e.1));
          |r| in routes && r in routes[|r|])
  }

  ghost predicate Represents(entries: set<Entry>, table: Table) {
    DirectExact(entries, table.direct) && RoutesExact(entries, table.routes)
  }

  /* ---------- the policy's lookups ---------- */

  /** Each bucket's blob lists its entries' values, in some order. */
  ghost predicate RendersBucket(bucket: map<string, string>, blob: string) {
    exists order: seq<string> ::
      (forall e | e in bucket :: bucket[e] in order) && (forall k | 0 <= k < |order| :: order[k] in bucket.Values)
      && blob == Blob(order)
  }

  ghost predicate Renders(direct: map<nat, map<string, string>>, blobs: map<nat, string>) {
    blobs.Keys == direct.Keys && forall b | b in direct :: RendersBucket(direct[b], blobs[b])
  }

  ghost predicate DirectMatch(blobs: map<nat, string>, key: string, code: char) {
    |key| in blobs && Contains(blobs[|key|], Framed([code] + BlobKey(key)))
  }

  ghost predicate TemplateMatch(routes: map<nat, map<string, Route>>, key: string, code: char) {
    var r := RouteKey(code, KeySkeleton(key));
    |r| in routes && r in routes[|r|] && RouteAccepts(KeyCaptures(key), routes[|r|][r])
  }

  ghost predicate Matches(blobs: map<nat, string>, routes: map<nat, map<string, Route>>, key: string, code: char) {
    DirectMatch(blobs, key, code) || TemplateMatch(routes, key, code)
  }

  /* ---------- templates know their keys ---------- */

  lemma TokensAreTuples(key: string)
    ensures TokenTuple(KeyCaptures(key))
  {
    CapturesAreHex(Escaped(key));
    forall i | 0 <= i < |KeyCaptures(key)| ensures Free(KeyCaptures(key)[i], ',') && Free(KeyCaptures(key)[i], NL) {
      var capture := KeyCaptures(key)[i];
      assert forall j | 0 <= j < |capture| :: IsHex(capture[j]);
    }
  }

  lemma SameTemplate(a: string, b: string)
    requires KeySkeleton(a) == KeySkeleton(b)
    ensures |KeyCaptures(a)| == |KeyCaptures(b)|
    ensures KeyCaptures(a) == KeyCaptures(b) ==> a == b
  {
    CaptureCount(a);
    CaptureCount(b);
    if KeyCaptures(a) == KeyCaptures(b) {
      TemplateInjective(a, b);
    }
  }

  /** A template's tuple text decides the key. */
  lemma TupleTextDecides(a: string, b: string)
    requires KeySkeleton(a) == KeySkeleton(b) && Join(KeyCaptures(a), ',') == Join(KeyCaptures(b), ',')
    ensures a == b
  {
    TokensAreTuples(a);
    TokensAreTuples(b);
    SameTemplate(a, b);
    if KeyCaptures(a) != [] {
      JoinInjective(KeyCaptures(a), KeyCaptures(b), ',');
    }
  }

  lemma TupleCapturesExact(key: string)
    ensures (if Join(KeyCaptures(key), ',') == "" then [] else Split(Join(KeyCaptures(key), ','), ',')) ==
            KeyCaptures(key)
  {
    TokensAreTuples(key);
    var captures := KeyCaptures(key);
    if captures != [] {
      assert captures[0] != "";
      SplitJoin(captures, ',');
    }
  }

  ghost predicate OneTemplate(members: set<string>) {
    forall a, b | a in members && b in members :: KeySkeleton(a) == KeySkeleton(b)
  }

  lemma CapturesAreTokens(members: set<string>, captures: seq<seq<string>>)
    requires OneTemplate(members) && CapturesOf(members, captures)
    ensures forall k | 0 <= k < |captures| :: TokenTuple(captures[k])
    ensures forall k | 0 <= k < |captures| :: |captures[k]| == |captures[0]|
  {
    forall k | 0 <= k < |captures| ensures TokenTuple(captures[k]) && |captures[k]| == |captures[0]| {
      assert HasKey(members, captures[k]) && HasKey(members, captures[0]);
      var key :| key in members && KeyCaptures(key) == captures[k];
      var first :| first in members && KeyCaptures(first) == captures[0];
      TokensAreTuples(key);
      SameTemplate(key, first);
    }
  }

  /* ---------- the lookups are exact ---------- */

  /** Searching a rendered bucket finds exactly its values. */
  lemma BucketFinds(bucket: map<string, string>, blob: string, line: string)
    requires RendersBucket(bucket, blob) && Free(line, NL) && line != ""
    requires forall e | e in bucket :: Free(bucket[e], NL)
    ensures Contains(blob, Framed(line)) <==> exists e :: e in bucket && bucket[e] == line
  {
    var order: seq<string> :| (forall e | e in bucket :: bucket[e] in order)
      && (forall k | 0 <= k < |order| :: order[k] in bucket.Values) && blob == Blob(order);
    forall k | 0 <= k < |order| ensures Free(order[k], NL) {
      assert order[k] in bucket.Values;
    }
    BlobMembership(order, line);
  }

  /** An injective escape that leaves no newline. */
  ghost predicate RawEscape(escape: string -> string) {
    && (forall key :: Free(escape(key), NL))
    && (forall a, b :: escape(a) == escape(b) ==> a == b)
  }

  lemma BlobKeyIsRaw()
    ensures RawEscape(BlobKey)
  {
    forall key ensures Free(BlobKey(key), NL) {
      BlobKeyExact(key);
    }
    forall a, b | BlobKey(a) == BlobKey(b) ensures a == b {
      BlobKeyExact(a);
    }
  }

  /** Whatever the raw escape, a line decides its code and key. */
  lemma BucketLookup(bucket: map<string, string>, blob: string, escape: string -> string, key: string, code: char)
    requires RawEscape(escape) && RendersBucket(bucket, blob) && code != NL
    requires forall e | e in bucket :: e != "" && e[0] != NL && bucket[e] == [e[0]] + escape(e[1..])
    ensures Contains(blob, Framed([code] + escape(key))) <==> [code] + key in bucket
  {
    var line := [code] + escape(key);
    BucketFinds(bucket, blob, line);
    if e :| e in bucket && bucket[e] == line {
      assert line[0] == e[0] && line[1..] == escape(e[1..]) && line[1..] == escape(key);
      assert e == [code] + key;
    }
    assert ([code] + key)[1..] == key;
  }

  lemma BucketIsExact(entries: set<Entry>, length: nat, bucket: map<string, string>, blob: string, key: string,
                      code: char)
    requires BucketExact(entries, length, bucket) && RendersBucket(bucket, blob) && code != NL
    requires forall e | e in entries :: e.0 != NL
    ensures Contains(blob, Framed([code] + BlobKey(key))) <==> [code] + key in bucket
  {
    BlobKeyIsRaw();
    BucketLookup(bucket, blob, BlobKey, key, code);
  }

  lemma DirectIsExact(entries: set<Entry>, direct: map<nat, map<string, string>>, blobs: map<nat, string>, key: string,
                      code: char)
    requires DirectExact(entries, direct) && Renders(direct, blobs) && code != NL
    requires forall e | e in entries :: e.0 != NL
    ensures DirectMatch(blobs, key, code) ==> (code, key) in entries
    ensures (code, key) in entries && Members(entries, code, KeySkeleton(key)) == {key} ==>
            DirectMatch(blobs, key, code)
  {
    if |key| in direct {
      BucketIsExact(entries, |key|, direct[|key|], blobs[|key|], key, code);
      assert ([code] + key)[0] == code && ([code] + key)[1..] == key;
    }
  }

  lemma TemplateIsExact(entries: set<Entry>, routes: map<nat, map<string, Route>>, key: string, code: char)
    requires RoutesExact(entries, routes)
    ensures TemplateMatch(routes, key, code) ==> (code, key) in entries
    ensures (code, key) in entries && Members(entries, code, KeySkeleton(key)) != {key} ==>
            TemplateMatch(routes, key, code)
  {
    var r := RouteKey(code, KeySkeleton(key));
    assert r[0] == code && r[2..] == KeySkeleton(key);
    if |r| in routes && r in routes[|r|] {
      var route := routes[|r|][r];
      assert RouteExact(entries, code, KeySkeleton(key), route);
      RouteFindsMembers(entries, code, key, route);
    }
  }

  lemma RouteFindsMembers(entries: set<Entry>, code: char, key: string, route: Route)
    requires RouteExact(entries, code, KeySkeleton(key), route)
    ensures RouteAccepts(KeyCaptures(key), route) <==> (code, key) in entries
  {
    var members := Members(entries, code, KeySkeleton(key));
    var captures, mask :| CapturesOf(members, captures) && RouteOf(captures, mask, route);
    assert OneTemplate(members);
    CapturesAreTokens(members, captures);
    TokensAreTuples(key);
    RouteAcceptsExact(captures, mask, route, KeyCaptures(key));
    assert (code, key) in entries <==> key in members;
    if KeyCaptures(key) in captures {
      CaptureOfMember(members, captures, key);
    }
  }

  /** The captures of a key of the template are the members' only if the key is a member. */
  lemma CaptureOfMember(members: set<string>, captures: seq<seq<string>>, key: string)
    requires CapturesOf(members, captures) && KeyCaptures(key) in captures
    requires forall a | a in members :: KeySkeleton(a) == KeySkeleton(key)
    ensures key in members
  {
    var k :| 0 <= k < |captures| && captures[k] == KeyCaptures(key);
    assert HasKey(members, captures[k]);
    var other :| other in members && KeyCaptures(other) == captures[k];
    SameTemplate(key, other);
  }

  /** Reading a represented table back gives exactly its entries: no key is lost, and none is added
      under any code. */
  lemma LookupIsExact(entries: set<Entry>, table: Table, blobs: map<nat, string>, key: string, code: char)
    requires Represents(entries, table) && Renders(table.direct, blobs) && code != NL
    requires forall e | e in entries :: e.0 != NL
    ensures Matches(blobs, table.routes, key, code) <==> (code, key) in entries
  {
    DirectIsExact(entries, table.direct, blobs, key, code);
    TemplateIsExact(entries, table.routes, key, code);
  }
}
