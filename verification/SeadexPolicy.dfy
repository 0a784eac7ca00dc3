/** From candidate buckets to what the policy answers. */
module SeadexPolicy {
  import opened Wrappers
  import opened Text
  import opened Frames
  import opened TupleColumns
  import opened SeadexEncoding
  import opened SeadexEncoder

  /* ---------- collapsing candidates ---------- */

  datatype StrictIdentity = StrictIdentity(
    aniListID: int, fileSize: int, groupIdentity: string, hasFileSize: bool, score: int, strictSignature: string)

  datatype Candidate = Candidate(identity: StrictIdentity, tolerantSignature: string, entryID: string,
                                 releaseID: string)

  /** All candidates of a key are one identity. */
  ghost predicate Agreed<T>(candidates: seq<Candidate>, identity: Candidate -> T) {
    candidates != [] && forall k | 0 <= k < |candidates| :: identity(candidates[k]) == identity(candidates[0])
  }

  /** The one score of candidates that agree. */
  ghost function AgreedScore<T>(candidates: seq<Candidate>, identity: Candidate -> T): Option<int> {
    if Agreed(candidates, identity) then Some(candidates[0].identity.score) else None
  }

  /** Candidates have a score exactly when none differ, and then each of them has it; none differ when all are the
      same strict identity. */
  lemma AgreedExact<T>(candidates: seq<Candidate>, identity: Candidate -> T)
    ensures AgreedScore(candidates, identity).None? <==>
            candidates == [] || exists c, d :: c in candidates && d in candidates && identity(c) != identity(d)
    ensures forall c | c in candidates && AgreedScore(candidates, (c: Candidate) => c.identity).Some? ::
              AgreedScore(candidates, (d: Candidate) => d.identity) == Some(c.identity.score)
  {
    if candidates != [] {
      if c, d :| c in candidates && d in candidates && identity(c) != identity(d) {
        var k :| 0 <= k < |candidates| && candidates[k] == c;
        var l :| 0 <= l < |candidates| && candidates[l] == d;
      }
      if k :| 0 <= k < |candidates| && identity(candidates[k]) != identity(candidates[0]) {
        assert candidates[k] in candidates && candidates[0] in candidates;
      }
    }
  }

  method CollapseKey<T(==)>(candidates: seq<Candidate>, identity: Candidate -> T) returns (score: Option<int>)
    ensures score == AgreedScore(candidates, identity)
  {
    var identities := set k | 0 <= k < |candidates| :: identity(candidates[k]);
    OneIdentity(candidates, identity, identities);
    score := if |identities| == 1 then Some(candidates[0].identity.score) else None;
  }

  /** A key with a score is accepted with it, and collides otherwise. */
  ghost predicate Settled(score: Option<int>, key: string, accepted: ScoreMap, collisions: set<string>) {
    match score
    case Some(value) => key in accepted && accepted[key] == value && key !in collisions
    case None => key !in accepted && key in collisions
  }

  /** Accept the keys whose candidates agree; the others collide. The strict and the tolerant table
      differ only in what an identity is. */
  method Collapse<T(==)>(buckets: map<string, seq<Candidate>>, identity: Candidate -> T)
    returns (accepted: ScoreMap, collisions: set<string>)
    ensures forall key | key in accepted || key in collisions :: key in buckets
    ensures forall key | key in buckets :: Settled(AgreedScore(buckets[key], identity), key, accepted, collisions)
  {
    accepted, collisions := map[], {};
    var rest := buckets.Keys;
    while rest != {}
      invariant rest <= buckets.Keys
      invariant forall key | key in accepted || key in collisions :: key in buckets && key !in rest
      invariant forall key | key in buckets && key !in rest ::
                  Settled(AgreedScore(buckets[key], identity), key, accepted, collisions)
      decreases |rest|
    {
      var key :| key in rest;
      var score := CollapseKey(buckets[key], identity);
      if score.Some? {
        accepted := accepted[key := score.value];
      } else {
        collisions := collisions + {key};
      }
      rest := rest - {key};
    }
  }

  lemma OneIdentity<T>(candidates: seq<Candidate>, identity: Candidate -> T, identities: set<T>)
    requires identities == set k | 0 <= k < |candidates| :: identity(candidates[k])
    ensures |identities| == 1 <==> Agreed(candidates, identity)
  {
    if candidates != [] {
      var first := identity(candidates[0]);
      assert first in identities;
      if Agreed(candidates, identity) {
        assert identities == {first};
      }
      if |identities| == 1 {
        SameSize({first}, identities);
        assert forall k | 0 <= k < |candidates| :: identity(candidates[k]) in identities;
      }
    }
  }

  /** A collided strict key is stored as a blocker. */
  function CollisionScores(collisions: set<string>): ScoreMap {
    map key | key in collisions :: 1
  }

  /** Accepted and collided keys are apart, so no key has one code twice. */
  lemma CollapsedNeverShare(accepted: ScoreMap, collisions: set<string>)
    requires accepted.Keys !! collisions
    ensures !Shared([accepted, CollisionScores(collisions)]) && !Shared([accepted])
  {
    var maps := [accepted, CollisionScores(collisions)];
    forall k, l, key | 0 <= k < l < |maps| && key in maps[k] ensures key !in maps[l] {
      assert maps[k] == accepted && maps[l] == CollisionScores(collisions);
    }
  }

  /** Collapse the strict candidates and encode what is accepted and what blocks. This never fails. */
  method EncodeStrict<T(==)>(buckets: map<string, seq<Candidate>>, identity: Candidate -> T)
    returns (accepted: ScoreMap, collisions: set<string>, table: Result<Table, EncodeError>)
    ensures forall key | key in accepted || key in collisions :: key in buckets
    ensures forall key | key in buckets :: Settled(AgreedScore(buckets[key], identity), key, accepted, collisions)
    ensures table.Success? && Represents(AllEntries([accepted, CollisionScores(collisions)]), table.value)
  {
    accepted, collisions := Collapse(buckets, identity);
    forall key | key in accepted ensures key !in collisions {
      assert Settled(AgreedScore(buckets[key], identity), key, accepted, collisions);
    }
    CollapsedNeverShare(accepted, collisions);
    table := EncodeTable([accepted, CollisionScores(collisions)]);
  }

  /* ---------- rendering ---------- */

  predicate HasLongLine(blob: string) {
    var lines := Split(blob, NL);
    exists k | 0 <= k < |lines| :: ByteLen(lines[k]) > MAX_LINE
  }

  ghost predicate ShortLines(bucket: map<string, string>) {
    forall e | e in bucket :: ByteLen(bucket[e]) <= MAX_LINE
  }

  /** Render each bucket as a raw-string blob, refusing a line over the lexer's limit. */
  method RenderRawBuckets(direct: map<nat, map<string, string>>) returns (res: Result<map<nat, string>, nat>)
    requires forall b, e | b in direct && e in direct[b] :: Free(direct[b][e], NL)
    ensures res.Success? <==> forall b, e | b in direct && e in direct[b] :: ByteLen(direct[b][e]) <= MAX_LINE
    ensures res.Success? ==> Renders(direct, res.value)
  {
    var blobs: map<nat, string> := map[];
    var rest := direct.Keys;
    while rest != {}
      invariant rest <= direct.Keys && blobs.Keys == direct.Keys - rest
      invariant forall b | b in blobs :: RendersBucket(direct[b], blobs[b])
      invariant forall b | b in blobs :: ShortLines(direct[b])
      decreases |rest|
    {
      var b :| b in rest;
      var blob := RenderBlob(direct[b]);
      BlobLineSizes(direct[b], blob);
      if HasLongLine(blob) {
        assert !ShortLines(direct[b]);
        return Failure(b);
      }
      blobs := blobs[b := blob];
      rest := rest - {b};
    }
    res := Success(blobs);
  }

  /** Concatenate the framed values of a bucket. */
  method RenderBlob(bucket: map<string, string>) returns (blob: string)
    ensures RendersBucket(bucket, blob)
  {
    blob := "";
    ghost var order: seq<string> := [];
    var rest := bucket.Keys;
    while rest != {}
      invariant rest <= bucket.Keys && blob == Blob(order)
      invariant forall e | e in bucket && e !in rest :: bucket[e] in order
      invariant forall k | 0 <= k < |order| :: order[k] in bucket.Values
      decreases |rest|
    {
      var e :| e in rest;
      BlobGrows(order, bucket[e]);
      blob := blob + "\n";
      blob := blob + bucket[e];
      blob := blob + "\n";
      order := order + [bucket[e]];
      rest := rest - {e};
    }
  }

  lemma {:induction false} BlobGrows(entries: seq<string>, entry: string)
    ensures Blob(entries + [entry]) == Blob(entries) + "\n" + entry + "\n"
  {
    if entries == [] {
      assert [entry][1..] == [];
    } else {
      assert (entries + [entry])[1..] == entries[1..] + [entry];
      BlobGrows(entries[1..], entry);
    }
  }

  lemma LongLineExact(order: seq<string>)
    ensures (exists k | 0 <= k < |BlobLines(order)| :: ByteLen(BlobLines(order)[k]) > MAX_LINE) <==>
            exists k | 0 <= k < |order| :: ByteLen(order[k]) > MAX_LINE
  {
    var lines := BlobLines(order);
    BlobLinesExact(order);
    if k :| 0 <= k < |lines| && ByteLen(lines[k]) > MAX_LINE {
      var half := k / 2;
      assert k == 2 * half || k == 2 * half + 1;
      assert lines[2 * half] == "";
      assert lines[2 * half + 1] == order[half];
    }
    if k :| 0 <= k < |order| && ByteLen(order[k]) > MAX_LINE {
      assert lines[2 * k + 1] == order[k];
    }
  }

  /** The lines of a blob are over the limit exactly when one of the bucket's values is. */
  lemma BlobLineSizes(bucket: map<string, string>, blob: string)
    requires RendersBucket(bucket, blob) && forall e | e in bucket :: Free(bucket[e], NL)
    ensures HasLongLine(blob) <==> !ShortLines(bucket)
  {
    var order: seq<string> :| (forall e | e in bucket :: bucket[e] in order)
      && (forall k | 0 <= k < |order| :: order[k] in bucket.Values) && blob == Blob(order);
    forall k | 0 <= k < |order| ensures Free(order[k], NL) {
      assert order[k] in bucket.Values;
    }
    BlobSplits(order);
    LongLineExact(order);
    if k :| 0 <= k < |order| && ByteLen(order[k]) > MAX_LINE {
      assert order[k] in bucket.Values;
    }
    if e :| e in bucket && ByteLen(bucket[e]) > MAX_LINE {
      var k :| 0 <= k < |order| && order[k] == bucket[e];
    }
  }

  /* ---------- the policy ---------- */

  /** What encoding the maps and rendering the table gives the policy, for every key: exactly the
      codes the maps give it. */
  lemma PolicyIsExact(maps: seq<ScoreMap>, table: Table, blobs: map<nat, string>, key: string, code: char)
    requires Represents(AllEntries(maps), table) && Renders(table.direct, blobs) && code != NL
    ensures Matches(blobs, table.routes, key, code) <==>
            exists k | 0 <= k < |maps| :: key in maps[k] && ScoreCode(maps[k][key]) == code
  {
    LookupIsExact(AllEntries(maps), table, blobs, key, code);
    InAllEntries(maps, (code, key));
    if k :| 0 <= k < |maps| && (code, key) in Entries(maps[k]) {
      assert key in maps[k] && ScoreCode(maps[k][key]) == code;
    }
    if k :| 0 <= k < |maps| && key in maps[k] && ScoreCode(maps[k][key]) == code {
      assert (code, key) in Entries(maps[k]);
    }
  }

  ghost function Recommendation(blobs: map<nat, string>, routes: map<nat, map<string, Route>>, key: string): Option<int>
  {
    if Matches(blobs, routes, key, 'B') then Some(400) else if Matches(blobs, routes, key, 'L') then Some(200) else None
  }

  /** The strict table read back: the accepted score of every accepted key, a blocker for every
      collided one, and nothing for any other. */
  lemma StrictTableIsExact(accepted: ScoreMap, collisions: set<string>, table: Table, blobs: map<nat, string>,
                           key: string)
    requires accepted.Keys !! collisions && forall k | k in accepted :: accepted[k] in {400, 200}
    requires Represents(AllEntries([accepted, CollisionScores(collisions)]), table) && Renders(table.direct, blobs)
    ensures Recommendation(blobs, table.routes, key) == if key in accepted then Some(accepted[key]) else None
    ensures Matches(blobs, table.routes, key, 'X') <==> key in collisions
  {
    var maps := [accepted, CollisionScores(collisions)];
    forall code | code in {'B', 'L', 'X'}
      ensures Matches(blobs, table.routes, key, code) <==>
              (key in accepted && ScoreCode(accepted[key]) == code) || (key in collisions && code == 'X')
    {
      PolicyIsExact(maps, table, blobs, key, code);
      if k :| 0 <= k < |maps| && key in maps[k] && ScoreCode(maps[k][key]) == code {
        assert k == 0 || k == 1;
      }
      if key in accepted && ScoreCode(accepted[key]) == code {
        assert key in maps[0];
      }
      if key in collisions && code == 'X' {
        assert key in maps[1] && maps[1][key] == 1;
      }
    }
  }
}
