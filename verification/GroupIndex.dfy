/** The index of the numbered release-group rows, and the row that a lookup picks. */
module GroupIndex {
  import opened Wrappers
  import opened GroupTiers

  /** A row as it is stored, with the number it carries. */
  datatype Numbered = Numbered(row: Row, index: int)

  datatype Entry = Entry(index: int, tier: string)

  datatype ExactKey = ExactKey(facet: string, context: string, matcher: string)

  datatype PrefixKey = PrefixKey(facet: string, context: string)

  datatype PrefixEntry = PrefixEntry(matcher: string, entry: Entry)

  datatype Index = Index(exact: map<ExactKey, Entry>, prefix: map<PrefixKey, seq<PrefixEntry>>)

  datatype RenderError = NoRows | InvalidRow(at: nat)

  function UpperChar(c: char): char {
    if 'a' <= c <= 'z' then (c as int - 32) as char else c
  }

  function AsciiUpper(s: string): (r: string)
    ensures |r| == |s|
  {
    seq(|s|, i requires 0 <= i < |s| => UpperChar(s[i]))
  }

  predicate ValidRow(rows: seq<Numbered>, i: nat)
    requires i < |rows|
  {
    var n := rows[i];
    && n.index == i && n.row.matcher != "" && n.row.tier != "" && n.row.facet != "" && n.row.context != ""
  }

  predicate AllValid(rows: seq<Numbered>) {
    forall i | 0 <= i < |rows| :: ValidRow(rows, i)
  }

  function ExactKeyOf(row: Row): ExactKey {
    ExactKey(row.facet, row.context, AsciiUpper(row.matcher))
  }

  function PrefixKeyOf(row: Row): PrefixKey {
    PrefixKey(row.facet, row.context)
  }

  function Added(index: Index, n: Numbered): Index {
    var entry := Entry(n.index, n.row.tier);
    if n.row.exact then
      index.(exact := index.exact[ExactKeyOf(n.row) := entry])
    else
      var key := PrefixKeyOf(n.row);
      var before := if key in index.prefix then index.prefix[key] else [];
      index.(prefix := index.prefix[key := before + [PrefixEntry(AsciiUpper(n.row.matcher), entry)]])
  }

  function Indexed(rows: seq<Numbered>): Index {
    if rows == [] then Index(map[], map[]) else Added(Indexed(rows[..|rows| - 1]), rows[|rows| - 1])
  }

  /** Index the rows, unless there are none or one is not in its place. */
  method RenderGroups(rows: seq<Numbered>) returns (result: Result<Index, RenderError>)
    ensures result.Success? <==> rows != [] && AllValid(rows)
    ensures result.Success? ==> result.value == Indexed(rows)
    ensures result.Failure? ==>
              if rows == [] then result.error == NoRows
              else result.error.InvalidRow? && result.error.at < |rows| && !ValidRow(rows, result.error.at)
                   && forall i | 0 <= i < result.error.at :: ValidRow(rows, i)
  {
    if rows == [] {
      return Failure(NoRows);
    }
    var exact, prefix := map[], map[];
    for i := 0 to |rows|
      invariant forall k | 0 <= k < i :: ValidRow(rows, k)
      invariant Index(exact, prefix) == Indexed(rows[..i])
    {
      assert rows[..i + 1][..i] == rows[..i];
      if !ValidRow(rows, i) {
        return Failure(InvalidRow(i));
      }
      var row := rows[i].row;
      var entry := Entry(rows[i].index, row.tier);
      if row.exact {
        exact := exact[ExactKeyOf(row) := entry];
      } else {
        var key := PrefixKeyOf(row);
        prefix :=
          prefix[key := (if key in prefix then prefix[key] else []) + [PrefixEntry(AsciiUpper(row.matcher), entry)]];
      }
    }
    assert rows[..|rows|] == rows;
    return Success(Index(exact, prefix));
  }

  /* ---------- the lookup ---------- */

  datatype Query = Query(facet: string, context: string, group: string)

  /** What the policy's candidate function can evaluate to: an exact entry, or a prefix entry with its
      matcher. */
  datatype Value = ExactValue(entry: Entry) | PrefixValue(found: PrefixEntry)

  predicate ExactCandidate(index: Index, q: Query, e: Entry) {
    var key := ExactKey(q.facet, q.context, AsciiUpper(q.group));
    key in index.exact && index.exact[key] == e
  }

  predicate PrefixCandidate(index: Index, q: Query, p: PrefixEntry) {
    var key := PrefixKey(q.facet, q.context);
    key in index.prefix && p in index.prefix[key] && p.matcher <= AsciiUpper(q.group)
  }

  predicate Candidate(index: Index, q: Query, v: Value) {
    match v
    case ExactValue(e) => ExactCandidate(index, q, e)
    case PrefixValue(p) => PrefixCandidate(index, q, p)
  }

  /** A function of the policy has one value at most: a second one is a conflict, before any choice
      among the candidates. */
  datatype Outcome = Undefined | Found(value: Value) | Conflict

  ghost predicate TwoCandidates(index: Index, q: Query) {
    exists u, v :: Candidate(index, q, u) && Candidate(index, q, v) && u != v
  }

  ghost predicate SomeCandidate(index: Index, q: Query) {
    exists v :: Candidate(index, q, v)
  }

  ghost function Lookup(index: Index, q: Query): Outcome {
    if TwoCandidates(index, q) then Conflict
    else if SomeCandidate(index, q) then
      var v :| Candidate(index, q, v);
      Found(v)
    else Undefined
  }

  /* ---------- what a scan of the rows finds ---------- */

  predicate Matches(row: Row, q: Query) {
    && row.facet == q.facet && row.context == q.context
    && if row.exact then AsciiUpper(row.matcher) == AsciiUpper(q.group)
         else AsciiUpper(row.matcher) <= AsciiUpper(q.group)
  }

  /** A later exact row has the same key. */
  predicate Overwritten(rows: seq<Numbered>, k: nat)
    requires k < |rows|
  {
    rows[k].row.exact && exists j | k < j < |rows| ::
      rows[j].row.exact && ExactKeyOf(rows[j].row) == ExactKeyOf(rows[k].row)
  }

  function ValueOf(n: Numbered): Value {
    var entry := Entry(n.index, n.row.tier);
    if n.row.exact then ExactValue(entry) else PrefixValue(PrefixEntry(AsciiUpper(n.row.matcher), entry))
  }

  /** A row that matches and is in the index. */
  ghost predicate Stands(rows: seq<Numbered>, q: Query, k: nat) {
    k < |rows| && Matches(rows[k].row, q) && !Overwritten(rows, k)
  }

  ghost predicate StandsAs(rows: seq<Numbered>, q: Query, k: nat, v: Value) {
    Stands(rows, q, k) && v == ValueOf(rows[k])
  }

  ghost predicate Standing(rows: seq<Numbered>, q: Query, v: Value) {
    exists k: nat :: StandsAs(rows, q, k, v)
  }

  lemma StandsBefore(rows: seq<Numbered>, q: Query, k: nat)
    requires rows != [] && k < |rows| - 1
    ensures var init, last := rows[..|rows| - 1], rows[|rows| - 1].row;
      Stands(rows, q, k) <==>
        Stands(init, q, k) && !(rows[k].row.exact && last.exact && ExactKeyOf(last) == ExactKeyOf(rows[k].row))
  {
    var init := rows[..|rows| - 1];
    assert forall j | 0 <= j < |init| :: init[j] == rows[j];
    if Overwritten(init, k) {
      var j :| k < j < |init| && init[j].row.exact && ExactKeyOf(init[j].row) == ExactKeyOf(init[k].row);
      assert rows[j] == init[j];
    }
  }

  lemma {:induction false} ExactCandidates(rows: seq<Numbered>, q: Query, e: Entry)
    ensures Candidate(Indexed(rows), q, ExactValue(e)) <==> Standing(rows, q, ExactValue(e))
  {
    if rows != [] {
      var n, v := |rows| - 1, ExactValue(e);
      var init, last := rows[..n], rows[n];
      ExactCandidates(init, q, e);
      forall k: nat | k < n ensures Stands(rows, q, k) <==>
          Stands(init, q, k)
          && !(rows[k].row.exact && last.row.exact && ExactKeyOf(last.row) == ExactKeyOf(rows[k].row))
      {
        StandsBefore(rows, q, k);
      }
      if last.row.exact && ExactKeyOf(last.row) == ExactKey(q.facet, q.context, AsciiUpper(q.group)) {
        assert StandsAs(rows, q, n, v) <==> v == ValueOf(last);
      } else {
        assert !StandsAs(rows, q, n, v);
        if k: nat :| StandsAs(init, q, k, v) {
          assert StandsAs(rows, q, k, v);
        }
        if k: nat :| StandsAs(rows, q, k, v) {
          assert StandsAs(init, q, k, v);
        }
      }
    }
  }

  lemma {:induction false} PrefixCandidates(rows: seq<Numbered>, q: Query, p: PrefixEntry)
    ensures Candidate(Indexed(rows), q, PrefixValue(p)) <==> Standing(rows, q, PrefixValue(p))
  {
    if rows != [] {
      var n, v := |rows| - 1, PrefixValue(p);
      var init, last := rows[..n], rows[n];
      PrefixCandidates(init, q, p);
      forall k: nat | k < n ensures StandsAs(rows, q, k, v) <==> StandsAs(init, q, k, v) {
        StandsBefore(rows, q, k);
      }
      PrefixAdded(Indexed(init), last, q, p);
      if Standing(init, q, v) {
        var k: nat :| StandsAs(init, q, k, v);
        assert StandsAs(rows, q, k, v);
      }
      if Standing(rows, q, v) {
        var k: nat :| StandsAs(rows, q, k, v);
        assert k < n ==> StandsAs(init, q, k, v);
      }
      if Matches(last.row, q) && v == ValueOf(last) {
        assert StandsAs(rows, q, n, v);
      }
    }
  }

  lemma PrefixAdded(index: Index, n: Numbered, q: Query, p: PrefixEntry)
    ensures PrefixCandidate(Added(index, n), q, p) <==>
            PrefixCandidate(index, q, p) || (Matches(n.row, q) && PrefixValue(p) == ValueOf(n))
  {
    var key := PrefixKey(q.facet, q.context);
    if !n.row.exact && PrefixKeyOf(n.row) == key {
      var before := if key in index.prefix then index.prefix[key] else [];
      var one := PrefixEntry(AsciiUpper(n.row.matcher), Entry(n.index, n.row.tier));
      assert Added(index, n).prefix[key] == before + [one];
      assert forall x :: x in before + [one] <==> x in before || x == one;
    }
  }

  /** The candidates of a lookup are the values of the rows that match and that no later exact row
      overwrites. */
  lemma CandidatesExact(rows: seq<Numbered>, q: Query, v: Value)
    ensures Candidate(Indexed(rows), q, v) <==> Standing(rows, q, v)
  {
    match v {
      case ExactValue(e) => ExactCandidates(rows, q, e);
      case PrefixValue(p) => PrefixCandidates(rows, q, p);
    }
  }

  /* ---------- what a lookup gives ---------- */

  ghost predicate OnlyOneStands(rows: seq<Numbered>, q: Query, k: nat) {
    Stands(rows, q, k) && forall j: nat | Stands(rows, q, j) :: j == k
  }

  lemma ValuesDiffer(rows: seq<Numbered>, j: nat, k: nat)
    requires AllValid(rows) && j < |rows| && k < |rows| && ValueOf(rows[j]) == ValueOf(rows[k])
    ensures j == k
  {
    assert ValidRow(rows, j) && ValidRow(rows, k);
  }

  /** A lookup gives the value of a row exactly when that row alone stands. */
  lemma FoundExact(rows: seq<Numbered>, q: Query, k: nat)
    requires AllValid(rows) && k < |rows|
    ensures Lookup(Indexed(rows), q) == Found(ValueOf(rows[k])) <==> OnlyOneStands(rows, q, k)
  {
    var index, value := Indexed(rows), ValueOf(rows[k]);
    forall v ensures Candidate(index, q, v) <==> Standing(rows, q, v) {
      CandidatesExact(rows, q, v);
    }
    if Lookup(index, q) == Found(value) {
      forall j: nat | Stands(rows, q, j) ensures j == k {
        assert StandsAs(rows, q, j, ValueOf(rows[j]));
        assert Candidate(index, q, ValueOf(rows[j])) && Candidate(index, q, value);
        ValuesDiffer(rows, j, k);
      }
      var j: nat :| StandsAs(rows, q, j, value);
      assert Stands(rows, q, j);
    }
    if OnlyOneStands(rows, q, k) {
      assert StandsAs(rows, q, k, value) && Candidate(index, q, value);
      forall v | Candidate(index, q, v) ensures v == value {
        var j: nat :| StandsAs(rows, q, j, v);
      }
    }
  }

  /** A lookup is undefined exactly when no row stands, and a conflict exactly when two do. */
  lemma OutcomeExact(rows: seq<Numbered>, q: Query)
    requires AllValid(rows)
    ensures Lookup(Indexed(rows), q) == Undefined <==> forall k: nat :: !Stands(rows, q, k)
    ensures Lookup(Indexed(rows), q) == Conflict <==>
            exists j: nat, k: nat :: j < k && Stands(rows, q, j) && Stands(rows, q, k)
  {
    var index := Indexed(rows);
    forall v ensures Candidate(index, q, v) <==> Standing(rows, q, v) {
      CandidatesExact(rows, q, v);
    }
    forall k: nat | Stands(rows, q, k) ensures Candidate(index, q, ValueOf(rows[k])) {
      assert StandsAs(rows, q, k, ValueOf(rows[k]));
    }
    if TwoCandidates(index, q) {
      var u, v :| Candidate(index, q, u) && Candidate(index, q, v) && u != v;
      var j: nat :| StandsAs(rows, q, j, u);
      var k: nat :| StandsAs(rows, q, k, v);
      assert Stands(rows, q, j) && Stands(rows, q, k) && (j < k || k < j);
    }
    if j: nat, k: nat :| j < k && Stands(rows, q, j) && Stands(rows, q, k) {
      if ValueOf(rows[j]) == ValueOf(rows[k]) {
        ValuesDiffer(rows, j, k);
      }
    }
  }

  ghost predicate FirstMatch(rows: seq<Numbered>, q: Query, k: nat) {
    k < |rows| && Matches(rows[k].row, q) && forall j | 0 <= j < k :: !Matches(rows[j].row, q)
  }

  /** A lookup that gives a value gives that of the first row a scan finds exactly when no later exact
      row overwrites that row. */
  lemma PicksFirstExactly(rows: seq<Numbered>, q: Query, k: nat)
    requires AllValid(rows) && FirstMatch(rows, q, k) && Lookup(Indexed(rows), q).Found?
    ensures Lookup(Indexed(rows), q) == Found(ValueOf(rows[k])) <==> !Overwritten(rows, k)
  {
    var v := Lookup(Indexed(rows), q).value;
    CandidatesExact(rows, q, v);
    var j: nat :| StandsAs(rows, q, j, v);
    FoundExact(rows, q, j);
    FoundExact(rows, q, k);
    assert OnlyOneStands(rows, q, j) && v == ValueOf(rows[j]);
    if !Overwritten(rows, k) {
      assert Stands(rows, q, k);
    }
  }

  /** No two exact rows of one facet and context have matchers equal up to ASCII case. */
  ghost predicate NoCollision(rows: seq<Numbered>) {
    forall i, j | 0 <= i < j < |rows| && rows[i].row.exact && rows[j].row.exact ::
      ExactKeyOf(rows[i].row) != ExactKeyOf(rows[j].row)
  }

  lemma NothingOverwritten(rows: seq<Numbered>, k: nat)
    requires NoCollision(rows) && k < |rows|
    ensures !Overwritten(rows, k)
  {
  }

  /** Without case collisions, a lookup that a scan answers with a first row gives that row exactly when no
      other row matches, and is a conflict otherwise. */
  lemma IndexAgreesWithScan(rows: seq<Numbered>, q: Query, k: nat)
    requires AllValid(rows) && NoCollision(rows) && FirstMatch(rows, q, k)
    ensures var outcome := Lookup(Indexed(rows), q);
      && (outcome == Found(ValueOf(rows[k])) <==> forall j | k < j < |rows| :: !Matches(rows[j].row, q))
      && outcome in {Found(ValueOf(rows[k])), Conflict}
  {
    forall j: nat ensures Stands(rows, q, j) <==> j < |rows| && Matches(rows[j].row, q) {
      if j < |rows| {
        NothingOverwritten(rows, j);
      }
    }
    FoundExact(rows, q, k);
    OutcomeExact(rows, q);
    if j :| k < j < |rows| && Matches(rows[j].row, q) {
      assert Stands(rows, q, k) && Stands(rows, q, j);
    }
  }

  /** A prefix and an exact row that both match: a conflict, though a scan has a first row. */
  lemma PrefixAndExactConflict(tier: string, facet: string, context: string)
    requires tier != "" && facet != "" && context != ""
    ensures var rows :=
              [Numbered(Row("MGE", false, tier, facet, context), 0),
               Numbered(Row("MGEX", true, tier, facet, context), 1)];
      AllValid(rows) && NoCollision(rows) && Lookup(Indexed(rows), Query(facet, context, "MGEX")) == Conflict
  {
    var rows := [Numbered(Row("MGE", false, tier, facet, context), 0),
                 Numbered(Row("MGEX", true, tier, facet, context), 1)];
    var q := Query(facet, context, "MGEX");
    assert AsciiUpper("MGE") == "MGE" && AsciiUpper("MGEX") == "MGEX";
    assert Stands(rows, q, 0) && Stands(rows, q, 1);
    OutcomeExact(rows, q);
  }

  /* ---------- what matching is ---------- */

  predicate SameLetter(a: char, b: char) {
    a == b || ('a' <= a <= 'z' && b as int == a as int - 32) || ('a' <= b <= 'z' && a as int == b as int - 32)
  }

  /** The texts are equal but for the case of ASCII letters. */
  predicate SameButCase(a: string, b: string) {
    |a| == |b| && forall i | 0 <= i < |a| :: SameLetter(a[i], b[i])
  }

  lemma UpperExact(a: string, b: string)
    ensures AsciiUpper(a) == AsciiUpper(b) <==> SameButCase(a, b)
  {
    if AsciiUpper(a) == AsciiUpper(b) {
      forall i | 0 <= i < |a| ensures SameLetter(a[i], b[i]) {
        assert AsciiUpper(a)[i] == AsciiUpper(b)[i];
      }
    }
  }

  /** A row matches a group of its facet and context whose name is the matcher, or, for a prefix row, starts with
      it, but for the case of ASCII letters. */
  lemma MatchesExact(row: Row, q: Query)
    ensures Matches(row, q) <==>
            && row.facet == q.facet && row.context == q.context
            && if row.exact then SameButCase(row.matcher, q.group)
               else |row.matcher| <= |q.group| && SameButCase(row.matcher, q.group[..|row.matcher|])
  {
    UpperExact(row.matcher, q.group);
    if |row.matcher| <= |q.group| {
      UpperExact(row.matcher, q.group[..|row.matcher|]);
      assert AsciiUpper(q.group[..|row.matcher|]) == AsciiUpper(q.group)[..|row.matcher|];
    }
  }
}
