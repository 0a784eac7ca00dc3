/** Capture tuples of one template as constant and variable columns. */
module TupleColumns {
  import opened Wrappers
  import opened Text
  import opened TemplateCodec
  import opened Frames

  const TUPLE_CHUNK_BYTES: nat := 400

  datatype Route = Route(constants: seq<string>, chunks: seq<string>)

  datatype GroupError = NoCaptures | WidthsDiffer | TupleCollision

  /* ---------- columns ---------- */

  ghost predicate SameWidth(captures: seq<seq<string>>) {
    forall k | 0 <= k < |captures| :: |captures[k]| == |captures[0]|
  }

  /** Column i holds one value in all tuples. */
  ghost predicate ConstantColumn(captures: seq<seq<string>>, i: nat)
    requires captures != [] && SameWidth(captures) && i < |captures[0]|
  {
    forall k | 0 <= k < |captures| :: captures[k][i] == captures[0][i]
  }

  ghost predicate IsMask(captures: seq<seq<string>>, mask: seq<bool>) {
    && captures != [] && SameWidth(captures) && |mask| == |captures[0]|
    && forall i | 0 <= i < |mask| :: mask[i] <==> ConstantColumn(captures, i)
  }

  /** The values of the variable columns among the first n. */
  function Variables(tuple: seq<string>, mask: seq<bool>, n: nat): seq<string>
    requires n <= |tuple| == |mask|
  {
    if n == 0 then []
    else Variables(tuple, mask, n - 1) + (if mask[n - 1] then [] else [tuple[n - 1]])
  }

  function VariableText(tuple: seq<string>, mask: seq<bool>): string
    requires |tuple| == |mask|
  {
    Join(Variables(tuple, mask, |mask|), ',')
  }

  function VariableTexts(captures: seq<seq<string>>, mask: seq<bool>): (texts: seq<string>)
    requires forall k | 0 <= k < |captures| :: |captures[k]| == |mask|
    ensures |texts| == |captures|
    ensures forall k | 0 <= k < |captures| :: texts[k] == VariableText(captures[k], mask)
  {
    seq(|captures|, k requires 0 <= k < |captures| => VariableText(captures[k], mask))
  }

  ghost predicate Distinct(texts: seq<string>) {
    forall k, l | 0 <= k < l < |texts| :: texts[k] != texts[l]
  }

  /** A route holds the constants of the mask and, in its chunks, every tuple's variables. */
  ghost predicate RouteOf(captures: seq<seq<string>>, mask: seq<bool>, route: Route) {
    && IsMask(captures, mask)
    && |route.constants| == |mask|
    && (forall i | 0 <= i < |mask| :: route.constants[i] == if mask[i] then captures[0][i] else "")
    && exists pieces :: Chunked(VariableTexts(captures, mask), TUPLE_CHUNK_BYTES, pieces, route.chunks)
  }

  /* ---------- encoding a group ---------- */

  /** The columns that stay constant, by narrowing over the tuples. */
  method ConstantColumns(captures: seq<seq<string>>)
      returns (ok: bool, constants: array<string>, isConstant: array<bool>)
    requires captures != []
    ensures fresh(constants) && fresh(isConstant)
    ensures ok <==> SameWidth(captures)
    ensures ok ==> IsMask(captures, isConstant[..])
    ensures ok ==> constants.Length == isConstant.Length && forall i | 0 <= i < constants.Length ::
              constants[i] == captures[0][i]
  {
    var width := |captures[0]|;
    constants := new string[width](i requires 0 <= i < width => captures[0][i]);
    isConstant := new bool[width](_ => true);
    ok := true;
    for k := 1 to |captures|
      invariant forall l | 0 <= l < k :: |captures[l]| == width
      invariant forall i | 0 <= i < width ::
                  isConstant[i] <==> forall l | 0 <= l < k :: captures[l][i] == captures[0][i]
      invariant forall i | 0 <= i < width :: constants[i] == captures[0][i]
    {
      if |captures[k]| != width {
        return false, constants, isConstant;
      }
      for i := 0 to width
        invariant forall j | i <= j < width ::
                    isConstant[j] <==> forall l | 0 <= l < k :: captures[l][j] == captures[0][j]
        invariant forall j | 0 <= j < i :: isConstant[j] <==> forall l | 0 <= l <= k :: captures[l][j] == captures[0][j]
        invariant forall j | 0 <= j < width :: constants[j] == captures[0][j]
      {
        if constants[i] != captures[k][i] {
          isConstant[i] := false;
        }
      }
    }
  }

  method VariableColumns(tuple: seq<string>, isConstant: array<bool>) returns (variables: seq<string>)
    requires |tuple| == isConstant.Length
    ensures variables == Variables(tuple, isConstant[..], |tuple|)
  {
    variables := [];
    for i := 0 to |tuple|
      invariant variables == Variables(tuple, isConstant[..], i)
    {
      if !isConstant[i] {
        variables := variables + [tuple[i]];
      }
    }
  }

  method BlankVariables(constants: array<string>, isConstant: array<bool>)
    requires constants.Length == isConstant.Length
    modifies constants
    ensures forall i | 0 <= i < constants.Length :: constants[i] == if isConstant[i] then old(constants[i]) else ""
  {
    for i := 0 to constants.Length
      invariant forall j | i <= j < constants.Length :: constants[j] == old(constants[j])
      invariant forall j | 0 <= j < i :: constants[j] == if isConstant[j] then old(constants[j]) else ""
    {
      if !isConstant[i] {
        constants[i] := "";
      }
    }
  }

  /** The variables of every tuple, unless two tuples share them. */
  method GroupTuples(captures: seq<seq<string>>, isConstant: array<bool>) returns (ok: bool, tuples: seq<string>)
    requires forall k | 0 <= k < |captures| :: |captures[k]| == isConstant.Length
    ensures ok <==> Distinct(VariableTexts(captures, isConstant[..]))
    ensures ok ==> tuples == VariableTexts(captures, isConstant[..])
  {
    ghost var texts := VariableTexts(captures, isConstant[..]);
    tuples := [];
    var seen: set<string> := {};
    for k := 0 to |captures|
      invariant tuples == texts[..k] && seen == (set t | t in tuples)
      invariant Distinct(tuples)
    {
      var variables := VariableColumns(captures[k], isConstant);
      var tuple := Join(variables, ',');
      assert tuple == texts[k];
      if tuple in seen {
        var l :| 0 <= l < k && tuples[l] == tuple;
        assert texts[l] == texts[k];
        return false, tuples;
      }
      tuples := tuples + [tuple];
      seen := seen + {tuple};
    }
    assert texts[..|captures|] == texts;
    ok := true;
  }

  /** Constants and chunks of a group, or why there are none. */
  method EncodedGroupData(captures: seq<seq<string>>) returns (res: Result<Route, GroupError>, ghost mask: seq<bool>)
    ensures captures == [] <==> res == Failure(NoCaptures)
    ensures captures != [] && !SameWidth(captures) <==> res == Failure(WidthsDiffer)
    ensures captures != [] && SameWidth(captures) ==> IsMask(captures, mask)
    ensures res.Success? ==> RouteOf(captures, mask, res.value)
    ensures captures != [] && SameWidth(captures) ==> (res.Success? <==> Distinct(VariableTexts(captures, mask)))
  {
    mask := [];
    if captures == [] {
      return Failure(NoCaptures), [];
    }
    var ok, constants, isConstant := ConstantColumns(captures);
    if !ok {
      return Failure(WidthsDiffer), [];
    }
    mask := isConstant[..];
    BlankVariables(constants, isConstant);
    var tuples;
    ok, tuples := GroupTuples(captures, isConstant);
    if !ok {
      return Failure(TupleCollision), mask;
    }
    ghost var pieces;
    var chunks;
    chunks, pieces := SharedTupleChunks(tuples, TUPLE_CHUNK_BYTES);
    res := Success(Route(constants[..], chunks));
  }

  /* ---------- reading a route ---------- */

  predicate ConstantsMatch(captures: seq<string>, constants: seq<string>) {
    |captures| == |constants| && forall i | 0 <= i < |constants| :: constants[i] == "" || captures[i] == constants[i]
  }

  /** The columns a reader takes as variable: those without a constant. */
  function ReaderMask(constants: seq<string>): (mask: seq<bool>)
    ensures |mask| == |constants|
  {
    seq(|constants|, i requires 0 <= i < |constants| => constants[i] != "")
  }

  /** What the policy does with the captures of a key and the record of its template. */
  ghost predicate RouteAccepts(captures: seq<string>, route: Route) {
    && ConstantsMatch(captures, route.constants)
    && exists k | 0 <= k < |route.chunks| ::
         Contains(route.chunks[k], Framed(VariableText(captures, ReaderMask(route.constants))))
  }

  /** Captures as tokens give them: nonempty, and free of commas and newlines. */
  ghost predicate TokenTuple(captures: seq<string>) {
    forall i | 0 <= i < |captures| :: captures[i] != "" && Free(captures[i], ',') && Free(captures[i], NL)
  }

  lemma {:induction false} VariablesAreTokens(tuple: seq<string>, mask: seq<bool>, n: nat)
    requires n <= |tuple| == |mask| && TokenTuple(tuple)
    ensures AllFree(Variables(tuple, mask, n), ',') && AllFree(Variables(tuple, mask, n), NL)
  {
    if n > 0 {
      VariablesAreTokens(tuple, mask, n - 1);
    }
  }

  lemma {:induction false} JoinFree(parts: seq<string>, sep: char, c: char)
    requires AllFree(parts, c) && c != sep
    ensures Free(Join(parts, sep), c)
  {
    if |parts| > 1 {
      JoinFree(parts[1..], sep, c);
    }
  }

  /** Two tuples with the same constants and the same variables are the same. */
  lemma {:induction false} VariablesDetermine(a: seq<string>, b: seq<string>, mask: seq<bool>, n: nat)
    requires n <= |a| == |b| == |mask|
    requires forall i | 0 <= i < n && mask[i] :: a[i] == b[i]
    requires Variables(a, mask, n) == Variables(b, mask, n)
    ensures a[..n] == b[..n]
  {
    if n > 0 {
      var u, v := Variables(a, mask, n - 1), Variables(b, mask, n - 1);
      VariablesLength(a, b, mask, n - 1);
      assert Variables(a, mask, n)[..|u|] == u && Variables(b, mask, n)[..|v|] == v;
      VariablesDetermine(a, b, mask, n - 1);
      if !mask[n - 1] {
        assert Variables(a, mask, n)[|u|] == a[n - 1] && Variables(b, mask, n)[|v|] == b[n - 1];
      }
      assert a[..n] == a[..n - 1] + [a[n - 1]] && b[..n] == b[..n - 1] + [b[n - 1]];
    }
  }

  lemma {:induction false} VariablesLength(a: seq<string>, b: seq<string>, mask: seq<bool>, n: nat)
    requires n <= |a| == |b| == |mask|
    ensures |Variables(a, mask, n)| == |Variables(b, mask, n)|
  {
    if n > 0 {
      VariablesLength(a, b, mask, n - 1);
    }
  }

  /** The text of the variables determines them: they hold no comma. */
  lemma TextDetermines(a: seq<string>, b: seq<string>, mask: seq<bool>)
    requires |a| == |b| == |mask| && TokenTuple(a) && TokenTuple(b)
    requires forall i | 0 <= i < |mask| && mask[i] :: a[i] == b[i]
    requires VariableText(a, mask) == VariableText(b, mask)
    ensures a == b
  {
    var n := |mask|;
    VariablesLength(a, b, mask, n);
    VariablesAreTokens(a, mask, n);
    VariablesAreTokens(b, mask, n);
    if Variables(a, mask, n) != [] {
      JoinInjective(Variables(a, mask, n), Variables(b, mask, n), ',');
    }
    VariablesDetermine(a, b, mask, n);
    assert a[..n] == a && b[..n] == b;
  }

  /** Distinct token tuples never collide: they agree on the constant columns, so they differ on a
      variable one. */
  lemma NoCollision(captures: seq<seq<string>>, mask: seq<bool>)
    requires IsMask(captures, mask)
    requires forall k | 0 <= k < |captures| :: TokenTuple(captures[k])
    requires forall k, l | 0 <= k < l < |captures| :: captures[k] != captures[l]
    ensures Distinct(VariableTexts(captures, mask))
  {
    var texts := VariableTexts(captures, mask);
    forall k, l | 0 <= k < l < |texts| ensures texts[k] != texts[l] {
      if texts[k] == texts[l] {
        forall i | 0 <= i < |mask| && mask[i] ensures captures[k][i] == captures[l][i] {
          assert ConstantColumn(captures, i);
        }
        TextDetermines(captures[k], captures[l], mask);
      }
    }
  }

  /** The policy accepts a token tuple exactly when it is one of the group's. */
  lemma RouteAcceptsExact(captures: seq<seq<string>>, mask: seq<bool>, route: Route, tuple: seq<string>)
    requires RouteOf(captures, mask, route) && TokenTuple(tuple)
    requires forall k | 0 <= k < |captures| :: TokenTuple(captures[k])
    ensures RouteAccepts(tuple, route) <==> tuple in captures
  {
    forall i | 0 <= i < |mask| ensures ReaderMask(route.constants)[i] == mask[i] {
      assert route.constants[i] == if mask[i] then captures[0][i] else "";
      assert TokenTuple(captures[0]);
    }
    assert ReaderMask(route.constants) == mask;
    var texts := VariableTexts(captures, mask);
    var pieces :| Chunked(texts, TUPLE_CHUNK_BYTES, pieces, route.chunks);
    forall k | 0 <= k < |texts| ensures Free(texts[k], NL) {
      VariablesAreTokens(captures[k], mask, |mask|);
      JoinFree(Variables(captures[k], mask, |mask|), ',', NL);
    }
    if |tuple| == |mask| {
      var text := VariableText(tuple, mask);
      VariablesAreTokens(tuple, mask, |mask|);
      JoinFree(Variables(tuple, mask, |mask|), ',', NL);
      ChunksMembership(texts, TUPLE_CHUNK_BYTES, pieces, route.chunks, text);
      if RouteAccepts(tuple, route) {
        var k :| 0 <= k < |texts| && texts[k] == text;
        forall i | 0 <= i < |mask| && mask[i] ensures tuple[i] == captures[k][i] {
          assert ConstantColumn(captures, i);
          assert TokenTuple(captures[0]);
        }
        TextDetermines(tuple, captures[k], mask);
      }
    }
    if tuple in captures {
      var k :| 0 <= k < |captures| && captures[k] == tuple;
      forall i | 0 <= i < |route.constants| ensures route.constants[i] == "" || tuple[i] == route.constants[i] {
        assert mask[i] ==> ConstantColumn(captures, i);
      }
      assert texts[k] == VariableText(tuple, mask);
    }
  }
}
