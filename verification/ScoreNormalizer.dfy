/** Mapping an upstream score onto the bounded scale of the host, and choosing the upstream row. */
module ScoreNormalizer {
  import opened Wrappers
  import opened Text

  const MAX_INT64: int := 0x7FFF_FFFF_FFFF_FFFF
  const MIN_INT64: int := -0x8000_0000_0000_0000

  type int64 = x: int | MIN_INT64 <= x <= MAX_INT64

  /** Arithmetic in 64 bits wraps around. */
  function Wrapped(x: int): int64 {
    (x - MIN_INT64) % 0x1_0000_0000_0000_0000 + MIN_INT64
  }

  lemma WrappedFits(x: int)
    requires MIN_INT64 <= x <= MAX_INT64
    ensures Wrapped(x) == x
  {
  }

  /** Division rounds toward zero. */
  function Quotient(a: int, b: int): int
    requires b != 0
  {
    if a >= 0 then a / b else -((-a) / b)
  }

  function Abs64(value: int64): int64 {
    if value < 0 then Wrapped(-(value as int)) else value
  }

  /** The part of the scale above 100. */
  function Compressed(magnitude: int64, veto: int64): int64 {
    var span := Wrapped(veto - 100);
    if span <= 0 then 1000
    else
      var past := Wrapped(magnitude - 100);
      var over := if past > span then span else past;
      Wrapped(100 + Quotient(Wrapped(over * 900), span))
  }

  function NormalizeTrashScore(value: int64, veto: int64): int64 {
    if value <= -10000 then -10000
    else
      var magnitude := Abs64(value);
      var scaled := if magnitude > 100 then Compressed(magnitude, veto) else magnitude;
      if value < 0 then Wrapped(-(scaled as int)) else scaled
  }

  /** No step of the scaling leaves 64 bits. */
  predicate Scalable(veto: int64) {
    veto >= MIN_INT64 + 100 && (veto - 100) * 900 <= MAX_INT64
  }

  /* ---------- the shape of the scale ---------- */

  /** The scale without the width of the machine. */
  function Scaled(magnitude: nat, veto: int): (s: nat)
  {
    if magnitude <= 100 then magnitude
    else if veto <= 100 then 1000
    else
      var over := if magnitude - 100 > veto - 100 then veto - 100 else magnitude - 100;
      100 + over * 900 / (veto - 100)
  }

  lemma OverFits(over: nat, span: nat)
    requires 0 < span && over <= span
    ensures 0 <= over * 900 <= span * 900
    ensures 0 <= over * 900 / span <= 900
  {
    assert over * 900 <= span * 900;
    DividesUp(over * 900, span * 900, span);
    assert span * 900 / span == 900;
  }

  lemma DividesUp(a: nat, b: nat, d: nat)
    requires a <= b && 0 < d
    ensures a / d <= b / d
  {
    var q, p := a / d, b / d;
    MulUp(d, p + 1, q);
    assert d * q <= a && b < d * (p + 1);
  }

  lemma MulUp(d: nat, a: nat, b: nat)
    ensures a <= b ==> d * a <= d * b
  {
  }

  lemma ScaledBounded(magnitude: nat, veto: int)
    ensures Scaled(magnitude, veto) <= 1000
    ensures magnitude > 100 ==> Scaled(magnitude, veto) >= 100
  {
    if magnitude > 100 && veto > 100 {
      OverFits(if magnitude - 100 > veto - 100 then veto - 100 else magnitude - 100, veto - 100);
    }
  }

  lemma ScaledMonotone(a: nat, b: nat, veto: int)
    requires a <= b
    ensures Scaled(a, veto) <= Scaled(b, veto)
  {
    ScaledBounded(a, veto);
    ScaledBounded(b, veto);
    if a > 100 && veto > 100 {
      var span := veto - 100;
      var x := if a - 100 > span then span else a - 100;
      var y := if b - 100 > span then span else b - 100;
      DividesUp(x * 900, y * 900, span);
    }
  }

  lemma CompressedExact(magnitude: int64, veto: int64)
    requires Scalable(veto) && magnitude > 100
    ensures Compressed(magnitude, veto) == Scaled(magnitude, veto)
  {
    WrappedFits(veto - 100);
    if veto > 100 {
      var span := veto - 100;
      WrappedFits(magnitude - 100);
      var over := if magnitude - 100 > span then span else magnitude - 100;
      OverFits(over, span);
      WrappedFits(over * 900);
      WrappedFits(100 + over * 900 / span);
    }
  }

  function Magnitude(value: int): nat {
    if value < 0 then -value else value
  }

  /** For a scalable veto, no step wraps. */
  lemma NormalizeExact(value: int64, veto: int64)
    requires Scalable(veto)
    ensures NormalizeTrashScore(value, veto) ==
            if value <= -10000 then -10000
            else if value < 0 then -(Scaled(Magnitude(value), veto) as int) else Scaled(Magnitude(value), veto)
  {
    if value > -10000 {
      var magnitude := Magnitude(value);
      WrappedFits(-(value as int));
      ScaledBounded(magnitude, veto);
      if magnitude > 100 {
        CompressedExact(magnitude, veto);
      }
      WrappedFits(-(Scaled(magnitude, veto) as int));
    }
  }

  /** For every scalable veto the normalized score never falls as the score rises, is the score itself
      between -100 and 100, stays within 1000 of zero above -10000, and is -10000 at or below that. */
  lemma NormalizeShape(value: int64, other: int64, veto: int64)
    requires Scalable(veto)
    ensures value <= other ==> NormalizeTrashScore(value, veto) <= NormalizeTrashScore(other, veto)
    ensures -100 <= value <= 100 ==> NormalizeTrashScore(value, veto) == value
    ensures value > -10000 ==> -1000 <= NormalizeTrashScore(value, veto) <= 1000
    ensures value <= -10000 <==> NormalizeTrashScore(value, veto) == -10000
  {
    NormalizeExact(value, veto);
    NormalizeExact(other, veto);
    ScaledBounded(Magnitude(value), veto);
    ScaledBounded(Magnitude(other), veto);
    if value <= other < 0 {
      ScaledMonotone(Magnitude(other), Magnitude(value), veto);
    } else if 0 <= value <= other {
      ScaledMonotone(Magnitude(value), Magnitude(other), veto);
    }
  }

  /** For every scalable veto the score is 1000 from the veto on, and between 100 and the veto it is on the line from
      100 to 1000, rounded down; a negative one above -10000 is as far from zero as the positive one. */
  lemma NormalizeLine(value: int64, veto: int64)
    requires Scalable(veto)
    ensures var t := NormalizeTrashScore(value, veto) as int;
      && (value > 100 && value >= veto ==> t == 1000)
      && (100 < value < veto ==> OnLine(value as int, veto as int, t))
      && (-10000 < value < 0 ==> t == -(NormalizeTrashScore(-value, veto) as int))
  {
    NormalizeExact(value, veto);
    if 100 < value {
      ScaledLine(value as int, veto as int);
    } else if -10000 < value < 0 {
      NormalizeExact(-value, veto);
    }
  }

  predicate OnLine(magnitude: int, veto: int, t: int) {
    (t - 100) * (veto - 100) <= (magnitude - 100) * 900 < (t - 99) * (veto - 100)
  }

  lemma ScaledLine(magnitude: nat, veto: int)
    requires magnitude > 100
    ensures magnitude >= veto ==> Scaled(magnitude, veto) == 1000
    ensures magnitude < veto ==> OnLine(magnitude, veto, Scaled(magnitude, veto))
  {
    if magnitude >= veto > 100 {
      FullSpan(veto - 100);
    } else if magnitude < veto {
      RoundedDown((magnitude - 100) * 900, veto - 100);
    }
  }

  lemma FullSpan(span: nat)
    requires span > 0
    ensures span * 900 / span == 900
  {
    var q := span * 900 / span;
    RoundedDown(span * 900, span);
    OverFits(span, span);
    if q < 900 {
      MulUp(span, q + 1, 900);
    }
  }

  lemma RoundedDown(a: nat, span: nat)
    requires span > 0
    ensures a / span * span <= a < (a / span + 1) * span
  {
  }

  ghost predicate NeverFalls(veto: int64) {
    forall value: int64, other: int64 | value <= other ::
      NormalizeTrashScore(value, veto) <= NormalizeTrashScore(other, veto)
  }

  /** The largest product by 900 that fits, and the next one, which wraps to a negative number. */
  lemma ProductOutgrows(value: int64)
    requires value == 10248191152060962
    ensures Wrapped((value - 100) * 900) == 9223372036854775800
    ensures Wrapped((value - 99) * 900) == -9223372036854774916
  {
    assert (value - 100) * 900 == 9223372036854775800 && (value - 99) * 900 == 9223372036854776700;
    WrappedFits((value - 100) * 900);
  }

  lemma AtLeastOne(a: nat, span: nat)
    requires 0 < span <= a
    ensures a / span >= 1
  {
    DividesUp(span, a, span);
  }

  lemma CompressedIs(magnitude: int64, veto: int64, span: int64, product: int64)
    requires magnitude > 100 && span == Wrapped(veto - 100) > 0 && magnitude - 100 <= span
    requires product == Wrapped((magnitude - 100) * 900)
    ensures Compressed(magnitude, veto) == Wrapped(100 + Quotient(product, span))
    ensures NormalizeTrashScore(magnitude, veto) == Compressed(magnitude, veto)
  {
    WrappedFits(magnitude - 100);
  }

  lemma LargeVetoFalls(veto: int64, value: int64)
    requires veto >= 0 && !Scalable(veto) && value == 10248191152060962
    ensures NormalizeTrashScore(value, veto) > NormalizeTrashScore(value + 1, veto)
  {
    var span := veto - 100;
    WrappedFits(span);
    ProductOutgrows(value);
    CompressedIs(value, veto, span, 9223372036854775800);
    CompressedIs(value + 1, veto, span, -9223372036854774916);
    RoundsDown(span, 9223372036854775800, -9223372036854774916);
  }

  lemma RoundsDown(span: int64, gain: int, loss: int)
    requires 1024 <= span <= gain && gain <= MAX_INT64 + 1 && MIN_INT64 <= loss < 0
    ensures Wrapped(100 + Quotient(gain, span)) > Wrapped(100 + Quotient(loss, span))
  {
    var up, down := Quotient(gain, span), Quotient(loss, span);
    GainBounds(span, gain, up);
    LossBounds(span, loss, down);
    AboveBelow(up, down);
  }

  lemma GainBounds(span: int64, gain: int, up: int)
    requires 1024 <= span <= gain && gain <= MAX_INT64 + 1 && up == Quotient(gain, span)
    ensures 1 <= up <= 0x20_0000_0000_0000
  {
    AtLeastOne(gain, span);
    QuotientSmall(gain, span);
  }

  lemma LossBounds(span: int64, loss: int, down: int)
    requires 1024 <= span && MIN_INT64 <= loss < 0 && down == Quotient(loss, span)
    ensures -0x20_0000_0000_0000 <= down <= 0
  {
    QuotientSmall(-loss, span);
  }

  lemma AboveBelow(up: int, down: int)
    requires 1 <= up <= 0x20_0000_0000_0000 && -0x20_0000_0000_0000 <= down <= 0
    ensures Wrapped(100 + up) > Wrapped(100 + down)
  {
    WrappedFits(100 + up);
    WrappedFits(100 + down);
  }

  lemma QuotientSmall(a: nat, span: nat)
    requires span >= 1024 && a <= MAX_INT64 + 1
    ensures 0 <= a / span <= 0x20_0000_0000_0000
  {
    DividesUp(a, 0x20_0000_0000_0000 * span, span);
    assert 0x20_0000_0000_0000 * span / span == 0x20_0000_0000_0000;
  }

  /** A veto so low that the span wraps to a positive number. */
  lemma LowVetoFalls(veto: int64, value: int64)
    requires veto < MIN_INT64 + 100 && value == 0x2000_0000_0000_0000 + 100
    ensures NormalizeTrashScore(100, veto) > NormalizeTrashScore(value, veto)
  {
    var span := Wrapped(veto - 100);
    assert span == veto - 100 + 0x1_0000_0000_0000_0000;
    assert Wrapped(value - 100) == 0x2000_0000_0000_0000;
    assert Wrapped(0x2000_0000_0000_0000 * 900) == MIN_INT64;
    assert (-MIN_INT64) / span == 1;
    assert Compressed(value, veto) == 99;
  }

  /** The score never falls as the value rises if and only if no step of the scaling leaves 64 bits. */
  lemma NeverFallsExactly(veto: int64)
    ensures NeverFalls(veto) <==> Scalable(veto)
  {
    if Scalable(veto) {
      forall value: int64, other: int64 | value <= other
        ensures NormalizeTrashScore(value, veto) <= NormalizeTrashScore(other, veto)
      {
        NormalizeShape(value, other, veto);
      }
    } else if veto >= 0 {
      LargeVetoFalls(veto, 10248191152060962);
    } else {
      LowVetoFalls(veto, 0x2000_0000_0000_0000 + 100);
    }
  }

  /* ---------- choosing the row ---------- */

  datatype Score = Score(code: string, scoreSet: string, app: string, score: int64)

  predicate Weaker(a: int64, b: int64) {
    Abs64(a) < Abs64(b) || (Abs64(a) == Abs64(b) && a < b)
  }

  predicate Concerns(row: Score, code: string, scoreSet: string, app: string) {
    row.code == code && row.scoreSet == scoreSet && row.app == app
  }

  predicate Offers(row: Score, code: string, scoreSet: string, app: string, value: int64) {
    Concerns(row, code, scoreSet, app) && row.score == value
  }

  ghost predicate Offered(rows: seq<Score>, code: string, scoreSet: string, app: string, value: int64) {
    exists i | 0 <= i < |rows| :: Offers(rows[i], code, scoreSet, app, value)
  }

  /** The weakest value that the rows offer, if they offer any. */
  ghost predicate Chosen(rows: seq<Score>, code: string, scoreSet: string, app: string, chosen: Option<int64>) {
    match chosen
    case None => forall value: int64 :: !Offered(rows, code, scoreSet, app, value)
    case Some(v) => Offered(rows, code, scoreSet, app, v)
                    && forall value: int64 | Offered(rows, code, scoreSet, app, value) :: !Weaker(value, v)
  }

  /** The chosen value is offered, none is offered that is nearer to zero, and of two as near it is the
      negative one. */
  lemma ChosenExact(rows: seq<Score>, code: string, scoreSet: string, app: string, chosen: int64, value: int64)
    requires MIN_INT64 < chosen && MIN_INT64 < value
    requires Chosen(rows, code, scoreSet, app, Some(chosen)) && Score(code, scoreSet, app, value) in rows
    ensures Score(code, scoreSet, app, chosen) in rows
    ensures Distance(chosen) <= Distance(value)
    ensures Distance(value) == Distance(chosen) ==> chosen <= value
  {
    var i :| 0 <= i < |rows| && rows[i] == Score(code, scoreSet, app, value);
    assert Offers(rows[i], code, scoreSet, app, value);
    assert Offered(rows, code, scoreSet, app, value);
    var k :| 0 <= k < |rows| && Offers(rows[k], code, scoreSet, app, chosen);
    assert rows[k] == Score(code, scoreSet, app, chosen);
  }

  function Distance(x: int): nat {
    if x < 0 then -x else x
  }

  lemma OfferedMore(rows: seq<Score>, last: Score, code: string, scoreSet: string, app: string, value: int64)
    ensures Offered(rows + [last], code, scoreSet, app, value) <==>
            Offered(rows, code, scoreSet, app, value) || Offers(last, code, scoreSet, app, value)
  {
    var more := rows + [last];
    if k :| 0 <= k < |more| && Offers(more[k], code, scoreSet, app, value) {
      assert k < |rows| ==> rows[k] == more[k];
    }
    if k :| 0 <= k < |rows| && Offers(rows[k], code, scoreSet, app, value) {
      assert more[k] == rows[k];
    }
    assert more[|rows|] == last;
  }

  lemma ChosenMore(rows: seq<Score>, last: Score, code: string, scoreSet: string, app: string, chosen: Option<int64>)
    requires Chosen(rows, code, scoreSet, app, chosen)
    ensures var better := Concerns(last, code, scoreSet, app) && (chosen.None? || Weaker(last.score, chosen.value));
      Chosen(rows + [last], code, scoreSet, app, if better then Some(last.score) else chosen)
  {
    var more := rows + [last];
    forall value: int64
      ensures Offered(more, code, scoreSet, app, value) <==>
              Offered(rows, code, scoreSet, app, value) || Offers(last, code, scoreSet, app, value)
    {
      OfferedMore(rows, last, code, scoreSet, app, value);
    }
  }

  method Choose(rows: seq<Score>, code: string, scoreSet: string, app: string) returns (chosen: Option<int64>)
    ensures Chosen(rows, code, scoreSet, app, chosen)
  {
    chosen := None;
    for i := 0 to |rows|
      invariant Chosen(rows[..i], code, scoreSet, app, chosen)
    {
      assert rows[..i + 1] == rows[..i] + [rows[i]];
      ChosenMore(rows[..i], rows[i], code, scoreSet, app, chosen);
      if Concerns(rows[i], code, scoreSet, app) {
        var value := rows[i].score;
        if chosen.None? || Weaker(value, chosen.value) {
          chosen := Some(value);
        }
      }
    }
    assert rows[..|rows|] == rows;
  }

  /** The value does not depend on the order of the rows, or on how often one is repeated. */
  lemma ChosenIgnoresOrder(a: seq<Score>, b: seq<Score>, code: string, scoreSet: string, app: string,
                           x: Option<int64>, y: Option<int64>)
    requires forall row :: row in a <==> row in b
    requires Chosen(a, code, scoreSet, app, x) && Chosen(b, code, scoreSet, app, y)
    ensures x == y
  {
    forall value: int64 ensures Offered(a, code, scoreSet, app, value) <==> Offered(b, code, scoreSet, app, value) {
      SameOffer(a, b, code, scoreSet, app, value);
      SameOffer(b, a, code, scoreSet, app, value);
    }
  }

  lemma SameOffer(a: seq<Score>, b: seq<Score>, code: string, scoreSet: string, app: string, value: int64)
    requires forall row | row in a :: row in b
    ensures Offered(a, code, scoreSet, app, value) ==> Offered(b, code, scoreSet, app, value)
  {
    if i :| 0 <= i < |a| && Offers(a[i], code, scoreSet, app, value) {
      assert a[i] in b;
      var j :| 0 <= j < |b| && b[j] == a[i];
      assert Offers(b[j], code, scoreSet, app, value);
    }
  }

  /* ---------- the veto of a score set ---------- */

  datatype Envelope = Envelope(scoreSet: string, vetoes: seq<int64>)

  function Tightened(veto: int64, value: int64): int64 {
    if veto == 0 || Abs64(value) < veto then Abs64(value) else veto
  }

  function Tighten(veto: int64, values: seq<int64>): int64 {
    if values == [] then veto else Tightened(Tighten(veto, values[..|values| - 1]), values[|values| - 1])
  }

  function WithDefault(veto: int64): int64 {
    if veto == 0 then 10000 else veto
  }

  /** The veto that the envelopes of one set leave; 0 when there is none. */
  function Veto(lists: seq<seq<int64>>): int64 {
    if lists == [] then 0 else WithDefault(Tighten(Veto(lists[..|lists| - 1]), lists[|lists| - 1]))
  }

  function OfSet(envelopes: seq<Envelope>, scoreSet: string): seq<seq<int64>> {
    if envelopes == [] then []
    else
      var last := envelopes[|envelopes| - 1];
      OfSet(envelopes[..|envelopes| - 1], scoreSet) + if last.scoreSet == scoreSet then [last.vetoes] else []
  }

  /** The lists of a set are those of its envelopes, in order. */
  lemma {:induction false} OfSetExact(before: seq<Envelope>, envelope: Envelope, after: seq<Envelope>, scoreSet: string)
    ensures OfSet([], scoreSet) == []
    ensures OfSet(before + [envelope] + after, scoreSet) ==
            OfSet(before, scoreSet) + (if envelope.scoreSet == scoreSet then [envelope.vetoes] else [])
            + OfSet(after, scoreSet)
    decreases |after|
  {
    var all := before + [envelope] + after;
    if after == [] {
      assert all[..|all| - 1] == before;
    } else {
      assert all[..|all| - 1] == before + [envelope] + after[..|after| - 1];
      OfSetExact(before, envelope, after[..|after| - 1], scoreSet);
    }
  }

  ghost predicate Holds(vetoes: map<string, int64>, envelopes: seq<Envelope>) {
    forall scoreSet :: (if scoreSet in vetoes then vetoes[scoreSet] else 0) == Veto(OfSet(envelopes, scoreSet))
  }

  method Vetoes(envelopes: seq<Envelope>) returns (vetoes: map<string, int64>)
    ensures Holds(vetoes, envelopes)
  {
    vetoes := map[];
    for i := 0 to |envelopes|
      invariant Holds(vetoes, envelopes[..i])
    {
      var envelope := envelopes[i];
      var veto: int64 := if envelope.scoreSet in vetoes then vetoes[envelope.scoreSet] else 0;
      ghost var start := veto;
      for k := 0 to |envelope.vetoes|
        invariant veto == Tighten(start, envelope.vetoes[..k])
      {
        assert envelope.vetoes[..k + 1][..k] == envelope.vetoes[..k];
        if veto == 0 || Abs64(envelope.vetoes[k]) < veto {
          veto := Abs64(envelope.vetoes[k]);
        }
      }
      assert envelope.vetoes[..|envelope.vetoes|] == envelope.vetoes;
      if veto == 0 {
        veto := 10000;
      }
      HoldsMore(vetoes, envelopes, i, veto);
      vetoes := vetoes[envelope.scoreSet := veto];
    }
    assert envelopes[..|envelopes|] == envelopes;
  }

  lemma HoldsMore(vetoes: map<string, int64>, envelopes: seq<Envelope>, i: nat, veto: int64)
    requires i < |envelopes| && Holds(vetoes, envelopes[..i])
    requires veto == WithDefault(Tighten(Veto(OfSet(envelopes[..i], envelopes[i].scoreSet)), envelopes[i].vetoes))
    ensures Holds(vetoes[envelopes[i].scoreSet := veto], envelopes[..i + 1])
  {
    var more := vetoes[envelopes[i].scoreSet := veto];
    assert envelopes[..i + 1][..i] == envelopes[..i];
    forall scoreSet
      ensures (if scoreSet in more then more[scoreSet] else 0) == Veto(OfSet(envelopes[..i + 1], scoreSet))
    {
      var lists := OfSet(envelopes[..i], scoreSet);
      assert (lists + [envelopes[i].vetoes])[..|lists|] == lists;
      assert lists + [] == lists;
    }
  }

  /** No veto is zero, or the one number without a magnitude. */
  ghost predicate Positive(lists: seq<seq<int64>>) {
    forall i, k | 0 <= i < |lists| && 0 <= k < |lists[i]| :: Abs64(lists[i][k]) > 0
  }

  ghost predicate Listed(lists: seq<seq<int64>>, value: int64) {
    exists list :: list in lists && value in list
  }

  /** What comes of envelopes with positive vetoes: the least magnitude, where an empty envelope that comes
      first counts as one of 10000. */
  ghost predicate LeastOf(lists: seq<seq<int64>>, veto: int64)
    requires lists != []
  {
    && veto > 0
    && (forall value: int64 | Listed(lists, value) :: veto <= Abs64(value))
    && (lists[0] == [] ==> veto <= 10000)
    && ((lists[0] == [] && veto == 10000) || ListedAs(lists, veto))
  }

  ghost predicate ListedAs(lists: seq<seq<int64>>, magnitude: int64) {
    exists value: int64 :: Listed(lists, value) && Abs64(value) == magnitude
  }

  lemma {:induction false} TightenExact(veto: int64, values: seq<int64>)
    requires veto >= 0 && forall k | 0 <= k < |values| :: Abs64(values[k]) > 0
    ensures var r := Tighten(veto, values);
      && r >= 0 && (r == 0 <==> veto == 0 && values == [])
      && (veto > 0 ==> r <= veto)
      && (forall value | value in values :: r <= Abs64(value))
      && (r == veto || exists value :: value in values && Abs64(value) == r)
  {
    if values != [] {
      var init, last := values[..|values| - 1], values[|values| - 1];
      TightenExact(veto, init);
      assert values == init + [last] && last in values;
    }
  }

  lemma ListedMore(lists: seq<seq<int64>>, last: seq<int64>, value: int64)
    ensures Listed(lists + [last], value) <==> Listed(lists, value) || value in last
  {
    if list :| list in lists + [last] && value in list {
      assert list in lists || list == last;
    }
    if list :| list in lists && value in list {
      assert list in lists + [last];
    }
    assert last in lists + [last];
  }

  lemma {:induction false} VetoIsLeast(lists: seq<seq<int64>>)
    requires lists != [] && Positive(lists)
    ensures LeastOf(lists, Veto(lists))
  {
    var n := |lists| - 1;
    var init, last := lists[..n], lists[n];
    assert lists == init + [last];
    assert forall k | 0 <= k < |last| :: Abs64(lists[n][k]) > 0;
    forall value: int64 ensures Listed(lists, value) <==> Listed(init, value) || value in last {
      ListedMore(init, last, value);
    }
    if n > 0 {
      assert Positive(init) by {
        assert forall i | 0 <= i < n :: init[i] == lists[i];
      }
      VetoIsLeast(init);
      assert init[0] == lists[0];
    }
    LeastMore(lists, init, last);
  }

  lemma LeastMore(lists: seq<seq<int64>>, init: seq<seq<int64>>, last: seq<int64>)
    requires lists == init + [last] && forall k | 0 <= k < |last| :: Abs64(last[k]) > 0
    requires forall value: int64 :: Listed(lists, value) <==> Listed(init, value) || value in last
    requires if init == [] then Veto(init) == 0 else LeastOf(init, Veto(init))
    ensures LeastOf(lists, Veto(lists))
  {
    var before := Veto(init);
    var r := Tighten(before, last);
    TightenExact(before, last);
    assert lists[..|lists| - 1] == init && Veto(lists) == WithDefault(r);
    assert !exists value: int64 :: Listed([], value);
    if r != before {
      var value :| value in last && Abs64(value) == r;
      assert Listed(lists, value);
    } else if ListedAs(init, before) {
      var value: int64 :| Listed(init, value) && Abs64(value) == before;
      assert Listed(lists, value);
    }
  }

  ghost predicate SameLists(a: seq<seq<int64>>, b: seq<seq<int64>>) {
    forall list :: list in a <==> list in b
  }

  /** An empty envelope cannot matter: there is none, or nothing else, or a veto of at most 10000. */
  ghost predicate EmptyCannotMatter(lists: seq<seq<int64>>) {
    || [] !in lists
    || (forall list | list in lists :: list == [])
    || exists value: int64 :: Listed(lists, value) && Abs64(value) <= 10000
  }

  lemma SameVeto(a: seq<seq<int64>>, b: seq<seq<int64>>)
    requires a != [] && b != [] && SameLists(a, b) && EmptyCannotMatter(a)
    requires LeastOf(a, Veto(a)) && LeastOf(b, Veto(b))
    ensures Veto(a) == Veto(b)
  {
    forall value: int64 ensures Listed(a, value) <==> Listed(b, value) {
      if list :| list in a && value in list {
        assert list in b;
      }
      if list :| list in b && value in list {
        assert list in a;
      }
    }
    assert a[0] in a && b[0] in b;
  }

  lemma PositiveFront(lists: seq<seq<int64>>, list: seq<int64>)
    requires Positive(lists) && list in lists
    ensures Positive([list] + lists) && SameLists(lists, [list] + lists)
  {
    var n: nat :| n < |lists| && lists[n] == list;
    var more := [list] + lists;
    forall i, k | 0 <= i < |more| && 0 <= k < |more[i]| ensures Abs64(more[i][k]) > 0 {
      assert more[i] == if i == 0 then lists[n] else lists[i - 1];
    }
  }

  /** The veto of a set whose vetoes are positive does not depend on the order of its envelopes if and only
      if an empty envelope cannot matter. */
  lemma VetoOrderExact(lists: seq<seq<int64>>)
    requires lists != [] && Positive(lists)
    ensures (forall other | SameLists(lists, other) && Positive(other) :: Veto(other) == Veto(lists)) <==>
            EmptyCannotMatter(lists)
  {
    VetoIsLeast(lists);
    if EmptyCannotMatter(lists) {
      forall other | SameLists(lists, other) && Positive(other) ensures Veto(other) == Veto(lists) {
        assert lists[0] in other;
        VetoIsLeast(other);
        SameVeto(lists, other);
      }
    } else {
      var other := EmptyMatters(lists);
    }
  }

  /** With the empty envelope first the veto is at most 10000, with another first it is more. */
  lemma EmptyMatters(lists: seq<seq<int64>>) returns (other: seq<seq<int64>>)
    requires Positive(lists) && !EmptyCannotMatter(lists)
    ensures SameLists(lists, other) && Positive(other) && Veto(other) != Veto(lists)
  {
    var list :| list in lists && list != [];
    other := [[]] + lists;
    PositiveFront(lists, []);
    VetoIsLeast(other);
    if Veto(other) == Veto(lists) {
      other := [list] + lists;
      PositiveFront(lists, list);
      VetoIsLeast(other);
      FullIsLarge(lists, other, list);
    }
  }

  /** The distiller builds one envelope for each set, and lists only scores of at most -10000. Then the veto
      is the least magnitude that is listed, 10000 when nothing is, or the one number without a magnitude when
      that is listed. */
  lemma DistilledVeto(values: seq<int64>)
    requires forall value | value in values :: value <= -10000
    ensures EmptyCannotMatter([values])
    ensures values == [] ==> Veto([values]) == 10000
    ensures MIN_INT64 in values ==> Veto([values]) == MIN_INT64
    ensures values != [] && MIN_INT64 !in values ==>
              && Veto([values]) >= 10000 && -Veto([values]) in values
              && forall value | value in values :: Veto([values]) <= Abs64(value)
  {
    assert [values][..0] == [];
    assert forall list | list in [values] :: list == values;
    if MIN_INT64 in values {
      LeastSticks(0, values);
    } else {
      ListedVeto(values);
    }
  }

  /** Once the number without a magnitude is met, it stays. */
  lemma {:induction false} LeastSticks(veto: int64, values: seq<int64>)
    requires veto >= 0 && forall value | value in values :: value <= -10000
    ensures if MIN_INT64 in values then Tighten(veto, values) == MIN_INT64 else Tighten(veto, values) >= 0
  {
    if values != [] {
      var init, last := values[..|values| - 1], values[|values| - 1];
      assert values == init + [last];
      assert last in values && forall value | value in init :: value in values;
      LeastSticks(veto, init);
    }
  }

  lemma ListedVeto(values: seq<int64>)
    requires forall value | value in values :: MIN_INT64 < value <= -10000
    ensures Veto([values]) >= 10000
    ensures values == [] ==> Veto([values]) == 10000
    ensures forall value | value in values :: Veto([values]) <= Abs64(value)
    ensures values != [] ==> -Veto([values]) in values
  {
    forall value: int64 ensures Listed([values], value) <==> value in values {
      assert values in [values];
    }
    forall i, k | 0 <= i < 1 && 0 <= k < |[values][i]| ensures Abs64([values][i][k]) > 0 {
      assert values[k] in values;
    }
    VetoIsLeast([values]);
  }

  lemma FullIsLarge(lists: seq<seq<int64>>, full: seq<seq<int64>>, list: seq<int64>)
    requires full == [list] + lists && list in lists && list != [] && !EmptyCannotMatter(lists)
    requires LeastOf(full, Veto(full))
    ensures Veto(full) > 10000
  {
    var value: int64 :| Listed(full, value) && Abs64(value) == Veto(full);
    var some :| some in full && value in some;
    assert some in lists;
    assert Listed(lists, value);
  }

  /* ---------- the sets and the applications, in order ---------- */

  predicate Mentions(code: string, word: string) {
    exists i | 0 <= i <= |code| :: OccursAt(code, word, i)
  }

  function Apps(code: string): seq<string> {
    if Mentions(code, "anime") then ["sonarr", "radarr"] else ["radarr", "sonarr"]
  }

  /** Every set with every application, in the order in which they are tried. */
  function Tried(sets: seq<string>, apps: seq<string>): seq<(string, string)> {
    if sets == [] then []
    else Tried(sets[..|sets| - 1], apps) + seq(|apps|, i requires 0 <= i < |apps| => (sets[|sets| - 1], apps[i]))
  }

  /** Codes with "anime" in them try sonarr first, all others radarr. */
  lemma AppsExact(code: string)
    ensures (exists before, after :: code == before + "anime" + after) ==> Apps(code) == ["sonarr", "radarr"]
    ensures !(exists before, after :: code == before + "anime" + after) ==> Apps(code) == ["radarr", "sonarr"]
  {
    OccursExact(code, "anime");
  }

  /** The pairs go through the sets in order, and for each through the applications in order. */
  lemma {:induction false} TriedExact(sets: seq<string>, apps: seq<string>, i: nat, j: nat)
    requires i < |sets| && j < |apps| == 2
    ensures |Tried(sets, apps)| == 2 * |sets| && Tried(sets, apps)[2 * i + j] == (sets[i], apps[j])
  {
    var n := |sets| - 1;
    TriedLength(sets[..n], apps);
    if i < n {
      TriedExact(sets[..n], apps, i, j);
    }
  }

  lemma {:induction false} TriedLength(sets: seq<string>, apps: seq<string>)
    requires |apps| == 2
    ensures |Tried(sets, apps)| == 2 * |sets|
  {
    if sets != [] {
      TriedLength(sets[..|sets| - 1], apps);
    }
  }

  /** The choice of the first pair for which rows offer anything. */
  ghost predicate FirstChosen(rows: seq<Score>, code: string, pairs: seq<(string, string)>, chosen: Option<int64>) {
    match chosen
    case None => forall k | 0 <= k < |pairs| :: Chosen(rows, code, pairs[k].0, pairs[k].1, None)
    case Some(_) => exists k: nat :: FirstChosenAt(rows, code, pairs, chosen, k)
  }

  ghost predicate FirstChosenAt(rows: seq<Score>, code: string, pairs: seq<(string, string)>, chosen: Option<int64>,
                                k: nat)
  {
    && k < |pairs| && Chosen(rows, code, pairs[k].0, pairs[k].1, chosen)
    && forall j | 0 <= j < k :: Chosen(rows, code, pairs[j].0, pairs[j].1, None)
  }

  ghost predicate Scores(rows: seq<Score>, code: string, selectedSets: seq<string>, veto: int64, result: Option<int64>)
  {
    exists chosen ::
      && FirstChosen(rows, code, Tried(selectedSets + ["default"], Apps(code)), chosen)
      && result == if chosen.None? then None else Some(NormalizeTrashScore(chosen.value, veto))
  }

  /** Some row has a score for the code in the k-th of the pairs that are tried: the selected sets and then the
      default, each in both applications. */
  ghost predicate RowFor(rows: seq<Score>, code: string, selectedSets: seq<string>, k: nat, value: int64)
    requires k < 2 * |selectedSets| + 2
  {
    Score(code, (selectedSets + ["default"])[k / 2], Apps(code)[k % 2], value) in rows
  }

  ghost predicate NoRowFor(rows: seq<Score>, code: string, selectedSets: seq<string>, k: nat)
    requires k < 2 * |selectedSets| + 2
  {
    forall value: int64 :: !RowFor(rows, code, selectedSets, k, value)
  }

  /** The pair is the first for which there is a row, and the value is the weakest there. */
  ghost predicate FirstRowFor(rows: seq<Score>, code: string, selectedSets: seq<string>, k: nat, chosen: int64) {
    && k < 2 * |selectedSets| + 2 && RowFor(rows, code, selectedSets, k, chosen)
    && (forall value: int64 | RowFor(rows, code, selectedSets, k, value) :: !Weaker(value, chosen))
    && forall j | 0 <= j < k :: NoRowFor(rows, code, selectedSets, j)
  }

  ghost predicate ChosenFor(rows: seq<Score>, code: string, selectedSets: seq<string>, k: nat, c: Option<int64>)
    requires k < 2 * |selectedSets| + 2
  {
    match c
    case None => NoRowFor(rows, code, selectedSets, k)
    case Some(v) => RowFor(rows, code, selectedSets, k, v)
                    && forall value: int64 | RowFor(rows, code, selectedSets, k, value) :: !Weaker(value, v)
  }

  lemma PairRows(rows: seq<Score>, code: string, selectedSets: seq<string>, k: nat, c: Option<int64>)
    requires k < 2 * |selectedSets| + 2
    ensures |Tried(selectedSets + ["default"], Apps(code))| == 2 * |selectedSets| + 2
    ensures var pair := Tried(selectedSets + ["default"], Apps(code))[k];
      Chosen(rows, code, pair.0, pair.1, c) <==> ChosenFor(rows, code, selectedSets, k, c)
  {
    var sets := selectedSets + ["default"];
    TriedExact(sets, Apps(code), k / 2, k % 2);
    assert Tried(sets, Apps(code))[2 * (k / 2) + k % 2] == (sets[k / 2], Apps(code)[k % 2]);
    forall value: int64
      ensures Offered(rows, code, sets[k / 2], Apps(code)[k % 2], value) <==>
              RowFor(rows, code, selectedSets, k, value)
    {
      OfferedExact(rows, code, sets[k / 2], Apps(code)[k % 2], value);
    }
  }

  lemma OfferedExact(rows: seq<Score>, code: string, scoreSet: string, app: string, value: int64)
    ensures Offered(rows, code, scoreSet, app, value) <==> Score(code, scoreSet, app, value) in rows
  {
    if i :| 0 <= i < |rows| && Offers(rows[i], code, scoreSet, app, value) {
      assert rows[i] == Score(code, scoreSet, app, value);
    }
    if i :| 0 <= i < |rows| && rows[i] == Score(code, scoreSet, app, value) {
      assert Offers(rows[i], code, scoreSet, app, value);
    }
  }

  /** What is chosen first, in terms of the rows. */
  lemma FirstRows(rows: seq<Score>, code: string, selectedSets: seq<string>, chosen: Option<int64>)
    requires FirstChosen(rows, code, Tried(selectedSets + ["default"], Apps(code)), chosen)
    ensures match chosen
      case None => forall k: nat | k < 2 * |selectedSets| + 2 :: NoRowFor(rows, code, selectedSets, k)
      case Some(v) => exists k: nat :: FirstRowFor(rows, code, selectedSets, k, v)
  {
    var pairs := Tried(selectedSets + ["default"], Apps(code));
    TriedLength(selectedSets + ["default"], Apps(code));
    if chosen.Some? {
      var k: nat :| FirstChosenAt(rows, code, pairs, chosen, k);
      PairRows(rows, code, selectedSets, k, chosen);
      forall j | 0 <= j < k ensures NoRowFor(rows, code, selectedSets, j) {
        PairRows(rows, code, selectedSets, j, None);
      }
      assert FirstRowFor(rows, code, selectedSets, k, chosen.value);
    } else {
      forall k: nat | k < 2 * |selectedSets| + 2 ensures NoRowFor(rows, code, selectedSets, k) {
        PairRows(rows, code, selectedSets, k, None);
      }
    }
  }

  ghost predicate ScoresAt(rows: seq<Score>, code: string, selectedSets: seq<string>, veto: int64, k: nat,
                           chosen: int64, score: int64)
  {
    FirstRowFor(rows, code, selectedSets, k, chosen) && score == NormalizeTrashScore(chosen, veto)
  }

  /** The score is that of the first pair for which there is a row, and there is none without such a pair. */
  lemma ScoreExact(rows: seq<Score>, code: string, selectedSets: seq<string>, veto: int64, result: Option<int64>)
    requires Scores(rows, code, selectedSets, veto, result)
    ensures result.None? <==> forall k: nat | k < 2 * |selectedSets| + 2 :: NoRowFor(rows, code, selectedSets, k)
    ensures result.Some? ==> exists k, chosen ::
              ScoresAt(rows, code, selectedSets, veto, k, chosen, result.value)
  {
    var chosen :| FirstChosen(rows, code, Tried(selectedSets + ["default"], Apps(code)), chosen)
      && result == if chosen.None? then None else Some(NormalizeTrashScore(chosen.value, veto));
    FirstRows(rows, code, selectedSets, chosen);
    if chosen.Some? {
      var k: nat :| FirstRowFor(rows, code, selectedSets, k, chosen.value);
      RowIsThere(rows, code, selectedSets, k, chosen.value);
      assert ScoresAt(rows, code, selectedSets, veto, k, chosen.value, result.value);
    }
  }

  lemma RowIsThere(rows: seq<Score>, code: string, selectedSets: seq<string>, k: nat, value: int64)
    requires k < 2 * |selectedSets| + 2 && RowFor(rows, code, selectedSets, k, value)
    ensures !NoRowFor(rows, code, selectedSets, k)
  {
  }

  /** The chosen row's score against the veto of the first selected set. */
  method NormalizedFactScore(rows: seq<Score>, envelopes: seq<Envelope>, code: string, selectedSets: seq<string>)
    returns (result: Option<int64>)
    requires selectedSets != []
    ensures Scores(rows, code, selectedSets, Veto(OfSet(envelopes, selectedSets[0])), result)
  {
    var vetoes := Vetoes(envelopes);
    var veto: int64 := if selectedSets[0] in vetoes then vetoes[selectedSets[0]] else 0;
    result := FirstScore(rows, code, selectedSets, veto);
  }

  method FirstScore(rows: seq<Score>, code: string, selectedSets: seq<string>, veto: int64)
      returns (result: Option<int64>)
    ensures Scores(rows, code, selectedSets, veto, result)
  {
    var sets, apps := selectedSets + ["default"], Apps(code);
    ghost var pairs := Tried(sets, apps);
    for i := 0 to |sets|
      invariant forall k | 0 <= k < |Tried(sets[..i], apps)| ::
                  Chosen(rows, code, Tried(sets[..i], apps)[k].0, Tried(sets[..i], apps)[k].1, None)
    {
      ghost var before, after := Tried(sets[..i], apps), Tried(sets[..i + 1], apps);
      assert sets[..i + 1][..i] == sets[..i];
      TriedPrefix(sets, apps, i + 1);
      for j := 0 to |apps|
        invariant forall k | 0 <= k < |before| + j :: Chosen(rows, code, after[k].0, after[k].1, None)
      {
        var chosen := Choose(rows, code, sets[i], apps[j]);
        assert after[|before| + j] == (sets[i], apps[j]);
        if chosen.Some? {
          assert FirstChosenAt(rows, code, pairs, chosen, |before| + j);
          return Some(NormalizeTrashScore(chosen.value, veto));
        }
      }
    }
    assert sets[..|sets|] == sets;
    assert FirstChosen(rows, code, pairs, None);
    return None;
  }

  lemma {:induction false} TriedPrefix(sets: seq<string>, apps: seq<string>, n: nat)
    requires n <= |sets|
    ensures Tried(sets[..n], apps) <= Tried(sets, apps)
    decreases |sets|
  {
    if n == |sets| {
      assert sets[..n] == sets;
    } else {
      assert sets[..|sets| - 1][..n] == sets[..n];
      TriedPrefix(sets[..|sets| - 1], apps, n);
    }
  }

  /** The result does not depend on the order of the rows. */
  lemma ScoreIgnoresOrder(a: seq<Score>, b: seq<Score>, code: string, selectedSets: seq<string>, veto: int64,
                          x: Option<int64>, y: Option<int64>)
    requires forall row :: row in a <==> row in b
    requires Scores(a, code, selectedSets, veto, x) && Scores(b, code, selectedSets, veto, y)
    ensures x == y
  {
    var pairs := Tried(selectedSets + ["default"], Apps(code));
    var c :| FirstChosen(a, code, pairs, c) && x == if c.None? then None else Some(NormalizeTrashScore(c.value, veto));
    var d :| FirstChosen(b, code, pairs, d) && y == if d.None? then None else Some(NormalizeTrashScore(d.value, veto));
    FirstChosenIgnoresOrder(a, b, code, pairs, c, d);
  }

  lemma FirstChosenIgnoresOrder(a: seq<Score>, b: seq<Score>, code: string, pairs: seq<(string, string)>,
                                c: Option<int64>, d: Option<int64>)
    requires forall row :: row in a <==> row in b
    requires FirstChosen(a, code, pairs, c) && FirstChosen(b, code, pairs, d)
    ensures c == d
  {
    forall k, u, v | 0 <= k < |pairs| && Chosen(a, code, pairs[k].0, pairs[k].1, u)
    && Chosen(b, code, pairs[k].0, pairs[k].1, v)
      ensures u == v
    {
      ChosenIgnoresOrder(a, b, code, pairs[k].0, pairs[k].1, u, v);
    }
    if c.Some? && d.Some? {
      var i: nat :| FirstChosenAt(a, code, pairs, c, i);
      var j: nat :| FirstChosenAt(b, code, pairs, d, j);
      assert i == j;
    }
  }
}
