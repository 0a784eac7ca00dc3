/** The length prefixes of a WebAssembly binary: unsigned 32-bit numbers, little-endian base 128. */
module WasmLengths {
  import opened Wrappers
  import opened ByteStrings

  const U32: nat := 0x1_0000_0000

  datatype WasmError =
    | TruncatedLength
    | LengthExceedsU32
    | InvalidLengthEncoding
    | NotWebAssembly
    | TruncatedPayload
    | TruncatedName
    | NameNotUtf8
    | MultipleDescriptors
    | PayloadTooLarge
    | AlreadyEmbedded(name: Bytes)

  type U32Read = Result<(nat, nat), WasmError>

  /** The number that groups of seven bits stand for, least significant first. */
  function LebValue(s: Bytes): nat {
    if s == [] then 0 else (s[0] as int) % 128 + 128 * LebValue(s[1..])
  }

  /** Every byte but the last says that another follows. */
  predicate Chained(s: Bytes) {
    s != [] && (s[0] >= 128 <==> |s| > 1) && (|s| > 1 ==> Chained(s[1..]))
  }

  /** The bytes are an encoding of a 32-bit value, in at most five bytes. */
  predicate Encodes(s: Bytes, v: nat) {
    Chained(s) && |s| <= 5 && LebValue(s) == v && v < U32
  }

  /** x moved up by k groups of seven bits. */
  function Shifted(x: nat, k: nat): nat {
    if k == 0 then x else 128 * Shifted(x, k - 1)
  }

  /** The same in 32 bits, losing what does not fit. */
  function ShiftedU32(x: nat, k: nat): nat {
    Shifted(x, k) % U32
  }

  /** What the strict reader makes of the rest, k groups already read: value and offset. */
  function StrictFrom(bytes: Bytes, offset: nat, k: nat): U32Read
    decreases 5 - k
  {
    if k >= 5 then Failure(InvalidLengthEncoding)
    else if offset >= |bytes| then Failure(TruncatedLength)
    else
      var b := bytes[offset] as int;
      if k == 4 && b >= 16 then Failure(LengthExceedsU32)
      else if b < 128 then Success((b, offset + 1))
      else
        var rest := StrictFrom(bytes, offset + 1, k + 1);
        if rest.Failure? then rest else Success((b % 128 + 128 * rest.value.0, rest.value.1))
  }

  function Strict(bytes: Bytes, offset: nat): U32Read {
    StrictFrom(bytes, offset, 0)
  }

  lemma {:induction false} ShiftedSum(x: nat, y: nat, k: nat)
    ensures Shifted(x + 128 * y, k) == Shifted(x, k) + Shifted(y, k + 1)
  {
    if k > 0 {
      ShiftedSum(x, y, k - 1);
    } else {
      assert Shifted(y, 1) == 128 * Shifted(y, 0);
    }
  }

  lemma ShiftFits(x: nat, k: nat)
    requires k <= 4 && x < if k == 4 then 16 else 128
    ensures ShiftedU32(x, k) == Shifted(x, k)
  {
    assert Shifted(x, 1) == 128 * Shifted(x, 0);
    assert Shifted(x, 2) == 128 * Shifted(x, 1);
    assert Shifted(x, 3) == 128 * Shifted(x, 2);
    assert Shifted(x, 4) == 128 * Shifted(x, 3);
  }

  /** With the value of the first k groups read, the rest decides the result. */
  ghost predicate StrictSoFar(bytes: Bytes, start: nat, k: nat, value: nat) {
    var rest := StrictFrom(bytes, start + k, k);
    Strict(bytes, start) == if rest.Failure? then rest else Success((value + Shifted(rest.value.0, k), rest.value.1))
  }

  lemma StrictStep(bytes: Bytes, start: nat, k: nat, value: nat)
    requires k < 5 && start + k < |bytes| && StrictSoFar(bytes, start, k, value)
    requires k == 4 ==> bytes[start + k] < 16
    ensures var b, more := bytes[start + k] as int, value + ShiftedU32((bytes[start + k] as int) % 128, k);
      if b < 128 then Strict(bytes, start) == Success((more, start + k + 1)) else StrictSoFar(bytes, start, k + 1, more)
  {
    var b := bytes[start + k] as int;
    ShiftFits(b % 128, k);
    if b >= 128 {
      var rest := StrictFrom(bytes, start + k + 1, k + 1);
      if rest.Success? {
        ShiftedSum(b % 128, rest.value.0, k);
      }
    }
  }

  /** The strict reader; the bits that it joins never overlap. */
  method ReadWasmU32Leb(bytes: Bytes, start: nat) returns (result: U32Read)
    ensures result == Strict(bytes, start)
  {
    var value: nat := 0;
    var offset := start;
    for k := 0 to 5
      invariant offset == start + k && StrictSoFar(bytes, start, k, value)
    {
      if offset >= |bytes| {
        return Failure(TruncatedLength);
      }
      var b := bytes[offset] as int;
      offset := offset + 1;
      if k == 4 && b >= 16 {
        return Failure(LengthExceedsU32);
      }
      StrictStep(bytes, start, k, value);
      value := value + ShiftedU32(b % 128, k);
      if b < 128 {
        return Success((value, offset));
      }
    }
    return Failure(InvalidLengthEncoding);
  }

  /** The strict reader accepts exactly the encodings of 32-bit values. */
  lemma StrictExact(bytes: Bytes, offset: nat, v: nat, next: nat)
    ensures Strict(bytes, offset) == Success((v, next)) <==>
            offset < next <= |bytes| && Encodes(bytes[offset..next], v)
  {
    StrictFromExact(bytes, offset, 0, v, next);
  }

  /** How far a value may go with k groups already read. */
  function Room(k: nat): nat {
    match k
    case 0 => U32
    case 1 => 0x2000000
    case 2 => 0x40000
    case 3 => 0x800
    case 4 => 16
    case _ => 0
  }

  lemma {:induction false} StrictFromExact(bytes: Bytes, offset: nat, k: nat, v: nat, next: nat)
    ensures StrictFrom(bytes, offset, k) == Success((v, next)) <==>
            && offset < next <= |bytes| && Chained(bytes[offset..next])
            && next - offset + k <= 5 && LebValue(bytes[offset..next]) == v && v < Room(k)
    decreases 5 - k
  {
    if k < 5 && offset < |bytes| {
      var b := bytes[offset] as int;
      if offset + 1 < next <= |bytes| {
        var s := bytes[offset..next];
        assert s[0] == bytes[offset] && s[1..] == bytes[offset + 1..next];
        if b >= 128 && LebValue(s) == v {
          StrictFromExact(bytes, offset + 1, k + 1, LebValue(s[1..]), next);
        }
      }
      var rest := StrictFrom(bytes, offset + 1, k + 1);
      if rest.Success? {
        StrictFromExact(bytes, offset + 1, k + 1, rest.value.0, rest.value.1);
        assert rest.value.1 <= |bytes| ==> bytes[offset..rest.value.1][1..] == bytes[offset + 1..rest.value.1];
      }
      assert LebValue([bytes[offset]]) == b % 128 + 128 * LebValue([]);
      assert next == offset + 1 ==> bytes[offset..next] == [bytes[offset]];
    }
  }

  /** The bytes from offset up to end all say that another follows. */
  predicate AllContinue(bytes: Bytes, offset: nat, end: nat) {
    forall i | offset <= i < end && i < |bytes| :: bytes[i] >= 128
  }

  /** When each error of the strict reader occurs; its last one never does. */
  lemma StrictErrors(bytes: Bytes, offset: nat)
    ensures Strict(bytes, offset) == Failure(TruncatedLength) <==>
            |bytes| < offset + 5 && AllContinue(bytes, offset, |bytes|)
    ensures Strict(bytes, offset) == Failure(LengthExceedsU32) <==>
            offset + 5 <= |bytes| && AllContinue(bytes, offset, offset + 4) && bytes[offset + 4] >= 16
    ensures Strict(bytes, offset) != Failure(InvalidLengthEncoding)
  {
    StrictFromErrors(bytes, offset, 0);
  }

  lemma {:induction false} StrictFromErrors(bytes: Bytes, offset: nat, k: nat)
    requires k <= 4
    ensures StrictFrom(bytes, offset, k) == Failure(TruncatedLength) <==>
            |bytes| < offset + 5 - k && AllContinue(bytes, offset, |bytes|)
    ensures StrictFrom(bytes, offset, k) == Failure(LengthExceedsU32) <==>
            && offset + 5 - k <= |bytes|
            && AllContinue(bytes, offset, offset + 4 - k) && bytes[offset + 4 - k] >= 16
    ensures var r := StrictFrom(bytes, offset, k); r.Failure? ==> r.error in {TruncatedLength, LengthExceedsU32}
    decreases 5 - k
  {
    if k < 4 {
      StrictFromErrors(bytes, offset + 1, k + 1);
    }
  }

  /* ---------- the writer ---------- */

  /** The shortest encoding. */
  function Leb(v: nat): (s: Bytes)
    ensures s != []
  {
    if v < 128 then [v as byte] else [(v % 128 + 128) as byte] + Leb(v / 128)
  }

  lemma {:induction false} LebEncodes(v: nat, k: nat)
    requires k < 5 && v < Room(k)
    ensures Chained(Leb(v)) && LebValue(Leb(v)) == v && |Leb(v)| + k <= 5
    decreases v
  {
    if v >= 128 {
      LebEncodes(v / 128, k + 1);
      assert Leb(v)[1..] == Leb(v / 128);
    } else {
      assert LebValue([v as byte]) == v % 128 + 128 * LebValue([]);
    }
  }

  /** No encoding of the value is shorter. */
  lemma {:induction false} LebShortest(s: Bytes)
    requires Chained(s)
    ensures |Leb(LebValue(s))| <= |s|
  {
    if |s| > 1 {
      LebShortest(s[1..]);
      assert LebValue(s) == (s[0] as int) % 128 + 128 * LebValue(s[1..]);
    } else {
      assert s[1..] == [] && LebValue(s) < 128;
    }
  }

  method WriteWasmU32Leb(v: nat, output: Bytes) returns (extended: Bytes)
    requires v < U32
    ensures extended == output + Leb(v)
  {
    var value := v;
    extended := output;
    while true
      invariant extended + Leb(value) == output + Leb(v)
      decreases value
    {
      var b := value % 128;
      ghost var before := value;
      value := value / 128;
      if value != 0 {
        b := b + 128;
      }
      Reassociate(extended, [b as byte], Leb(value));
      extended := extended + [b as byte];
      if value == 0 {
        break;
      }
    }
  }

  lemma Reassociate(a: Bytes, b: Bytes, c: Bytes)
    ensures a + b + c == a + (b + c)
  {
  }

  /** Reading back what was written, wherever it stands. */
  lemma StrictReadsLeb(before: Bytes, v: nat, after: Bytes)
    requires v < U32
    ensures Strict(before + Leb(v) + after, |before|) == Success((v, |before| + |Leb(v)|))
  {
    var bytes, next := before + Leb(v) + after, |before| + |Leb(v)|;
    LebEncodes(v, 0);
    assert bytes[|before|..next] == Leb(v);
    StrictExact(bytes, |before|, v, next);
  }

  /** What was read rewrites to the same bytes, or to fewer. */
  lemma RewritingNeverGrows(bytes: Bytes, offset: nat)
    requires Strict(bytes, offset).Success?
    ensures var (v, next) := Strict(bytes, offset).value;
      v < U32 && |Leb(v)| <= next - offset && Strict(Leb(v), 0) == Success((v, |Leb(v)|))
  {
    var (v, next) := Strict(bytes, offset).value;
    StrictExact(bytes, offset, v, next);
    LebShortest(bytes[offset..next]);
    StrictReadsLeb([], v, []);
    assert [] + Leb(v) + [] == Leb(v);
  }

  /* ---------- the lenient reader of the component descriptor ---------- */

  /** What the lenient reader makes of the rest: the value before it is cut to 32 bits, and the count. */
  function LenientFrom(bytes: Bytes, k: nat): Option<(nat, nat)>
    decreases 5 - k
  {
    if k >= 5 || k >= |bytes| then None
    else
      var b := bytes[k] as int;
      if b < 128 then Some((b, k + 1))
      else
        var rest := LenientFrom(bytes, k + 1);
        if rest.None? then None else Some((b % 128 + 128 * rest.value.0, rest.value.1))
  }

  function Lenient(bytes: Bytes): Option<(nat, nat)> {
    var r := LenientFrom(bytes, 0);
    if r.None? then None else Some((r.value.0 % U32, r.value.1))
  }

  /** A group above the others adds without carrying, even when its own top bits are lost. */
  lemma TopGroupFits(low: nat, x: nat, k: nat)
    requires k <= 4 && x < 128 && low < Shifted(1, k)
    ensures (low + Shifted(x, k)) % U32 == low + ShiftedU32(x, k)
    ensures low + Shifted(x, k) < Shifted(1, k + 1)
  {
    forall y: nat
      ensures Shifted(y, 1) == 128 * y && Shifted(y, 2) == 128 * 128 * y && Shifted(y, 3) == 128 * 128 * 128 * y
                  ensures Shifted(y, 4) == 128 * 128 * 128 * 128 * y && Shifted(y, 5) == 128 * 128 * 128 * 128 * 128 * y
    {
      ShiftSteps(y);
    }
  }

  lemma ShiftSteps(y: nat)
    ensures Shifted(y, 1) == 128 * y && Shifted(y, 2) == 128 * 128 * y && Shifted(y, 3) == 128 * 128 * 128 * y
    ensures Shifted(y, 4) == 128 * 128 * 128 * 128 * y && Shifted(y, 5) == 128 * 128 * 128 * 128 * 128 * y
  {
    assert Shifted(y, 1) == 128 * Shifted(y, 0);
    assert Shifted(y, 2) == 128 * Shifted(y, 1);
    assert Shifted(y, 3) == 128 * Shifted(y, 2);
    assert Shifted(y, 4) == 128 * Shifted(y, 3);
    assert Shifted(y, 5) == 128 * Shifted(y, 4);
  }

  /** With the value of the first k groups read, the rest decides the result. */
  ghost predicate LenientSoFar(bytes: Bytes, k: nat, value: nat) {
    var rest := LenientFrom(bytes, k);
    && value < Shifted(1, k)
    && LenientFrom(bytes, 0) == if rest.None? then None else Some((value + Shifted(rest.value.0, k), rest.value.1))
  }

  lemma LenientLast(bytes: Bytes, k: nat, value: nat)
    requires k < 5 && k < |bytes| && LenientSoFar(bytes, k, value) && bytes[k] < 128
    ensures Lenient(bytes) == Some((value + ShiftedU32((bytes[k] as int) % 128, k), k + 1))
  {
    var x := bytes[k] as int;
    TopGroupFits(value, x, k);
    assert LenientFrom(bytes, k) == Some((x, k + 1)) && x % 128 == x;
    assert LenientFrom(bytes, 0) == Some((value + Shifted(x, k), k + 1));
  }

  lemma LenientMore(bytes: Bytes, k: nat, value: nat)
    requires k < 5 && k < |bytes| && LenientSoFar(bytes, k, value) && bytes[k] >= 128
    ensures LenientSoFar(bytes, k + 1, value + ShiftedU32((bytes[k] as int) % 128, k))
  {
    var x, rest := (bytes[k] as int) % 128, LenientFrom(bytes, k + 1);
    TopGroupFits(value, x, k);
    if k < 4 {
      ShiftFits(x, k);
      if rest.Some? {
        ShiftedSum(x, rest.value.0, k);
      }
    }
  }

  lemma LenientEnds(bytes: Bytes, value: nat)
    ensures LenientSoFar(bytes, 0, 0)
    ensures forall k: nat | k >= 5 || k >= |bytes| :: LenientSoFar(bytes, k, value) ==> Lenient(bytes) == None
  {
    forall k: nat | k >= 5 || k >= |bytes| ensures LenientSoFar(bytes, k, value) ==> Lenient(bytes) == None {
      assert LenientFrom(bytes, k) == None;
    }
  }

  method ReadVarintU32(bytes: Bytes) returns (result: Option<(nat, nat)>)
    ensures result == Lenient(bytes)
  {
    var value: nat := 0;
    var k := 0;
    LenientEnds(bytes, 0);
    while k < 5 && k < |bytes|
      invariant k <= 5 && LenientSoFar(bytes, k, value)
    {
      var group := ShiftedU32((bytes[k] as int) % 128, k);
      if bytes[k] < 128 {
        LenientLast(bytes, k, value);
        return Some((value + group, k + 1));
      }
      LenientMore(bytes, k, value);
      value, k := value + group, k + 1;
    }
    LenientEnds(bytes, value);
    return None;
  }

  /** The lenient reader takes any chained run of at most five bytes, and keeps 32 bits of its value. */
  lemma LenientExact(bytes: Bytes, v: nat, n: nat)
    ensures Lenient(bytes) == Some((v, n)) <==>
            0 < n <= |bytes| && n <= 5 && Chained(bytes[..n]) && v == LebValue(bytes[..n]) % U32
  {
    if 0 < n <= |bytes| && n <= 5 {
      LenientFromExact(bytes, 0, LebValue(bytes[..n]), n);
    }
    var r := LenientFrom(bytes, 0);
    if r.Some? {
      LenientFromExact(bytes, 0, r.value.0, r.value.1);
    }
  }

  lemma {:induction false} LenientFromExact(bytes: Bytes, k: nat, v: nat, n: nat)
    ensures LenientFrom(bytes, k) == Some((v, n)) <==>
            k < n <= |bytes| && n <= 5 && Chained(bytes[k..n]) && v == LebValue(bytes[k..n])
    decreases 5 - k
  {
    if k < 5 && k < |bytes| {
      var b := bytes[k] as int;
      if k + 1 < n <= |bytes| {
        var s := bytes[k..n];
        assert s[0] == bytes[k] && s[1..] == bytes[k + 1..n];
        if b >= 128 && LebValue(s) == v {
          LenientFromExact(bytes, k + 1, LebValue(s[1..]), n);
        }
      }
      var rest := LenientFrom(bytes, k + 1);
      if rest.Some? {
        LenientFromExact(bytes, k + 1, rest.value.0, rest.value.1);
        assert rest.value.1 <= |bytes| ==> bytes[k..rest.value.1][1..] == bytes[k + 1..rest.value.1];
      }
      assert LebValue([bytes[k]]) == b % 128 + 128 * LebValue([]);
      assert n == k + 1 ==> bytes[k..n] == [bytes[k]];
    }
  }

  /** The two readers agree wherever the strict one accepts, and there only: the lenient one also takes
      values of more than 32 bits, and cuts them. */
  lemma ReadersAgree(bytes: Bytes, v: nat, n: nat)
    ensures Strict(bytes, 0) == Success((v, n)) <==>
            Lenient(bytes) == Some((v, n)) && LebValue(bytes[..n]) < U32
  {
    StrictExact(bytes, 0, v, n);
    LenientExact(bytes, v, n);
    if 0 < n <= |bytes| {
      assert bytes[0..n] == bytes[..n];
      SmallIsUncut(LebValue(bytes[..n]), v);
    }
  }

  lemma SmallIsUncut(x: nat, v: nat)
    ensures x == v && v < U32 <==> v == x % U32 && x < U32
  {
  }

  /** A value of more than 32 bits, cut by the lenient reader and refused by the strict one. */
  lemma LenientCuts()
    ensures Lenient([128, 128, 128, 128, 16]) == Some((0, 5))
            && Strict([128, 128, 128, 128, 16], 0) == Failure(LengthExceedsU32)
  {
    var bytes: Bytes := [128, 128, 128, 128, 16];
    assert LenientFrom(bytes, 5) == None;
    assert LenientFrom(bytes, 4) == Some((16, 5));
    assert LenientFrom(bytes, 3) == Some((0x800, 5));
    assert LenientFrom(bytes, 2) == Some((0x40000, 5));
    assert LenientFrom(bytes, 1) == Some((0x2000000, 5));
    StrictErrors(bytes, 0);
  }
}
