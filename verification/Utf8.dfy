/** UTF-8, as section 3 of RFC 3629 defines it, and what checks and measures it. */
module Utf8 {
  import opened ByteStrings
  import opened Text
  import opened WasmDescriptor

  /** The bytes of one character. */
  function Encoded(c: char): Bytes {
    var n := c as int;
    if n < 0x80 then [n as byte]
    else if n < 0x800 then [(0xC0 + n / 64) as byte, (0x80 + n % 64) as byte]
    else if n < 0x10000 then
      [(0xE0 + n / 4096) as byte, (0x80 + n / 64 % 64) as byte, (0x80 + n % 64) as byte]
    else
      [(0xF0 + n / 262144) as byte, (0x80 + n / 4096 % 64) as byte, (0x80 + n / 64 % 64) as byte,
       (0x80 + n % 64) as byte]
  }

  function AllEncoded(s: string): Bytes {
    if s == "" then [] else Encoded(s[0]) + AllEncoded(s[1..])
  }

  /** The sizes that the rule-pack tools add up are those of the encodings. */
  lemma {:induction false} ByteLenExact(s: string)
    ensures ByteLen(s) == |AllEncoded(s)|
  {
    if s != "" {
      ByteLenExact(s[1..]);
    }
  }

  lemma EncodedHasLength(c: char, rest: Bytes)
    ensures CharLength(Encoded(c) + rest) == |Encoded(c)|
  {
    var s := Encoded(c) + rest;
    assert forall i | 0 <= i < |Encoded(c)| :: s[i] == Encoded(c)[i];
    var n := c as int;
    if 0x800 <= n < 0x10000 {
      assert n / 64 % 64 == n / 64 - 64 * (n / 4096);
    } else if 0x10000 <= n {
      assert n / 4096 % 64 == n / 4096 - 64 * (n / 262144);
    }
  }

  lemma DigitsOf(a: int, b: nat, c: nat, d: nat)
    requires b < 64 && c < 64 && d < 64
    ensures var n := a * 262144 + b * 4096 + c * 64 + d;
      && n / 262144 == a && n / 4096 == a * 64 + b && n / 64 == a * 4096 + b * 64 + c && n % 64 == d
      && (a * 64 + b) % 64 == b && (a * 4096 + b * 64 + c) % 64 == c
  {
    var n := a * 262144 + b * 4096 + c * 64 + d;
    DivisionIs(n, 262144, a, b * 4096 + c * 64 + d);
    DivisionIs(n, 4096, a * 64 + b, c * 64 + d);
    DivisionIs(n, 64, a * 4096 + b * 64 + c, d);
    DivisionIs(a * 64 + b, 64, a, b);
    DivisionIs(a * 4096 + b * 64 + c, 64, a * 64 + b, c);
  }

  lemma DivisionIs(n: int, size: nat, q: int, r: nat)
    requires r < size && n == size * q + r
    ensures n / size == q && n % size == r
  {
    if n / size < q {
      MulUp(size, n / size + 1, q);
    } else if n / size > q {
      MulUp(size, q + 1, n / size);
    }
  }

  lemma MulUp(size: nat, a: int, b: int)
    requires a <= b
    ensures size * a <= size * b
  {
  }

  lemma TwoDecode(a: byte, b: byte) returns (c: char)
    requires 0xC2 <= a <= 0xDF && IsContinuation(b)
    ensures Encoded(c) == [a, b]
  {
    DigitsOf(0, 0, a as int - 0xC0, b as int - 0x80);
    c := ((a as int - 0xC0) * 64 + (b as int - 0x80)) as char;
  }

  lemma ThreeDecode(a: byte, b: byte, d: byte) returns (c: char)
    requires 0xE0 <= a <= 0xEF && IsContinuation(b) && IsContinuation(d)
    requires (a == 0xE0 ==> b >= 0xA0) && (a == 0xED ==> b <= 0x9F)
    ensures Encoded(c) == [a, b, d]
  {
    DigitsOf(0, a as int - 0xE0, b as int - 0x80, d as int - 0x80);
    c := ((a as int - 0xE0) * 4096 + (b as int - 0x80) * 64 + (d as int - 0x80)) as char;
  }

  lemma FourDecode(a: byte, b: byte, d: byte, e: byte) returns (c: char)
    requires 0xF0 <= a <= 0xF4 && IsContinuation(b) && IsContinuation(d) && IsContinuation(e)
    requires (a == 0xF0 ==> b >= 0x90) && (a == 0xF4 ==> b <= 0x8F)
    ensures Encoded(c) == [a, b, d, e]
  {
    DigitsOf(a as int - 0xF0, b as int - 0x80, d as int - 0x80, e as int - 0x80);
    c := ((a as int - 0xF0) * 262144 + (b as int - 0x80) * 4096 + (d as int - 0x80) * 64
          + (e as int - 0x80)) as char;
  }

  /** The character that the bytes at the front are. */
  lemma CharLengthDecodes(s: Bytes) returns (c: char)
    requires CharLength(s) > 0
    ensures Encoded(c) == s[..CharLength(s)]
  {
    var n := CharLength(s);
    if n == 1 {
      c := s[0] as int as char;
    } else if n == 2 {
      c := TwoDecode(s[0], s[1]);
    } else if n == 3 {
      c := ThreeDecode(s[0], s[1], s[2]);
    } else {
      c := FourDecode(s[0], s[1], s[2], s[3]);
    }
  }

  lemma {:induction false} EncodedIsUtf8(s: string)
    ensures IsUtf8(AllEncoded(s))
  {
    if s != "" {
      var rest := AllEncoded(s[1..]);
      EncodedHasLength(s[0], rest);
      EncodedIsUtf8(s[1..]);
      assert (Encoded(s[0]) + rest)[|Encoded(s[0])|..] == rest;
    }
  }

  lemma FirstCharacter(bytes: Bytes) returns (c: char, rest: Bytes)
    requires bytes != [] && IsUtf8(bytes)
    ensures bytes == Encoded(c) + rest && |rest| < |bytes| && IsUtf8(rest)
  {
    var n := CharLength(bytes);
    c := CharLengthDecodes(bytes);
    rest := bytes[n..];
    assert bytes == bytes[..n] + rest;
  }

  lemma {:induction false} Utf8IsEncoded(bytes: Bytes) returns (s: string)
    requires IsUtf8(bytes)
    ensures bytes == AllEncoded(s)
    decreases |bytes|
  {
    if bytes == [] {
      s := "";
    } else {
      var c, rest := FirstCharacter(bytes);
      var more := Utf8IsEncoded(rest);
      s := [c] + more;
      assert s[1..] == more;
    }
  }

  lemma PrefixMore(b: byte, front: Bytes, s: Bytes)
    ensures [b] + front <= [b] + s <==> front <= s
  {
    var more, all := [b] + front, [b] + s;
    assert more[1..] == front && all[1..] == s;
    if more <= all {
      assert forall i | 0 <= i < |front| :: front[i] == more[i + 1] == all[i + 1] == s[i];
    }
  }

  lemma {:induction false} AsciiPrefix(front: string, s: string)
    requires forall i | 0 <= i < |front| :: front[i] < 128 as char
    ensures Ascii(front) <= AllEncoded(s) <==> front <= s
  {
    var bytes := Ascii(front);
    if front != "" && s != "" {
      var f, rest := front[1..], AllEncoded(s[1..]);
      AsciiPrefix(f, s[1..]);
      assert bytes == [bytes[0]] + Ascii(f) && front == [front[0]] + f && s == [s[0]] + s[1..];
      if s[0] == front[0] {
        assert AllEncoded(s) == [bytes[0]] + rest;
        PrefixMore(bytes[0], Ascii(f), rest);
      } else {
        assert AllEncoded(s)[0] != bytes[0];
      }
    }
  }

  /** A name is reserved exactly when its text begins so. */
  lemma ReservedExact(s: string)
    ensures IsReserved(AllEncoded(s)) <==> "scryer.plugin-descriptor." <= s
  {
    AsciiPrefix(RESERVED_PREFIX, s);
  }

  /** The bytes that pass for a name are exactly those that some text is encoded as. */
  lemma IsUtf8Exact(bytes: Bytes)
    ensures IsUtf8(bytes) <==> exists s :: AllEncoded(s) == bytes
  {
    if IsUtf8(bytes) {
      var s := Utf8IsEncoded(bytes);
    }
    if s :| AllEncoded(s) == bytes {
      EncodedIsUtf8(s);
    }
  }
}
