/** Decimal numbers as text. */
module Numbers {
  import opened Wrappers

  const USIZE: nat := 0x1_0000_0000_0000_0000

  predicate IsDigit(c: char) { '0' <= c <= '9' }

  function Decimal(n: nat): (s: string)
    ensures s != ""
  {
    if n < 10 then [('0' as int + n) as char] else Decimal(n / 10) + [('0' as int + n % 10) as char]
  }

  /** The value of a run of digits. */
  function DigitsValue(s: string): Option<nat> {
    if s == "" then Some(0)
    else
      var init := DigitsValue(s[..|s| - 1]);
      var last := s[|s| - 1];
      if init.None? || !IsDigit(last) then None else Some(10 * init.value + (last as int - '0' as int))
  }

  /** A decimal number below two to the 64th, with an optional plus sign. */
  function ParseUsize(s: string): Option<nat> {
    var digits := if s != "" && s[0] == '+' then s[1..] else s;
    if digits == "" then None
    else
      var value := DigitsValue(digits);
      if value.None? || value.value >= USIZE then None else value
  }

  lemma {:induction false} DecimalDigits(n: nat)
    ensures DigitsValue(Decimal(n)) == Some(n)
    ensures forall i | 0 <= i < |Decimal(n)| :: IsDigit(Decimal(n)[i])
  {
    var s := Decimal(n);
    if n < 10 {
      assert s[..|s| - 1] == "";
    } else {
      DecimalDigits(n / 10);
      assert s[..|s| - 1] == Decimal(n / 10);
    }
  }

  lemma ParseDecimal(n: nat)
    requires n < USIZE
    ensures ParseUsize(Decimal(n)) == Some(n)
  {
    DecimalDigits(n);
    assert IsDigit(Decimal(n)[0]);
  }

  predicate AllZeros(s: string) {
    forall i | 0 <= i < |s| :: s[i] == '0'
  }

  lemma {:induction false} ZerosInFront(zeros: string, s: string)
    requires AllZeros(zeros) && s != ""
    ensures DigitsValue(zeros + s) == DigitsValue(s)
    decreases |s|
  {
    var all := zeros + s;
    assert all[..|all| - 1] == zeros + s[..|s| - 1];
    if |s| > 1 {
      ZerosInFront(zeros, s[..|s| - 1]);
    } else {
      assert zeros + s[..|s| - 1] == zeros;
      ZerosAreZero(zeros);
    }
  }

  lemma {:induction false} ZerosAreZero(zeros: string)
    requires AllZeros(zeros)
    ensures DigitsValue(zeros) == Some(0)
  {
    if zeros != "" {
      ZerosAreZero(zeros[..|zeros| - 1]);
    }
  }

  /** A run of digits is the number that it stands for, after zeros. */
  lemma {:induction false} DigitsAre(s: string) returns (zeros: string)
    requires s != "" && DigitsValue(s).Some?
    ensures AllZeros(zeros) && s == zeros + Decimal(DigitsValue(s).value)
  {
    var init, last := s[..|s| - 1], s[|s| - 1];
    assert s == init + [last];
    if init == "" {
      zeros := "";
      assert s == "" + [last];
    } else {
      var front := DigitsAre(init);
      var m := DigitsValue(init).value;
      if m == 0 {
        zeros := front + "0";
        assert Decimal(0) == "0";
        assert s == zeros + [last];
      } else {
        zeros := front;
        assert Decimal(DigitsValue(s).value) == Decimal(m) + [last];
        assert s == zeros + (Decimal(m) + [last]);
      }
    }
  }

  ghost predicate WrittenAs(s: string, sign: string, zeros: string, n: nat) {
    sign in {"", "+"} && AllZeros(zeros) && s == sign + zeros + Decimal(n)
  }

  lemma ReadsWritten(s: string, sign: string, zeros: string, n: nat)
    requires WrittenAs(s, sign, zeros, n) && n < 0x1_0000_0000_0000_0000
    ensures ParseUsize(s) == Some(n)
  {
    var digits := zeros + Decimal(n);
    DecimalDigits(n);
    ZerosInFront(zeros, Decimal(n));
    assert s == sign + digits && digits != "";
    assert IsDigit(Decimal(n)[0]);
    assert digits[0] == if zeros == "" then Decimal(n)[0] else zeros[0];
    if sign == "+" {
      assert s[1..] == digits && s[0] == '+';
    } else {
      assert s == digits;
    }
  }

  /** A count is read from exactly the decimal numbers below two to the 64th, with zeros or a plus before them. */
  lemma ParseExact(s: string, n: nat)
    ensures ParseUsize(s) == Some(n) <==>
            n < 0x1_0000_0000_0000_0000 && exists sign, zeros :: WrittenAs(s, sign, zeros, n)
  {
    if ParseUsize(s) == Some(n) {
      var plus := s != "" && s[0] == '+';
      var digits := if plus then s[1..] else s;
      var zeros := DigitsAre(digits);
      var sign := if plus then "+" else "";
      assert s == sign + digits;
      assert sign + (zeros + Decimal(n)) == sign + zeros + Decimal(n);
      assert WrittenAs(s, sign, zeros, n);
    }
    if n < 0x1_0000_0000_0000_0000 {
      if sign, zeros :| WrittenAs(s, sign, zeros, n) {
        ReadsWritten(s, sign, zeros, n);
      }
    }
  }
}
