/** Decimal numerals, and the numbers they stand for. */
module Decimals {
  import opened Collections

  function DigitOf(d: nat): (c: char)
    requires d < 10
    ensures '0' <= c <= '9'
  {
    '0' + d as char
  }

  function Decimal(n: nat): (s: string)
    ensures s != [] && forall i | 0 <= i < |s| :: '0' <= s[i] <= '9'
  {
    if n < 10 then [DigitOf(n)] else Decimal(n / 10) + [DigitOf(n % 10)]
  }

  ghost predicate IsDigits(s: string) {
    forall i | 0 <= i < |s| :: '0' <= s[i] <= '9'
  }

  /** The number that a string of digits denotes. */
  function NumeralValue(s: string): nat
    requires IsDigits(s)
  {
    if s == [] then 0 else 10 * NumeralValue(s[..|s| - 1]) + (s[|s| - 1] - '0') as nat
  }

  lemma {:induction false} DecimalValue(n: nat)
    ensures NumeralValue(Decimal(n)) == n
  {
    if n >= 10 {
      DecimalValue(n / 10);
      assert Decimal(n)[..|Decimal(n)| - 1] == Decimal(n / 10);
    }
  }

  lemma DecimalInjective(m: nat, n: nat)
    requires Decimal(m) == Decimal(n)
    ensures m == n
  {
    DecimalValue(m);
    DecimalValue(n);
  }

  /** Only a numeral without superfluous zeros is the decimal of its value. */
  lemma {:induction false} CanonicalNumeral(s: string)
    requires s != [] && IsDigits(s) && (s[0] == '0' ==> |s| == 1)
    ensures Decimal(NumeralValue(s)) == s
  {
    var init, last := s[..|s| - 1], (s[|s| - 1] - '0') as nat;
    if init == [] {
      assert NumeralValue(s) == last;
    } else {
      CanonicalNumeral(init);
      PositiveNumeral(init);
      assert NumeralValue(s) / 10 == NumeralValue(init) && NumeralValue(s) % 10 == last;
      assert s == init + [s[|s| - 1]];
    }
  }

  lemma {:induction false} PositiveNumeral(s: string)
    requires s != [] && IsDigits(s) && s[0] != '0'
    ensures NumeralValue(s) > 0
  {
    if |s| > 1 {
      PositiveNumeral(s[..|s| - 1]);
    }
  }

  lemma {:induction false} DecimalLeadingDigit(n: nat)
    ensures Decimal(n)[0] == '0' <==> n == 0
  {
    if n >= 10 {
      DecimalLeadingDigit(n / 10);
    }
  }

  /** s is a numeral for n without superfluous zeros. */
  ghost predicate IsNumeral(s: string, n: nat) {
    && s != "" && IsDigits(s) && (s[0] == '0' ==> |s| == 1)
    && NumeralValue(s) == n
  }

  /** The worth of the digit d with k digits after it. */
  ghost function PlaceValue(d: nat, k: nat): nat {
    if k == 0 then d else 10 * PlaceValue(d, k - 1)
  }

  /** The leading digit is worth ten times as much for every digit after it. */
  lemma {:induction false} PositionalValue(c: char, s: string)
    requires '0' <= c <= '9' && IsDigits(s)
    ensures IsDigits([c] + s)
    ensures NumeralValue([c] + s) == PlaceValue(c as int - '0' as int, |s|) + NumeralValue(s)
  {
    if s == "" {
      assert [c] + s == [c];
    } else {
      var init := s[..|s| - 1];
      PositionalValue(c, init);
      assert ([c] + s)[..|s|] == [c] + init;
    }
  }

  // ---- signed numerals ----

  function Signed(n: int): string {
    if n < 0 then "-" + Decimal(-n) else Decimal(n)
  }

  predicate IsCanonicalNat(s: string) {
    s != [] && (forall i | 0 <= i < |s| :: '0' <= s[i] <= '9') && (s[0] == '0' ==> |s| == 1)
  }

  /** The integer whose signed decimal is s, if there is one. */
  function CanonicalInt(s: string): (r: Option<int>) {
    if IsCanonicalNat(s) then Some(NumeralValue(s) as int)
    else if |s| >= 2 && s[0] == '-' && s[1] != '0' && IsCanonicalNat(s[1..]) then Some(-(NumeralValue(s[1..]) as int))
    else None
  }

  lemma CanonicalIntExact(s: string, n: int)
    ensures CanonicalInt(s) == Some(n) <==> Signed(n) == s
  {
    SignedIsCanonical(n);
    if CanonicalInt(s) == Some(n) {
      CanonicalIntSound(s, n);
    }
  }

  lemma DecimalIsCanonical(n: nat)
    ensures IsCanonicalNat(Decimal(n)) && NumeralValue(Decimal(n)) == n
  {
    DecimalValue(n);
    DecimalLeadingDigit(n);
    assert n == 0 ==> Decimal(n) == [DigitOf(0)];
  }

  lemma NegativeIsCanonical(s: string)
    requires IsCanonicalNat(s) && s[0] != '0'
    ensures CanonicalInt("-" + s) == Some(-(NumeralValue(s) as int))
  {
    var signed := "-" + s;
    assert signed[0] == '-' && signed[1] == s[0] && signed[1..] == s;
    assert !IsCanonicalNat(signed);
  }

  lemma SignedIsCanonical(n: int)
    ensures CanonicalInt(Signed(n)) == Some(n)
  {
    var m: nat := if n < 0 then -n else n;
    var s := Decimal(m);
    DecimalIsCanonical(m);
    if n < 0 {
      assert s[0] != '0' by {
        DecimalLeadingDigit(m);
      }
      assert CanonicalInt("-" + s) == Some(n) by {
        NegativeIsCanonical(s);
      }
    } else {
      assert CanonicalInt(s) == Some(n);
    }
  }

  lemma CanonicalIntSound(s: string, n: int)
    requires CanonicalInt(s) == Some(n)
    ensures Signed(n) == s
  {
    if IsCanonicalNat(s) {
      CanonicalNumeral(s);
    } else {
      CanonicalNumeral(s[1..]);
      PositiveNumeral(s[1..]);
      assert s == "-" + s[1..];
    }
  }
}
