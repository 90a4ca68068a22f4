/** Numbers in text, as Python's format writes them. */
module Numerals {

  const DIGITS: string := "0123456789"

  predicate IsDigit(c: char) { '0' <= c <= '9' }

  predicate AllDigits(s: string) { forall c :: c in s ==> IsDigit(c) }

  function Decimal(n: nat): (s: string)
    ensures s != [] && AllDigits(s)
  {
    if n < 10 then [DIGITS[n]] else Decimal(n / 10) + [DIGITS[n % 10]]
  }

  function Zeros(k: nat): (s: string)
    ensures |s| == k && AllDigits(s)
  {
    if k == 0 then "" else Zeros(k - 1) + "0"
  }

  /** `{n:0width}` */
  function Padded(n: nat, width: nat): (s: string)
    ensures AllDigits(s)
  {
    Zeros(if |Decimal(n)| < width then width - |Decimal(n)| else 0) + Decimal(n)
  }

  function Number(s: string): nat
    requires AllDigits(s)
  {
    if s == [] then 0
    else
      var n := |s| - 1;
      assert forall c :: c in s[..n] ==> c in s;
      assert s[n] in s;
      Number(s[..n]) * 10 + (s[n] as int - '0' as int)
  }

  lemma {:induction false} NumberOfDecimal(n: nat)
    ensures Number(Decimal(n)) == n
  {
    if n < 10 {
      assert [DIGITS[n]][..0] == [];
    } else {
      NumberOfDecimal(n / 10);
      assert (Decimal(n / 10) + [DIGITS[n % 10]])[..|Decimal(n / 10)|] == Decimal(n / 10);
    }
  }

  lemma {:induction false} NumberOfZeros(k: nat, s: string)
    requires AllDigits(s) && AllDigits(Zeros(k) + s)
    ensures Number(Zeros(k) + s) == Number(s)
    decreases k + |s|
  {
    var text := Zeros(k) + s;
    if s != [] {
      var n := |s| - 1;
      assert text[..|text| - 1] == Zeros(k) + s[..n];
      assert forall c :: c in s[..n] ==> c in s;
      NumberOfZeros(k, s[..n]);
    } else if k > 0 {
      assert text[..|text| - 1] == Zeros(k - 1) + "";
      NumberOfZeros(k - 1, "");
    }
  }

  lemma {:induction false} DecimalInjective(m: nat, n: nat)
    requires Decimal(m) == Decimal(n)
    ensures m == n
  {
    NumberOfDecimal(m);
    NumberOfDecimal(n);
  }

  lemma {:induction false} NumberOfPadded(n: nat, width: nat)
    ensures Number(Padded(n, width)) == n
  {
    NumberOfZeros(if |Decimal(n)| < width then width - |Decimal(n)| else 0, Decimal(n));
    NumberOfDecimal(n);
  }

  lemma {:induction false} PaddedInjective(m: nat, n: nat, width: nat)
    requires Padded(m, width) == Padded(n, width)
    ensures m == n
  {
    NumberOfPadded(m, width);
    NumberOfPadded(n, width);
  }

  /** What follows the last mark is determined by the whole text. */
  lemma {:induction false} BehindLastMark(a: string, b: string, c: string, d: string, mark: char)
    requires a + [mark] + b == c + [mark] + d && mark !in b && mark !in d
    ensures a == c && b == d
  {
    var text := a + [mark] + b;
    assert forall i :: |a| < i < |text| ==> text[i] == b[i - |a| - 1] && text[i] != mark;
    assert forall i :: |c| < i < |text| ==> text[i] == (c + [mark] + d)[i] == d[i - |c| - 1] && text[i] != mark;
    assert text[|a|] == mark && (c + [mark] + d)[|c|] == mark;
    assert a == text[..|a|] && c == text[..|c|];
    assert b == text[|a| + 1..] && d == text[|c| + 1..];
  }
}
