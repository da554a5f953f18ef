/** Decimal numerals: the digit characters, the value a digit string denotes, and the
    rendering that printf's "%llu" conversion produces for an unsigned value. */
module Decimal {

  predicate IsDigit(c: char) {
    '0' <= c <= '9'
  }

  predicate AllDigits(s: string) {
    forall i :: 0 <= i < |s| ==> IsDigit(s[i])
  }

  function DigitValue(c: char): (d: nat)
    requires IsDigit(c)
    ensures d < 10
  {
    c as int - '0' as int
  }

  function DigitChar(d: nat): (c: char)
    requires d < 10
    ensures IsDigit(c) && DigitValue(c) == d
  {
    (d + '0' as int) as char
  }

  /** The number a string of decimal digits denotes, most significant digit first. */
  function ValueOf(s: string): nat
    requires AllDigits(s)
  {
    if s == [] then 0 else ValueOf(s[..|s| - 1]) * 10 + DigitValue(s[|s| - 1])
  }

  /** The text "%llu" prints for n: digits without sign, padding or leading zeros. */
  function Render(n: nat): (r: string)
    ensures |r| > 0 && AllDigits(r)
    ensures r[0] == '0' ==> n == 0
  {
    if n < 10 then [DigitChar(n)] else Render(n / 10) + [DigitChar(n % 10)]
  }

  /** Appending one digit multiplies the value by ten and adds the digit. */
  lemma ValueOfSnoc(s: string, c: char)
    requires AllDigits(s) && IsDigit(c)
    ensures AllDigits(s + [c])
    ensures ValueOf(s + [c]) == ValueOf(s) * 10 + DigitValue(c)
  {
    assert (s + [c])[..|s|] == s;
  }

  /** Reading back what Render printed gives the number again. */
  lemma {:induction false} ValueOfRender(n: nat)
    ensures ValueOf(Render(n)) == n
  {
    if n >= 10 {
      ValueOfRender(n / 10);
      ValueOfSnoc(Render(n / 10), DigitChar(n % 10));
    }
  }

  /** Appending a digit to a positive number's text is rendering ten times it plus the digit. */
  lemma RenderAppend(n: nat, d: nat, t: string, u: string)
    requires 0 < n && d < 10 && Render(n) == t && u == t + [DigitChar(d)]
    ensures Render(n * 10 + d) == u
  {
    assert (n * 10 + d) / 10 == n && (n * 10 + d) % 10 == d;
  }

  /** The text of the first 3 digits of 2^64 - 1, built one digit at a time. */
  lemma RenderMaxPrefix3(m: nat)
    requires m == 184
    ensures Render(m) == "184"
  {
    var n: nat := 1;
    RenderAppend(n, 8, "1", "18");
    n := n * 10 + 8;
    RenderAppend(n, 4, "18", "184");
    n := n * 10 + 4;
  }

  /** The text of the first 5 digits of 2^64 - 1, built one digit at a time. */
  lemma RenderMaxPrefix5(m: nat)
    requires m == 18446
    ensures Render(m) == "18446"
  {
    var n: nat := 184;
    RenderMaxPrefix3(n);
    RenderAppend(n, 4, "184", "1844");
    n := n * 10 + 4;
    RenderAppend(n, 6, "1844", "18446");
    n := n * 10 + 6;
  }

  /** The text of the first 7 digits of 2^64 - 1, built one digit at a time. */
  lemma RenderMaxPrefix7(m: nat)
    requires m == 1844674
    ensures Render(m) == "1844674"
  {
    var n: nat := 18446;
    RenderMaxPrefix5(n);
    RenderAppend(n, 7, "18446", "184467");
    n := n * 10 + 7;
    RenderAppend(n, 4, "184467", "1844674");
    n := n * 10 + 4;
  }

  /** The text of the first 9 digits of 2^64 - 1, built one digit at a time. */
  lemma RenderMaxPrefix9(m: nat)
    requires m == 184467440
    ensures Render(m) == "184467440"
  {
    var n: nat := 1844674;
    RenderMaxPrefix7(n);
    RenderAppend(n, 4, "1844674", "18446744");
    n := n * 10 + 4;
    RenderAppend(n, 0, "18446744", "184467440");
    n := n * 10 + 0;
  }

  /** The text of the first 11 digits of 2^64 - 1, built one digit at a time. */
  lemma RenderMaxPrefix11(m: nat)
    requires m == 18446744073
    ensures Render(m) == "18446744073"
  {
    var n: nat := 184467440;
    RenderMaxPrefix9(n);
    RenderAppend(n, 7, "184467440", "1844674407");
    n := n * 10 + 7;
    RenderAppend(n, 3, "1844674407", "18446744073");
    n := n * 10 + 3;
  }

  /** The text of the first 13 digits of 2^64 - 1, built one digit at a time. */
  lemma RenderMaxPrefix13(m: nat)
    requires m == 1844674407370
    ensures Render(m) == "1844674407370"
  {
    var n: nat := 18446744073;
    RenderMaxPrefix11(n);
    RenderAppend(n, 7, "18446744073", "184467440737");
    n := n * 10 + 7;
    RenderAppend(n, 0, "184467440737", "1844674407370");
    n := n * 10 + 0;
  }

  /** The text of the first 15 digits of 2^64 - 1, built one digit at a time. */
  lemma RenderMaxPrefix15(m: nat)
    requires m == 184467440737095
    ensures Render(m) == "184467440737095"
  {
    var n: nat := 1844674407370;
    RenderMaxPrefix13(n);
    RenderAppend(n, 9, "1844674407370", "18446744073709");
    n := n * 10 + 9;
    RenderAppend(n, 5, "18446744073709", "184467440737095");
    n := n * 10 + 5;
  }

  /** The text of the first 17 digits of 2^64 - 1, built one digit at a time. */
  lemma RenderMaxPrefix17(m: nat)
    requires m == 18446744073709551
    ensures Render(m) == "18446744073709551"
  {
    var n: nat := 184467440737095;
    RenderMaxPrefix15(n);
    RenderAppend(n, 5, "184467440737095", "1844674407370955");
    n := n * 10 + 5;
    RenderAppend(n, 1, "1844674407370955", "18446744073709551");
    n := n * 10 + 1;
  }

  /** The text of the first 19 digits of 2^64 - 1, built one digit at a time. */
  lemma RenderMaxPrefix19(m: nat)
    requires m == 1844674407370955161
    ensures Render(m) == "1844674407370955161"
  {
    var n: nat := 18446744073709551;
    RenderMaxPrefix17(n);
    RenderAppend(n, 6, "18446744073709551", "184467440737095516");
    n := n * 10 + 6;
    RenderAppend(n, 1, "184467440737095516", "1844674407370955161");
    n := n * 10 + 1;
  }

  /** The text of 2^64 - 1, the largest 64-bit value, built one digit at a time. */
  lemma RenderMaxPrefix20(m: nat)
    requires m == 18446744073709551615
    ensures Render(m) == "18446744073709551615"
  {
    var n: nat := 1844674407370955161;
    RenderMaxPrefix19(n);
    RenderAppend(n, 5, "1844674407370955161", "18446744073709551615");
    n := n * 10 + 5;
  }
}
