/** The C library's strtoull (section 7.22.1.4 of ISO/IEC 9899:2011), fixed to base 10,
    called with a null end pointer and with the "C" locale, on a 64-bit unsigned long long.
    The conversion reads optional white-space, an optional sign and the longest run of
    decimal digits; whatever follows is ignored. */
module CStrtoull {
  import opened Decimal

  const TWO_64: int := 0x1_0000_0000_0000_0000
  const UINT64_MAX: int := 0xFFFF_FFFF_FFFF_FFFF

  /** The accumulator's cut-off: a value above CUTOFF, or equal to it and followed by a
      digit above CUTLIM, no longer fits once multiplied by ten and added to. */
  const CUTOFF: int := UINT64_MAX / 10
  const CUTLIM: int := UINT64_MAX % 10

  /** An unsigned 64-bit integer. */
  type u64 = x: int | 0 <= x < 0x1_0000_0000_0000_0000

  /** isspace in the "C" locale. */
  predicate IsSpace(c: char) {
    c == ' ' || c == '\t' || c == '\n' || c == '\r' || c == '\U{000C}' || c == '\U{000B}'
  }

  predicate AllSpaces(s: string) {
    forall i :: 0 <= i < |s| ==> IsSpace(s[i])
  }

  /** The input with its leading white-space removed. */
  function SkipSpaces(s: string): string
  {
    if s != [] && IsSpace(s[0]) then SkipSpaces(s[1..]) else s
  }

  /** Whether the subject sequence starts with a minus sign. */
  predicate Negative(s: string) {
    var t := SkipSpaces(s);
    t != [] && t[0] == '-'
  }

  /** What follows the white-space and the optional sign. */
  function Unsigned(s: string): string {
    var t := SkipSpaces(s);
    if t != [] && (t[0] == '+' || t[0] == '-') then t[1..] else t
  }

  /** The longest prefix of t made of decimal digits. */
  function DigitRun(t: string): (d: string)
    ensures AllDigits(d)
  {
    if t != [] && IsDigit(t[0]) then [t[0]] + DigitRun(t[1..]) else []
  }

  /** The exact value of the digit run, before any range reduction. */
  function Magnitude(s: string): nat {
    ValueOf(DigitRun(Unsigned(s)))
  }

  /** The range rule of strtoull: a magnitude too large for the type yields the maximum,
      otherwise a leading minus negates it in the unsigned type, i.e. modulo 2^64. */
  function Reduce(negative: bool, m: nat): (r: u64)
    ensures r == UINT64_MAX <==> m > UINT64_MAX || (if negative then m == 1 else m == UINT64_MAX)
  {
    if m > UINT64_MAX then UINT64_MAX
    else if negative && m != 0 then TWO_64 - m
    else m
  }

  /** strtoull(s, NULL, 10). With no digits the magnitude is 0 and so is the result. */
  function Strtoull(s: string): u64 {
    Reduce(Negative(s), Magnitude(s))
  }

  /** A loop-based rendition of the conversion, in the shape of the C library's: skip
      white-space, take the sign, accumulate the digits, then apply the range rule. */
  method ConvertBase10(s: string) returns (r: u64)
    ensures r == Strtoull(s)
  {
    var i := 0;
    while i < |s| && IsSpace(s[i])
      invariant 0 <= i <= |s|
      invariant SkipSpaces(s[i..]) == SkipSpaces(s)
    {
      assert s[i..][1..] == s[i + 1..];
      i := i + 1;
    }
    assert s[i..] == SkipSpaces(s);
    var negative := false;
    if i < |s| && (s[i] == '+' || s[i] == '-') {
      negative := s[i] == '-';
      i := i + 1;
    }
    var acc, overflow := AccumulateDigits(s[i..]);
    if overflow {
      r := UINT64_MAX;
    } else if negative && acc != 0 {
      r := TWO_64 - acc;
    } else {
      r := acc;
    }
  }

  /** Accumulates the leading digit run of u against the cut-off, so that the accumulator
      never leaves 64 bits; reports whether the run's value overflowed. */
  method AccumulateDigits(u: string) returns (acc: u64, overflow: bool)
    ensures overflow <==> ValueOf(DigitRun(u)) > UINT64_MAX
    ensures !overflow ==> acc == ValueOf(DigitRun(u))
  {
    var n := 0;
    acc, overflow := 0, false;
    while n < |u| && IsDigit(u[n])
      invariant n <= |u|
      invariant AllDigits(u[..n])
      invariant overflow ==> ValueOf(u[..n]) > UINT64_MAX
      invariant !overflow ==> acc == ValueOf(u[..n])
    {
      var d := DigitValue(u[n]);
      assert u[..n + 1] == u[..n] + [u[n]];
      ValueOfSnoc(u[..n], u[n]);
      if !overflow {
        if acc > CUTOFF || (acc == CUTOFF && d > CUTLIM) {
          overflow := true;
        } else {
          acc := acc * 10 + d;
        }
      }
      n := n + 1;
    }
    DigitRunIs(u, n);
  }

  /** The digit run of t is its first n characters when those are digits and the next is not. */
  lemma {:induction false} DigitRunIs(t: string, n: nat)
    requires n <= |t| && AllDigits(t[..n])
    requires n == |t| || !IsDigit(t[n])
    ensures DigitRun(t) == t[..n]
  {
    if n > 0 {
      assert t[1..][..n - 1] == t[1..n];
      DigitRunIs(t[1..], n - 1);
    }
  }

  /** The general shape of a conversion: white-space, a sign, a non-empty digit run and
      anything that does not start with a digit converts to the run's value, negated when
      the sign is a minus and set to the maximum when it does not fit in 64 bits. */
  lemma Decompose(spaces: string, sign: string, digits: string, rest: string)
    requires AllSpaces(spaces)
    requires sign == "" || sign == "+" || sign == "-"
    requires digits != [] && AllDigits(digits)
    requires rest == [] || !IsDigit(rest[0])
    ensures Strtoull(spaces + sign + digits + rest) == Reduce(sign == "-", ValueOf(digits))
  {
    var u := digits + rest;
    assert spaces + sign + digits + rest == spaces + sign + u;
    assert u[0] == digits[0];
    SubjectIs(spaces, sign, u);
    DigitRunIs(u, |digits|);
    assert u[..|digits|] == digits;
  }

  /** After white-space and a sign, a string that starts with a digit is what the digit
      run is taken from, and the sign alone decides negation. */
  lemma SubjectIs(spaces: string, sign: string, u: string)
    requires AllSpaces(spaces)
    requires sign == "" || sign == "+" || sign == "-"
    requires u != [] && IsDigit(u[0])
    ensures Unsigned(spaces + sign + u) == u
    ensures Negative(spaces + sign + u) == (sign == "-")
  {
    var t := sign + u;
    assert spaces + sign + u == spaces + t;
    assert t[0] == if sign == "" then u[0] else sign[0];
    SkipSpacesOver(spaces, t);
    assert sign != "" ==> t[1..] == u;
  }

  /** Leading white-space is skipped in full when something else follows it. */
  lemma {:induction false} SkipSpacesOver(spaces: string, t: string)
    requires AllSpaces(spaces)
    requires t == [] || !IsSpace(t[0])
    ensures SkipSpaces(spaces + t) == t
  {
    if spaces != [] {
      assert (spaces + t)[1..] == spaces[1..] + t;
      SkipSpacesOver(spaces[1..], t);
    }
  }

  /** The rendering of any 64-bit value converts back to that value. */
  lemma RenderRoundTrip(q: u64)
    ensures Strtoull(Render(q)) == q
  {
    assert Render(q) + "" == Render(q);
    IgnoresTail(q, "");
  }

  /** Characters after the digit run are ignored: "12k" converts like "12". */
  lemma IgnoresTail(q: u64, rest: string)
    requires rest == [] || !IsDigit(rest[0])
    ensures Strtoull(Render(q) + rest) == q
  {
    var d := Render(q);
    var s := d + rest;
    assert s == "" + "" + d + rest;
    Decompose("", "", d, rest);
    assert Strtoull(s) == Reduce(false, ValueOf(d));
    ValueOfRender(q);
  }

  /** A digit string whose value does not fit in 64 bits saturates to the maximum. */
  lemma Saturates(digits: string)
    requires digits != [] && AllDigits(digits) && ValueOf(digits) > UINT64_MAX
    ensures Strtoull(digits) == UINT64_MAX
  {
    assert digits == "" + "" + digits + "";
    Decompose("", "", digits, "");
  }

  /** A leading minus sign negates the magnitude modulo 2^64. */
  lemma NegatesModulo(q: u64)
    ensures Strtoull("-" + Render(q)) == (TWO_64 - q) % TWO_64
  {
    var d := Render(q);
    var s := "-" + d;
    assert s == "" + "-" + d + "";
    Decompose("", "-", d, "");
    assert Strtoull(s) == Reduce(true, ValueOf(d));
    ValueOfRender(q);
    if q == 0 {
      assert (TWO_64 - q) % TWO_64 == 0;
    } else {
      assert (TWO_64 - q) % TWO_64 == TWO_64 - q;
    }
  }

  /** Without digits after the white-space and sign, nothing is converted and the result is 0. */
  lemma NoDigits(s: string)
    requires Unsigned(s) == [] || !IsDigit(Unsigned(s)[0])
    ensures Strtoull(s) == 0
  {
    assert DigitRun(Unsigned(s)) == [];
  }

  /** Characters after the digits are ignored: "12k" converts to 12. */
  lemma TrailingTextExample()
    ensures Strtoull("12k") == 12
  {
    assert "12k" == Render(12) + "k";
    IgnoresTail(12, "k");
  }

  /** A string without leading digits converts to 0: "abc" gives 0. */
  lemma NoDigitsExample()
    ensures Strtoull("abc") == 0
  {
    NoDigits("abc");
  }

  /** White-space and a plus sign before the digits are accepted. */
  lemma SignedExample()
    ensures Strtoull(" \t+7") == 7
  {
    assert " \t+7" == " \t" + "+" + "7" + "";
    Decompose(" \t", "+", "7", "");
  }

  /** "-5" wraps to 2^64 - 5. */
  lemma MinusFiveExample()
    ensures Strtoull("-5") == TWO_64 - 5
  {
    var five := Render(5);
    assert five == "5";
    NegatesModulo(5);
    assert "-5" == "-" + five;
    assert (TWO_64 - 5) % TWO_64 == TWO_64 - 5;
  }

  /** "-1" wraps to the maximum. */
  lemma MinusOneExample()
    ensures Strtoull("-1") == UINT64_MAX
  {
    assert "-1" == "-" + Render(1);
    NegatesModulo(1);
  }

  /** The text of the maximum is "18446744073709551615". */
  lemma RenderMax()
    ensures Render(UINT64_MAX) == "18446744073709551615"
  {
    RenderMaxPrefix20(UINT64_MAX);
  }

  /** The text of the maximum, "18446744073709551615", converts to the maximum, and so
      does the text of 2^64, the first value that no longer fits. */
  lemma SaturationExamples()
    ensures Strtoull("18446744073709551615") == UINT64_MAX
    ensures Strtoull(Render(TWO_64)) == UINT64_MAX
  {
    RenderMax();
    RenderRoundTrip(UINT64_MAX);
    ValueOfRender(TWO_64);
    Saturates(Render(TWO_64));
  }
}
