/** Fixed-point numbers as text (Types.hpp): Numeric's output operator and castString, on 64-bit
  signed integers. Where the source would overflow a signed integer the outcome is Overflow. */
module Numeric {
  import opened Decimal

  const MAX: int := 0x7fff_ffff_ffff_ffff

  type Int64 = x: int | -MAX - 1 <= x <= MAX

  datatype Outcome<T> = Done(value: T) | Rejected | Overflow

  // The entries of numericShifts go up to 10^18.
  const MAX_PRECISION: nat := 18

  // ---------------------------------------------------------------------------- Printing

  function Abs(v: int): nat { if v < 0 then -v else v }

  /** The fraction loop multiplies what it prints by ten, unless that is zero. */
  predicate Printable(v: Int64, precision: nat) {
    v != -MAX - 1 && 10 * Fraction(Abs(v), precision) <= MAX
  }

  lemma QuotientIsNat(n: nat, d: nat)
    requires d >= 1
    ensures n / d >= 0 && n == n / d * d + n % d && 0 <= n % d < d
  {
    NegativeProduct(n / d, d);
  }

  lemma NegativeProduct(q: int, d: nat)
    ensures q < 0 ==> q * d <= 0 - d
  {
  }

  /** The places before and after the point. */
  function Whole(n: nat, precision: nat): (q: nat) {
    QuotientIsNat(n, Pow10(precision));
    n / Pow10(precision)
  }

  function Fraction(n: nat, precision: nat): (r: nat)
    ensures r < Pow10(precision) && n == Whole(n, precision) * Pow10(precision) + r
  {
    QuotientIsNat(n, Pow10(precision));
    n % Pow10(precision)
  }

  /** The decimal text of v / 10^precision, with all places of the fraction. */
  function Text(v: int, precision: nat): string {
    (if v < 0 then "-" else "")
    + Digits(Whole(Abs(v), precision))
    + if precision == 0 then "" else "." + Padded(Fraction(Abs(v), precision), precision)
  }

  /** The loop that finds the power of ten of the point. */
  method Separator(precision: nat) returns (sep: nat)
    requires precision >= 1
    ensures sep == Pow10(precision)
  {
    sep := 10;
    for index := 1 to precision
      invariant sep == Pow10(index)
    {
      sep := sep * 10;
    }
  }

  /** The output operator. */
  method Print(value: Int64, precision: nat) returns (out: Outcome<string>)
    requires precision <= MAX_PRECISION
    ensures out == if Printable(value, precision) then Done(Text(value, precision)) else Overflow
  {
    hide Digits, Padded, Pow10;
    var v: int := value;
    var s := "";
    if v < 0 {
      s := s + "-";
      if v == -MAX - 1 {
        return Overflow;
      }
      v := -v;
    }
    assert v == Abs(value);
    if precision == 0 {
      NoFraction(v);
      assert Text(value, precision) == s + Digits(v);
      s := s + Digits(v);
    } else {
      var sep := Separator(precision);
      QuotientIsNat(v, sep);
      s := s + Digits(v / sep) + ".";
      var fraction := PrintFraction(v % sep, precision, sep);
      if fraction.Overflow? {
        return Overflow;
      }
      assert Text(value, precision) == s + fraction.value;
      s := s + fraction.value;
    }
    out := Done(s);
  }

  lemma NoFraction(n: nat)
    ensures Whole(n, 0) == n && Fraction(n, 0) == 0
  {
  }

  /** The places after the point. */
  method PrintFraction(n: nat, precision: nat, start: nat) returns (out: Outcome<string>)
    requires 1 <= precision && start == Pow10(precision) && n < start
    ensures out == if 10 * n <= MAX then Done(Padded(n, precision)) else Overflow
  {
    var v, sep, s := n, start, "";
    if v == 0 {
      for index := 0 to precision
        invariant s == Zeros(index)
      {
        ZerosAppend(index);
        s := s + "0";
      }
      ZeroPadded(precision);
    } else {
      ghost var k: nat := 0;
      while true
        invariant k < precision && sep == Pow10(precision - k) && v < sep && s == Zeros(k)
        invariant k > 0 ==> 10 * n <= MAX
        decreases precision - k
      {
        if 10 * v > MAX {
          return Overflow;
        }
        if sep <= 10 * v {
          break;
        }
        ZerosAppend(k);
        s := s + "0";
        sep := sep / 10;
        k := k + 1;
      }
      FractionPadded(v, precision, k);
      s := s + Digits(v);
    }
    out := Done(s);
  }

  lemma {:induction false} ZerosAppend(k: nat)
    ensures Zeros(k + 1) == Zeros(k) + "0"
  {
    if k > 0 {
      ZerosAppend(k - 1);
      assert "0" + (Zeros(k - 1) + "0") == ("0" + Zeros(k - 1)) + "0";
    }
  }

  lemma ZeroPadded(precision: nat)
    requires precision >= 1
    ensures Padded(0, precision) == Zeros(precision)
  {
    ZerosAppend(precision - 1);
    assert Digits(0) == "0";
  }

  lemma FractionPadded(v: nat, precision: nat, k: nat)
    requires k < precision && 0 < v < Pow10(precision - k) <= 10 * v
    ensures Padded(v, precision) == Zeros(k) + Digits(v)
  {
    DigitsLength(v, precision - k);
    if precision - k > 1 {
      DigitsLength(v, precision - k - 1);
    }
  }

  // ----------------------------------------------------------------------------- Parsing

  /** What the digit loop has gathered. */
  datatype Digested = Digested(result: nat, seen: nat, seenFraction: nat)

  predicate NoTrailingZero(s: string) { s == "" || s[|s| - 1] != '0' }

  predicate AllZero(s: string) { forall i | 0 <= i < |s| :: s[i] == '0' }

  function TrimZeros(s: string): (t: string)
    ensures t <= s && (s != "" && s[0] != '0' ==> t != "") && NoTrailingZero(t)
  {
    if s != "" && s[|s| - 1] == '0' then TrimZeros(s[..|s| - 1]) else s
  }

  /** The digit loop on the rest of the text. At the point, trailing zeros are cut off. */
  function Digest(s: string, d: Digested, fraction: bool): Outcome<Digested>
    decreases |s|
  {
    if s == "" then Done(d)
    else if IsDigit(s[0]) then
      var result := d.result * 10 + DigitValue(s[0]);
      if result > MAX then Overflow
      else if fraction then Digest(s[1..], Digested(result, d.seen, d.seenFraction + 1), true)
      else Digest(s[1..], Digested(result, d.seen + 1, d.seenFraction), false)
    else if s[0] == '.' then
      if fraction then Rejected else Digest(TrimZeros(s)[1..], d, true)
    else Rejected
  }

  /** A 64-bit unsigned product assigned to a signed integer. */
  function Signed(x: nat): Int64 {
    var word := x % 0x1_0000_0000_0000_0000;
    if word <= MAX then word else word - 0x1_0000_0000_0000_0000
  }

  function Finish(neg: bool, d: Digested, precision: nat): Outcome<int>
    requires precision <= MAX_PRECISION
  {
    if d.seen > 18 || d.seenFraction > precision then Rejected
    else
      var result := Signed(d.result * Pow10(precision - d.seenFraction));
      if !neg then Done(result)
      else if result == -MAX - 1 then Overflow
      else Done(-result)
  }

  function ParseUnsigned(s: string, neg: bool, precision: nat): Outcome<int>
    requires precision <= MAX_PRECISION
  {
    if s == "" then Rejected
    else
      match Digest(s, Digested(0, 0, 0), false)
      case Done(d) => Finish(neg, d, precision)
      case Rejected => Rejected
      case Overflow => Overflow
  }

  predicate IsNegative(s: string) { s != "" && s[0] == '-' }

  /** What follows the sign, if there is one. */
  function Unsigned(s: string): string {
    if s != "" && (s[0] == '-' || s[0] == '+') then s[1..] else s
  }

  function Parse(str: string, precision: nat): Outcome<int>
    requires precision <= MAX_PRECISION
  {
    ParseUnsigned(Unsigned(Trim(str)), IsNegative(Trim(str)), precision)
  }

  /** At the point, the loop that moves the limit before trailing zeros. */
  method CutZeros(str: string, iter: nat, end: nat) returns (limit: nat)
    requires iter < end <= |str| && str[iter] == '.'
    ensures iter < limit <= end && str[iter..limit] == TrimZeros(str[iter..end])
    ensures AllZero(str[limit..end]) && str[limit - 1] != '0'
  {
    limit := end;
    while iter != limit && str[limit - 1] == '0'
      invariant iter < limit <= end && TrimZeros(str[iter..limit]) == TrimZeros(str[iter..end])
      invariant AllZero(str[limit..end])
    {
      assert str[iter..limit][..limit - iter - 1] == str[iter..limit - 1];
      limit := limit - 1;
    }
  }

  /** The digit loop; `limit` moves when it meets the point. */
  method DigitLoop(str: string, start: nat, end: nat) returns (r: Outcome<Digested>)
    requires start <= end <= |str|
    ensures r == Digest(str[start..end], Digested(0, 0, 0), false)
  {
    hide TrimZeros;
    var iter, limit, fraction := start, end, false;
    var d := Digested(0, 0, 0);
    while iter != limit
      invariant start <= iter <= limit <= end
      invariant Digest(str[start..end], Digested(0, 0, 0), false) == Digest(str[iter..limit], d, fraction)
      decreases limit - iter
    {
      var c := str[iter];
      assert str[iter..limit][1..] == str[iter + 1..limit];
      if IsDigit(c) {
        if d.result * 10 + DigitValue(c) > MAX {
          return Overflow;
        }
        d := d.(result := d.result * 10 + DigitValue(c));
        d := if fraction then d.(seenFraction := d.seenFraction + 1) else d.(seen := d.seen + 1);
      } else if c == '.' {
        if fraction {
          return Rejected;
        }
        limit := CutZeros(str, iter, limit);
        assert str[iter..limit][1..] == str[iter + 1..limit];
        fraction := true;
      } else {
        return Rejected;
      }
      iter := iter + 1;
    }
    r := Done(d);
  }

  /** Numeric::castString */
  method CastString(str: string, precision: nat) returns (r: Outcome<int>)
    requires precision <= MAX_PRECISION
    ensures r == Parse(str, precision)
  {
    var iter, limit := TrimBlanks(str);
    var neg := false;
    if iter != limit {
      assert str[iter..limit][0] == str[iter] && str[iter..limit][1..] == str[iter + 1..limit];
      if str[iter] == '-' {
        neg := true;
        iter := iter + 1;
      } else if str[iter] == '+' {
        iter := iter + 1;
      }
    }
    if iter == limit {
      return Rejected;
    }
    var d := DigitLoop(str, iter, limit);
    match d
    case Done(digested) => r := Finish(neg, digested, precision);
    case Rejected => r := Rejected;
    case Overflow => r := Overflow;
  }

  // --------------------------------------------------------------------------- Round trip

  lemma SpelledNothing(acc: nat)
    ensures Spelled("", acc) == acc
  {
  }

  lemma SpelledFits(s: string, acc: nat)
    requires s != "" && AllDigits(s) && Spelled(s, acc) <= MAX
    ensures 10 * acc + DigitValue(s[0]) <= MAX && AllDigits(s[1..])
    ensures Spelled(s, acc) == Spelled(s[1..], 10 * acc + DigitValue(s[0]))
  {
  }

  /** The digit loop over a whole number. */
  lemma {:induction false} DigestWhole(s: string, tail: string, d: Digested)
    requires AllDigits(s) && Spelled(s, d.result) <= MAX
    ensures Digest(s + tail, d, false) == Digest(tail, Digested(Spelled(s, d.result), d.seen + |s|, d.seenFraction), false)
    decreases |s|
  {
    hide TrimZeros, Spelled;
    if s == "" {
      assert s + tail == tail;
      SpelledNothing(d.result);
    } else {
      assert (s + tail)[1..] == s[1..] + tail;
      SpelledFits(s, d.result);
      DigestWhole(s[1..], tail, Digested(10 * d.result + DigitValue(s[0]), d.seen + 1, d.seenFraction));
    }
  }

  lemma {:induction false} DigestFraction(s: string, d: Digested)
    requires AllDigits(s) && Spelled(s, d.result) <= MAX
    ensures Digest(s, d, true) == Done(Digested(Spelled(s, d.result), d.seen, d.seenFraction + |s|))
    decreases |s|
  {
    if s != "" {
      DigestFraction(s[1..], Digested(10 * d.result + DigitValue(s[0]), d.seen, d.seenFraction + 1));
    }
  }

  /** What trimming takes away is zeros. */
  lemma {:induction false} TrimmedZeros(s: string)
    ensures s == TrimZeros(s) + Zeros(|s| - |TrimZeros(s)|)
    ensures TrimZeros("." + s) == "." + TrimZeros(s)
  {
    if s != "" && s[|s| - 1] == '0' {
      var front := s[..|s| - 1];
      TrimmedZeros(front);
      ZerosAppend(|front| - |TrimZeros(front)|);
      assert ("." + s)[..|s|] == "." + front;
    } else if s != "" {
      assert ("." + s)[|s|] == s[|s| - 1];
    }
  }

  /** The point and the places after it: trailing zeros do not count as places. */
  lemma DigestPoint(n: nat, precision: nat, whole: nat, seen: nat) returns (places: nat, result: nat)
    requires 1 <= precision && n < Pow10(precision) && whole * Pow10(precision) + n <= MAX
    ensures places <= precision && result * Pow10(precision - places) == whole * Pow10(precision) + n
    ensures Digest("." + Padded(n, precision), Digested(whole, seen, 0), false) == Done(Digested(result, seen, places))
  {
    var f := Padded(n, precision);
    var t := TrimZeros(f);
    SpelledPadded(n, precision, whole);
    TrimmedZeros(f);
    places, result := |t|, Spelled(t, whole);
    SpelledZeros(precision - places, result);
    SpelledAppend(t, Zeros(precision - places), whole);
    DigestFraction(t, Digested(whole, seen, 0));
    assert ("." + t)[1..] == t;
  }

  lemma SignedIsExact(x: nat)
    requires x <= MAX
    ensures Signed(x) == x
  {
  }

  function Negated(neg: bool, n: nat): int { if neg then 0 - n else n }

  lemma DigestInteger(n: nat)
    requires n <= MAX
    ensures Digest(Text(n, 0), Digested(0, 0, 0), false) == Done(Digested(n, |Digits(n)|, 0))
  {
    PlainText(n);
    SpelledDigits(n, 0);
    DigestWhole(Digits(n), "", Digested(0, 0, 0));
  }

  lemma PlainText(n: nat)
    ensures Text(n, 0) == Digits(n) == Digits(n) + ""
  {
    NoFraction(n);
  }

  lemma DigestParts(whole: nat, n: nat, precision: nat) returns (d: Digested)
    requires 1 <= precision && n < Pow10(precision) && whole <= MAX && whole * Pow10(precision) + n <= MAX
    ensures Digest(Digits(whole) + ("." + Padded(n, precision)), Digested(0, 0, 0), false) == Done(d)
    ensures d.seen == |Digits(whole)| && d.seenFraction <= precision
    ensures d.result * Pow10(precision - d.seenFraction) == whole * Pow10(precision) + n
  {
    SpelledDigits(whole, 0);
    DigestWhole(Digits(whole), "." + Padded(n, precision), Digested(0, 0, 0));
    var places, result := DigestPoint(n, precision, whole, |Digits(whole)|);
    d := Digested(result, |Digits(whole)|, places);
  }

  /** The digit loop on the text of a number without its sign. */
  lemma DigestText(n: nat, precision: nat) returns (d: Digested)
    requires precision <= MAX_PRECISION && n <= MAX
    ensures Digest(Text(n, precision), Digested(0, 0, 0), false) == Done(d)
    ensures d.seen == |Digits(Whole(n, precision))| && d.seenFraction <= precision
    ensures d.result * Pow10(precision - d.seenFraction) == n
  {
    var whole, fraction := Whole(n, precision), Fraction(n, precision);
    if precision == 0 {
      NoFraction(n);
      DigestInteger(n);
      d := Digested(n, |Digits(n)|, 0);
    } else {
      WholeIsTenth(n, precision);
      d := DigestParts(whole, fraction, precision);
      assert Text(n, precision) == Digits(whole) + ("." + Padded(fraction, precision));
    }
  }

  lemma TextIsSome(n: nat, precision: nat)
    ensures Text(n, precision) != ""
  {
    assert |Text(n, precision)| >= |Digits(Whole(n, precision))|;
  }

  /** Reading the text of a number without its sign. */
  lemma ParseText(n: nat, neg: bool, precision: nat)
    requires precision <= MAX_PRECISION && n <= MAX
    ensures ParseUnsigned(Text(n, precision), neg, precision)
         == if precision == 0 && n >= Pow10(18) then Rejected else Done(Negated(neg, n))
  {
    hide Text, Digest, Digits, Pow10, Signed;
    var d := DigestText(n, precision);
    WholeIsShort(n, precision);
    SignedIsExact(n);
    TextIsSome(n, precision);
  }

  lemma WholeIsShort(n: nat, precision: nat)
    requires precision <= MAX_PRECISION && n <= MAX
    ensures |Digits(Whole(n, precision))| <= 18 <==> !(precision == 0 && n >= Pow10(18))
  {
    DigitsLength(Whole(n, precision), 18);
    if precision == 0 {
      NoFraction(n);
    } else {
      WholeIsTenth(n, precision);
      Pow10Of18();
    }
  }

  lemma WholeIsTenth(n: nat, precision: nat)
    ensures Whole(n, precision) <= n && (precision >= 1 ==> 10 * Whole(n, precision) <= n)
  {
    var whole, fraction := Whole(n, precision), Fraction(n, precision);
    if precision >= 1 {
      Pow10Grows(1, precision);
      WholeTimes(whole, Pow10(precision));
    } else {
      NoFraction(n);
    }
  }

  lemma WholeTimes(q: nat, p: nat)
    requires p >= 10
    ensures q * p >= 10 * q
  {
  }

  lemma Pow10Of18()
    ensures Pow10(18) == 1_000_000_000_000_000_000 && Pow10(1) == 10
  {
    Pow10Adds(9, 9);
    Pow10Of9();
  }

  lemma Pow10Of9()
    ensures Pow10(9) == 1_000_000_000
  {
    Pow10Adds(3, 3);
    Pow10Adds(3, 6);
  }

  lemma TextIsTrim(v: Int64, precision: nat)
    ensures var s := Text(v, precision); Trim(s) == s && s != "" && (s[0] == '-' <==> v < 0) && s[0] != '+'
    ensures v < 0 ==> Text(v, precision)[1..] == Text(Abs(v), precision)
  {
    var s := Text(v, precision);
    NothingToTrim(s);
  }

  /** Every number that can be printed reads back, except those of 19 digits at precision 0. */
  lemma TextReadsBack(v: Int64, precision: nat)
    requires precision <= MAX_PRECISION && Printable(v, precision)
    ensures Parse(Text(v, precision), precision) == Done(v) <==> (precision == 0 ==> Abs(v) < Pow10(18))
  {
    hide Text, ParseUnsigned, Trim, Pow10;
    TextIsTrim(v, precision);
    ParseText(Abs(v), v < 0, precision);
  }

  /** Below precision 18 everything but the least integer prints; at precision 18 a number prints when
    ten times its fraction fits into 64 bits. */
  lemma PrintableIff(v: Int64, precision: nat)
    requires precision <= MAX_PRECISION
    ensures Printable(v, precision) <==> v != -MAX - 1 && (precision == 18 ==> 10 * Fraction(Abs(v), 18) <= MAX)
  {
    if precision == 0 {
      NoFraction(Abs(v));
    } else if precision < 18 {
      Pow10Grows(precision, 17);
      Pow10Of18();
      assert Pow10(18) == 10 * Pow10(17);
    }
  }

  /** Printing a number and casting the text back is the identity, without overflow or rejection, for
    all |v| < 2^63 at precisions 1 to 17, at precision 0 for |v| < 10^18, and at precision 18 when
    ten times the fraction fits into 64 bits; and for no others. */
  lemma NumericRoundTrip(v: Int64, precision: nat)
    requires precision <= MAX_PRECISION
    ensures Printable(v, precision) && Parse(Text(v, precision), precision) == Done(v) <==>
      && Abs(v) <= MAX
      && (precision == 0 ==> Abs(v) < Pow10(18))
      && (precision == 18 ==> 10 * Fraction(Abs(v), 18) <= MAX)
  {
    PrintableIff(v, precision);
    if Printable(v, precision) {
      TextReadsBack(v, precision);
    }
  }

  /** 0.95 at precision 18 cannot be printed. */
  lemma PrecisionEighteenOverflows()
    ensures !Printable(950_000_000_000_000_000, 18)
  {
    Pow10Of18();
  }

  // ------------------------------------------------------------------ What a text spells

  /** Where the first point of a text is, or its end. */
  function Point(s: string): (p: nat)
    ensures p <= |s| && (p < |s| ==> s[p] == '.')
  {
    if s == "" || s[0] == '.' then 0 else 1 + Point(s[1..])
  }

  /** The text up to the point. */
  function WholePart(s: string): string { s[..Point(s)] }

  /** The text after the point, without trailing zeros. */
  function FractionPart(s: string): string {
    if Point(s) < |s| then TrimZeros(s[Point(s) + 1..]) else ""
  }

  predicate IsNumeral(s: string) { AllDigits(WholePart(s)) && AllDigits(FractionPart(s)) }

  /** The digits of a numeral, read as one number. */
  function Mantissa(s: string): nat
    requires IsNumeral(s)
  {
    Spelled(FractionPart(s), Spelled(WholePart(s), 0))
  }

  lemma {:induction false} DigestAfterPoint(s: string, d: Digested)
    requires d.result <= MAX && Digest(s, d, true).Done?
    ensures AllDigits(s) && Spelled(s, d.result) <= MAX
    decreases |s|
  {
    if s != "" {
      DigestAfterPoint(s[1..], Digested(10 * d.result + DigitValue(s[0]), d.seen, d.seenFraction + 1));
    }
  }

  /** The digit loop succeeds exactly on the numerals whose digits fit, and gathers their number. */
  ghost predicate DigestMeans(s: string, d: Digested) {
    var fits := IsNumeral(s) && Spelled(FractionPart(s), Spelled(WholePart(s), d.result)) <= MAX;
    var r := Digest(s, d, false);
    && (r.Done? <==> fits)
    && (fits ==> r == Done(Digested(Spelled(FractionPart(s), Spelled(WholePart(s), d.result)),
                                    d.seen + |WholePart(s)|, d.seenFraction + |FractionPart(s)|)))
  }

  lemma {:induction false} DigestIff(s: string, d: Digested)
    requires d.result <= MAX
    ensures DigestMeans(s, d)
    decreases |s|
  {
    if s != "" {
      if s[0] == '.' {
        DigestAtPoint(s, d);
      } else if IsDigit(s[0]) {
        var next := Digested(10 * d.result + DigitValue(s[0]), d.seen + 1, d.seenFraction);
        if next.result <= MAX {
          DigestIff(s[1..], next);
          DigestAtDigit(s, d);
        } else {
          DigitOverflows(s, d);
        }
      } else {
        assert WholePart(s)[0] == s[0];
      }
    }
  }

  lemma DigestAtDigit(s: string, d: Digested)
    requires d.result <= MAX && s != "" && IsDigit(s[0]) && 10 * d.result + DigitValue(s[0]) <= MAX
    requires DigestMeans(s[1..], Digested(10 * d.result + DigitValue(s[0]), d.seen + 1, d.seenFraction))
    ensures DigestMeans(s, d)
  {
    PartsAfterDigit(s, d.result);
    assert Digest(s, d, false) == Digest(s[1..], Digested(10 * d.result + DigitValue(s[0]), d.seen + 1, d.seenFraction), false);
  }

  lemma DigitOverflows(s: string, d: Digested)
    requires d.result <= MAX && s != "" && IsDigit(s[0]) && 10 * d.result + DigitValue(s[0]) > MAX
    ensures DigestMeans(s, d)
  {
    PartsAfterDigit(s, d.result);
  }

  lemma DigestAtPoint(s: string, d: Digested)
    requires d.result <= MAX && s != "" && s[0] == '.'
    ensures DigestMeans(s, d)
  {
    var f := FractionPart(s);
    TrimmedZeros(s[1..]);
    assert s == "." + s[1..] && ("." + f)[1..] == f && WholePart(s) == "";
    assert Digest(s, d, false) == Digest(f, d, true);
    if AllDigits(f) && Spelled(f, d.result) <= MAX {
      DigestFraction(f, d);
    } else if Digest(f, d, true).Done? {
      DigestAfterPoint(f, d);
    }
  }

  lemma PartsAfterDigit(s: string, acc: nat)
    requires s != "" && IsDigit(s[0])
    ensures WholePart(s) == [s[0]] + WholePart(s[1..]) && FractionPart(s) == FractionPart(s[1..])
    ensures IsNumeral(s) <==> IsNumeral(s[1..])
    ensures IsNumeral(s) ==> Spelled(WholePart(s), acc) == Spelled(WholePart(s[1..]), 10 * acc + DigitValue(s[0]))
  {
    var w := WholePart(s);
    assert w[1..] == WholePart(s[1..]);
    if Point(s) < |s| {
      assert s[Point(s) + 1..] == s[1..][Point(s[1..]) + 1..];
    }
    assert AllDigits(w) <==> AllDigits(w[1..]);
  }

  /** The texts that are not rejected: a numeral whose digits fit into 63 bits, at most 18 of them before
    the point and at most `precision` significant ones behind it. */
  predicate Accepted(s: string, precision: nat) {
    && s != "" && IsNumeral(s) && Mantissa(s) <= MAX
    && |WholePart(s)| <= 18 && |FractionPart(s)| <= precision
  }

  /** The number a numeral spells, in units of 10^-precision. */
  function Rescaled(s: string, precision: nat): nat
    requires Accepted(s, precision)
  {
    Mantissa(s) * Pow10(precision - |FractionPart(s)|)
  }

  /** castString yields the number a text spells exactly if the text is accepted and the rescaled number
    fits into 63 bits. An accepted text whose number does not fit yields another one, silently,
    unless the rescaled word is the least integer and is to be negated. */
  lemma CastIsExactIff(str: string, precision: nat)
    requires precision <= MAX_PRECISION
    ensures var s, neg := Unsigned(Trim(str)), IsNegative(Trim(str));
      && (Parse(str, precision).Done? <==>
            Accepted(s, precision) && !(neg && Signed(Rescaled(s, precision)) == -MAX - 1))
      && (Accepted(s, precision) ==>
            (Parse(str, precision) == Done(Negated(neg, Rescaled(s, precision))) <==> Rescaled(s, precision) <= MAX))
  {
    var s, neg := Unsigned(Trim(str)), IsNegative(Trim(str));
    DigestIff(s, Digested(0, 0, 0));
    if Accepted(s, precision) {
      SignedIsExactIff(Rescaled(s, precision));
    }
  }

  lemma SignedIsExactIff(x: nat)
    ensures Signed(x) == x <==> x <= MAX
  {
  }

  /** The signed word that keeps x. */
  lemma SignedIsCongruent(x: nat)
    ensures -0x8000_0000_0000_0000 <= Signed(x) < 0x8000_0000_0000_0000 && (x - Signed(x)) % 0x1_0000_0000_0000_0000 == 0
  {
  }

  // ------------------------------------------------------------- Which texts are read, and as what

  /** Sign, digits, point, digits and zeros; sign, fraction and point may be missing. */
  ghost predicate IsNumericText(s: string, sign: string, w: string, f: string, z: string) {
    && (sign == "" || sign == "+" || sign == "-")
    && AllDigits(w) && AllDigits(f) && NoTrailingZero(f) && AllZero(z)
    && (s == sign + w + "." + f + z || (w != "" && f == "" && z == "" && s == sign + w))
  }

  /** What is checked of it. */
  predicate IsKept(w: string, f: string, precision: nat) {
    AllDigits(w) && AllDigits(f) && |w| <= 18 && |f| <= precision && Spelled(w + f, 0) <= 0x7fff_ffff_ffff_ffff
  }

  /** The number it stands for, in units of 10^-precision. */
  function Units(w: string, f: string, precision: nat): nat
    requires IsKept(w, f, precision)
  {
    Spelled(w + f, 0) * Pow10(precision - |f|)
  }

  lemma {:induction false} TrimZerosCuts(f: string, z: string)
    requires NoTrailingZero(f) && AllZero(z)
    ensures TrimZeros(f + z) == f
    decreases z
  {
    if z == "" {
      assert f + z == f;
    } else {
      assert (f + z)[..|f + z| - 1] == f + z[..|z| - 1];
      TrimZerosCuts(f, z[..|z| - 1]);
    }
  }

  lemma {:induction false} PointAfter(w: string, rest: string)
    requires AllDigits(w) && (rest == "" || rest[0] == '.')
    ensures Point(w + rest) == |w|
    decreases w
  {
    if w == "" {
      assert w + rest == rest;
    } else {
      assert (w + rest)[1..] == w[1..] + rest;
      PointAfter(w[1..], rest);
    }
  }

  lemma Parts(w: string, f: string, z: string)
    requires AllDigits(w) && AllDigits(f) && NoTrailingZero(f) && AllZero(z)
    ensures WholePart(w) == w && FractionPart(w) == ""
    ensures WholePart(w + "." + f + z) == w && FractionPart(w + "." + f + z) == f
  {
    var rest := "." + f + z;
    assert w + "." + f + z == w + rest && w + "" == w;
    PointAfter(w, rest);
    PointAfter(w, "");
    assert (w + rest)[|w| + 1..] == f + z;
    TrimZerosCuts(f, z);
  }

  lemma Joined(s: string, p: nat, f: string, z: string)
    requires p < |s| && s[p] == '.' && s[p + 1..] == f + z
    ensures s == s[..p] + "." + f + z
  {
    assert s == s[..p] + (['.'] + s[p + 1..]);
  }

  /** The parts of a numeral without its sign. */
  lemma PartsOf(s: string) returns (z: string)
    requires IsNumeral(s) && s != ""
    ensures AllZero(z) && NoTrailingZero(FractionPart(s))
    ensures s == WholePart(s) + "." + FractionPart(s) + z
         || (WholePart(s) != "" && FractionPart(s) == "" && z == "" && s == WholePart(s))
  {
    hide Point, TrimZeros, Zeros, IsNumeral;
    var p := Point(s);
    if p < |s| {
      var rest := s[p + 1..];
      var f := TrimZeros(rest);
      TrimmedZeros(rest);
      z := Zeros(|rest| - |f|);
      Joined(s, p, f, z);
    } else {
      z := "";
      assert s[..p] == s;
    }
  }

  lemma SignOf(sign: string, s: string)
    requires (sign == "" || sign == "+" || sign == "-") && s != "" && (IsDigit(s[0]) || s[0] == '.')
    ensures Unsigned(sign + s) == s && (IsNegative(sign + s) <==> sign == "-")
  {
    assert sign != "" ==> (sign + s)[1..] == s;
    assert sign == "" ==> sign + s == s;
  }

  /** Without the sign, the digit loop and what follows. */
  lemma UnsignedIff(s: string, neg: bool, precision: nat)
    requires precision <= MAX_PRECISION
    ensures ParseUnsigned(s, neg, precision).Done? ==> IsNumeral(s) && s != ""
    ensures s != "" && IsNumeral(s) ==>
      var w, f := WholePart(s), FractionPart(s);
      if IsKept(w, f, precision) && !(neg && Signed(Units(w, f, precision)) == -0x8000_0000_0000_0000) then
        ParseUnsigned(s, neg, precision) == Done(if neg then 0 - Signed(Units(w, f, precision)) else Signed(Units(w, f, precision)))
      else
        !ParseUnsigned(s, neg, precision).Done?
  {
    hide Signed, Digest;
    DigestIff(s, Digested(0, 0, 0));
    if IsNumeral(s) {
      SpelledAppend(WholePart(s), FractionPart(s), 0);
    }
  }

  /** castString reads, between blanks, exactly such texts, with at most 18 digits before the point, at most
    `precision` behind it up to the trailing zeros, and all digits below 2^63, as the signed 64-bit word
    that keeps their number. Only the word that has no negative is not negated. */
  lemma CastNumericIff(str: string, precision: nat, n: int)
    requires precision <= MAX_PRECISION
    ensures Parse(str, precision) == Done(n) <==> exists sign, w, f, z: string :: Reads(Trim(str), sign, w, f, z, precision, n)
  {
    hide Trim;
    if sign, w, f, z: string :| Reads(Trim(str), sign, w, f, z, precision, n) {
      NumericIsRead(str, precision, n, sign, w, f, z);
    }
    if Parse(str, precision) == Done(n) {
      NumericWasRead(str, precision, n);
    }
  }

  ghost predicate Reads(s: string, sign: string, w: string, f: string, z: string, precision: nat, n: int) {
    && IsNumericText(s, sign, w, f, z) && IsKept(w, f, precision)
    && var word := Signed(Units(w, f, precision));
      n == (if sign == "-" then 0 - word else word) && !(sign == "-" && word == -0x8000_0000_0000_0000)
  }

  lemma NumericIsRead(str: string, precision: nat, n: int, sign: string, w: string, f: string, z: string)
    requires precision <= MAX_PRECISION && Reads(Trim(str), sign, w, f, z, precision, n)
    ensures Parse(str, precision) == Done(n)
  {
    hide Trim, Signed, ParseUnsigned, WholePart, FractionPart, Units;
    var s := if Trim(str) == sign + w + "." + f + z then w + "." + f + z else w;
    Parts(w, f, z);
    assert s != "" && Trim(str) == sign + s;
    SignOf(sign, s);
    UnsignedIff(s, sign == "-", precision);
  }

  lemma NumericWasRead(str: string, precision: nat, n: int)
    requires precision <= MAX_PRECISION && Parse(str, precision) == Done(n)
    ensures exists sign, w, f, z: string :: Reads(Trim(str), sign, w, f, z, precision, n)
  {
    hide Trim, Signed, ParseUnsigned, WholePart, FractionPart, Units;
    var t := Trim(str);
    var s := Unsigned(t);
    UnsignedIff(s, IsNegative(t), precision);
    var z := PartsOf(s);
    var sign := if t != s then [t[0]] else "";
    assert t == sign + s;
    var w, f := WholePart(s), FractionPart(s);
    assert s == w + "." + f + z ==> t == sign + w + "." + f + z;
    assert IsNumericText(t, sign, w, f, z);
    assert IsNegative(t) <==> sign == "-";
    assert Reads(t, sign, w, f, z, precision, n);
  }

  // --------------------------------------------------------------------- What is printed

  /** The printed text: a minus sign for negative numbers, the digits of the integer part, and, unless the
    precision is zero, a point and as many digits as the precision says. */
  lemma PrintedNumeric(v: Int64, precision: nat)
    ensures var s, from := Text(v, precision), if v < 0 then 1 else 0;
      var point := if precision == 0 then |s| else |s| - 1 - precision;
      && from < point <= |s| && (v < 0 <==> s[0] == '-')
      && AllDigits(s[from..point]) && Spelled(s[from..point], 0) == Abs(v) / Pow10(precision)
      && (precision > 0 ==>
            s[point] == '.' && AllDigits(s[point + 1..]) && Spelled(s[point + 1..], 0) == Abs(v) % Pow10(precision))
  {
    hide Pow10, Spelled, Digits, Padded;
    var s := Text(v, precision);
    var whole, fraction := Digits(Whole(Abs(v), precision)), Padded(Fraction(Abs(v), precision), precision);
    var from := if v < 0 then 1 else 0;
    SpelledIsNumber(Whole(Abs(v), precision));
    if precision > 0 {
      SpelledPadded(Fraction(Abs(v), precision), precision, 0);
      assert s[|s| - precision..] == fraction;
    }
    assert s[from..from + |whole|] == whole;
  }

  lemma SpelledIsNumber(n: nat)
    ensures Spelled(Digits(n), 0) == n
  {
    SpelledDigits(n, 0);
  }

  /** 999999999999999999 at precision 2 is accepted and read as 77662796314522418.20. */
  lemma RescalingWraps()
    ensures Parse(Digits(999_999_999_999_999_999), 2) == Done(7_766_279_631_452_241_820)
  {
    var n := 999_999_999_999_999_999;
    PlainText(n);
    TextIsTrim(n, 0);
    DigestInteger(n);
    Pow10Of18();
    DigitsLength(n, 18);
    RescaledByHundred(n, |Digits(n)|);
  }

  lemma RescaledByHundred(n: nat, seen: nat)
    requires n == 999_999_999_999_999_999 && seen <= 18
    ensures Finish(false, Digested(n, seen, 0), 2) == Done(7_766_279_631_452_241_820)
  {
    assert Pow10(2) == 100;
    assert n * 100 == 5 * 0x1_0000_0000_0000_0000 + 7_766_279_631_452_241_820;
  }
}
