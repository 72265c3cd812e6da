/** Decimal text: what the printers write and the character loops of the parsers read. */
module Decimal {
  import Bits
  import opened Common

  /** A parsed value, or the exception of the source. */
  datatype Result<T> = Ok(value: T) | Err {
    predicate IsFailure() { Err? }
    function PropagateFailure<U>(): Result<U> requires Err? { Err }
    function Extract(): T requires Ok? { value }
  }

  predicate IsDigit(c: char) { '0' <= c <= '9' }

  function DigitValue(c: char): (d: nat)
    requires IsDigit(c)
    ensures d < 10
  {
    c as int - '0' as int
  }

  function DigitChar(d: nat): (c: char)
    requires d < 10
    ensures IsDigit(c) && DigitValue(c) == d
  {
    ('0' as int + d) as char
  }

  predicate AllDigits(s: string) { forall i | 0 <= i < |s| :: IsDigit(s[i]) }

  /** %u */
  function Digits(n: nat): (s: string)
    ensures |s| >= 1 && AllDigits(s)
  {
    if n < 10 then [DigitChar(n)] else Digits(n / 10) + [DigitChar(n % 10)]
  }

  function Zeros(k: nat): (s: string)
    ensures |s| == k && forall i | 0 <= i < |s| :: s[i] == '0'
  {
    if k == 0 then "" else "0" + Zeros(k - 1)
  }

  /** %0wu */
  function Padded(n: nat, w: nat): (s: string)
    ensures |s| >= 1 && |s| >= w && AllDigits(s)
  {
    if |Digits(n)| < w then Zeros(w - |Digits(n)|) + Digits(n) else Digits(n)
  }

  function Pow10(k: nat): (p: nat)
    ensures p >= 1
  {
    if k == 0 then 1 else 10 * Pow10(k - 1)
  }

  lemma {:induction false} DigitsLength(n: nat, k: nat)
    requires k >= 1
    ensures |Digits(n)| <= k <==> n < Pow10(k)
    decreases k
  {
    if k == 1 {
      assert Pow10(1) == 10 * Pow10(0);
      if n >= 10 {
        assert |Digits(n)| == |Digits(n / 10)| + 1;
      }
    } else if n >= 10 {
      DigitsLength(n / 10, k - 1);
    } else {
      Pow10Grows(1, k);
    }
  }

  lemma {:induction false} Pow10Grows(a: nat, b: nat)
    requires a <= b
    ensures Pow10(a) <= Pow10(b)
    decreases b
  {
    if a < b {
      Pow10Grows(a, b - 1);
    }
  }

  // ---------------------------------------------------------------------- What digits spell

  /** The number that digits spell, read on after `acc`. */
  function Spelled(s: string, acc: nat): (n: nat)
    requires AllDigits(s)
    ensures n >= acc
  {
    if s == "" then acc else Spelled(s[1..], 10 * acc + DigitValue(s[0]))
  }

  lemma {:induction false} SpelledAppend(s: string, t: string, acc: nat)
    requires AllDigits(s) && AllDigits(t)
    ensures AllDigits(s + t) && Spelled(s + t, acc) == Spelled(t, Spelled(s, acc))
  {
    if s == "" {
      assert s + t == t;
    } else {
      SpelledAppend(s[1..], t, 10 * acc + DigitValue(s[0]));
      assert (s + t)[1..] == s[1..] + t;
    }
  }

  lemma {:induction false} SpelledZeros(k: nat, acc: nat)
    ensures AllDigits(Zeros(k)) && Spelled(Zeros(k), acc) == acc * Pow10(k)
  {
    if k > 0 {
      SpelledZeros(k - 1, 10 * acc);
      assert Zeros(k)[1..] == Zeros(k - 1);
      Regroup(acc, Pow10(k - 1));
    }
  }

  lemma Regroup(a: nat, b: nat)
    ensures a * (10 * b) == (10 * a) * b == 10 * (a * b)
  {
  }

  /** The digits of n, read after acc. */
  lemma {:induction false} SpelledDigits(n: nat, acc: nat)
    ensures Spelled(Digits(n), acc) == acc * Pow10(|Digits(n)|) + n
    decreases n
  {
    if n < 10 {
      assert Pow10(1) == 10 * Pow10(0);
    } else {
      SpelledDigits(n / 10, acc);
      SpelledAppend(Digits(n / 10), [DigitChar(n % 10)], acc);
      Regroup(acc, Pow10(|Digits(n / 10)|));
    }
  }

  lemma SpelledPadded(n: nat, w: nat, acc: nat)
    requires w >= 1 && n < Pow10(w)
    ensures |Padded(n, w)| == w && Spelled(Padded(n, w), acc) == acc * Pow10(w) + n
  {
    DigitsLength(n, w);
    var k := w - |Digits(n)|;
    if k == 0 {
      SpelledDigits(n, acc);
    } else {
      SpelledZeros(k, acc);
      SpelledDigits(n, acc * Pow10(k));
      SpelledAppend(Zeros(k), Digits(n), acc);
      Shifts(acc, k, |Digits(n)|);
    }
  }

  lemma Shifts(acc: nat, a: nat, b: nat)
    ensures acc * Pow10(a) * Pow10(b) == acc * Pow10(a + b)
  {
    Pow10Adds(a, b);
    Assoc(acc, Pow10(a), Pow10(b));
  }

  lemma Assoc(a: nat, b: nat, c: nat)
    ensures a * b * c == a * (b * c)
  {
  }

  lemma {:induction false} Pow10Adds(a: nat, b: nat)
    ensures Pow10(a + b) == Pow10(a) * Pow10(b)
  {
    if a > 0 {
      Pow10Adds(a - 1, b);
      assert 10 * (Pow10(a - 1) * Pow10(b)) == (10 * Pow10(a - 1)) * Pow10(b);
    }
  }

  /** The characters of the digits and their values. */
  lemma DigitCharacters(d: nat)
    requires d < 10
    ensures DigitChar(d) == "0123456789"[d] && DigitValue("0123456789"[d]) == d
  {
  }

  lemma CharacterOfValue(c: char)
    requires IsDigit(c)
    ensures "0123456789"[DigitValue(c)] == c
  {
    DigitCharacters(DigitValue(c));
  }

  lemma {:induction false} SpelledLast(s: string, acc: nat)
    requires s != "" && AllDigits(s)
    ensures AllDigits(s[..|s| - 1]) && Spelled(s, acc) == 10 * Spelled(s[..|s| - 1], acc) + DigitValue(s[|s| - 1])
  {
    var front, last := s[..|s| - 1], [s[|s| - 1]];
    SpelledAppend(front, last, acc);
    assert s == front + last;
  }

  lemma TenthQuotient(n: nat, p: nat)
    requires p >= 1
    ensures n / (10 * p) == n / 10 / p
  {
    var q := n / 10 / p;
    assert n / 10 == p * q + n / 10 % p;
    assert n == (10 * p) * q + (10 * (n / 10 % p) + n % 10) by {
      assert 10 * (p * q) == (10 * p) * q;
    }
    Bits.RemainderIsUnique(n, 10 * p, q, 10 * (n / 10 % p) + n % 10);
  }

  lemma LastPlace(front: nat, d: nat)
    requires d < 10
    ensures (10 * front + d) % 10 == d && (10 * front + d) / 10 == front
  {
  }

  lemma Pow10Step(i: nat)
    ensures Pow10(0) == 1 && Pow10(i + 1) == 10 * Pow10(i)
  {
  }

  /** The digits of a number stand for its places: the i-th character from the right of a text is the
    digit of 10^i in the number the text spells. */
  lemma {:induction false} PlaceValue(s: string, i: nat)
    requires AllDigits(s) && i < |s|
    ensures 0 <= Spelled(s, 0) / Pow10(i) % 10 < 10
    ensures s[|s| - 1 - i] == "0123456789"[Spelled(s, 0) / Pow10(i) % 10]
    decreases i
  {
    hide Spelled, Pow10, DigitValue;
    var front, d := s[..|s| - 1], DigitValue(s[|s| - 1]);
    SpelledLast(s, 0);
    LastPlace(Spelled(front, 0), d);
    if i == 0 {
      CharacterOfValue(s[|s| - 1]);
      Pow10Step(0);
    } else {
      PlaceValue(front, i - 1);
      Pow10Step(i - 1);
      TenthQuotient(Spelled(s, 0), Pow10(i - 1));
    }
  }

  /** What is printed: the digit of 10^i is the i-th character from the right, and there is no leading zero. */
  lemma PrintedPlaces(n: nat, i: nat)
    requires i < |Digits(n)|
    ensures 0 <= n / Pow10(i) % 10 < 10
    ensures Digits(n)[|Digits(n)| - 1 - i] == "0123456789"[n / Pow10(i) % 10]
    ensures n > 0 ==> Digits(n)[0] != '0'
  {
    SpelledDigits(n, 0);
    PlaceValue(Digits(n), i);
    if n > 0 {
      NoLeadingZero(n);
    }
  }

  lemma {:induction false} NoLeadingZero(n: nat)
    requires n > 0
    ensures Digits(n)[0] != '0'
  {
    if n < 10 {
      DigitCharacters(n);
    } else {
      NoLeadingZero(n / 10);
    }
  }

  // ---------------------------------------------------------------------------- Numbers

  /** Reads digits up to `stop`, which is consumed, or, where that is allowed, to the end. The value
    is kept in a 32-bit unsigned word. */
  function Field(s: string, acc: nat, stop: Option<char>, endOk: bool): Result<(nat, string)> {
    if s == "" then (if endOk then Ok((acc, "")) else Err)
    else if stop == Some(s[0]) then Ok((acc, s[1..]))
    else if IsDigit(s[0]) then Field(s[1..], (10 * acc + DigitValue(s[0])) % 0x1_0000_0000, stop, endOk)
    else Err
  }

  predicate StopsAt(stop: Option<char>) { stop.Some? ==> !IsDigit(stop.value) }

  /** A digit is taken in unless the number no longer fits. */
  lemma ReadDigit(acc: nat, d: nat, tail: string, stop: Option<char>, endOk: bool)
    requires d < 10 && 10 * acc + d < 0x1_0000_0000 && StopsAt(stop)
    ensures Field([DigitChar(d)] + tail, acc, stop, endOk) == Field(tail, 10 * acc + d, stop, endOk)
  {
    assert ([DigitChar(d)] + tail)[1..] == tail;
  }

  lemma {:induction false} ReadDigits(n: nat, tail: string, stop: Option<char>, endOk: bool)
    requires n < 0x1_0000_0000 && StopsAt(stop)
    ensures Field(Digits(n) + tail, 0, stop, endOk) == Field(tail, n, stop, endOk)
    decreases n
  {
    hide Field, StopsAt;
    if n < 10 {
      ReadDigit(0, n, tail, stop, endOk);
    } else {
      var last := [DigitChar(n % 10)] + tail;
      ReadDigits(n / 10, last, stop, endOk);
      assert Digits(n) + tail == Digits(n / 10) + last;
      ReadDigit(n / 10, n % 10, tail, stop, endOk);
    }
  }

  lemma {:induction false} ReadZeros(k: nat, tail: string, stop: Option<char>, endOk: bool)
    requires StopsAt(stop)
    ensures Field(Zeros(k) + tail, 0, stop, endOk) == Field(tail, 0, stop, endOk)
  {
    hide Field;
    if k == 0 {
      assert Zeros(k) + tail == tail;
    } else {
      ReadZeros(k - 1, tail, stop, endOk);
      assert Zeros(k) + tail == [DigitChar(0)] + (Zeros(k - 1) + tail);
      ReadDigit(0, 0, Zeros(k - 1) + tail, stop, endOk);
    }
  }

  /** Reading back a printed number. */
  lemma ReadPadded(n: nat, w: nat, tail: string, stop: Option<char>, endOk: bool)
    requires n < 0x1_0000_0000 && StopsAt(stop)
    ensures Field(Padded(n, w) + tail, 0, stop, endOk) == Field(tail, n, stop, endOk)
  {
    hide Field, Digits, Zeros;
    ReadDigits(n, tail, stop, endOk);
    if |Digits(n)| < w {
      var k := w - |Digits(n)|;
      assert Padded(n, w) + tail == Zeros(k) + (Digits(n) + tail);
      ReadZeros(k, Digits(n) + tail, stop, endOk);
    }
  }

  /** The loop the parsers run for each field, on str[start..limit]. */
  method ReadField(str: string, start: nat, limit: nat, stop: Option<char>, endOk: bool) returns (r: Result<(nat, nat)>)
    requires start <= limit <= |str|
    ensures match Field(str[start..limit], 0, stop, endOk)
            case Err => r == Err
            case Ok((value, rest)) => r.Ok? && r.value.0 == value && start <= r.value.1 <= limit && str[r.value.1..limit] == rest
  {
    var iter: nat, value: nat := start, 0;
    while true
      invariant start <= iter <= limit
      invariant Field(str[start..limit], 0, stop, endOk) == Field(str[iter..limit], value, stop, endOk)
      decreases limit - iter
    {
      if iter == limit {
        return if endOk then Ok((value, iter)) else Err;
      }
      assert str[iter..limit][1..] == str[iter + 1..limit];
      var c := str[iter];
      iter := iter + 1;
      if stop == Some(c) {
        return Ok((value, iter));
      }
      if IsDigit(c) {
        value := (10 * value + DigitValue(c)) % 0x1_0000_0000;
      } else {
        return Err;
      }
    }
  }

  // ------------------------------------------------------------------ What a field means

  /** Dropping multiples of 2^32 early or late is the same. */
  lemma {:induction false} SpelledWraps(s: string, acc: nat)
    requires AllDigits(s)
    ensures Spelled(s, acc % 0x1_0000_0000) % 0x1_0000_0000 == Spelled(s, acc) % 0x1_0000_0000
    decreases s
  {
    if s != "" {
      var d := DigitValue(s[0]);
      SpelledWraps(s[1..], 10 * acc + d);
      SpelledWraps(s[1..], 10 * (acc % 0x1_0000_0000) + d);
      NextWraps(acc, d);
    }
  }

  lemma NextWraps(acc: nat, d: nat)
    ensures (10 * (acc % 0x1_0000_0000) + d) % 0x1_0000_0000 == (10 * acc + d) % 0x1_0000_0000
  {
    var q := acc / 0x1_0000_0000;
    assert 10 * acc + d == 10 * (acc % 0x1_0000_0000) + d + 0x1_0000_0000 * (10 * q);
  }

  /** Digits up to the stop yield the number they spell, as far as 32 bits keep it. */
  lemma {:induction false} FieldReads(a: string, acc: nat, c: char, rest: string, endOk: bool)
    requires AllDigits(a) && acc < 0x1_0000_0000 && !IsDigit(c)
    ensures Field(a + ([c] + rest), acc, Some(c), endOk) == Ok((Spelled(a, acc) % 0x1_0000_0000, rest))
    decreases a
  {
    var s := a + ([c] + rest);
    if a == "" {
      assert s[0] == c && s[1..] == rest;
    } else {
      assert s[0] == a[0] && s[1..] == a[1..] + ([c] + rest);
      FieldReads(a[1..], (10 * acc + DigitValue(a[0])) % 0x1_0000_0000, c, rest, endOk);
      SpelledWraps(a[1..], 10 * acc + DigitValue(a[0]));
    }
  }

  lemma {:induction false} FieldReadsToEnd(a: string, acc: nat, stop: Option<char>)
    requires AllDigits(a) && acc < 0x1_0000_0000 && StopsAt(stop)
    ensures Field(a, acc, stop, true) == Ok((Spelled(a, acc) % 0x1_0000_0000, ""))
    decreases a
  {
    if a != "" {
      FieldReadsToEnd(a[1..], (10 * acc + DigitValue(a[0])) % 0x1_0000_0000, stop);
      SpelledWraps(a[1..], 10 * acc + DigitValue(a[0]));
    }
  }

  /** And nothing else is a field: what was read are digits, ended by the stop or, where that is allowed,
    by the end of the text. */
  lemma {:induction false} FieldSplits(s: string, acc: nat, stop: Option<char>, endOk: bool) returns (a: string)
    requires acc < 0x1_0000_0000 && Field(s, acc, stop, endOk).Ok?
    ensures AllDigits(a) && Field(s, acc, stop, endOk).value.0 == Spelled(a, acc) % 0x1_0000_0000
    ensures var rest := Field(s, acc, stop, endOk).value.1;
      (stop.Some? && s == a + ([stop.value] + rest)) || (endOk && s == a && rest == "")
    decreases s
  {
    if s == "" || stop == Some(s[0]) {
      a := "";
      assert s != "" ==> s == a + ([s[0]] + s[1..]);
    } else {
      var b := FieldSplits(s[1..], (10 * acc + DigitValue(s[0])) % 0x1_0000_0000, stop, endOk);
      a := [s[0]] + b;
      assert a[1..] == b && s == [s[0]] + s[1..];
      SpelledWraps(b, 10 * acc + DigitValue(s[0]));
    }
  }

  // --------------------------------------------------------------------------- Blanks

  function TrimLeft(s: string): string {
    if s != "" && s[0] == ' ' then TrimLeft(s[1..]) else s
  }

  function TrimRight(s: string): string {
    if s != "" && s[|s| - 1] == ' ' then TrimRight(s[..|s| - 1]) else s
  }

  function Trim(s: string): string { TrimRight(TrimLeft(s)) }

  predicate AllBlank(s: string) { forall i | 0 <= i < |s| :: s[i] == ' ' }

  /** Neither end is a blank. */
  predicate NoBlankEnds(s: string) { s == "" || (s[0] != ' ' && s[|s| - 1] != ' ') }

  lemma {:induction false} TrimLeftCuts(before: string, s: string)
    requires AllBlank(before) && (s == "" || s[0] != ' ')
    ensures TrimLeft(before + s) == s
    decreases before
  {
    if before == "" {
      assert before + s == s;
    } else {
      assert (before + s)[1..] == before[1..] + s;
      TrimLeftCuts(before[1..], s);
    }
  }

  lemma {:induction false} TrimRightCuts(s: string, after: string)
    requires AllBlank(after) && (s == "" || s[|s| - 1] != ' ')
    ensures TrimRight(s + after) == s
    decreases after
  {
    if after == "" {
      assert s + after == s;
    } else {
      assert (s + after)[..|s + after| - 1] == s + after[..|after| - 1];
      TrimRightCuts(s, after[..|after| - 1]);
    }
  }

  /** Trimming cuts off the blanks at both ends, and nothing else. */
  lemma TrimCuts(before: string, s: string, after: string)
    requires AllBlank(before) && AllBlank(after) && NoBlankEnds(s) && s != ""
    ensures Trim(before + s + after) == s
  {
    assert before + s + after == before + (s + after);
    TrimLeftCuts(before, s + after);
    TrimRightCuts(s, after);
  }

  lemma NothingToTrim(s: string)
    requires s != "" && s[0] != ' ' && s[|s| - 1] != ' '
    ensures Trim(s) == s
  {
    assert TrimLeft(s) == s;
  }

  lemma TrimLeftAt(s: string, i: nat)
    requires i <= |s|
    ensures TrimLeft(s[i..]) == if i < |s| && s[i] == ' ' then TrimLeft(s[i + 1..]) else s[i..]
  {
    assert i < |s| ==> s[i..][1..] == s[i + 1..];
  }

  lemma TrimRightAt(s: string, i: nat, j: nat)
    requires i <= j <= |s|
    ensures TrimRight(s[i..j]) == if i < j && s[j - 1] == ' ' then TrimRight(s[i..j - 1]) else s[i..j]
  {
    assert i < j ==> s[i..j][..j - i - 1] == s[i..j - 1];
  }

  /** The two loops that skip blanks at both ends. */
  method TrimBlanks(str: string) returns (iter: nat, limit: nat)
    ensures iter <= limit <= |str| && str[iter..limit] == Trim(str)
    ensures AllBlank(str[..iter]) && AllBlank(str[limit..]) && NoBlankEnds(str[iter..limit])
  {
    hide TrimLeft, TrimRight;
    iter, limit := 0, |str|;
    assert str[0..] == str;
    while iter != limit && str[iter] == ' '
      invariant iter <= limit == |str| && TrimLeft(str) == TrimLeft(str[iter..])
      invariant AllBlank(str[..iter])
    {
      TrimLeftAt(str, iter);
      iter := iter + 1;
    }
    TrimLeftAt(str, iter);
    assert str[iter..] == str[iter..limit];
    while iter != limit && str[limit - 1] == ' '
      invariant iter <= limit <= |str| && Trim(str) == TrimRight(str[iter..limit])
      invariant AllBlank(str[limit..])
    {
      TrimRightAt(str, iter, limit);
      limit := limit - 1;
    }
    TrimRightAt(str, iter, limit);
  }
}
