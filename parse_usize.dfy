/**
 * Model of `str::parse::<usize>()` (`<usize as FromStr>::from_str`, radix 10)
 * on a 64-bit target. The input is empty, or a lone sign, and fails; a leading
 * `+` is skipped; every other character must be an ASCII decimal digit, and
 * the digits are accumulated with checked multiplication and addition. The
 * error kind is dropped, since the caller only keeps `.ok()`.
 */
module ParseUsize {
  import opened Wrappers

  /** `usize::MAX` on a 64-bit target. */
  const USIZE_MAX: nat := 0xFFFF_FFFF_FFFF_FFFF

  predicate IsDigit(c: char) {
    '0' <= c <= '9'
  }

  ghost predicate AllDigits(s: string) {
    forall i :: 0 <= i < |s| ==> IsDigit(s[i])
  }

  function DigitValue(c: char): (d: nat)
    requires IsDigit(c)
    ensures d < 10
  {
    c as int - '0' as int
  }

  function DigitChar(d: nat): (c: char)
    requires d < 10
    ensures IsDigit(c) && DigitValue(c) == d
  {
    ('0' as int + d) as char
  }

  /**
   * The loop of `from_str`: for each character, fail unless it is a digit,
   * then `acc.checked_mul(10)` and `.checked_add(digit)`, failing on overflow.
   */
  function Accumulate(acc: nat, digits: string): (r: Option<nat>)
    requires acc <= USIZE_MAX
    ensures r.Some? ==> acc <= r.value <= USIZE_MAX
    decreases |digits|
  {
    if digits == [] then Some(acc)
    else if !IsDigit(digits[0]) then None
    else if acc * 10 > USIZE_MAX then None
    else if acc * 10 + DigitValue(digits[0]) > USIZE_MAX then None
    else Accumulate(acc * 10 + DigitValue(digits[0]), digits[1..])
  }

  /** `s.parse::<usize>().ok()`. A `-` is only a sign for signed types, so here it fails as a digit. */
  function Parse(s: string): (r: Option<nat>)
    ensures r.Some? ==> r.value <= USIZE_MAX
    ensures s == [] || s == "+" || (|s| > 0 && s[0] == '-') ==> r == None
  {
    if s == [] then None
    else if s == "+" || s == "-" then None
    else if s[0] == '+' then Accumulate(0, s[1..])
    else Accumulate(0, s)
  }

  /** The value of `digits` read left to right after `acc`, without any bound. */
  ghost function Value(acc: nat, digits: string): nat
    requires AllDigits(digits)
    decreases |digits|
  {
    if digits == [] then acc else Value(acc * 10 + DigitValue(digits[0]), digits[1..])
  }

  /** Reading more digits never lowers the value. */
  lemma {:induction false} ValueAtLeast(acc: nat, digits: string)
    requires AllDigits(digits)
    ensures Value(acc, digits) >= acc
    decreases |digits|
  {
    if digits != [] {
      ValueAtLeast(acc * 10 + DigitValue(digits[0]), digits[1..]);
    }
  }

  /**
   * Checking for overflow at every step fails exactly when the final value
   * exceeds `usize::MAX`, because the running value only grows.
   */
  lemma {:induction false} AccumulateIsBoundedValue(acc: nat, digits: string)
    requires acc <= USIZE_MAX && AllDigits(digits)
    ensures Accumulate(acc, digits) ==
      if Value(acc, digits) <= USIZE_MAX then Some(Value(acc, digits)) else None
    decreases |digits|
  {
    if digits != [] {
      var next := acc * 10 + DigitValue(digits[0]);
      ValueAtLeast(next, digits[1..]);
      if next <= USIZE_MAX {
        AccumulateIsBoundedValue(next, digits[1..]);
      }
    }
  }

  /** A character other than a digit, anywhere, makes the accumulation fail. */
  lemma {:induction false} AccumulateRejectsNonDigit(acc: nat, digits: string, i: nat)
    requires acc <= USIZE_MAX && i < |digits| && !IsDigit(digits[i])
    ensures Accumulate(acc, digits) == None
    decreases |digits|
  {
    if i > 0 && IsDigit(digits[0]) && acc * 10 + DigitValue(digits[0]) <= USIZE_MAX {
      AccumulateRejectsNonDigit(acc * 10 + DigitValue(digits[0]), digits[1..], i - 1);
    }
  }

  /** A successful accumulation read only digits. */
  lemma {:induction false} AccumulateReadsDigits(acc: nat, digits: string)
    requires acc <= USIZE_MAX
    ensures Accumulate(acc, digits).Some? ==> AllDigits(digits)
    decreases |digits|
  {
    if digits != [] && IsDigit(digits[0]) && acc * 10 + DigitValue(digits[0]) <= USIZE_MAX {
      AccumulateReadsDigits(acc * 10 + DigitValue(digits[0]), digits[1..]);
      assert forall i :: 1 <= i < |digits| ==> digits[i] == digits[1..][i - 1];
    }
  }

  /** Appending one digit multiplies the value by ten and adds the digit. */
  lemma {:induction false} ValueAppend(acc: nat, digits: string, d: char)
    requires AllDigits(digits) && IsDigit(d)
    ensures AllDigits(digits + [d])
    ensures Value(acc, digits + [d]) == Value(acc, digits) * 10 + DigitValue(d)
    decreases |digits|
  {
    if digits != [] {
      assert (digits + [d])[1..] == digits[1..] + [d];
      ValueAppend(acc * 10 + DigitValue(digits[0]), digits[1..], d);
    }
  }

  /** The decimal spelling of `n`, without sign or leading zeros. */
  function DecimalString(n: nat): (s: string)
    ensures s != []
    ensures forall i :: 0 <= i < |s| ==> IsDigit(s[i])
  {
    if n < 10 then [DigitChar(n)] else DecimalString(n / 10) + [DigitChar(n % 10)]
  }

  lemma {:induction false} ValueOfDecimalString(n: nat)
    ensures Value(0, DecimalString(n)) == n
  {
    if n >= 10 {
      ValueOfDecimalString(n / 10);
      ValueAppend(0, DecimalString(n / 10), DigitChar(n % 10));
    }
  }

  /** Parsing the decimal spelling of `n` gives `n` back, exactly when `n` fits in a `usize`. */
  lemma ParseDecimalString(n: nat)
    ensures Parse(DecimalString(n)) == if n <= USIZE_MAX then Some(n) else None
  {
    ValueOfDecimalString(n);
    AccumulateIsBoundedValue(0, DecimalString(n));
  }

  /** An explicit `+` sign is accepted and changes nothing. */
  lemma ParsePlusDecimalString(n: nat)
    ensures Parse("+" + DecimalString(n)) == if n <= USIZE_MAX then Some(n) else None
  {
    ParseDecimalString(n);
    assert ("+" + DecimalString(n))[1..] == DecimalString(n);
  }

  /** A character that is not a digit, anywhere after the first one, makes the parse fail, whatever the sign. */
  lemma ParseRejectsNonDigit(s: string, i: nat)
    requires 0 < i < |s| && !IsDigit(s[i])
    ensures Parse(s) == None
  {
    if s != "+" && s != "-" {
      if s[0] == '+' {
        AccumulateRejectsNonDigit(0, s[1..], i - 1);
      } else {
        AccumulateRejectsNonDigit(0, s, i);
      }
    }
  }

  /**
   * `s.parse::<usize>()` succeeds with `n` exactly when `s` is a non-empty run
   * of decimal digits, after at most one `+`, whose value is `n` and fits in a
   * `usize`.
   */
  lemma ParseIff(s: string, n: nat)
    ensures Parse(s) == Some(n) <==>
      exists d :: (s == d || s == "+" + d) && d != [] && AllDigits(d) && Value(0, d) == n && n <= USIZE_MAX
  {
    if Parse(s) == Some(n) {
      var d := if s[0] == '+' then s[1..] else s;
      assert s == d || s == "+" + d;
      AccumulateReadsDigits(0, d);
      AccumulateIsBoundedValue(0, d);
    }
    if exists d :: (s == d || s == "+" + d) && d != [] && AllDigits(d) && Value(0, d) == n && n <= USIZE_MAX {
      var d :| (s == d || s == "+" + d) && d != [] && AllDigits(d) && Value(0, d) == n && n <= USIZE_MAX;
      AccumulateIsBoundedValue(0, d);
      if s == "+" + d {
        assert s[1..] == d;
      }
    }
  }

  /** Leading zeros are accepted and do not change the value. */
  lemma ParseLeadingZero(s: string)
    requires s != [] && s[0] != '+' && s[0] != '-'
    ensures Parse("0" + s) == Parse(s)
  {
  }
}
