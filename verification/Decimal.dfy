/** Numbers as text (lib/printf.c:4-68) and back (lang/nixlang.c:42-57). */
module Decimal {
  import opened Arithmetic
  import opened CIntegers

  // ---- Digits

  function DigitChar(digit: int): char
    requires -36 < digit < 36
  {
    if digit < 10 then ('0' as int + digit) as char else ('a' as int + digit - 10) as char
  }

  /** Digits of a number, least significant first, as the loop produces them */
  function DigitsUp(value: int, base: nat): (text: string)
    requires 2 <= base <= 36
    ensures text != []
    decreases Abs(value)
  {
    [DigitChar(CMod(value, base))] + if CDiv(value, base) == 0 then [] else DigitsUp(CDiv(value, base), base)
  }

  /** Digits of a number, most significant first */
  function Digits(value: int, base: nat): (text: string)
    requires 2 <= base <= 36
    ensures text != []
    decreases Abs(value)
  {
    (if CDiv(value, base) == 0 then [] else Digits(CDiv(value, base), base)) + [DigitChar(CMod(value, base))]
  }

  function Reversed(text: string): (r: string)
    ensures |r| == |text| && forall i | 0 <= i < |r| :: r[i] == text[|text| - 1 - i]
  {
    if text == [] then [] else Reversed(text[1..]) + [text[0]]
  }

  lemma {:induction false} DigitsAreReversed(value: int, base: nat)
    requires 2 <= base <= 36
    ensures Reversed(DigitsUp(value, base)) == Digits(value, base)
    decreases Abs(value)
  {
    var rest := CDiv(value, base);
    var up := DigitsUp(value, base);
    if rest == 0 {
      assert up[1..] == [];
    } else {
      DigitsAreReversed(rest, base);
      assert up[1..] == DigitsUp(rest, base);
    }
  }

  function DigitValue(c: char): int {
    if '0' <= c <= '9' then c as int - '0' as int else if 'a' <= c <= 'z' then c as int - 'a' as int + 10 else 0
  }

  /** The number that a numeral denotes */
  function Numeral(text: string, base: nat): int {
    if text == [] then 0 else base * Numeral(text[..|text| - 1], base) + DigitValue(text[|text| - 1])
  }

  /** The digits of a natural number denote it, in every base. */
  lemma {:induction false} DigitsDenote(value: nat, base: nat)
    requires 2 <= base <= 36
    ensures Numeral(Digits(value, base), base) == value
    decreases value
  {
    var rest, c := CDiv(value, base), DigitChar(CMod(value, base));
    assert value == base * rest + CMod(value, base);
    if rest == 0 {
      NumeralAppend("", c, base);
    } else {
      DigitsDenote(rest, base);
      NumeralAppend(Digits(rest, base), c, base);
    }
  }

  /** They are figures and lower-case letters below the base, and the first is no zero unless the number is. */
  lemma {:induction false} DigitsAreProper(value: nat, base: nat)
    requires 2 <= base <= 36
    ensures forall c | c in Digits(value, base) ::
              || ('0' <= c <= '9' && c as int - '0' as int < base)
              || ('a' <= c <= 'z' && c as int - 'a' as int + 10 < base)
    ensures value > 0 ==> Digits(value, base)[0] != '0'
    decreases value
  {
    assert value == base * CDiv(value, base) + CMod(value, base);
    if CDiv(value, base) != 0 { DigitsAreProper(CDiv(value, base), base); }
  }

  lemma NumeralAppend(text: string, c: char, base: nat)
    ensures Numeral(text + [c], base) == base * Numeral(text, base) + DigitValue(c)
  {
    assert (text + [c])[..|text|] == text;
  }

  /** The text that `itoa` leaves: nothing for a base out of range; a sign only in base 10. */
  function Text(value: int, base: int): string {
    if base < 2 || base > 36 then ""
    else if value < 0 && base == 10 then "-" + Digits(Wrap32(-value), 10)
    else Digits(value, base)
  }

  // ---- itoa

  /** `itoa` writes the text and a terminating NUL. */
  method Itoa(value: int, str: array<char>, base: int)
    requires InInt32(value) && |Text(value, base)| < str.Length
    modifies str
    ensures str[..|Text(value, base)|] == Text(value, base) && str[|Text(value, base)|] == '\0'
  {
    if base < 2 || base > 36 {
      str[0] := '\0';
      assert str[..0] == "";
      return;
    }
    var ptr, v := 0, value;
    if v < 0 && base == 10 {
      str[ptr] := '-';
      ptr := ptr + 1;
      v := Wrap32(-v);
    }
    ghost var sign := str[..ptr];
    DigitsAreReversed(v, base);
    var end := WriteDigits(v, base, str, ptr);
    assert str[..end] == str[..ptr] + str[ptr..end];
    assert Text(value, base) == sign + Digits(v, base);
  }

  /** `uitoa` */
  method Uitoa(value: nat, str: array<char>, base: int)
    requires value < 0x1_0000_0000 && str.Length > if 2 <= base <= 36 then |Digits(value, base)| else 0
    modifies str
    ensures 2 <= base <= 36 ==>
              str[..|Digits(value, base)|] == Digits(value, base) && str[|Digits(value, base)|] == '\0'
    ensures !(2 <= base <= 36) ==> str[0] == '\0'
  {
    if base < 2 || base > 36 {
      str[0] := '\0';
      return;
    }
    DigitsAreReversed(value, base);
    var end := WriteDigits(value, base, str, 0);
    assert str[..end] == str[0..end];
  }

  /** The two loops that `itoa` and `uitoa` share: digits from the low end up, then their reversal in place. */
  method WriteDigits(value: int, base: nat, str: array<char>, low: nat) returns (end: nat)
    requires 2 <= base <= 36 && low + |DigitsUp(value, base)| < str.Length
    modifies str
    ensures end == low + |DigitsUp(value, base)| && str[low..end] == Reversed(DigitsUp(value, base))
    ensures str[end] == '\0' && str[..low] == old(str[..low])
  {
    end := FillDigits(value, base, str, low);
    ReverseDigits(str, low, end, DigitsUp(value, base));
  }

  /** The first loop */
  method FillDigits(value: int, base: nat, str: array<char>, low: nat) returns (end: nat)
    requires 2 <= base <= 36 && low + |DigitsUp(value, base)| < str.Length
    modifies str
    ensures end == low + |DigitsUp(value, base)| && str[low..end] == DigitsUp(value, base)
    ensures str[..low] == old(str[..low])
  {
    ghost var digits := DigitsUp(value, base);
    var v;
    v, end := PutDigit(value, base, str, low, low, digits);
    while v != 0
      invariant low < end <= low + |digits| && digits[end - low..] == Remaining(v, base)
      invariant str[..low] == old(str[..low]) && str[low..end] == digits[..end - low]
      decreases Abs(v)
    {
      v, end := PutDigit(v, base, str, low, end, digits);
    }
  }

  /** One digit of those still to come; what is left of the number is returned. */
  method PutDigit(value: int, base: nat, str: array<char>, low: nat, end: nat, ghost digits: string)
    returns (rest: int, next: nat)
    requires 2 <= base <= 36 && low <= end <= low + |digits| < str.Length
    requires digits[end - low..] == DigitsUp(value, base) && str[low..end] == digits[..end - low]
    modifies str
    ensures next == end + 1 <= low + |digits| && digits[next - low..] == Remaining(rest, base)
    ensures str[..low] == old(str[..low]) && str[low..next] == digits[..next - low]
    ensures rest != 0 ==> Abs(rest) < Abs(value)
  {
    NextDigit(digits, end - low, value, base);
    str[end] := DigitChar(CMod(value, base));
    rest, next := CDiv(value, base), end + 1;
    assert str[low..next] == str[low..end] + [digits[end - low]];
  }

  /** The second loop, behind the terminating NUL */
  method ReverseDigits(str: array<char>, low: nat, end: nat, ghost digits: string)
    requires low < end < str.Length && str[low..end] == digits
    modifies str
    ensures str[low..end] == Reversed(digits) && str[end] == '\0' && str[..low] == old(str[..low])
  {
    str[end] := '\0';
    assert str[low..end] == digits && str[..low] == old(str[..low]);
    ReverseInPlace(str, low, end);
    assert str[end] == str[end..][0];
  }

  /** The digits still to come when the loop tests `value` */
  function Remaining(value: int, base: nat): string
    requires 2 <= base <= 36
  {
    if value == 0 then [] else DigitsUp(value, base)
  }

  lemma NextDigit(digits: string, k: nat, value: int, base: nat)
    requires 2 <= base <= 36 && k <= |digits| && digits[k..] == DigitsUp(value, base)
    ensures k < |digits| && digits[k] == DigitChar(CMod(value, base))
    ensures digits[k + 1..] == Remaining(CDiv(value, base), base)
  {
    assert digits[k] == digits[k..][0] && digits[k + 1..] == digits[k..][1..];
  }

  method ReverseInPlace(str: array<char>, start: nat, end: nat)
    requires start < end <= str.Length
    modifies str
    ensures str[start..end] == Reversed(old(str[start..end]))
    ensures str[..start] == old(str[..start]) && str[end..] == old(str[end..])
  {
    var low, ptr := start, end - 1;
    ghost var was, ends := str[..], start + end - 1;
    while low < ptr
      invariant start <= low <= ptr + 1 && low + ptr == ends
      invariant forall k | start <= k < low :: str[k] == was[ends - k]
      invariant forall k | ptr < k < end :: str[k] == was[ends - k]
      invariant forall k | 0 <= k < start || low <= k <= ptr || end <= k < str.Length :: str[k] == was[k]
    {
      str[low], str[ptr] := str[ptr], str[low];
      low, ptr := low + 1, ptr - 1;
    }
    assert forall k | start <= k < end :: str[k] == was[ends - k];
    ReversedSlice(was, str[..], start, end);
  }

  lemma ReversedSlice(was: string, now: string, start: nat, end: nat)
    requires start <= end <= |was| == |now| && forall k | start <= k < end :: now[k] == was[start + end - 1 - k]
    requires forall k | 0 <= k < start || end <= k < |now| :: now[k] == was[k]
    ensures now[start..end] == Reversed(was[start..end]) && now[..start] == was[..start] && now[end..] == was[end..]
  {
    var a, b := now[start..end], Reversed(was[start..end]);
    forall i | 0 <= i < |a| ensures a[i] == b[i] { assert a[i] == now[start + i]; }
  }

  // ---- nixlang_to_int

  /** The scanning loop from a value: it stops at the first character that is not a digit. */
  function Scan(text: string, value: int): int {
    if text == [] || !('0' <= text[0] <= '9') then value
    else Scan(text[1..], Wrap32(value * 10 + (text[0] as int - '0' as int)))
  }

  function ToInt(text: string): int {
    if text != [] && text[0] == '-' then Wrap32(-Scan(text[1..], 0)) else Scan(text, 0)
  }

  /** `nixlang_to_int` */
  method NixlangToInt(text: string) returns (value: int)
    ensures value == ToInt(text)
  {
    var sign, i := 1, 0;
    value := 0;
    if |text| > 0 && text[0] == '-' {
      sign := -1;
      i := 1;
    }
    ghost var start := i;
    assert text[0..] == text;
    while i < |text| && '0' <= text[i] <= '9'
      invariant start <= i <= |text| && Scan(text[i..], value) == Scan(text[start..], 0) && InInt32(value)
    {
      assert text[i..][1..] == text[i + 1..];
      value := Wrap32(value * 10 + (text[i] as int - '0' as int));
      i := i + 1;
    }
    value := Wrap32(value * sign);
  }

  predicate AllDigits(text: string) {
    forall i | 0 <= i < |text| :: '0' <= text[i] <= '9'
  }

  lemma {:induction false} ScanAppend(text: string, c: char, value: int)
    requires AllDigits(text) && '0' <= c <= '9'
    ensures Scan(text + [c], value) == Wrap32(Scan(text, value) * 10 + (c as int - '0' as int))
  {
    if text != [] {
      assert (text + [c])[1..] == text[1..] + [c];
      ScanAppend(text[1..], c, Wrap32(value * 10 + (text[0] as int - '0' as int)));
    } else {
      assert (text + [c])[1..] == "";
    }
  }

  lemma {:induction false} ScanIsNumeral(digits: string)
    requires AllDigits(digits)
    ensures Scan(digits, 0) == Wrap32(Numeral(digits, 10))
    decreases |digits|
  {
    if digits != [] {
      var rest, c := digits[..|digits| - 1], digits[|digits| - 1];
      assert digits == rest + [c];
      ScanIsNumeral(rest);
      ScanAppend(rest, c, 0);
      WrapOperand(Numeral(rest, 10), c as int - '0' as int, 10);
    }
  }

  lemma {:induction false} ScanStops(digits: string, rest: string, value: int)
    requires AllDigits(digits) && (rest == "" || !('0' <= rest[0] <= '9'))
    ensures Scan(digits + rest, value) == Scan(digits, value)
  {
    if digits == [] {
      assert digits + rest == rest;
    } else {
      assert (digits + rest)[1..] == digits[1..] + rest;
      ScanStops(digits[1..], rest, Wrap32(value * 10 + (digits[0] as int - '0' as int)));
    }
  }

  lemma SignIsRead(text: string)
    requires text == "" || text[0] != '-'
    ensures ToInt(text) == Scan(text, 0) && ToInt("-" + text) == Wrap32(-Scan(text, 0))
  {
    assert ("-" + text)[1..] == text;
  }

  /** What is read of a text that starts with digits: the number that these denote, as far as an `int` holds it. */
  lemma ReadsNumber(digits: string, rest: string)
    requires AllDigits(digits) && (rest == "" || (!('0' <= rest[0] <= '9') && (digits == "" ==> rest[0] != '-')))
    ensures ToInt(digits + rest) == Wrap32(Numeral(digits, 10))
    ensures ToInt("-" + (digits + rest)) == Wrap32(-Numeral(digits, 10))
  {
    var text, n := digits + rest, Numeral(digits, 10);
    ScanIsNumeral(digits);
    ScanStops(digits, rest, 0);
    WrapNegated(n);
    assert digits != "" ==> text[0] == digits[0];
    SignIsRead(text);
  }

  /** Reading back the digits of an `int` gives the number. */
  lemma {:induction false} ScanDigits(value: nat)
    requires value <= INT_MAX
    ensures AllDigits(Digits(value, 10)) && Scan(Digits(value, 10), 0) == value
    decreases value
  {
    var rest := CDiv(value, 10);
    var c := DigitChar(CMod(value, 10));
    if rest != 0 {
      ScanDigits(rest);
      ScanAppend(Digits(rest, 10), c, 0);
    } else {
      ScanAppend("", c, 0);
      assert "" + [c] == [c];
    }
  }

  /** The remainders of a negative number are negative, so its leading character is below '0'. */
  lemma {:induction false} NegativeDigits(value: int)
    requires value < 0
    ensures Digits(value, 10)[0] < '0'
    decreases Abs(value)
  {
    if CDiv(value, 10) != 0 { NegativeDigits(CDiv(value, 10)); }
  }

  /** Printing and reading an `int` gives it back, except for the least one. */
  lemma RoundTrip(value: int)
    requires InInt32(value)
    ensures ToInt(Text(value, 10)) == value <==> value != INT_MIN
  {
    if value >= 0 {
      ScanDigits(value);
      assert Digits(value, 10)[0] != '-';
    } else if value == INT_MIN {
      LeastIsNotRead();
    } else {
      var digits := Digits(-value, 10);
      assert ("-" + digits)[1..] == digits;
      ScanDigits(-value);
    }
  }

  /** The least `int` is its own negative, and reading stops at once. */
  lemma LeastIsNotRead()
    ensures Text(INT_MIN, 10)[0] == '-' && Scan(Text(INT_MIN, 10)[1..], 0) == 0
    ensures ToInt(Text(INT_MIN, 10)) == 0 && Text(INT_MIN, 10)[1] < '0'
  {
    assert Wrap32(-INT_MIN) == INT_MIN;
    NegativeDigits(INT_MIN);
    StopsAtOnce(Digits(INT_MIN, 10));
  }

  lemma StopsAtOnce(digits: string)
    requires digits != "" && digits[0] < '0'
    ensures Scan(("-" + digits)[1..], 0) == 0 && ToInt("-" + digits) == 0 && ("-" + digits)[1] < '0'
  {
    assert ("-" + digits)[1..] == digits;
  }
}
