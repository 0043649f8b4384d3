/** Numerals as `src/lib/printf.c` writes and reads them: the digit loop shared by
    `_ntoa_long` and `_ntoa_long_long`, and `_atoi`. */
module Numerals {
  import opened Words

  const BUFFER_SIZE: int := 32 // PRINTF_NTOA_BUFFER_SIZE

  function Times(a: nat, b: nat): nat {
    a * b
  }

  function Power(base: nat, k: nat): (p: nat)
    ensures base > 0 ==> p > 0
    decreases k, base
  {
    if k == 0 then 1 else base * Power(base, k - 1)
  }

  /** Division of naturals, with the facts the solver needs about it. */
  function Quotient(value: nat, base: nat): (q: nat)
    requires base > 0
    ensures value == base * q + Remainder(value, base)
  {
    QuotientFacts(value, base);
    value / base
  }

  function Remainder(value: nat, base: nat): (r: nat)
    requires base > 0
    ensures r < base
  {
    value % base
  }

  lemma {:induction false} QuotientFacts(value: nat, base: nat)
    requires base > 0
    ensures 0 <= value / base && value == base * (value / base) + value % base
  {
    var q := value / base;
    assert value == base * q + value % base;
    if q < 0 {
      assert false;
    }
  }

  lemma {:induction false} QuotientShrinks(value: nat, base: nat)
    requires base > 1 && value > 0
    ensures Quotient(value, base) < value
  {
    MulMonotone(Quotient(value, base), 2, base);
  }

  function DigitChar(digit: nat, upper: bool): char
    requires digit < 16
  {
    if digit < 10 then (48 + digit) as char else ((if upper then 65 else 97) + digit - 10) as char
  }

  predicate IsDigit(c: char) {
    '0' <= c <= '9'
  }

  /** The digit a character stands for, whatever the base. */
  function DigitValue(c: char): nat {
    if IsDigit(c) then (c as int) - 48
    else if 'A' <= c <= 'F' then (c as int) - 55
    else if 'a' <= c <= 'f' then (c as int) - 87
    else 0
  }

  /** The numeral of `value`, least significant digit first, cut off after `room` digits. */
  function Numeral(value: nat, base: nat, room: nat, upper: bool): (s: string)
    requires 2 <= base <= 16
    ensures |s| <= room && (room > 0 ==> |s| > 0)
    decreases room, value, 0
  {
    if room == 0 then []
    else [DigitChar(Remainder(value, base), upper)] + MoreDigits(Quotient(value, base), base, room - 1, upper)
  }

  function MoreDigits(value: nat, base: nat, room: nat, upper: bool): (s: string)
    requires 2 <= base <= 16
    ensures |s| <= room
    decreases room, value, 1
  {
    if value == 0 then [] else Numeral(value, base, room, upper)
  }

  /** The number that digits denote, least significant digit first. */
  function Denoted(s: string, base: nat): nat {
    if s == [] then 0 else DigitValue(s[0]) + Times(base, Denoted(s[1..], base))
  }

  function Reversed(s: string): (r: string)
    ensures |r| == |s|
  {
    if s == [] then [] else Reversed(s[1..]) + [s[0]]
  }

  /** The number a string of digits denotes, most significant digit first. */
  function ValueOf(s: string, base: nat): nat {
    if s == [] then 0 else Times(base, ValueOf(s[..|s| - 1], base)) + DigitValue(s[|s| - 1])
  }

  predicate AllDigits(s: string) {
    forall k :: 0 <= k < |s| ==> IsDigit(s[k])
  }

  /** Where the run of digits that starts at `i` stops. */
  function DigitsEnd(s: string, i: nat): (j: nat)
    requires i <= |s|
    ensures i <= j <= |s|
    ensures j < |s| ==> !IsDigit(s[j])
    decreases |s| - i
  {
    if i < |s| && IsDigit(s[i]) then DigitsEnd(s, i + 1) else i
  }

  /** The digit loop: it leaves the reversed numeral in the buffer. */
  method WriteDigits(buf: array<char>, value: nat, base: nat, upper: bool) returns (len: nat)
    requires buf.Length == BUFFER_SIZE
    requires 2 <= base <= 16
    modifies buf
    ensures 0 < len <= BUFFER_SIZE
    ensures buf[..len] == Numeral(value, base, BUFFER_SIZE, upper)
  {
    hide Quotient, Remainder, DigitChar;
    buf[0] := DigitChar(Remainder(value, base), upper);
    len := 1;
    assert buf[..len] == [buf[0]];
    var rest := Quotient(value, base);
    while rest != 0 && len < BUFFER_SIZE
      invariant 0 < len <= BUFFER_SIZE
      invariant Numeral(value, base, BUFFER_SIZE, upper)
        == buf[..len] + MoreDigits(rest, base, BUFFER_SIZE - len, upper)
      decreases BUFFER_SIZE - len
    {
      ghost var done, room := buf[..len], BUFFER_SIZE - len;
      var c := DigitChar(Remainder(rest, base), upper);
      assert MoreDigits(rest, base, room, upper) == [c] + MoreDigits(Quotient(rest, base), base, room - 1, upper);
      buf[len] := c;
      len := len + 1;
      assert buf[..len] == done + [c];
      rest := Quotient(rest, base);
    }
  }

  /** `_atoi` from `start`: the value of the digits there, modulo 2^32, and where they stop. */
  method Atoi(s: string, start: nat) returns (value: Word, end: nat)
    requires start <= |s|
    ensures end == DigitsEnd(s, start)
    ensures value == Mod32(ValueOf(s[start..end], 10))
  {
    hide ValueOf, DigitValue, Mod32;
    AtoiStart(s, start);
    value, end := 0, start;
    while end < |s| && IsDigit(s[end])
      invariant start <= end <= DigitsEnd(s, start)
      invariant DigitsEnd(s, start) == DigitsEnd(s, end)
      invariant value == Mod32(ValueOf(s[start..end], 10))
      decreases |s| - end
    {
      AtoiStep(s, start, end);
      value := Mod32(value * 10 + DigitValue(s[end]));
      end := end + 1;
    }
  }

  lemma {:induction false} AtoiStart(s: string, start: nat)
    requires start <= |s|
    ensures Mod32(ValueOf(s[start..start], 10)) == 0
  {
    assert s[start..start] == [];
  }

  lemma {:induction false} AtoiStep(s: string, start: nat, end: nat)
    requires start <= end < |s|
    ensures Mod32(ValueOf(s[start..end + 1], 10))
      == Mod32(Mod32(ValueOf(s[start..end], 10)) * 10 + DigitValue(s[end]))
  {
    hide ValueOf, DigitValue, Mod32;
    assert s[start..end + 1] == s[start..end] + [s[end]];
    ValueStep(s[start..end], s[end], 10);
    TenTimes(ValueOf(s[start..end], 10));
    ModStep(ValueOf(s[start..end], 10), DigitValue(s[end]));
  }

  lemma {:induction false} TenTimes(x: nat)
    ensures Times(10, x) == 10 * x
  {
  }

  lemma {:induction false} ValueStep(s: string, c: char, base: nat)
    ensures ValueOf(s + [c], base) == Times(base, ValueOf(s, base)) + DigitValue(c)
  {
    hide Times, DigitValue;
    assert (s + [c])[..|s|] == s;
  }

  lemma {:induction false} ModStep(x: nat, d: nat)
    ensures Mod32(10 * x + d) == Mod32(Mod32(x) * 10 + d)
  {
  }

  lemma {:induction false} Digits(digit: nat, upper: bool)
    requires digit < 16
    ensures DigitValue(DigitChar(digit, upper)) == digit
    ensures digit < 10 ==> IsDigit(DigitChar(digit, upper))
  {
  }

  lemma {:induction false} MulMonotone(a: nat, x: nat, y: nat)
    requires x <= y
    ensures a * x <= a * y
  {
  }

  lemma {:induction false} Distribute(a: int, x: int, y: int)
    ensures a * (x + y) == a * x + a * y
  {
  }

  lemma {:induction false} Associate(a: int, x: int, y: int)
    ensures a * (x * y) == (a * x) * y
  {
  }

  /** Dividing `base * m` off a number is dividing `m` off its quotient. */
  lemma {:induction false} SplitModulus(value: nat, base: nat, m: nat)
    requires base > 0 && m > 0
    ensures base * m > 0
    ensures Remainder(value, base * m)
      == Remainder(value, base) + base * Remainder(Quotient(value, base), m)
  {
    var q := Quotient(value, base);
    var k, r := Quotient(q, m), Remainder(q, m);
    Distribute(base, m * k, r);
    Associate(base, m, k);
    MulMonotone(base, r, m - 1);
    Distribute(base, m, -1);
    MulMonotone(base, 1, m);
    UniqueRemainder(value, base * m, k, Remainder(value, base) + base * r);
  }

  lemma {:induction false} UniqueRemainder(value: nat, m: nat, k: nat, low: nat)
    requires m > 0 && low < m && value == m * k + low
    ensures Remainder(value, m) == low
  {
    var j := Quotient(value, m);
    if k < j {
      MulMonotone(m, k + 1, j);
      Distribute(m, k, 1);
      assert false;
    } else if k > j {
      MulMonotone(m, j + 1, k);
      Distribute(m, j, 1);
      assert false;
    }
  }

  /** The numeral denotes the value modulo `base^room`: all of it, when it fits. */
  lemma {:induction false} NumeralDenotes(value: nat, base: nat, room: nat, upper: bool)
    requires 2 <= base <= 16
    ensures Denoted(Numeral(value, base, room, upper), base) == Remainder(value, Power(base, room))
    decreases room
  {
    if room > 0 {
      Digits(Remainder(value, base), upper);
      SplitModulus(value, base, Power(base, room - 1));
      NumeralDenotes(Quotient(value, base), base, room - 1, upper);
      if Quotient(value, base) == 0 {
        UniqueRemainder(0, Power(base, room - 1), 0, 0);
      }
    }
  }

  /** A number lies between two powers one up from those its quotient lies between. */
  lemma {:induction false} PowersBetween(value: nat, base: nat, k: nat)
    requires base >= 2
    ensures Power(base, 0) == 1
    ensures k > 0 ==> (value < Power(base, k) <==> Quotient(value, base) < Power(base, k - 1))
    ensures k > 1 ==> (Power(base, k - 1) <= value <==> Power(base, k - 2) <= Quotient(value, base))
  {
    if k > 0 {
      BelowMultiple(value, base, Power(base, k - 1));
    }
    if k > 1 {
      BelowMultiple(value, base, Power(base, k - 2));
    }
  }

  lemma {:induction false} BelowMultiple(value: nat, base: nat, m: nat)
    requires base > 0
    ensures value < base * m <==> Quotient(value, base) < m
  {
    var q := Quotient(value, base);
    if q < m {
      MulMonotone(base, q + 1, m);
      Distribute(base, q, 1);
    } else {
      MulMonotone(base, m, q);
    }
  }

  /** The digits of a nonzero value end, at the top, in a nonzero digit, and no fewer digits
      would hold the value. */
  lemma {:induction false} NumeralIsTight(value: nat, base: nat, room: nat, upper: bool)
    requires 2 <= base <= 16
    requires 0 < value < Power(base, room)
    ensures var s := Numeral(value, base, room, upper);
      |s| > 0 && DigitValue(s[|s| - 1]) > 0 && Power(base, |s| - 1) <= value < Power(base, |s|)
    decreases room
  {
    hide Quotient, Remainder, DigitChar, DigitValue, Power;
    Digits(Remainder(value, base), upper);
    var q := Quotient(value, base);
    PowersBetween(value, base, room);
    if q > 0 {
      NumeralIsTight(q, base, room - 1, upper);
      PowersBetween(value, base, |Numeral(q, base, room - 1, upper)| + 1);
    } else {
      PowersBetween(value, base, 1);
    }
  }

  lemma {:induction false} OneDigit(value: nat, base: nat, room: nat, upper: bool)
    requires 2 <= base <= 16 && value < base && room > 0
    ensures Numeral(value, base, room, upper) == [DigitChar(value, upper)]
  {
    UniqueRemainder(value, base, 0, value);
    var q := Quotient(value, base);
    if q > 0 {
      MulMonotone(base, 1, q);
      assert false;
    }
  }

  lemma {:induction false} TwoDigits(high: nat, low: nat, base: nat, room: nat, upper: bool)
    requires 2 <= base <= 16 && 0 < high < base && low < base && room > 1
    ensures Numeral(base * high + low, base, room, upper) == [DigitChar(low, upper), DigitChar(high, upper)]
  {
    var value := base * high + low;
    UniqueRemainder(value, base, high, low);
    var q := Quotient(value, base);
    assert base * q == base * high;
    if q < high {
      MulMonotone(base, q + 1, high);
      Distribute(base, q, 1);
      assert false;
    } else if q > high {
      MulMonotone(base, high + 1, q);
      Distribute(base, high, 1);
      assert false;
    }
    OneDigit(high, base, room - 1, upper);
  }

  /** A number below `base^k` has at most k digits. */
  lemma {:induction false} NumeralShort(value: nat, base: nat, room: nat, upper: bool, k: nat)
    requires 2 <= base <= 16 && k > 0 && value < Power(base, k)
    ensures |Numeral(value, base, room, upper)| <= k
    decreases k
  {
    var q := Quotient(value, base);
    if q > 0 && room > 0 {
      if q >= Power(base, k - 1) {
        MulMonotone(base, Power(base, k - 1), q);
        assert false;
      }
      NumeralShort(q, base, room - 1, upper, k - 1);
    }
  }

  /** Digits of base 10 or less are decimal characters. */
  lemma {:induction false} NumeralDigits(value: nat, base: nat, room: nat, upper: bool)
    requires 2 <= base <= 10
    ensures AllDigits(Numeral(value, base, room, upper))
    decreases room
  {
    if room > 0 {
      Digits(Remainder(value, base), upper);
      NumeralDigits(Quotient(value, base), base, room - 1, upper);
    }
  }

  lemma {:induction false} ReversedAt(s: string, k: nat)
    requires k < |s|
    ensures Reversed(s)[k] == s[|s| - 1 - k]
  {
    if k < |s| - 1 { ReversedAt(s[1..], k); }
  }

  /** Reading digits from either end gives the same number. */
  lemma {:induction false} ReversedDenotes(s: string, base: nat)
    ensures ValueOf(Reversed(s), base) == Denoted(s, base)
    decreases |s|
  {
    hide Times, DigitValue, ValueOf, Denoted, Reversed;
    if s == [] {
      NothingDenotes(base);
    } else {
      ReversedDenotes(s[1..], base);
      OneMoreDenotes(s, base);
    }
  }

  lemma {:induction false} NothingDenotes(base: nat)
    ensures Reversed([]) == [] && ValueOf([], base) == Denoted([], base) == 0
  {
  }

  lemma {:induction false} OneMoreDenotes(s: string, base: nat)
    requires s != []
    ensures ValueOf(Reversed(s), base) == Times(base, ValueOf(Reversed(s[1..]), base)) + DigitValue(s[0])
    ensures Denoted(s, base) == DigitValue(s[0]) + Times(base, Denoted(s[1..], base))
  {
    hide Times, DigitValue, ValueOf;
    ValueStep(Reversed(s[1..]), s[0], base);
  }

  /** A run of digits that a non-digit follows is found whole. */
  lemma {:induction false} DigitsEndAt(s: string, i: nat, j: nat)
    requires i <= j <= |s| && AllDigits(s[i..j])
    requires j < |s| ==> !IsDigit(s[j])
    ensures DigitsEnd(s, i) == j
    decreases j - i
  {
    if i < j {
      assert IsDigit(s[i..j][0]);
      assert s[i + 1..j] == s[i..j][1..];
      DigitsEndAt(s, i + 1, j);
    }
  }

  /** A 32-bit value in base 10, most significant digit first. */
  function DecimalText(value: Word): (s: string)
    ensures |s| > 0
  {
    Reversed(Numeral(value, 10, BUFFER_SIZE, false))
  }

  lemma {:induction false} DecimalTextReads(value: Word)
    ensures AllDigits(DecimalText(value)) && ValueOf(DecimalText(value), 10) == value
  {
    var numeral := Numeral(value, 10, BUFFER_SIZE, false);
    NumeralDigits(value, 10, BUFFER_SIZE, false);
    forall k | 0 <= k < |numeral| ensures IsDigit(Reversed(numeral)[k]) {
      ReversedAt(numeral, k);
    }
    ReversedDenotes(numeral, 10);
    NumeralDenotes(value, 10, BUFFER_SIZE, false);
    FitsBuffer(value, 10);
  }

  lemma {:induction false} Middle(before: string, s: string, after: string)
    ensures (before + s + after)[|before|..|before| + |s|] == s
    ensures |before + s + after| == |before| + |s| + |after|
    ensures after != [] ==> (before + s + after)[|before| + |s|] == after[0]
  {
  }

  /** `_atoi` reads back what the digit loop wrote: for every 32-bit value in base 10,
      followed by a non-digit, the value itself, stopping exactly at the non-digit. */
  lemma {:induction false} AtoiReadsNumeral(before: string, value: Word, after: string)
    requires after == [] || !IsDigit(after[0])
    ensures var s := before + DecimalText(value) + after;
      var end := DigitsEnd(s, |before|);
      end == |before| + |DecimalText(value)| && Mod32(ValueOf(s[|before|..end], 10)) == value
  {
    DecimalTextReads(value);
    DigitsStopAt(before, DecimalText(value), after);
  }

  lemma {:induction false} DigitsStopAt(before: string, digits: string, after: string)
    requires AllDigits(digits) && (after == [] || !IsDigit(after[0]))
    ensures var s := before + digits + after;
      DigitsEnd(s, |before|) == |before| + |digits| && s[|before|..|before| + |digits|] == digits
  {
    Middle(before, digits, after);
    DigitsEndAt(before + digits + after, |before|, |before| + |digits|);
  }

  lemma {:induction false} PowerMonotone(a: nat, b: nat, k: nat, n: nat)
    requires 1 <= a <= b && k <= n
    ensures 1 <= Power(a, k) <= Power(b, n)
    decreases n
  {
    if k > 0 {
      PowerMonotone(a, b, k - 1, n - 1);
      var x, y := Power(a, k - 1), Power(b, n - 1);
      MulMonotone(b, x, y);
      MulMonotone(x, a, b);
    } else if n > 0 {
      PowerMonotone(a, b, 0, n - 1);
      MulMonotone(Power(b, n - 1), 1, b);
    }
  }

  lemma {:induction false} PowersOfTwo()
    ensures Power(2, 8) == 256 && Power(2, 32) == WRAP
  {
    assert Power(2, 8) == 256;
    PowerSum(2, 8, 8);
    PowerSum(2, 16, 16);
    assert Power(2, 16) == 65536;
  }

  lemma {:induction false} NextPower(base: nat, k: nat)
    requires k > 0
    ensures Power(base, k) == base * Power(base, k - 1)
  {
  }

  lemma {:induction false} PowerSum(base: nat, j: nat, k: nat)
    ensures Power(base, j + k) == Power(base, j) * Power(base, k)
    decreases j
  {
    if j == 0 {
      assert 1 * Power(base, k) == Power(base, k);
    } else {
      PowerSum(base, j - 1, k);
      Associate(base, Power(base, j - 1), Power(base, k));
      NextPower(base, j);
      NextPower(base, j + k);
    }
  }

  /** The digit buffer holds every 32-bit value whole, in any base, and every 64-bit value in
      every base but 2. */
  lemma {:induction false} FitsBuffer(value: nat, base: nat)
    requires 2 <= base <= 16
    requires value < WRAP || (value < WRAP * WRAP && base >= 4)
    ensures value < Power(base, BUFFER_SIZE)
    ensures Remainder(value, Power(base, BUFFER_SIZE)) == value
  {
    PowersOfTwo();
    if value < WRAP {
      PowerMonotone(2, base, 32, 32);
    } else {
      PowerSum(2, 32, 32);
      FourIsTwoTwice(32);
      PowerMonotone(4, base, 32, 32);
    }
    UniqueRemainder(value, Power(base, BUFFER_SIZE), 0, value);
  }

  lemma {:induction false} FourIsTwoTwice(k: nat)
    ensures Power(4, k) == Power(2, 2 * k)
  {
    if k > 0 {
      FourIsTwoTwice(k - 1);
    }
  }
}
