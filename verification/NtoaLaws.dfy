/** What the integer conversions of `src/lib/printf.c` promise, and exactly when they keep
    the promise: the text read back gives the number, `#` keeps the digits, the field is as
    wide as asked. */
module NtoaLaws {
  import opened Words
  import opened Numerals
  import opened Sinks
  import opened Ntoa

  // ---- An independent reader: spaces, an optional sign, digits, spaces -----------------------

  function SkipSpaces(s: string): string {
    if s != [] && s[0] == ' ' then SkipSpaces(s[1..]) else s
  }

  /** The characters before the first space. */
  function FirstWord(s: string): string {
    if s == [] || s[0] == ' ' then [] else [s[0]] + FirstWord(s[1..])
  }

  function Reading(text: string, base: nat): int {
    var s := SkipSpaces(text);
    if s != [] && s[0] == '-' then -(ValueOf(FirstWord(s[1..]), base) as int)
    else if s != [] && s[0] == '+' then ValueOf(FirstWord(s[1..]), base)
    else ValueOf(FirstWord(s), base)
  }

  /** The reader of prefixed text: `0x`, `0X` and `0b` name the base, another `0` says octal. */
  function PrefixedReading(text: string): nat {
    var s := SkipSpaces(text);
    if |s| >= 2 && s[0] == '0' && s[1] in ['x', 'X'] then ValueOf(FirstWord(s[2..]), 16)
    else if |s| >= 2 && s[0] == '0' && s[1] == 'b' then ValueOf(FirstWord(s[2..]), 2)
    else ValueOf(FirstWord(s), 8)
  }

  predicate IsPlain(c: char) {
    c != ' ' && c != '-' && c != '+'
  }

  predicate Plain(s: string) {
    forall k :: 0 <= k < |s| ==> IsPlain(s[k])
  }

  lemma {:induction false} SpacesSkipped(n: nat, s: string)
    ensures SkipSpaces(Repeat(' ', n) + s) == SkipSpaces(s)
  {
    if n == 0 {
      assert Repeat(' ', 0) + s == s;
    } else {
      assert (Repeat(' ', n) + s)[1..] == Repeat(' ', n - 1) + s;
      SpacesSkipped(n - 1, s);
    }
  }

  lemma {:induction false} WordFound(w: string, n: nat)
    requires Plain(w)
    ensures FirstWord(w + Repeat(' ', n)) == w
  {
    var s := w + Repeat(' ', n);
    if w != [] {
      assert s[0] == w[0] && IsPlain(w[0]);
      assert s[1..] == w[1..] + Repeat(' ', n);
      WordFound(w[1..], n);
    }
  }

  /** Spaces, a sign or none, plain characters, spaces: what the reader makes of it. */
  lemma {:induction false} ReadingOf(before: nat, sign: string, w: string, after: nat, base: nat)
    requires Plain(w) && |sign| <= 1 && (sign != [] ==> !IsPlain(sign[0]))
    ensures Reading(Repeat(' ', before) + (sign + w) + Repeat(' ', after), base)
      == if sign == ['-'] then -(ValueOf(w, base) as int) else ValueOf(w, base)
  {
    var t := w + Repeat(' ', after);
    assert Repeat(' ', before) + (sign + w) + Repeat(' ', after) == Repeat(' ', before) + (sign + t);
    SpacesSkipped(before, sign + t);
    WordFound(w, after);
    if sign == [] {
      assert sign + t == t;
      PlainStart(w, after);
    } else if sign[0] == ' ' {
      assert sign == Repeat(' ', 1);
      SpacesSkipped(1, t);
      PlainStart(w, after);
    } else {
      assert (sign + t)[1..] == t;
    }
  }

  /** Without a sign the reader goes straight to the word. */
  lemma {:induction false} PlainStart(w: string, after: nat)
    requires Plain(w)
    ensures var s := SkipSpaces(w + Repeat(' ', after));
      FirstWord(s) == w && (s != [] ==> IsPlain(s[0]))
  {
    var t := w + Repeat(' ', after);
    if w == [] {
      assert t == Repeat(' ', after) + [];
      SpacesSkipped(after, []);
    } else {
      assert t[0] == w[0] && IsPlain(w[0]);
      WordFound(w, after);
    }
  }

  // ---- What the buffer holds ------------------------------------------------------------------

  lemma {:induction false} DenotedAppend(s: string, t: string, base: nat)
    ensures Denoted(s + t, base) == Denoted(s, base) + Power(base, |s|) * Denoted(t, base)
  {
    if s == [] {
      assert s + t == t;
    } else {
      assert (s + t)[1..] == s[1..] + t;
      DenotedAppend(s[1..], t, base);
      var p, d := Power(base, |s| - 1), Denoted(t, base);
      Distribute(base, Denoted(s[1..], base), p * d);
      Associate(base, p, d);
    }
  }

  lemma {:induction false} ZerosDenote(n: nat, base: nat)
    ensures Denoted(Repeat('0', n), base) == 0
  {
    if n > 0 {
      assert Repeat('0', n)[1..] == Repeat('0', n - 1);
      ZerosDenote(n - 1, base);
    }
  }

  /** Leading zeros do not change what the digits denote. */
  lemma {:induction false} LeadingZeros(s: string, n: nat, base: nat)
    ensures Denoted(s + Repeat('0', n), base) == Denoted(s, base)
  {
    DenotedAppend(s, Repeat('0', n), base);
    ZerosDenote(n, base);
  }

  predicate DigitsBelow(s: string, base: nat) {
    forall k :: 0 <= k < |s| ==> DigitValue(s[k]) < base
  }

  lemma {:induction false} DenotedBelow(s: string, base: nat)
    requires base > 0 && DigitsBelow(s, base)
    ensures Denoted(s, base) < Power(base, |s|)
  {
    if s != [] {
      DenotedBelow(s[1..], base);
      MulMonotone(base, Denoted(s[1..], base) + 1, Power(base, |s| - 1));
      Distribute(base, Denoted(s[1..], base), 1);
    }
  }

  lemma {:induction false} NumeralPlain(value: nat, base: nat, room: nat, upper: bool)
    requires 2 <= base <= 16
    ensures Plain(Numeral(value, base, room, upper)) && DigitsBelow(Numeral(value, base, room, upper), base)
    decreases room
  {
    if room > 0 {
      Digits(Remainder(value, base), upper);
      NumeralPlain(Quotient(value, base), base, room - 1, upper);
    }
  }

  /** The padded digits are the digits under leading zeros, all of them plain characters. */
  lemma {:induction false} PaddedIsZeros(n: Number)
    requires n.Valid()
    ensures var d := DigitPart(n); var s := Padded(n);
      |d| <= |s| && s == d + Repeat('0', |s| - |d|) && Plain(s)
    ensures n.flags.left || (n.prec == 0 && !n.flags.zeroPad) ==> Padded(n) == DigitPart(n)
  {
    var d, s := DigitPart(n), Padded(n);
    NumeralPlain(n.value, n.base, BUFFER_SIZE, n.flags.upper);
    if !n.flags.left && n.flags.zeroPad {
      ZerosTwice(d, n.prec, FieldWidth(n));
    }
  }

  lemma {:induction false} ZerosTwice(s: string, m: nat, n: nat)
    requires |s| <= BUFFER_SIZE
    ensures ZerosTo(ZerosTo(s, m), n) == ZerosTo(s, Max(m, n))
  {
  }

  lemma {:induction false} PaddedDenotes(n: Number)
    requires n.Valid()
    ensures Denoted(Padded(n), n.base) == Remainder(n.value, Power(n.base, BUFFER_SIZE))
  {
    PaddedIsZeros(n);
    LeadingZeros(DigitPart(n), |Padded(n)| - |DigitPart(n)|, n.base);
    NumeralDenotes(n.value, n.base, BUFFER_SIZE, n.flags.upper);
    if n.value == 0 {
      UniqueRemainder(0, Power(n.base, BUFFER_SIZE), 0, 0);
    }
  }

  // ---- Round trip -----------------------------------------------------------------------------

  /** The sign that makes it into a buffer of `len` characters. */
  function SignFor(n: Number, len: nat): (s: string)
    ensures |s| <= 1 && (s != [] ==> !IsPlain(s[0]))
  {
    if len >= BUFFER_SIZE then []
    else if n.negative then ['-']
    else if n.flags.plus then ['+']
    else if n.flags.space then [' ']
    else []
  }

  lemma {:induction false} TextIs(n: Number)
    requires n.Valid()
    ensures var s := Prefixed(n); var sign := SignFor(n, |s|);
      Text(n) == PadBefore(|s| + |sign|, FieldWidth(n), n.flags) + (sign + Reversed(s))
        + PadAfter(|s| + |sign|, FieldWidth(n), n.flags)
  {
    var s := Prefixed(n);
    var sign := SignFor(n, |s|);
    assert Signed(n) == s + sign;
    if sign != [] {
      ReversedAppend(s, sign[0]);
    } else {
      assert s + sign == s && sign + Reversed(s) == Reversed(s);
    }
  }

  lemma {:induction false} ReversedPlain(s: string)
    requires Plain(s)
    ensures Plain(Reversed(s))
  {
    forall k | 0 <= k < |s| ensures IsPlain(Reversed(s)[k]) {
      ReversedAt(s, k);
    }
  }

  /** What the reader makes of the text: the digits in the buffer under the sign that fitted. */
  lemma {:induction false} TextReads(n: Number)
    requires n.Valid() && Plain(Prefixed(n))
    ensures var s := Prefixed(n);
      var digits: int := Denoted(s, n.base);
      Reading(Text(n), n.base) == if SignFor(n, |s|) == ['-'] then -digits else digits
  {
    hide Reading, Text, Prefixed, FieldWidth, Reversed, Denoted, ValueOf, Plain;
    var s := Prefixed(n);
    var sign := SignFor(n, |s|);
    var len, width := |s| + |sign|, FieldWidth(n);
    var before, after := PadBefore(len, width, n.flags), PadAfter(len, width, n.flags);
    ReversedPlain(s);
    ReversedDenotes(s, n.base);
    TextIs(n);
    ReadingOf(|before|, sign, Reversed(s), |after|, n.base);
    assert before == Repeat(' ', |before|) && after == Repeat(' ', |after|);
  }

  /** Without `#`, reading the text back gives the signed value (modulo `base^32`) exactly
      when the sign was not dropped for want of room in the digit buffer. */
  lemma {:induction false} ReadsBack(n: Number)
    requires n.Valid() && !Hashes(n)
    ensures var magnitude: int := Remainder(n.value, Power(n.base, BUFFER_SIZE));
      Reading(Text(n), n.base) == (if n.negative then -magnitude else magnitude)
      <==> !(n.negative && |Padded(n)| == BUFFER_SIZE && magnitude != 0)
  {
    PaddedIsZeros(n);
    PaddedDenotes(n);
    TextReads(n);
  }

  lemma {:induction false} TenDigits(value: Word, upper: bool)
    ensures |Numeral(value, 10, BUFFER_SIZE, upper)| <= 10
  {
    assert Power(10, 10) == 10_000_000_000;
    NumeralShort(value, 10, BUFFER_SIZE, upper, 10);
  }

  /** Every 32-bit value in a field and precision of at most 31 reads back whole; the
      conversions print a minus sign in base 10 only. */
  lemma {:induction false} WordReadsBack(n: Number)
    requires n.Valid() && !Hashes(n) && n.value < WRAP
    requires n.width < BUFFER_SIZE && n.prec < BUFFER_SIZE && (n.negative ==> n.base == 10)
    ensures Reading(Text(n), n.base) == if n.negative then -(n.value as int) else n.value
  {
    ReadsBack(n);
    FitsBuffer(n.value, n.base);
    if n.negative {
      TenDigits(n.value, n.flags.upper);
      PaddedIsZeros(n);
    }
  }

  // ---- The `#` rule ---------------------------------------------------------------------------

  /** An unsigned, nonzero number printed with `#` and no precision, as `%#x`, `%#o` and `%#b`
      do, of which the buffer holds every digit. */
  predicate IsHashed(n: Number) {
    && n.Valid() && n.base in [2, 8, 16]
    && 0 < n.value < Power(n.base, BUFFER_SIZE)
    && n.flags.hash && !n.flags.precision && n.prec == 0
    && !n.negative && !n.flags.plus && !n.flags.space
  }

  function DigitsDropped(base: nat): nat {
    if base == 16 then 2 else 1
  }

  /** The letter that the `#` prefix adds after its zero. */
  function Mark(n: Number): string {
    if n.base == 16 then (if n.flags.upper then "X" else "x") else if n.base == 2 then "b" else ""
  }

  /** The digit part still denotes the value exactly when nothing is stripped, or there were
      enough leading zeros to strip. */
  lemma {:induction false} HashRule(n: Number)
    requires IsHashed(n)
    ensures Denoted(Stripped(n), n.base) == n.value
      <==> |Padded(n)| != n.width
           || (n.flags.zeroPad && !n.flags.left
               && |Padded(n)| - |DigitPart(n)| >= DigitsDropped(n.base))
  {
    hide Numeral, Denoted, Power, Remainder, Plain;
    var d, s := DigitPart(n), Padded(n);
    PaddedIsZeros(n);
    PaddedDenotes(n);
    UniqueRemainder(n.value, Power(n.base, BUFFER_SIZE), 0, n.value);
    if Strips(n) {
      var k := |Stripped(n)|;
      assert Stripped(n) == s[..k];
      if k >= |d| {
        assert s[..k] == d + Repeat('0', k - |d|);
        LeadingZeros(d, k - |d|, n.base);
        LeadingZeros(d, |s| - |d|, n.base);
      } else {
        assert s[..k] == d[..k];
        DigitsLost(n, k);
      }
    }
  }

  /** Fewer digits than the numeral has cannot denote the value. */
  lemma {:induction false} DigitsLost(n: Number, k: nat)
    requires IsHashed(n) && k < |DigitPart(n)|
    ensures Denoted(DigitPart(n)[..k], n.base) < n.value
  {
    hide Denoted, Remainder, Quotient, Plain, Numeral, Power;
    var d := DigitPart(n);
    NumeralPlain(n.value, n.base, BUFFER_SIZE, n.flags.upper);
    NumeralIsTight(n.value, n.base, BUFFER_SIZE, n.flags.upper);
    DenotedBelow(d[..k], n.base);
    PowerMonotone(n.base, n.base, k, |d| - 1);
  }

  /** When the prefix fits whole, text printed with `#` reads back by its own prefix exactly
      under the same condition. */
  lemma {:induction false} HashReadsBack(n: Number)
    requires IsHashed(n) && |Stripped(n)| + |Mark(n)| < BUFFER_SIZE
    ensures PrefixedReading(Text(n)) == n.value
      <==> |Padded(n)| != n.width
           || (n.flags.zeroPad && !n.flags.left
               && |Padded(n)| - |DigitPart(n)| >= DigitsDropped(n.base))
  {
    HashRule(n);
    PrefixedReads(n);
  }

  lemma {:induction false} ReversedTwo(s: string, c: char, e: char)
    ensures Reversed(s + [c] + [e]) == [e] + [c] + Reversed(s)
  {
    ReversedAppend(s + [c], e);
    ReversedAppend(s, c);
  }

  /** The prefixed reader on spaces, a prefix, plain characters, spaces. */
  lemma {:induction false} PrefixedReadingOf(before: nat, mark: string, w: string, after: nat)
    requires Plain(w) && mark in ["x", "X", "b"]
    ensures PrefixedReading(Repeat(' ', before) + (['0'] + mark + w) + Repeat(' ', after))
      == ValueOf(w, if mark == ['b'] then 2 else 16)
  {
    var t := ['0'] + mark + w + Repeat(' ', after);
    assert Repeat(' ', before) + (['0'] + mark + w) + Repeat(' ', after) == Repeat(' ', before) + t;
    SpacesSkipped(before, t);
    assert t[2..] == w + Repeat(' ', after);
    WordFound(w, after);
  }

  /** The prefixed reader on an octal numeral: its prefix is one more leading zero. */
  lemma {:induction false} OctalReadingOf(before: nat, w: string, after: nat)
    requires Plain(w) && AllDigits(w)
    ensures PrefixedReading(Repeat(' ', before) + (['0'] + w) + Repeat(' ', after)) == ValueOf(['0'] + w, 8)
  {
    var s := ['0'] + w;
    var t := s + Repeat(' ', after);
    assert Repeat(' ', before) + s + Repeat(' ', after) == Repeat(' ', before) + t;
    SpacesSkipped(before, t);
    assert |t| >= 2 ==> t[1] == if w == [] then ' ' else w[0];
    assert w != [] ==> IsDigit(w[0]);
    WordFound(s, after);
  }

  /** The text of a hashed number is its buffer turned round between spaces. */
  lemma {:induction false} HashedText(n: Number) returns (before: nat, after: nat)
    requires IsHashed(n)
    ensures Text(n) == Repeat(' ', before) + Reversed(Prefixed(n)) + Repeat(' ', after)
  {
    var s := Prefixed(n);
    TextIs(n);
    before, after := |PadBefore(|s|, n.width, n.flags)|, |PadAfter(|s|, n.width, n.flags)|;
    assert SignFor(n, |s|) + Reversed(s) == Reversed(s);
    assert PadBefore(|s|, n.width, n.flags) == Repeat(' ', before);
    assert PadAfter(|s|, n.width, n.flags) == Repeat(' ', after);
  }

  lemma {:induction false} PrefixedReads(n: Number)
    requires IsHashed(n) && |Stripped(n)| + |Mark(n)| < BUFFER_SIZE
    ensures PrefixedReading(Text(n)) == Denoted(Stripped(n), n.base)
  {
    var d := Stripped(n);
    PaddedIsZeros(n);
    ReversedPlain(d);
    var before, after := HashedText(n);
    ReversedPrefix(n);
    if n.base == 8 {
      OctalDigits(n);
      OctalReadingOf(before, Reversed(d), after);
      OctalZero(n);
    } else {
      PrefixedReadingOf(before, Mark(n), Reversed(d), after);
      ReversedDenotes(d, n.base);
    }
  }

  lemma {:induction false} OctalZero(n: Number)
    requires IsHashed(n) && n.base == 8 && |Stripped(n)| < BUFFER_SIZE
    ensures Reversed(Prefixed(n)) == ['0'] + Reversed(Stripped(n))
    ensures ValueOf(Reversed(Prefixed(n)), 8) == Denoted(Stripped(n), 8)
  {
    var d, s := Stripped(n), Prefixed(n);
    assert s == d + Repeat('0', 1) == d + ['0'];
    ReversedAppend(d, '0');
    ReversedDenotes(s, 8);
    LeadingZeros(d, 1, 8);
  }

  lemma {:induction false} OctalDigits(n: Number)
    requires IsHashed(n) && n.base == 8
    ensures AllDigits(Reversed(Stripped(n)))
  {
    var d := Stripped(n);
    NumeralDigits(n.value, n.base, BUFFER_SIZE, n.flags.upper);
    PaddedIsZeros(n);
    forall k | 0 <= k < |d| ensures IsDigit(Reversed(d)[k]) {
      ReversedAt(d, k);
    }
  }

  lemma {:induction false} ReversedPrefix(n: Number)
    requires n.Valid() && Hashes(n) && n.base in [2, 8, 16] && |Stripped(n)| + |Mark(n)| < BUFFER_SIZE
    ensures Reversed(Prefixed(n)) == ['0'] + Mark(n) + Reversed(Stripped(n))
  {
    hide Reversed, Stripped;
    var d := Stripped(n);
    if n.base != 8 {
      assert Prefixed(n) == d + Mark(n) + ['0'];
      ReversedTwo(d, Mark(n)[0], '0');
      assert Mark(n) == [Mark(n)[0]];
    } else {
      ReversedAppend(d, '0');
    }
  }

  // ---- Lengths --------------------------------------------------------------------------------

  /** The text is at least as wide as its field, except when zeros have to fill a field wider
      than the digit buffer. */
  lemma {:induction false} FieldFilled(n: Number)
    requires n.Valid() && (n.flags.hash ==> n.base in [2, 8, 16])
    ensures |Text(n)| >= n.width
      <==> !(n.flags.zeroPad && !n.flags.left && n.width > BUFFER_SIZE)
  {
    var s := Signed(n);
    assert |Text(n)| == if n.flags.zeroPad && !n.flags.left then |s| else Max(|s|, FieldWidth(n));
    if n.flags.zeroPad && !n.flags.left && n.width <= BUFFER_SIZE {
      ZerosFill(n);
    }
  }

  /** Zeros fill a field that the buffer can hold, whatever `#` and the sign do. */
  lemma {:induction false} ZerosFill(n: Number)
    requires n.Valid() && (n.flags.hash ==> n.base in [2, 8, 16])
    requires n.flags.zeroPad && !n.flags.left && n.width <= BUFFER_SIZE
    ensures |Signed(n)| >= n.width
  {
    assert |Padded(n)| >= FieldWidth(n);
    assert |Prefixed(n)| >= FieldWidth(n);
  }

  /** Without `#`, the text is exactly as long as the longer of the field and the digits with
      their leading zeros and their sign, or 32 when zeros have to fill a wider field. */
  lemma {:induction false} TextLength(n: Number)
    requires n.Valid() && !Hashes(n)
    ensures
      var digits := if n.flags.left then |DigitPart(n)|
                    else Max(|DigitPart(n)|, Min(n.prec, BUFFER_SIZE));
      var sign := if digits < BUFFER_SIZE && (n.negative || n.flags.plus || n.flags.space) then 1 else 0;
      |Text(n)| == if n.flags.zeroPad && !n.flags.left && n.width > BUFFER_SIZE then BUFFER_SIZE
                   else Max(n.width, digits + sign)
  {
    TextIs(n);
  }

  /** The precision is met exactly when the number has that many digits anyway, or when it is
      not left-justified and the buffer has room for the zeros. */
  lemma {:induction false} PrecisionMet(n: Number)
    requires n.Valid()
    ensures |Padded(n)| >= n.prec
      <==> n.prec <= |DigitPart(n)| || (!n.flags.left && n.prec <= BUFFER_SIZE)
  {
    PaddedIsZeros(n);
  }
}
