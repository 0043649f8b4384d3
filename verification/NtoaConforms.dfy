/** Exactly when `src/lib/printf.c` prints what ISO C99 section 7.19.6.1 asks of an integer
    conversion: the code's text and the text asked for in one form, then the two compared. */
module NtoaConforms {
  import opened Words
  import opened Numerals
  import opened Sinks
  import opened Ntoa
  import opened NtoaLaws
  import opened Format
  import opened Columns
  import opened NtoaStandard

  // ---- When the code prints it ----------------------------------------------------------------

  /** Without an effect of `#`: all digits and the sign fit the digit buffer, `-` hides no
      precision, and `#` does not have to supply the only digit of an octal zero.  (A space that
      is dropped for a sign is put back by padding.) */
  predicate PlainConforms(q: Asked)
    requires q.Valid()
  {
    var t, sign := |AskedFilled(q)|, AskedSign(q);
    && (q.left && q.precision.Some? ==> q.precision.value <= |AllOf(q.value, q.base, q.upper)|)
    && !(q.hash && q.base == 8 && q.value == 0 && q.precision == Some(0))
    && (t + |sign| <= BUFFER_SIZE
        || (t == BUFFER_SIZE && sign == " " && !q.left && !Fills(q) && q.width > BUFFER_SIZE))
  }

  /** `#` with a precision: digits and prefix fit, `-` hides no precision, and in base 8, where
      the code always adds a zero, one is asked for (or the buffer has no room for the other). */
  predicate PreciseConforms(q: Asked, p: nat)
    requires q.Valid()
  {
    var d := |AllOf(q.value, q.base, q.upper)|;
    if q.base == 8 then
      if q.left then p <= d + 1 <= BUFFER_SIZE
      else (p <= d && d + 1 <= BUFFER_SIZE) || (p == BUFFER_SIZE && d < BUFFER_SIZE)
    else (q.left ==> p <= d) && Max(d, p) + 2 <= BUFFER_SIZE
  }

  /** `#` without precision: the prefix fits, the digits do not just fill the field, and zeros
      that fill it leave the digits whole and the prefix in place. */
  predicate AlternateConforms(q: Asked)
    requires q.Valid()
  {
    var d := |AllOf(q.value, q.base, q.upper)|;
    && d + PrefixLength(q) <= BUFFER_SIZE && q.width != d
    && (Fills(q) ==>
          if q.base == 16 then q.width <= BUFFER_SIZE && q.width != d + 1
          else if q.base == 2 then q.width <= d + 1
          else q.width <= BUFFER_SIZE)
  }

  /** What `#` adds to a nonzero number: two characters, or in base 8 a zero. */
  function PrefixLength(q: Asked): nat {
    if q.base == 8 then 1 else 2
  }

  /** A negative precision argument is taken for a precision of 0: that shows unless the number
      is nonzero and zeros do not have to fill the field. */
  predicate IgnoredConforms(q: Asked)
    requires q.Valid()
  {
    var d := |AllOf(q.value, q.base, q.upper)|;
    q.value != 0 &&
    if IsAlternate(q) then
      d + PrefixLength(q) <= BUFFER_SIZE && (Fills(q) ==> q.width <= d + PrefixLength(q))
    else
      var sign := AskedSign(q);
      && (Fills(q) ==> q.width <= d + |sign|)
      && (d + |sign| <= BUFFER_SIZE
          || (d == BUFFER_SIZE && sign == " " && !q.left && q.width > BUFFER_SIZE))
  }

  predicate IsAlternate(q: Asked) {
    q.hash && q.base != 10 && q.value != 0
  }

  /** The exact condition; `ignored` says that the precision was a negative argument. */
  predicate Conforms(q: Asked, ignored: bool)
    requires q.Valid()
  {
    if ignored then IgnoredConforms(q)
    else if !IsAlternate(q) then PlainConforms(q)
    else if q.precision.Some? then PreciseConforms(q, q.precision.value)
    else AlternateConforms(q)
  }

  /** The number `n` that the code converts for what is asked. */
  predicate Converts(n: Number, q: Asked, ignored: bool) {
    && n.Valid() && (q.base == 2 || q.base == 8 || q.base == 10 || q.base == 16)
    && n.value == q.value && n.negative == q.negative && n.base == q.base && n.width == q.width
    && n.flags.left == q.left && n.flags.plus == q.plus && n.flags.space == q.space
    && n.flags.upper == q.upper && n.flags.hash == (q.hash && q.base != 10)
    && (ignored ==> q.precision.None?)
    && n.flags.precision == (ignored || q.precision.Some?)
    && n.prec == (if q.precision.Some? then q.precision.value else 0)
    && n.flags.zeroPad == (q.zero && !n.flags.precision)
    && (q.base != 10 ==> !q.negative && !q.plus && !q.space)
  }

  // ---- Both texts in one form -----------------------------------------------------------------

  /** The spaces that the code puts beside a text of `len` characters. */
  function CodePad(n: Number, len: nat): nat {
    if n.flags.zeroPad && !n.flags.left then 0 else Excess(FieldWidth(n), len)
  }

  lemma {:induction false} CodeIsSpread(n: Number)
    requires n.Valid()
    ensures var w := Reversed(Prefixed(n)); var sign := SignFor(n, |w|);
      Text(n) == OnSide(n.flags.left, CodePad(n, |sign| + |w|), sign, w)
  {
    hide Text, Prefixed, Reversed;
    TextIs(n);
  }

  // ---- What the code keeps --------------------------------------------------------------------

  /** The digit buffer holds all digits. */
  predicate Fits(n: Number)
    requires n.Valid()
  {
    |AllOf(n.value, n.base, n.flags.upper)| <= BUFFER_SIZE
  }

  /** How many digits the code starts from. */
  lemma {:induction false} DigitPartLength(n: Number)
    requires n.Valid() && Fits(n)
    ensures |DigitPart(n)| ==
      if n.value == 0 then (if n.flags.precision then 0 else 1) else |AllOf(n.value, n.base, n.flags.upper)|
    ensures n.value == 0 ==> DigitPart(n) == Repeat('0', |DigitPart(n)|)
    ensures n.value > 0 ==> Reversed(DigitPart(n)) == AllOf(n.value, n.base, n.flags.upper)
  {
    if n.value > 0 {
      FewDigits(n.value, n.base, n.flags.upper, BUFFER_SIZE);
      WholeNumeral(n.value, n.base, BUFFER_SIZE, n.flags.upper);
    } else {
      ZeroNumeral(n.base, n.flags.upper);
    }
  }

  lemma {:induction false} ZeroNumeral(base: nat, upper: bool)
    requires 2 <= base <= 16
    ensures Numeral(0, base, BUFFER_SIZE, upper) == ['0']
  {
    OneDigit(0, base, BUFFER_SIZE, upper);
  }

  /** As long as no digit is stripped, the buffer turned round is the digits under zeros. */
  lemma {:induction false} StrippedIs(n: Number)
    requires n.Valid() && Fits(n)
    ensures var all := AllOf(n.value, n.base, n.flags.upper);
      |Stripped(n)| >= |all| ==> Reversed(Stripped(n)) == AtLeast(all, |Stripped(n)|)
  {
    hide Numeral, AllOf, Reversed;
    var all := AllOf(n.value, n.base, n.flags.upper);
    var d, s := DigitPart(n), Stripped(n);
    DigitPartLength(n);
    PaddedIsZeros(n);
    if n.value == 0 {
      ReversedZeros([], |s|);
      assert s == [] + Repeat('0', |s|);
      EmptyReversed();
      ZeroHasNone(n.base, n.flags.upper);
    } else if |s| >= |all| {
      assert s == d + Repeat('0', |s| - |d|);
      ReversedZeros(d, |s| - |d|);
    }
  }

  lemma {:induction false} EmptyReversed()
    ensures Reversed([]) == []
  {
  }

  lemma {:induction false} ZeroHasNone(base: nat, upper: bool)
    requires 2 <= base <= 16
    ensures AllOf(0, base, upper) == []
  {
  }

  // ---- When they agree ------------------------------------------------------------------------

  /** What the code prints is what is asked for: same sign, same word, same padding. */
  lemma {:induction false} Agree(n: Number, q: Asked, ignored: bool)
    requires q.Valid() && Converts(n, q, ignored)
    requires Reversed(Prefixed(n)) == AskedWord(q) && SignFor(n, |Prefixed(n)|) == AskedSign(q)
    ensures Text(n) == AskedText(q)
  {
    hide Text, AskedText, Prefixed, OnSide, AllOf, AskedDigits;
    CodeIsSpread(n);
    AskedIsSpread(q);
    AskedFilledIs(q);
  }

  /** Different numbers of characters that are not spaces. */
  lemma {:induction false} Disagree(n: Number, q: Asked, ignored: bool)
    requires q.Valid() && Converts(n, q, ignored) && Plain(Prefixed(n))
    requires var sign := SignFor(n, |Prefixed(n)|);
      |Prefixed(n)| + (if sign == [] || sign == " " then 0 else 1)
      != |AskedWord(q)| + (if AskedSign(q) == [] || AskedSign(q) == " " then 0 else 1)
    ensures Text(n) != AskedText(q)
  {
    hide Text, AskedText, Prefixed, OnSide, AskedWord, Plain;
    CodeIsSpread(n);
    AskedIsSpread(q);
    AskedPlain(q);
    ReversedPlain(Prefixed(n));
    var w, w' := AskedWord(q), Reversed(Prefixed(n));
    var sign := SignFor(n, |w'|);
    CountDiffers(q.left, Excess(q.width, |AskedSign(q)| + |w|), AskedSign(q), w, CodePad(n, |sign| + |w'|), sign, w');
  }

  /** The space for a sign was dropped: the padding puts it back, or the texts differ. */
  lemma {:induction false} SpaceDropped(n: Number, q: Asked, ignored: bool)
    requires q.Valid() && Converts(n, q, ignored) && Plain(Prefixed(n))
    requires Reversed(Prefixed(n)) == AskedWord(q) && |Prefixed(n)| == BUFFER_SIZE
    requires AskedSign(q) == " " && SignFor(n, |Prefixed(n)|) == []
    ensures Text(n) == AskedText(q) <==> !q.left && !n.flags.zeroPad && q.width > BUFFER_SIZE
  {
    hide Text, AskedText, Prefixed, AskedWord, Plain, Spread;
    CodeIsSpread(n);
    AskedIsSpread(q);
    ReversedPlain(Prefixed(n));
    var w := AskedWord(q);
    if q.left {
      StartDiffers(w, Excess(q.width, 1 + |w|), CodePad(n, |w|));
    } else if !n.flags.zeroPad && q.width > BUFFER_SIZE {
      SpaceMoves(Excess(q.width, 1 + |w|), w, 0);
    }
  }

  /** How many digits the code pads to. */
  lemma {:induction false} PaddedLength(n: Number, q: Asked, ignored: bool)
    requires q.Valid() && Converts(n, q, ignored) && Fits(n)
    ensures var d := |AllOf(q.value, q.base, q.upper)|;
      var e := if q.value == 0 && !n.flags.precision then 1 else d;
      && e <= BUFFER_SIZE
      && |Padded(n)| == if q.left then e
           else Max(e, Min(if n.flags.zeroPad then FieldWidth(n) else n.prec, BUFFER_SIZE))
    ensures Plain(Padded(n))
  {
    hide Numeral, AllOf, Plain;
    DigitPartLength(n);
    PaddedIsZeros(n);
    ZeroHasNone(q.base, q.upper);
  }

  /** The condition in numbers: the digits padded to are those asked for, and the sign is kept
      or is a space that padding puts back. */
  lemma {:induction false} PlainNumbers(n: Number, q: Asked, ignored: bool)
    requires q.Valid() && Converts(n, q, ignored) && !IsAlternate(q) && Fits(n)
    ensures var sign, kept := AskedSign(q), SignFor(n, |Padded(n)|);
      Conforms(q, ignored) <==>
        (|Padded(n)| == |AskedFilled(q)|
         && (kept == sign || (sign == " " && !q.left && !n.flags.zeroPad && q.width > BUFFER_SIZE)))
    ensures AskedPrefix(q) == [] && |Padded(n)| <= |AskedFilled(q)|
  {
    hide DigitPart, Padded, AllOf, AskedFilled, Plain;
    AskedFilledIs(q);
    ZeroHasNone(q.base, q.upper);
    PaddedLength(n, q, ignored);
    if q.value > 0 {
      FirstIsNotZero(q.value, q.base, q.upper);
    }
  }

  lemma {:induction false} CutPlain(n: Number)
    requires n.Valid()
    ensures Plain(Prefixed(n))
  {
    PaddedIsZeros(n);
    StrippedPlain(n);
  }

  lemma {:induction false} StrippedPlain(n: Number)
    requires n.Valid() && Plain(Padded(n))
    ensures Plain(Prefixed(n))
  {
    hide Padded;
  }

  lemma {:induction false} PlainCase(n: Number, q: Asked, ignored: bool)
    requires q.Valid() && Converts(n, q, ignored) && !IsAlternate(q) && Fits(n)
    ensures Text(n) == AskedText(q) <==> Conforms(q, ignored)
  {
    hide Text, AskedText, DigitPart, Padded, AllOf, AskedFilled, Reversed, Plain, Conforms;
    PlainNumbers(n, q, ignored);
    CutPlain(n);
    assert Prefixed(n) == Stripped(n) == Padded(n);
    assert AskedWord(q) == AskedFilled(q);
    if |Padded(n)| == |AskedFilled(q)| {
      StrippedIs(n);
      AskedFilledIs(q);
      AllNoLonger(q);
      if SignFor(n, |Padded(n)|) == AskedSign(q) {
        Agree(n, q, ignored);
      } else if AskedSign(q) == " " {
        SpaceDropped(n, q, ignored);
      } else {
        Disagree(n, q, ignored);
      }
    } else {
      Disagree(n, q, ignored);
    }
  }

  lemma {:induction false} AllNoLonger(q: Asked)
    requires q.Valid()
    ensures |AllOf(q.value, q.base, q.upper)| <= |AskedFilled(q)|
  {
    AskedFilledIs(q);
  }

  // ---- With an effect of `#` ------------------------------------------------------------------

  /** The word asked for is the prefix and the digits under zeros; in base 8 just those. */
  lemma {:induction false} AlternateWord(q: Asked)
    requires q.Valid() && IsAlternate(q) && (q.base == 2 || q.base == 8 || q.base == 16)
    requires AskedSign(q) == []
    ensures var all := AllOf(q.value, q.base, q.upper); var t := |AskedFilled(q)|;
      && 0 < |all| <= t
      && AskedWord(q) == AskedPrefix(q) + AtLeast(all, t) && |AskedPrefix(q)| == (if q.base == 8 then 0 else 2)
      && t == (var a := Max(|all|, if q.precision.Some? then q.precision.value else 1);
               var b := if q.base == 8 && a == |all| then a + 1 else a;
               if Fills(q) then Max(b, Excess(q.width, |AskedPrefix(q)|)) else b)
  {
    hide AllOf, AskedDigits, AskedFilled;
    AskedFilledIs(q);
    FirstIsNotZero(q.value, q.base, q.upper);
  }

  /** The buffer with its prefix, turned round. */
  lemma {:induction false} AlternateBuffer(n: Number, q: Asked, ignored: bool)
    requires q.Valid() && Converts(n, q, ignored) && IsAlternate(q) && Fits(n)
    ensures var all := AllOf(q.value, q.base, q.upper); var s := |Stripped(n)|; var w := Reversed(Prefixed(n));
      && |w| == Min(s + PrefixLength(q), BUFFER_SIZE)
      && (|all| <= s && s + |AskedPrefix(q)| <= BUFFER_SIZE && q.base != 8 ==> w == AskedPrefix(q) + AtLeast(all, s))
      && (|all| <= s && q.base == 8 ==> w == AtLeast(all, |w|))
      && (q.base == 2 && s == BUFFER_SIZE - 1 ==> w[0] == 'b')
  {
    hide AllOf, DigitPart, Padded, Reversed, Stripped;
    var all := AllOf(q.value, q.base, q.upper);
    var s := Stripped(n);
    StrippedIs(n);
    if |s| + |Mark(n)| < BUFFER_SIZE {
      ReversedPrefix(n);
      if q.base == 8 && |all| <= |s| {
        OneMoreZero(AtLeast(all, |s|));
        AtLeastTwice(all, |s|, |s| + 1);
      }
    } else if q.base == 2 && |s| == BUFFER_SIZE - 1 {
      assert Prefixed(n) == s + ['b'];
      ReversedAppend(s, 'b');
    }
  }

  /** How many digits are left of the padded ones. */
  lemma {:induction false} AlternateLength(n: Number, q: Asked, ignored: bool)
    requires q.Valid() && Converts(n, q, ignored) && IsAlternate(q) && Fits(n)
    ensures var d := |AllOf(q.value, q.base, q.upper)|;
      var p := if q.left then d else Max(d, Min(if n.flags.zeroPad then q.width else n.prec, BUFFER_SIZE));
      && 0 < d <= BUFFER_SIZE
      && |Stripped(n)| == if n.flags.precision || p != q.width then p
                          else if q.base == 16 && p > 1 then p - 2 else p - 1
    ensures Plain(Prefixed(n))
  {
    hide AllOf, DigitPart, Padded, Plain;
    PaddedLength(n, q, ignored);
    FirstIsNotZero(q.value, q.base, q.upper);
    StrippedPlain(n);
  }

  /** The binary prefix that lost its zero: as many characters as asked for, but others. */
  lemma {:induction false} PrefixLost(n: Number, q: Asked, ignored: bool)
    requires q.Valid() && Converts(n, q, ignored) && AskedSign(q) == [] && !q.left && n.flags.zeroPad
    requires |Prefixed(n)| == |AskedWord(q)| == q.width > 0 && Reversed(Prefixed(n))[0] != AskedWord(q)[0]
    ensures Text(n) != AskedText(q)
  {
    hide Text, AskedText, Prefixed, AskedWord, Reversed, AllOf;
    CodeIsSpread(n);
    AskedIsSpread(q);
    var w, w' := AskedWord(q), Reversed(Prefixed(n));
    assert Spread(0, "", w, 0)[0] == w[0];
    assert Spread(0, "", w', 0)[0] == w'[0];
  }

  /** The condition in numbers: as many characters as asked for, the prefix whole. */
  lemma {:induction false} AlternateNumbers(n: Number, q: Asked, ignored: bool)
    requires q.Valid() && Converts(n, q, ignored) && IsAlternate(q) && Fits(n)
    ensures var s, w, d := |Stripped(n)|, |AskedWord(q)|, |AllOf(q.value, q.base, q.upper)|;
      var lost := q.base == 2 && s == BUFFER_SIZE - 1;
      && (Conforms(q, ignored) <==> |Prefixed(n)| == w && !lost)
      && (|Prefixed(n)| == w && !lost ==> d <= s && s + |AskedPrefix(q)| <= BUFFER_SIZE)
      && (|Prefixed(n)| == w && lost ==> !q.left && n.flags.zeroPad && q.width == w)
  {
    hide DigitPart, Padded, AllOf, AskedFilled, AskedWord, Reversed, Plain, Stripped, Prefixed, AtLeast;
    AlternateWord(q);
    AlternateLength(n, q, ignored);
    AlternateBuffer(n, q, ignored);
  }

  lemma {:induction false} AlternateCase(n: Number, q: Asked, ignored: bool)
    requires q.Valid() && Converts(n, q, ignored) && IsAlternate(q) && Fits(n)
    ensures Text(n) == AskedText(q) <==> Conforms(q, ignored)
  {
    hide Text, AskedText, DigitPart, Padded, AllOf, AskedFilled, AskedWord, Reversed, Plain, Stripped, Prefixed, AtLeast, Conforms;
    AlternateNumbers(n, q, ignored);
    AlternateWord(q);
    AlternateBuffer(n, q, ignored);
    CutPlain(n);
    if |Prefixed(n)| != |AskedWord(q)| {
      Disagree(n, q, ignored);
    } else if q.base == 2 && |Stripped(n)| == BUFFER_SIZE - 1 {
      PrefixLost(n, q, ignored);
    } else {
      Agree(n, q, ignored);
    }
  }

  /** The code prints the text that is asked for exactly under the condition. */
  lemma {:induction false} MeetsStandard(n: Number, q: Asked, ignored: bool)
    requires q.Valid() && Converts(n, q, ignored)
    ensures Text(n) == AskedText(q) <==> Conforms(q, ignored)
  {
    hide Text, AskedText, Conforms;
    if !Fits(n) {
      TooLong(n, q, ignored);
    } else if IsAlternate(q) {
      AlternateCase(n, q, ignored);
    } else {
      PlainCase(n, q, ignored);
    }
  }

  /** The precision is a negative argument. */
  predicate Ignores(d: Directive, args: seq<Arg>, k: nat) {
    d.precision == Some(FromArg) && PrecisionStar(d, args, k) < 0
  }

  lemma {:induction false} DirectiveConverts(d: Directive, args: seq<Arg>, k: nat, f: Field, v: int)
    requires d.letter in "diuoxXb" && FieldOf(d, args, k) == Some(f)
    requires v < 0 ==> d.letter == 'd' || d.letter == 'i'
    ensures Converts(NumberOf(d, f, v), AskedOf(d, args, k, v), Ignores(d, args, k))
  {
  }

  /** Every integer directive, with any flags, width, precision, length and arguments, prints the
      text that the standard asks for exactly under the condition. */
  lemma {:induction false} IntegerIsStandard(d: Directive, args: seq<Arg>, k: nat, f: Field, v: int)
    requires d.letter in "diuoxXb" && FieldOf(d, args, k) == Some(f)
    requires f.next < |args| && IntegerArg(d, args[f.next]) == Some(v)
    ensures var q := AskedOf(d, args, k, v);
      DirectiveText(d, args, k) == Some((AskedText(q), f.next + 1)) <==> Conforms(q, Ignores(d, args, k))
  {
    hide Text, AskedText, Conforms, NumberOf, Converts, FieldOf;
    DirectiveConverts(d, args, k, f, v);
    MeetsStandard(NumberOf(d, f, v), AskedOf(d, args, k, v), Ignores(d, args, k));
    assert ArgText(d, f, args[f.next]) == Some(Text(NumberOf(d, f, v)));
  }

  /** More digits than the buffer holds. */
  lemma {:induction false} TooLong(n: Number, q: Asked, ignored: bool)
    requires q.Valid() && Converts(n, q, ignored) && !Fits(n)
    ensures Text(n) != AskedText(q) && !Conforms(q, ignored)
  {
    hide Text, AskedText, DigitPart, Padded, AllOf, AskedFilled, Reversed, Plain, Stripped, Prefixed, AtLeast;
    AskedFilledIs(q);
    CutPlain(n);
    Disagree(n, q, ignored);
  }
}
