/** Integer conversion as ISO C99 section 7.19.6.1 has it: what the standard asks for is said on
    the directive and its arguments, with numerals of any length and no buffer.  Two things that
    the standard leaves open are taken thus: `#` beside `d`, `i` and `u` does nothing, and `b` asks
    for what `x` asks, in base 2. */
module NtoaStandard {
  import opened Words
  import opened Numerals
  import opened Sinks
  import opened Ntoa
  import opened NtoaLaws
  import opened Format
  import opened Columns

  // ---- What the standard asks for -------------------------------------------------------------

  /** A conversion as the standard sees it: a number, and flags, width and precision, of which a
      negative width has become the flag `-` and a negative precision no precision at all. */
  datatype Asked = Asked(value: nat, negative: bool, base: nat, upper: bool,
                         plus: bool, space: bool, hash: bool, zero: bool, left: bool,
                         width: nat, precision: Option<nat>) {
    predicate Valid() {
      2 <= base <= 16
    }
  }

  /** The argument that a star takes. */
  function Star(args: seq<Arg>, k: nat): int {
    if CountArg(args, k).Some? then CountArg(args, k).value else 0
  }

  /** The argument that the star of the precision takes. */
  function PrecisionStar(d: Directive, args: seq<Arg>, k: nat): int {
    Star(args, if d.width.FromArg? then k + 1 else k)
  }

  /** The base that a letter asks for. */
  function AskedBase(letter: char): (base: nat)
    requires letter in "diuoxXb"
    ensures 2 <= base <= 16
  {
    match letter
    case 'x' => 16
    case 'X' => 16
    case 'o' => 8
    case 'b' => 2
    case _ => 10
  }

  /** The code's table of letters is that of the standard. */
  lemma {:induction false} Letters(letter: char)
    ensures IsInteger(letter) <==> letter in "diuoxXb"
    ensures letter in "diuoxXb" ==> BaseOf(letter) == AskedBase(letter)
    ensures IsSigned(letter) <==> letter == 'd' || letter == 'i'
  {
  }

  /** The conversion that a directive asks for of the value `v`, its stars taken from `args`. */
  function AskedOf(d: Directive, args: seq<Arg>, k: nat, v: int): (q: Asked)
    requires d.letter in "diuoxXb"
    ensures q.Valid()
  {
    var signed := d.letter == 'd' || d.letter == 'i';
    var width: int := match d.width
      case Absent => 0
      case Given(n) => n
      case FromArg => Star(args, k);
    var precision := match d.precision
      case None => None
      case Some(Absent) => Some(0)
      case Some(Given(n)) => Some(n)
      case Some(FromArg) =>
        var p := PrecisionStar(d, args, k);
        if p < 0 then None else Some(p);
    Asked(if v < 0 then -v else v, v < 0, AskedBase(d.letter), d.letter == 'X',
          d.plus && signed, d.space && signed, d.hash, d.zeroPad,
          d.left || width < 0, if width < 0 then -width else width, precision)
  }

  function AskedDigit(digit: nat, upper: bool): char
    requires digit < 16
  {
    if upper then "0123456789ABCDEF"[digit] else "0123456789abcdef"[digit]
  }

  /** All digits of a number, most significant first; none for zero. */
  function AllOf(value: nat, base: nat, upper: bool): (s: string)
    requires 2 <= base <= 16
    decreases value
  {
    if value == 0 then []
    else
      QuotientShrinks(value, base);
      AllOf(Quotient(value, base), base, upper) + [AskedDigit(Remainder(value, base), upper)]
  }

  /** At least as many digits as the precision, which is 1 when left out; in base 8, `#` makes
      the first digit a zero. */
  function AskedDigits(q: Asked): string
    requires q.Valid()
  {
    var s := AtLeast(AllOf(q.value, q.base, q.upper), if q.precision.Some? then q.precision.value else 1);
    if q.hash && q.base == 8 && !(s != [] && s[0] == '0') then ['0'] + s else s
  }

  function AskedSign(q: Asked): (s: string)
    ensures |s| <= 1 && (s != [] ==> !IsPlain(s[0]))
  {
    if q.negative then ['-'] else if q.plus then ['+'] else if q.space then [' '] else []
  }

  function AskedPrefix(q: Asked): (s: string)
    ensures |s| <= 2
  {
    if !q.hash || q.value == 0 then []
    else if q.base == 16 then (if q.upper then "0X" else "0x")
    else if q.base == 2 then "0b"
    else []
  }

  /** The flag `0` fills the field with zeros, but not beside `-` or a precision. */
  predicate Fills(q: Asked) {
    q.zero && !q.left && q.precision.None?
  }

  /** Digits, and the zeros that fill the field. */
  function AskedFilled(q: Asked): string
    requires q.Valid()
  {
    var s := AskedDigits(q);
    if Fills(q) then AtLeast(s, Excess(q.width, |AskedSign(q)| + |AskedPrefix(q)|)) else s
  }

  /** The text: sign, prefix, digits, and spaces up to the width, behind them with `-`. */
  function AskedText(q: Asked): string
    requires q.Valid()
  {
    var body := AskedSign(q) + (AskedPrefix(q) + AskedFilled(q));
    var pad := Repeat(' ', Excess(q.width, |body|));
    if q.left then body + pad else pad + body
  }

  // ---- Numerals of any length -----------------------------------------------------------------

  /** The code's digits are the ones asked for. */
  lemma {:induction false} SameDigit(digit: nat, upper: bool)
    requires digit < 16
    ensures DigitChar(digit, upper) == AskedDigit(digit, upper)
  {
    if digit < 8 {
      assert digit in [0, 1, 2, 3, 4, 5, 6, 7];
    } else {
      assert digit in [8, 9, 10, 11, 12, 13, 14, 15];
    }
  }

  lemma {:induction false} FewDigits(value: nat, base: nat, upper: bool, k: nat)
    requires 2 <= base <= 16
    ensures |AllOf(value, base, upper)| <= k <==> value < Power(base, k)
    decreases k
  {
    if value > 0 && k > 0 {
      var q := Quotient(value, base);
      FewDigits(q, base, upper, k - 1);
      if q < Power(base, k - 1) {
        MulMonotone(base, q + 1, Power(base, k - 1));
        Distribute(base, q, 1);
      } else {
        MulMonotone(base, Power(base, k - 1), q);
      }
    }
  }

  /** A numeral that fits is the whole numeral, turned round. */
  lemma {:induction false} WholeNumeral(value: nat, base: nat, room: nat, upper: bool)
    requires 2 <= base <= 16 && 0 < value < Power(base, room)
    ensures Reversed(Numeral(value, base, room, upper)) == AllOf(value, base, upper)
    decreases room
  {
    var q, c := Quotient(value, base), DigitChar(Remainder(value, base), upper);
    var more := MoreDigits(q, base, room - 1, upper);
    SameDigit(Remainder(value, base), upper);
    assert Numeral(value, base, room, upper) == [c] + more;
    assert ([c] + more)[1..] == more;
    if q > 0 {
      if q >= Power(base, room - 1) {
        MulMonotone(base, Power(base, room - 1), q);
        assert false;
      }
      WholeNumeral(q, base, room - 1, upper);
    }
  }

  lemma {:induction false} FirstIsNotZero(value: nat, base: nat, upper: bool)
    requires 2 <= base <= 16 && value > 0
    ensures AllOf(value, base, upper) != [] && AllOf(value, base, upper)[0] != '0'
    decreases value
  {
    var q := Quotient(value, base);
    QuotientShrinks(value, base);
    if q > 0 {
      FirstIsNotZero(q, base, upper);
    } else {
      SameDigit(value, upper);
      Digits(value, upper);
    }
  }

  // ---- What is asked for, digit by digit ------------------------------------------------------

  /** The number of digits asked for before zeros fill the field. */
  function DigitCount(q: Asked): nat
    requires q.Valid()
  {
    var d := |AllOf(q.value, q.base, q.upper)|;
    var a := Max(d, if q.precision.Some? then q.precision.value else 1);
    if q.hash && q.base == 8 && a == d then a + 1 else a
  }

  lemma {:induction false} AskedDigitsAre(q: Asked)
    requires q.Valid()
    ensures AskedDigits(q) == AtLeast(AllOf(q.value, q.base, q.upper), DigitCount(q))
  {
    var all := AllOf(q.value, q.base, q.upper);
    var s := AtLeast(all, if q.precision.Some? then q.precision.value else 1);
    assert q.value == 0 ==> all == [];
    hide AllOf, AskedDigit, Quotient, Remainder;
    if q.value > 0 {
      FirstIsNotZero(q.value, q.base, q.upper);
    }
    if |s| == |all| {
      assert s == all;
      OneMoreZero(all);
    } else {
      assert s[0] == '0';
    }
  }

  /** What is asked for is the number's digits under leading zeros. */
  lemma {:induction false} AskedFilledIs(q: Asked)
    requires q.Valid()
    ensures AskedFilled(q) == AtLeast(AllOf(q.value, q.base, q.upper), |AskedFilled(q)|)
    ensures |AskedFilled(q)| == if Fills(q)
      then Max(DigitCount(q), Excess(q.width, |AskedSign(q)| + |AskedPrefix(q)|)) else DigitCount(q)
  {
    hide AllOf, AskedDigits, AtLeast;
    AskedDigitsAre(q);
    var all := AllOf(q.value, q.base, q.upper);
    AtLeastTwice(all, DigitCount(q), Excess(q.width, |AskedSign(q)| + |AskedPrefix(q)|));
  }

  lemma {:induction false} AllPlain(value: nat, base: nat, upper: bool)
    requires 2 <= base <= 16
    ensures Plain(AllOf(value, base, upper))
    decreases value
  {
    if value > 0 {
      QuotientShrinks(value, base);
      SameDigit(Remainder(value, base), upper);
      Digits(Remainder(value, base), upper);
      AllPlain(Quotient(value, base), base, upper);
    }
  }

  lemma {:induction false} AskedPlain(q: Asked)
    requires q.Valid()
    ensures Plain(AskedWord(q))
  {
    AllPlain(q.value, q.base, q.upper);
    AskedFilledIs(q);
  }

  // ---- What is asked for, in one form ---------------------------------------------------------

  function AskedWord(q: Asked): string
    requires q.Valid()
  {
    AskedPrefix(q) + AskedFilled(q)
  }

  lemma {:induction false} AskedIsSpread(q: Asked)
    requires q.Valid()
    ensures var w := AskedWord(q);
      AskedText(q) == OnSide(q.left, Excess(q.width, |AskedSign(q)| + |w|), AskedSign(q), w)
  {
    hide AskedFilled;
    var body := AskedSign(q) + AskedWord(q);
    var pad := Repeat(' ', Excess(q.width, |body|));
    assert Repeat(' ', 0) + body + pad == body + pad;
    assert pad + body + Repeat(' ', 0) == pad + body;
  }
}
