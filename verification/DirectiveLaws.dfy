/** What each directive of `src/lib/printf.c` prints, and what plain text between directives
    prints, said without the functions that the interpreter is proved against. */
module DirectiveLaws {
  import opened Words
  import opened Numerals
  import opened Sinks
  import opened Ntoa
  import opened NtoaLaws
  import opened Format
  import opened FormatLaws
  import opened Columns
  import opened NtoaStandard
  import opened NtoaConforms

  // ---- What is taken from the arguments -------------------------------------------------------

  /** A star takes an `int`, in two's complement. */
  lemma {:induction false} CountTaken(args: seq<Arg>, k: nat)
    ensures CountArg(args, k).Some? <==> k < |args| && args[k].WordArg? && args[k].word != 0x8000_0000
    ensures CountArg(args, k).Some? ==>
      var w := CountArg(args, k).value;
      (args[k].word - w) % 0x1_0000_0000 == 0 && -0x8000_0000 < w < 0x8000_0000
  {
  }

  /** The star of the width comes before the star of the precision; a negative width turns the
      field to the left, and a negative precision counts as 0. */
  lemma {:induction false} FieldTaken(d: Directive, args: seq<Arg>, k: nat)
    ensures var wide, precise := d.width.FromArg?, d.precision == Some(FromArg);
      var k1 := if wide then k + 1 else k;
      && (FieldOf(d, args, k).Some? <==>
            (wide ==> CountArg(args, k).Some?) && (precise ==> CountArg(args, k1).Some?))
      && (FieldOf(d, args, k).Some? ==>
            var f := FieldOf(d, args, k).value;
            var w := if wide then CountArg(args, k).value else if d.width.Given? then d.width.count else 0;
            var p := if precise then CountArg(args, k1).value
                     else if d.precision.Some? && d.precision.value.Given? then d.precision.value.count else 0;
            && f.width == (if w < 0 then -w else w) && f.left == (d.left || w < 0)
            && f.prec == (if p < 0 then 0 else p) && f.next == if precise then k1 + 1 else k1)
  {
  }

  /** One more than the largest unsigned number of the length. */
  function Range(length: Length): int {
    match length
    case HH => 0x100
    case H => 0x1_0000
    case LL => 0x1_0000_0000_0000_0000
    case J => 0x1_0000_0000_0000_0000
    case _ => 0x1_0000_0000
  }

  /** `v` is `x` modulo `m`, between 0 and `m` or on both sides of 0. */
  predicate Narrowed(v: int, x: nat, m: int, signed: bool)
    requires m > 0
  {
    (x - v) % m == 0 && if signed then -m <= 2 * v < m else 0 <= v < m
  }

  /** An integer conversion takes a 64-bit argument for `ll` and `j` and a word for every other
      length, and narrows it to the length; `d` and `i` are signed. */
  lemma {:induction false} IntegerTaken(d: Directive, arg: Arg)
    requires d.letter in "diuoxXb"
    ensures var signed, m := d.letter == 'd' || d.letter == 'i', Range(d.length);
      var r := IntegerArg(d, arg);
      && (r.Some? <==> if d.length == LL || d.length == J
                       then arg.QuadArg? && !(signed && arg.quad == 0x8000_0000_0000_0000)
                       else arg.WordArg? && !(signed && m > 0x1_0000 && arg.word == 0x8000_0000))
      && (r.Some? ==> Narrowed(r.value, if arg.QuadArg? then arg.quad else arg.word, m, signed))
  {
    Letters(d.letter);
    hide IsSigned, AskedBase, Narrowed;
    match arg {
      case QuadArg(x) => QuadNarrowed(x);
      case WordArg(x) => WordNarrowed(x);
      case StringArg(_) =>
    }
  }

  lemma {:induction false} QuadNarrowed(x: Quad)
    ensures Narrowed(x, x, 0x1_0000_0000_0000_0000, false)
    ensures Narrowed(SignedOf(x, 0x1_0000_0000_0000_0000), x, 0x1_0000_0000_0000_0000, true)
  {
  }

  lemma {:induction false} WordNarrowed(x: Word)
    ensures Narrowed(x, x, 0x1_0000_0000, false) && Narrowed(SignedOf(x, 0x1_0000_0000), x, 0x1_0000_0000, true)
    ensures Narrowed(x % 0x1_0000, x, 0x1_0000, false) && Narrowed(SignedOf(x % 0x1_0000, 0x1_0000), x, 0x1_0000, true)
    ensures Narrowed(x % 0x100, x, 0x100, false) && Narrowed(SignedOf(x % 0x100, 0x100), x, 0x100, true)
  {
    hide Narrowed, SignedOf;
    WholeNarrowed(x);
    HalfNarrowed(x);
    ByteNarrowed(x);
  }

  lemma {:induction false} WholeNarrowed(x: Word)
    ensures Narrowed(x, x, 0x1_0000_0000, false) && Narrowed(SignedOf(x, 0x1_0000_0000), x, 0x1_0000_0000, true)
  {
  }

  lemma {:induction false} HalfNarrowed(x: Word)
    ensures Narrowed(x % 0x1_0000, x, 0x1_0000, false) && Narrowed(SignedOf(x % 0x1_0000, 0x1_0000), x, 0x1_0000, true)
  {
    var high, low := x / 0x1_0000, x % 0x1_0000;
    assert x - low == 0x1_0000 * high && x - (low - 0x1_0000) == 0x1_0000 * (high + 1);
  }

  lemma {:induction false} ByteNarrowed(x: Word)
    ensures Narrowed(x % 0x100, x, 0x100, false) && Narrowed(SignedOf(x % 0x100, 0x100), x, 0x100, true)
  {
    var high, low := x / 0x100, x % 0x100;
    assert x - low == 0x100 * high && x - (low - 0x100) == 0x100 * (high + 1);
  }

  // ---- Text in its field ----------------------------------------------------------------------

  /** `t` is `s` in the field: as wide as the wider of the two, with `s` at the end, or at the
      beginning for `-`, and spaces beside it. */
  predicate Shown(t: string, s: string, f: Field) {
    && |t| == (if |s| < f.width then f.width else |s|)
    && var start := if f.left then 0 else |t| - |s|;
    && (forall k :: 0 <= k < |s| ==> t[start + k] == s[k])
    && (forall k :: 0 <= k < |t| && !(start <= k < start + |s|) ==> t[k] == ' ')
  }

  lemma {:induction false} InFieldShown(s: string, f: Field)
    ensures Shown(InField(s, f), s, f)
  {
  }

  /** `%s` prints its string, or as many of its first characters as the precision says. */
  lemma {:induction false} StringShown(d: Directive, args: seq<Arg>, k: nat, f: Field)
    requires d.letter == 's' && FieldOf(d, args, k) == Some(f)
    requires f.next < |args| && args[f.next].StringArg? && '\0' !in args[f.next].chars
    ensures var s := args[f.next].chars;
      var n := if d.precision.Some? && f.prec < |s| then f.prec else |s|;
      var r := DirectiveText(d, args, k);
      r.Some? && Shown(r.value.0, s[..n], f) && r.value.1 == f.next + 1
  {
    hide FieldOf, InField, Shown;
    var s := args[f.next].chars;
    var n := if d.precision.Some? && f.prec < |s| then f.prec else |s|;
    assert s[..|s|] == s;
    assert ArgText(d, f, args[f.next]) == Some(InField(s[..n], f));
    InFieldShown(s[..n], f);
  }

  /** `%c` prints the character of the argument's low byte, whatever the precision. */
  lemma {:induction false} CharShown(d: Directive, args: seq<Arg>, k: nat, f: Field)
    requires d.letter == 'c' && FieldOf(d, args, k) == Some(f) && f.next < |args| && args[f.next].WordArg?
    ensures var r := DirectiveText(d, args, k);
      && r.Some? && r.value.1 == f.next + 1
      && exists c: char :: c as int == args[f.next].word % 256 && Shown(r.value.0, [c], f)
  {
    hide FieldOf, InField, Shown;
    var c := (args[f.next].word % 256) as char;
    assert ArgText(d, f, args[f.next]) == Some(InField([c], f));
    InFieldShown([c], f);
    assert c as int == args[f.next].word % 256;
  }

  /** Every letter that is not a conversion prints itself and takes no argument of its own. */
  lemma {:induction false} LetterShown(d: Directive, args: seq<Arg>, k: nat, f: Field)
    requires d.letter !in "diuoxXbcspfFeEgG" && FieldOf(d, args, k) == Some(f)
    ensures DirectiveText(d, args, k) == Some(([d.letter], f.next))
  {
  }

  /** Floating point is the only conversion that is not modelled. */
  lemma {:induction false} NothingElseShown(d: Directive, args: seq<Arg>, k: nat)
    ensures d.letter in "fFeEgG" ==> DirectiveText(d, args, k).None?
    ensures DirectiveText(d, args, k).None? && FieldOf(d, args, k).Some? ==> d.letter in "diuoxXbcspfFeEgG"
  {
  }

  // ---- Pointers -------------------------------------------------------------------------------

  /** `%p` without `#`, whatever its width: the upper-case hexadecimal digits of the address,
      eight places with leading zeros and the sign of `+` or a space, or as many digits as the
      precision says if that is more; `-` puts spaces behind in place of the zeros. */
  lemma {:induction false} PointerShown(d: Directive, args: seq<Arg>, k: nat, f: Field)
    requires d.letter == 'p' && !d.hash && FieldOf(d, args, k) == Some(f)
    requires f.next < |args| && args[f.next].WordArg?
    ensures var address := args[f.next].word;
      var sign := if d.plus then "+" else if d.space then " " else "";
      var digits := if address == 0 && d.precision.None? then "0" else AllOf(address, 16, true);
      var word := if f.left then digits else AtLeast(digits, Max(Min(f.prec, 32), 8 - |sign|));
      var body := if |word| < 32 then sign + word else word;
      DirectiveText(d, args, k)
        == Some((if f.left then body + Repeat(' ', Excess(8, |body|)) else body, f.next + 1))
  {
    hide FieldOf, Text, PointerOf, AllOf, AtLeast;
    PointerText(d, f, args[f.next].word);
    assert ArgText(d, f, args[f.next]) == Some(Text(PointerOf(d, f, args[f.next].word)));
  }

  lemma {:induction false} PointerText(d: Directive, f: Field, address: Word)
    requires !d.hash
    ensures var sign := if d.plus then "+" else if d.space then " " else "";
      var digits := if address == 0 && d.precision.None? then "0" else AllOf(address, 16, true);
      var word := if f.left then digits else AtLeast(digits, Max(Min(f.prec, 32), 8 - |sign|));
      var body := if |word| < 32 then sign + word else word;
      Text(PointerOf(d, f, address)) == if f.left then body + Repeat(' ', Excess(8, |body|)) else body
  {
    hide Text, AllOf, Reversed, Padded, AtLeast;
    var n := PointerOf(d, f, address);
    PointerWord(n);
    TextIs(n);
    var w := Reversed(Padded(n));
    var sign := SignFor(n, |w|);
    assert Prefixed(n) == Padded(n);
    hide Prefixed, Repeat, Numeral, DigitPart;
    assert [] + (sign + w) + PadAfter(|w| + |sign|, FieldWidth(n), n.flags)
      == sign + w + PadAfter(|w| + |sign|, FieldWidth(n), n.flags);
    assert sign + w + [] == sign + w;
    assert [] + w == w;
  }

  /** The digits of a pointer under their leading zeros. */
  lemma {:induction false} PointerWord(n: Number)
    requires n.Valid() && n.value < WRAP && n.base == 16 && n.width == 8 && n.flags.zeroPad && n.flags.upper && !n.negative
    ensures var digits := if n.value == 0 && !n.flags.precision then "0" else AllOf(n.value, 16, true);
      var signed := n.flags.plus || n.flags.space;
      Reversed(Padded(n))
        == if n.flags.left then digits else AtLeast(digits, Max(Min(n.prec, 32), if signed then 7 else 8))
  {
    hide Numeral, AllOf, Reversed, Plain;
    var s, e := Padded(n), DigitPart(n);
    AddressDigits(n.value, true);
    DigitPartLength(n);
    PaddedIsZeros(n);
    ReversedZeros(e, |s| - |e|);
    ZeroHasNone(16, true);
    EmptyReversed();
    ReversedZero();
    assert n.value == 0 && !n.flags.precision ==> e == "0";
    assert n.flags.left ==> s == e && Repeat('0', 0) + Reversed(e) == Reversed(e);
  }

  lemma {:induction false} ReversedZero()
    ensures Reversed("0") == "0"
  {
    assert "0"[1..] == [];
  }

  lemma {:induction false} AddressDigits(address: Word, upper: bool)
    ensures |AllOf(address, 16, upper)| <= 8
    ensures |AllOf(address, 16, upper)| <= 7 <==> address < 0x1000_0000
    ensures |AllOf(address, 16, upper)| <= 6 <==> address < 0x100_0000
  {
    assert Power(16, 6) == 0x100_0000;
    assert Power(16, 7) == 0x1000_0000;
    assert Power(16, 8) == 0x1_0000_0000;
    FewDigits(address, 16, upper, 6);
    FewDigits(address, 16, upper, 7);
    FewDigits(address, 16, upper, 8);
  }

  /** `%#p` prints what `%#08X` should, exactly for addresses with room for the prefix. */
  lemma {:induction false} PointerAlternate(d: Directive, args: seq<Arg>, k: nat, f: Field)
    requires d.letter == 'p' && d.hash && !d.plus && !d.space && d.precision.None?
    requires FieldOf(d, args, k) == Some(f) && f.next < |args| && args[f.next].WordArg?
    ensures var address := args[f.next].word;
      var q := Asked(address, false, 16, true, false, false, true, true, f.left, 8, None);
      DirectiveText(d, args, k) == Some((AskedText(q), f.next + 1))
      <==> address < if f.left then 0x1000_0000 else 0x100_0000
  {
    hide Text, AskedText, FieldOf, AllOf;
    var address := args[f.next].word;
    var n, q := PointerOf(d, f, address), Asked(address, false, 16, true, false, false, true, true, f.left, 8, None);
    FieldPlain(d, args, k, f);
    MeetsStandard(n, q, false);
    AddressDigits(address, true);
    if address == 0 {
      ZeroAsked(q);
    }
    assert ArgText(d, f, args[f.next]) == Some(Text(n));
  }

  lemma {:induction false} FieldPlain(d: Directive, args: seq<Arg>, k: nat, f: Field)
    requires FieldOf(d, args, k) == Some(f)
    ensures d.precision.None? ==> f.prec == 0
  {
  }

  lemma {:induction false} ZeroAsked(q: Asked)
    requires q.Valid() && q.value == 0 && q.base == 16 && q.width == 8 && q.precision.None? && AskedSign(q) == []
    ensures |AskedFilled(q)| <= 8
  {
    AskedFilledIs(q);
    ZeroHasNone(q.base, q.upper);
  }

  // ---- Plain text -----------------------------------------------------------------------------

  /** Text without `%` prints itself and takes no argument. */
  lemma {:induction false} PlainPrinted(fmt: string, i: nat, args: seq<Arg>, k: nat)
    requires i <= |fmt| && '%' !in fmt[i..]
    ensures Printed(fmt, i, args, k) == Some((fmt[i..], k))
    decreases |fmt| - i
  {
    if i < |fmt| {
      assert fmt[i..][0] == fmt[i];
      assert fmt[i..] == [fmt[i]] + fmt[i + 1..];
      PlainPrinted(fmt, i + 1, args, k);
    } else {
      assert fmt[i..] == [];
    }
  }

  /** `%%` prints one `%` and takes no argument. */
  lemma {:induction false} PercentPrinted(args: seq<Arg>, k: nat)
    ensures Printed("%%", 0, args, k) == Some(("%", k))
  {
    var d := Plainly(false, false, false, Absent, None, NoLength, '%');
    assert ReadDirective("%%", 1) == Some((d, 2));
    assert DirectiveText(d, args, k) == Some(("%", k));
    assert Printed("%%", 2, args, k) == Some(([], k));
    assert "%" + [] == "%";
  }

  /** Plain text before and after a format stands unchanged around what the format prints. */
  lemma {:induction false} TextAround(before: string, fmt: string, after: string, args: seq<Arg>, k: nat)
    requires '%' !in before && '%' !in after && Printed(fmt, 0, args, k).Some?
    ensures var (s, k') := Printed(fmt, 0, args, k).value;
      Printed(before + fmt + after, 0, args, k) == Some((before + s + after, k'))
  {
    hide Printed;
    var whole, i, j := before + fmt + after, |before|, |before| + |fmt|;
    var (s, k') := Printed(fmt, 0, args, k).value;
    assert whole[0..] == whole && before[0..] == before && whole[..i] == before;
    assert fmt[0..] == fmt && whole[i..] == fmt + after && (fmt + after)[..|fmt|] == fmt;
    assert whole[j..] == after;
    PlainPrinted(before, 0, args, k);
    PrintedInside(before, 0, whole, 0, args, k);
    PrintedInside(fmt, 0, whole, i, args, k);
    PlainPrinted(whole, j, args, k');
    assert before + (s + after) == before + s + after;
  }

  // ---- Formats of one directive ---------------------------------------------------------------

  /** A conversion with the given flags and letter. */
  function Plainly(left: bool, zero: bool, hash: bool, width: Count, precision: Option<Count>,
                   length: Length, letter: char): Directive {
    Directive(zero, left, false, false, hash, width, precision, length, letter)
  }

  /** What a format of one integer directive prints. */
  lemma {:induction false} OneInteger(fmt: string, d: Directive, args: seq<Arg>, f: Field, v: int)
    requires |fmt| > 0 && fmt[0] == '%' && ReadDirective(fmt, 1) == Some((d, |fmt|))
    requires d.letter in "diuoxXb" && FieldOf(d, args, 0) == Some(f)
    requires f.next < |args| && IntegerArg(d, args[f.next]) == Some(v)
    ensures Printed(fmt, 0, args, 0) == Some((Text(NumberOf(d, f, v)), f.next + 1))
  {
    hide ReadDirective, FieldOf, IntegerArg, NumberOf, Text, Printed;
    IntegerDirective(d, f, args, v);
    LastDirective(fmt, d, args, Text(NumberOf(d, f, v)), f.next + 1);
  }

  /** The format `%` and a letter. */
  lemma {:induction false} Bare(letter: char, value: Word)
    requires letter in "diuoxXb" && 0 < value < 0x8000_0000
    ensures Printed(['%', letter], 0, [WordArg(value)], 0)
      == Some((AllOf(value, AskedBase(letter), letter == 'X'), 1))
  {
    hide Printed, Text, NumberOf, AllOf;
    var d := Plainly(false, false, false, Absent, None, NoLength, letter);
    BareRead(d);
    OneInteger(['%', letter], d, [WordArg(value)], Field(false, 0, 0, 0), value);
    BareText(d, value);
  }

  lemma {:induction false} BareRead(d: Directive)
    requires d == Plainly(false, false, false, Absent, None, NoLength, d.letter) && d.letter in "diuoxXb"
    ensures ReadDirective(['%', d.letter], 1) == Some((d, 2))
  {
  }

  lemma {:induction false} BareText(d: Directive, value: Word)
    requires d == Plainly(false, false, false, Absent, None, NoLength, d.letter) && d.letter in "diuoxXb" && value > 0
    ensures Text(NumberOf(d, Field(false, 0, 0, 0), value)) == AllOf(value, AskedBase(d.letter), d.letter == 'X')
  {
    hide Numeral, AllOf, Reversed, Power;
    var n := NumberOf(d, Field(false, 0, 0, 0), value);
    Letters(d.letter);
    FitsBuffer(value, n.base);
    WholeNumeral(value, n.base, BUFFER_SIZE, n.flags.upper);
    assert Signed(n) == Numeral(value, n.base, BUFFER_SIZE, n.flags.upper);
  }

  lemma {:induction false} AllStep(high: nat, low: nat, base: nat, upper: bool)
    requires 2 <= base <= 16 && low < base && base * high + low > 0
    ensures AllOf(base * high + low, base, upper) == AllOf(high, base, upper) + [AskedDigit(low, upper)]
  {
    UniqueRemainder(base * high + low, base, high, low);
    UniqueQuotient(base * high + low, base, high, low);
  }

  lemma {:induction false} UniqueQuotient(value: nat, base: nat, high: nat, low: nat)
    requires base > 0 && low < base && value == base * high + low
    ensures Quotient(value, base) == high
  {
    BelowMultiple(value, base, high);
    BelowMultiple(value, base, high + 1);
    Distribute(base, high, 1);
  }

  /** 171 by each letter. */
  lemma {:induction false} EachLetter()
    ensures var args := [WordArg(171)];
      && Printed("%d", 0, args, 0) == Printed("%i", 0, args, 0) == Printed("%u", 0, args, 0) == Some(("171", 1))
      && Printed("%x", 0, args, 0) == Some(("ab", 1)) && Printed("%X", 0, args, 0) == Some(("AB", 1))
      && Printed("%o", 0, args, 0) == Some(("253", 1)) && Printed("%b", 0, args, 0) == Some(("10101011", 1))
  {
    hide Printed, AllOf;
    Bare('d', 171);
    Bare('i', 171);
    Bare('u', 171);
    Bare('x', 171);
    Bare('X', 171);
    Bare('o', 171);
    Bare('b', 171);
    Decimal171();
    Hex171();
    Octal171();
    Binary171();
  }

  lemma {:induction false} Decimal171()
    ensures AllOf(171, 10, false) == "171"
  {
    AllStep(0, 1, 10, false);
    AllStep(1, 7, 10, false);
    AllStep(17, 1, 10, false);
  }

  lemma {:induction false} Hex171()
    ensures AllOf(171, 16, false) == "ab" && AllOf(171, 16, true) == "AB"
  {
    AllStep(0, 10, 16, false);
    AllStep(10, 11, 16, false);
    AllStep(0, 10, 16, true);
    AllStep(10, 11, 16, true);
  }

  lemma {:induction false} Octal171()
    ensures AllOf(171, 8, false) == "253"
  {
    AllStep(0, 2, 8, false);
    AllStep(2, 5, 8, false);
    AllStep(21, 3, 8, false);
  }

  lemma {:induction false} Binary171()
    ensures AllOf(171, 2, false) == "10101011"
  {
    AllStep(0, 1, 2, false);
    AllStep(1, 0, 2, false);
    AllStep(2, 1, 2, false);
    AllStep(5, 0, 2, false);
    AllStep(10, 1, 2, false);
    AllStep(21, 0, 2, false);
    AllStep(42, 1, 2, false);
    AllStep(85, 1, 2, false);
  }
}
