/** Inputs at which the code departs from what it is meant to do, one for each condition that the
    laws of the heap and of formatted output carry. */
module Deviations {
  import opened Words
  import opened HeapSpec
  import opened Numerals
  import opened Sinks
  import opened Ntoa
  import opened NtoaLaws
  import opened Format
  import opened FormatLaws
  import opened DirectiveLaws
  import opened NtoaStandard
  import opened NtoaConforms

  // ---- The heap -------------------------------------------------------------------------------

  /** A request for 2^32 - 1 bytes wraps to 0 and is granted a block of no bytes. */
  lemma {:induction false} MallocWraps()
    ensures Malloc(Fresh(16, 1028), 0xFFFF_FFFF).0 == Some(Block(16, 0))
  {
    assert AlignUp(0xFFFF_FFFF) == 0;
    assert FirstFit([Block(16, 1000)], 0) == 0;
  }

  // ---- Counts in a format ---------------------------------------------------------------------

  lemma {:induction false} ValueOfTwo(a: char, b: char)
    ensures ValueOf([a], 10) == DigitValue(a)
    ensures ValueOf([a, b], 10) == 10 * DigitValue(a) + DigitValue(b)
  {
    ValueStep([], a, 10);
    assert [] + [a] == [a];
    ValueStep([a], b, 10);
    assert [a] + [b] == [a, b];
  }

  lemma {:induction false} ReadOne(fmt: string, i: nat)
    requires i + 1 < |fmt| && IsDigit(fmt[i]) && !IsDigit(fmt[i + 1])
    ensures ReadCount(fmt, i) == (Given(DigitValue(fmt[i])), i + 1)
  {
    hide ValueOf;
    ValueOfTwo(fmt[i], fmt[i]);
    assert DigitsEnd(fmt, i) == i + 1;
    assert fmt[i..i + 1] == [fmt[i]];
  }

  lemma {:induction false} ReadTwo(fmt: string, i: nat)
    requires i + 2 < |fmt| && IsDigit(fmt[i]) && IsDigit(fmt[i + 1]) && !IsDigit(fmt[i + 2])
    ensures ReadCount(fmt, i) == (Given(10 * DigitValue(fmt[i]) + DigitValue(fmt[i + 1])), i + 2)
  {
    hide ValueOf;
    ValueOfTwo(fmt[i], fmt[i + 1]);
    assert DigitsEnd(fmt, i + 1) == i + 2;
    assert fmt[i..i + 2] == [fmt[i], fmt[i + 1]];
  }

  // ---- Formatted output -----------------------------------------------------------------------

  /** `%.32d` of -1: the zeros fill the digit buffer and the sign is lost. */
  lemma {:induction false} SignLost()
    ensures var r := Printed("%.32d", 0, [WordArg(0xFFFF_FFFF)], 0);
      r.Some? && Reading(r.value.0, 10) != -1
  {
    hide ReadDirective, Printed;
    PreciseRead();
    SignLostIn("%.32d");
  }

  lemma {:induction false} SignLostIn(fmt: string)
    requires |fmt| > 0 && fmt[0] == '%'
    requires ReadDirective(fmt, 1)
      == Some((Plainly(false, false, false, Absent, Some(Given(32)), NoLength, 'd'), |fmt|))
    ensures var r := Printed(fmt, 0, [WordArg(0xFFFF_FFFF)], 0);
      r.Some? && Reading(r.value.0, 10) != -1
  {
    hide ReadDirective, Printed, Text, NumberOf, Power;
    var d := Plainly(false, false, false, Absent, Some(Given(32)), NoLength, 'd');
    var f := Field(false, 0, 32, 0);
    OneInteger(fmt, d, [WordArg(0xFFFF_FFFF)], f, -1);
    FitsBuffer(1, 10);
    NumberReadsBack(d, f, -1);
  }

  lemma {:induction false} PreciseRead()
    ensures ReadDirective("%.32d", 1)
      == Some((Plainly(false, false, false, Absent, Some(Given(32)), NoLength, 'd'), 5))
  {
    ReadTwo("%.32d", 2);
  }

  /** `%#2x` of 0x12: both digits are stripped to make room for the prefix. */
  lemma {:induction false} DigitsStripped()
    ensures Printed("%#2x", 0, [WordArg(0x12)], 0) == Some(("0x", 1))
  {
    var d := Plainly(false, false, true, Given(2), None, NoLength, 'x');
    ReadOne("%#2x", 2);
    assert ReadDirective("%#2x", 1) == Some((d, 4));
    hide ReadDirective;
    var f := Field(false, 2, 0, 0);
    OneInteger("%#2x", d, [WordArg(0x12)], f, 0x12);
    var n := NumberOf(d, f, 0x12);
    TwoDigits(1, 2, 16, BUFFER_SIZE, false);
    assert |Padded(n)| == 2;
    assert Prefixed(n) == ['x'] + ['0'];
    ReversedAppend(['x'], '0');
    assert Reversed(['x']) == ['x'];
    assert Text(n) == "0x";
  }

  /** `%-.5d` of 7: the precision is ignored. */
  lemma {:induction false} PrecisionLost()
    ensures Printed("%-.5d", 0, [WordArg(7)], 0) == Some(("7", 1))
  {
    hide Printed, Text, NumberOf;
    var d := Plainly(true, false, false, Absent, Some(Given(5)), NoLength, 'd');
    LeftRead();
    OneInteger("%-.5d", d, [WordArg(7)], Field(true, 0, 5, 0), 7);
    SevenText(d);
  }

  lemma {:induction false} LeftRead()
    ensures ReadDirective("%-.5d", 1)
      == Some((Plainly(true, false, false, Absent, Some(Given(5)), NoLength, 'd'), 5))
  {
    ReadOne("%-.5d", 3);
  }

  lemma {:induction false} SevenText(d: Directive)
    requires d == Plainly(true, false, false, Absent, Some(Given(5)), NoLength, 'd')
    ensures Text(NumberOf(d, Field(true, 0, 5, 0), 7)) == "7"
  {
    hide Text;
    OnlySeven(NumberOf(d, Field(true, 0, 5, 0), 7));
  }

  lemma {:induction false} OnlySeven(n: Number)
    requires n.Valid() && n.value == 7 && n.base == 10 && !n.negative && n.width == 0 && n.flags.left
    requires !n.flags.plus && !n.flags.space && !n.flags.hash
    ensures Text(n) == "7"
  {
    OneDigit(7, 10, BUFFER_SIZE, n.flags.upper);
    assert Signed(n) == ['7'];
  }

  /** `%040d` of 7: zeros fill 32 of the 40 places. */
  lemma {:induction false} FieldShort()
    ensures var r := Printed("%040d", 0, [WordArg(7)], 0); r.Some? && |r.value.0| == 32
  {
    var d := Plainly(false, true, false, Given(40), None, NoLength, 'd');
    ReadTwo("%040d", 2);
    assert ReadDirective("%040d", 1) == Some((d, 5));
    hide ReadDirective;
    var f := Field(false, 40, 0, 0);
    OneInteger("%040d", d, [WordArg(7)], f, 7);
    TextLength(NumberOf(d, f, 7));
  }

  // ---- Against the standard -------------------------------------------------------------------

  /** `%.*d` of 0 with a precision of -1 prints nothing; a "0" is asked for. */
  lemma {:induction false} NegativePrecisionOfZero()
    ensures var args := [WordArg(0xFFFF_FFFF), WordArg(0)];
      var d := Plainly(false, false, false, Absent, Some(FromArg), NoLength, 'd');
      && Printed("%.*d", 0, args, 0) == Some(("", 2))
      && AskedText(AskedOf(d, args, 0, 0)) == "0"
  {
    var args := [WordArg(0xFFFF_FFFF), WordArg(0)];
    var d := Plainly(false, false, false, Absent, Some(FromArg), NoLength, 'd');
    assert ReadDirective("%.*d", 1) == Some((d, 4));
    hide ReadDirective;
    var f := Field(false, 0, 0, 1);
    OneInteger("%.*d", d, args, f, 0);
    assert Signed(NumberOf(d, f, 0)) == [];
    assert Text(NumberOf(d, f, 0)) == "";
    assert AskedFilled(AskedOf(d, args, 0, 0)) == "0";
  }

  /** `%0*.*d` of 42 with a width of 5 and a precision of -1 is filled with spaces; zeros are
      asked for. */
  lemma {:induction false} NegativePrecisionOfField()
    ensures var args := [WordArg(5), WordArg(0xFFFF_FFFF), WordArg(42)];
      var d := Plainly(false, true, false, FromArg, Some(FromArg), NoLength, 'd');
      && Printed("%0*.*d", 0, args, 0) == Some(("   42", 3))
      && AskedText(AskedOf(d, args, 0, 42)) == "00042"
  {
    var args := [WordArg(5), WordArg(0xFFFF_FFFF), WordArg(42)];
    var d := Plainly(false, true, false, FromArg, Some(FromArg), NoLength, 'd');
    hide Printed, Text, NumberOf, ReadDirective, AskedText, AskedOf;
    StarsRead();
    OneInteger("%0*.*d", d, args, Field(false, 5, 0, 2), 42);
    FieldText(d);
    FieldAsked(d, args);
  }

  lemma {:induction false} FieldText(d: Directive)
    requires d == Plainly(false, true, false, FromArg, Some(FromArg), NoLength, 'd')
    ensures Text(NumberOf(d, Field(false, 5, 0, 2), 42)) == "   42"
  {
    FortyTwo();
    assert Signed(NumberOf(d, Field(false, 5, 0, 2), 42)) == ['2', '4'];
  }

  lemma {:induction false} FieldAsked(d: Directive, args: seq<Arg>)
    requires d == Plainly(false, true, false, FromArg, Some(FromArg), NoLength, 'd')
    requires args == [WordArg(5), WordArg(0xFFFF_FFFF), WordArg(42)]
    ensures AskedText(AskedOf(d, args, 0, 42)) == "00042"
  {
    hide AllOf;
    FortyTwo();
    var q := Asked(42, false, 10, false, false, false, false, true, false, 5, None);
    assert AskedOf(d, args, 0, 42) == q;
    hide AskedOf;
    assert AskedDigits(q) == "42";
    assert AskedFilled(q) == "00042";
  }

  lemma {:induction false} StarsRead()
    ensures ReadDirective("%0*.*d", 1)
      == Some((Plainly(false, true, false, FromArg, Some(FromArg), NoLength, 'd'), 6))
  {
  }

  lemma {:induction false} FortyTwo()
    ensures Numeral(42, 10, BUFFER_SIZE, false) == ['2', '4'] && Reversed(['2', '4']) == "42"
    ensures AllOf(42, 10, false) == "42"
  {
    TwoDigits(4, 2, 10, BUFFER_SIZE, false);
    ReversedAppend(['2'], '4');
    assert Reversed(['2']) == ['2'] && ['2'] + ['4'] == ['2', '4'];
    PowersOfTwo();
    PowerMonotone(2, 10, 32, 32);
    WholeNumeral(42, 10, BUFFER_SIZE, false);
  }

  /** `%#.0o` of 0 prints nothing; a "0" is asked for. */
  lemma {:induction false} OctalZeroLost()
    ensures var d := Plainly(false, false, true, Absent, Some(Given(0)), NoLength, 'o');
      && Printed("%#.0o", 0, [WordArg(0)], 0) == Some(("", 1))
      && AskedText(AskedOf(d, [WordArg(0)], 0, 0)) == "0"
  {
    var d := Plainly(false, false, true, Absent, Some(Given(0)), NoLength, 'o');
    ReadOne("%#.0o", 3);
    assert ReadDirective("%#.0o", 1) == Some((d, 5));
    hide ReadDirective;
    var f := Field(false, 0, 0, 0);
    OneInteger("%#.0o", d, [WordArg(0)], f, 0);
    assert Signed(NumberOf(d, f, 0)) == [];
    assert Text(NumberOf(d, f, 0)) == "";
    assert AskedFilled(AskedOf(d, [WordArg(0)], 0, 0)) == "0";
  }

  /** `%llb` of 2^32 has more digits than the buffer. */
  lemma {:induction false} BinaryCut()
    ensures var d := Plainly(false, false, false, Absent, None, LL, 'b');
      var r := Printed("%llb", 0, [QuadArg(0x1_0000_0000)], 0);
      && r.Some? && Reading(r.value.0, 2) != 0x1_0000_0000
      && r.value.0 != AskedText(AskedOf(d, [QuadArg(0x1_0000_0000)], 0, 0x1_0000_0000))
  {
    var d, args := Plainly(false, false, false, Absent, None, LL, 'b'), [QuadArg(0x1_0000_0000)];
    assert ReadDirective("%llb", 1) == Some((d, 4));
    hide ReadDirective;
    var f := Field(false, 0, 0, 0);
    OneInteger("%llb", d, args, f, 0x1_0000_0000);
    PowersOfTwo();
    NumberReadsBack(d, f, 0x1_0000_0000);
    DirectiveConverts(d, args, 0, f, 0x1_0000_0000);
    FewDigits(0x1_0000_0000, 2, false, BUFFER_SIZE);
    TooLong(NumberOf(d, f, 0x1_0000_0000), AskedOf(d, args, 0, 0x1_0000_0000), false);
  }
}
