/** Laws of the format language of `src/lib/printf.c`: directives are read back as they are
    written, formats compose, printed integers read back, and truncation keeps a prefix. */
module FormatLaws {
  import opened Words
  import opened Numerals
  import opened Ntoa
  import NtoaLaws
  import opened NtoaStandard
  import opened Format
  import opened Printf

  // ---- Directives in writing ------------------------------------------------------------------

  function Only(b: bool, c: char): string {
    if b then [c] else []
  }

  function MarksText(m: Marks): string {
    Only(m.zeroPad, '0') +
    (Only(m.left, '-') + (Only(m.plus, '+') + (Only(m.space, ' ') + Only(m.hash, '#'))))
  }

  function CountText(c: Count): string {
    match c
    case Absent => []
    case Given(n) => DecimalText(n)
    case FromArg => "*"
  }

  function PrecisionText(p: Option<Count>): string {
    match p
    case None => []
    case Some(c) => "." + CountText(c)
  }

  function LengthText(l: Length): string {
    match l
    case NoLength => []
    case H => "h"
    case HH => "hh"
    case L => "l"
    case LL => "ll"
    case J => "j"
    case T => "t"
    case Z => "z"
  }

  function MarksOf(d: Directive): Marks {
    Marks(d.zeroPad, d.left, d.plus, d.space, d.hash)
  }

  /** A directive as it is written after its `%`. */
  function Written(d: Directive): string {
    MarksText(MarksOf(d)) + (CountText(d.width) + (PrecisionText(d.precision) + (LengthText(d.length) + [d.letter])))
  }

  /** Directives that can be written: a zero width would be read as the flag `0`. */
  predicate Writable(d: Directive) {
    d.width != Given(0) && d.letter in "diuoxXbcsp%"
  }

  /** `fmt` has `s` at `i`. */
  predicate Holds(fmt: string, i: nat, s: string) {
    i + |s| <= |fmt| && forall k :: 0 <= k < |s| ==> s[k] == fmt[i + k]
  }

  lemma {:induction false} HoldsAt(fmt: string, i: nat, s: string, k: nat)
    requires Holds(fmt, i, s) && k < |s|
    ensures At(fmt, i + k) == s[k] && i + k < |fmt|
  {
  }

  lemma {:induction false} HoldsSlice(fmt: string, i: nat, s: string)
    requires Holds(fmt, i, s)
    ensures fmt[i..i + |s|] == s
  {
  }

  lemma {:induction false} HoldsParts(fmt: string, i: nat, s: string, t: string)
    requires Holds(fmt, i, s + t)
    ensures Holds(fmt, i, s) && Holds(fmt, i + |s|, t)
  {
    forall k | 0 <= k < |s| ensures s[k] == fmt[i + k] {
      assert (s + t)[k] == s[k];
    }
    forall k | 0 <= k < |t| ensures t[k] == fmt[i + |s| + k] {
      assert (s + t)[|s| + k] == t[k];
    }
  }

  /** The marks that a run of flag characters makes of `m`. */
  function Marked(m: Marks, s: string): Option<Marks>
    decreases |s|
  {
    if s == [] then Some(m)
    else if !IsMark(s[0]) then None
    else Marked(WithMark(m, s[0]), s[1..])
  }

  lemma {:induction false} RunRead(fmt: string, i: nat, m: Marks, s: string, r: Marks)
    requires Holds(fmt, i, s) && Marked(m, s) == Some(r) && !IsMark(At(fmt, i + |s|))
    ensures ReadMarks(fmt, i, m) == (r, i + |s|)
    decreases |s|
  {
    if s != [] {
      HoldsAt(fmt, i, s, 0);
      assert [s[0]] + s[1..] == s;
      HoldsParts(fmt, i, [s[0]], s[1..]);
      RunRead(fmt, i + 1, WithMark(m, s[0]), s[1..], r);
    }
  }

  lemma {:induction false} OnlyMarked(m: Marks, b: bool, c: char, rest: string)
    requires IsMark(c)
    ensures Marked(m, Only(b, c) + rest) == Marked(if b then WithMark(m, c) else m, rest)
  {
    if b {
      assert ([c] + rest)[1..] == rest;
    } else {
      assert [] + rest == rest;
    }
  }

  /** Each flag written down once gives the marks back. */
  lemma {:induction false} MarksTextMarked(m: Marks)
    ensures Marked(NO_MARKS, MarksText(m)) == Some(m)
  {
    var e := Only(m.hash, '#');
    var d := Only(m.space, ' ') + e;
    var c := Only(m.plus, '+') + d;
    var b := Only(m.left, '-') + c;
    assert e + [] == e;
    var n := NO_MARKS.(zeroPad := m.zeroPad);
    OnlyMarked(NO_MARKS, m.zeroPad, '0', b);
    OnlyMarked(n, m.left, '-', c);
    OnlyMarked(n.(left := m.left), m.plus, '+', d);
    OnlyMarked(n.(left := m.left, plus := m.plus), m.space, ' ', e);
    OnlyMarked(n.(left := m.left, plus := m.plus, space := m.space), m.hash, '#', []);
  }

  lemma {:induction false} CountRead(fmt: string, i: nat, c: Count)
    requires Holds(fmt, i, CountText(c))
    requires !IsDigit(At(fmt, i + |CountText(c)|))
    requires c.Absent? ==> At(fmt, i) != '*'
    ensures ReadCount(fmt, i) == (c, i + |CountText(c)|)
  {
    hide ValueOf, DigitsEnd, AllDigits, DecimalText;
    match c {
      case Absent =>
      case FromArg => HoldsAt(fmt, i, CountText(c), 0);
      case Given(n) =>
        DecimalTextReads(n);
        DigitsRead(fmt, i, DecimalText(n));
    }
  }

  lemma {:induction false} DigitsRead(fmt: string, i: nat, s: string)
    requires Holds(fmt, i, s) && |s| > 0 && AllDigits(s) && !IsDigit(At(fmt, i + |s|))
    ensures ReadCount(fmt, i) == (Given(Mod32(ValueOf(s, 10))), i + |s|)
  {
    HoldsAt(fmt, i, s, 0);
    assert IsDigit(s[0]);
    HoldsSlice(fmt, i, s);
    DigitsEndAt(fmt, i, i + |s|);
  }

  lemma {:induction false} PrecisionRead(fmt: string, i: nat, p: Option<Count>)
    requires Holds(fmt, i, PrecisionText(p))
    requires var c := At(fmt, i + |PrecisionText(p)|); !IsDigit(c) && c != '*' && c != '.'
    ensures ReadPrecision(fmt, i) == (p, i + |PrecisionText(p)|)
  {
    hide ReadCount;
    if p.Some? {
      HoldsAt(fmt, i, PrecisionText(p), 0);
      HoldsParts(fmt, i, ".", CountText(p.value));
      CountRead(fmt, i + 1, p.value);
    }
  }

  /** The letters that end a writable directive are none of the others' beginnings. */
  predicate Final(c: char) {
    c in "diuoxXbcsp%"
  }

  lemma {:induction false} LengthRead(fmt: string, i: nat, l: Length)
    requires Holds(fmt, i, LengthText(l)) && Final(At(fmt, i + |LengthText(l)|))
    ensures ReadLength(fmt, i) == (l, i + |LengthText(l)|)
  {
    if |LengthText(l)| > 0 {
      HoldsAt(fmt, i, LengthText(l), 0);
    }
    if |LengthText(l)| > 1 {
      HoldsAt(fmt, i, LengthText(l), 1);
    }
  }

  /** The first digit of a nonzero number is not zero. */
  lemma {:induction false} FirstDigit(n: Word)
    requires n > 0
    ensures DecimalText(n)[0] != '0' && IsDigit(DecimalText(n)[0])
  {
    var s := Numeral(n, 10, BUFFER_SIZE, false);
    FitsBuffer(n, 10);
    NumeralIsTight(n, 10, BUFFER_SIZE, false);
    ReversedAt(s, 0);
    DecimalTextReads(n);
  }

  /** What may follow a width: no digit, flag or star. */
  predicate EndsCount(c: char) {
    !IsDigit(c) && !IsMark(c) && c != '*'
  }

  lemma {:induction false} LengthPart(fmt: string, i: nat, d: Directive)
    requires Holds(fmt, i, LengthText(d.length)) && Final(d.letter)
    requires Holds(fmt, i + |LengthText(d.length)|, [d.letter])
    ensures ReadFromLength(fmt, i, MarksOf(d), d.width, d.precision)
      == Some((d, i + |LengthText(d.length)| + 1))
    ensures EndsCount(At(fmt, i)) && At(fmt, i) != '.'
  {
    HoldsAt(fmt, i + |LengthText(d.length)|, [d.letter], 0);
    LengthRead(fmt, i, d.length);
    if d.length != NoLength {
      HoldsAt(fmt, i, LengthText(d.length), 0);
    }
  }

  lemma {:induction false} PrecisionPart(fmt: string, i: nat, m: Marks, w: Count, p: Option<Count>,
                                         r: Option<(Directive, nat)>)
    requires Holds(fmt, i, PrecisionText(p))
    requires var j := i + |PrecisionText(p)|;
      EndsCount(At(fmt, j)) && At(fmt, j) != '.' && ReadFromLength(fmt, j, m, w, p) == r
    ensures ReadFromPrecision(fmt, i, m, w) == r && EndsCount(At(fmt, i))
  {
    PrecisionRead(fmt, i, p);
    if p.Some? {
      HoldsAt(fmt, i, PrecisionText(p), 0);
    }
  }

  lemma {:induction false} WidthPart(fmt: string, i: nat, m: Marks, w: Count, r: Option<(Directive, nat)>)
    requires Holds(fmt, i, CountText(w)) && w != Given(0)
    requires var j := i + |CountText(w)|;
      EndsCount(At(fmt, j)) && ReadFromPrecision(fmt, j, m, w) == r
    ensures ReadFromWidth(fmt, i, m) == r && !IsMark(At(fmt, i))
  {
    CountRead(fmt, i, w);
    CountStart(fmt, i, w);
  }

  /** A width does not begin with a flag, unless it is zero. */
  lemma {:induction false} CountStart(fmt: string, j: nat, c: Count)
    requires Holds(fmt, j, CountText(c)) && !IsMark(At(fmt, j + |CountText(c)|)) && c != Given(0)
    ensures !IsMark(At(fmt, j))
  {
    match c {
      case Absent =>
      case FromArg => HoldsAt(fmt, j, "*", 0);
      case Given(n) =>
        FirstDigit(n);
        HoldsAt(fmt, j, DecimalText(n), 0);
    }
  }

  lemma {:induction false} MarksPart(fmt: string, i: nat, m: Marks, r: Option<(Directive, nat)>)
    requires Holds(fmt, i, MarksText(m))
    requires var j := i + |MarksText(m)|; !IsMark(At(fmt, j)) && ReadFromWidth(fmt, j, m) == r
    ensures ReadDirective(fmt, i) == r
  {
    MarksTextMarked(m);
    RunRead(fmt, i, NO_MARKS, MarksText(m), m);
  }

  lemma {:induction false} PartsRead(fmt: string, i: nat, d: Directive, j: nat, k: nat, l: nat, end: nat)
    requires Writable(d)
    requires Holds(fmt, i, MarksText(MarksOf(d))) && j == i + |MarksText(MarksOf(d))|
    requires Holds(fmt, j, CountText(d.width)) && k == j + |CountText(d.width)|
    requires Holds(fmt, k, PrecisionText(d.precision)) && l == k + |PrecisionText(d.precision)|
    requires Holds(fmt, l, LengthText(d.length)) && end == l + |LengthText(d.length)|
    requires Holds(fmt, end, [d.letter])
    ensures ReadDirective(fmt, i) == Some((d, end + 1))
  {
    hide MarksText, CountText, PrecisionText, LengthText, Holds, At, IsMark, IsDigit;
    hide ReadDirective, ReadFromWidth, ReadFromPrecision, ReadFromLength;
    var r := Some((d, end + 1));
    LengthPart(fmt, l, d);
    PrecisionPart(fmt, k, MarksOf(d), d.width, d.precision, r);
    WidthPart(fmt, j, MarksOf(d), d.width, r);
    MarksPart(fmt, i, MarksOf(d), r);
  }

  /** Any directive in writing, wherever it stands in a format, is read back as it was meant. */
  lemma {:induction false} DirectiveRead(fmt: string, i: nat, d: Directive)
    requires Writable(d) && Holds(fmt, i, Written(d))
    ensures ReadDirective(fmt, i) == Some((d, i + |Written(d)|))
  {
    hide MarksText, CountText, PrecisionText, LengthText, Holds, ReadDirective;
    var a, b, c := MarksText(MarksOf(d)), CountText(d.width), PrecisionText(d.precision);
    var e := LengthText(d.length);
    HoldsFive(fmt, i, a, b, c, e, [d.letter]);
    PartsRead(fmt, i, d, i + |a|, i + |a| + |b|, i + |a| + |b| + |c|, i + |a| + |b| + |c| + |e|);
  }

  lemma {:induction false} HoldsFive(fmt: string, i: nat, a: string, b: string, c: string, d: string, e: string)
    requires Holds(fmt, i, a + (b + (c + (d + e))))
    ensures Holds(fmt, i, a) && Holds(fmt, i + |a|, b) && Holds(fmt, i + |a| + |b|, c)
    ensures Holds(fmt, i + |a| + |b| + |c|, d) && Holds(fmt, i + |a| + |b| + |c| + |d|, e)
  {
    HoldsParts(fmt, i, a, b + (c + (d + e)));
    HoldsParts(fmt, i + |a|, b, c + (d + e));
    HoldsParts(fmt, i + |a| + |b|, c, d + e);
    HoldsParts(fmt, i + |a| + |b| + |c|, d, e);
  }

  // ---- Printed integers read back -------------------------------------------------------------

  /** The format is one directive: `%` and the directive in writing. */
  predicate IsDirective(fmt: string, d: Directive) {
    |fmt| == 1 + |Written(d)| && fmt[0] == '%' && Holds(fmt, 1, Written(d))
  }

  /** The digits and the sign of `v` fit the digit buffer: all its digits do, and, for the sign
      of a negative one, precision or zeros do not take the last place. */
  predicate Readable(d: Directive, f: Field, v: int)
    requires d.letter in "diuoxXb"
  {
    && (if v < 0 then -v else v) < Power(AskedBase(d.letter), BUFFER_SIZE)
    && (v < 0 && !f.left ==>
          f.prec < BUFFER_SIZE && (d.zeroPad && d.precision.None? ==> f.width <= BUFFER_SIZE))
  }

  /** For every integer directive without `#`, its stars, and every argument: what the format
      prints reads back as the argument, narrowed as the length says, exactly when digits and
      sign fit the digit buffer. */
  lemma {:induction false} PrintedIntegerReadsBack(fmt: string, d: Directive, args: seq<Arg>, f: Field, v: int)
    requires IsDirective(fmt, d) && Writable(d) && d.letter in "diuoxXb" && (d.hash ==> AskedBase(d.letter) == 10)
    requires FieldOf(d, args, 0) == Some(f) && f.next < |args| && IntegerArg(d, args[f.next]) == Some(v)
    ensures var r := Printed(fmt, 0, args, 0);
      r.Some? && (NtoaLaws.Reading(r.value.0, AskedBase(d.letter)) == v <==> Readable(d, f, v))
  {
    hide Written, Holds, ReadDirective, DirectiveText, Printed, FieldOf, NumberOf, Readable, NtoaLaws.Reading;
    IntegerDirective(d, f, args, v);
    ArgSize(d, args[f.next]);
    NoPrecisionGiven(d, args, f);
    NumberReadsBack(d, f, v);
    DirectiveRead(fmt, 1, d);
    LastDirective(fmt, d, args, Text(NumberOf(d, f, v)), f.next + 1);
  }

  lemma {:induction false} ArgSize(d: Directive, arg: Arg)
    requires d.letter in "diuoxXb" && IntegerArg(d, arg).Some?
    ensures var v := IntegerArg(d, arg).value;
      (v < 0 ==> AskedBase(d.letter) == 10) && -(WRAP * WRAP) < v < WRAP * WRAP
  {
  }

  lemma {:induction false} NoPrecisionGiven(d: Directive, args: seq<Arg>, f: Field)
    requires FieldOf(d, args, 0) == Some(f)
    ensures d.precision.None? ==> f.prec == 0
  {
  }

  lemma {:induction false} IntegerDirective(d: Directive, f: Field, args: seq<Arg>, v: int)
    requires d.letter in "diuoxXb" && FieldOf(d, args, 0) == Some(f)
    requires f.next < |args| && IntegerArg(d, args[f.next]) == Some(v)
    ensures DirectiveText(d, args, 0) == Some((Text(NumberOf(d, f, v)), f.next + 1))
  {
    hide FieldOf, NumberOf, Text, IntegerArg, AskedBase, BaseOf;
    Letters(d.letter);
    assert ArgText(d, f, args[f.next]) == Some(Text(NumberOf(d, f, v)));
  }

  lemma {:induction false} NumberReadsBack(d: Directive, f: Field, v: int)
    requires d.letter in "diuoxXb" && (d.hash ==> AskedBase(d.letter) == 10) && (d.precision.None? ==> f.prec == 0)
    requires -(WRAP * WRAP) < v < WRAP * WRAP && (v < 0 ==> AskedBase(d.letter) == 10)
    ensures NtoaLaws.Reading(Text(NumberOf(d, f, v)), AskedBase(d.letter)) == v <==> Readable(d, f, v)
  {
    hide Text, NtoaLaws.Reading, Padded, Power, Remainder;
    var n := NumberOf(d, f, v);
    NtoaLaws.ReadsBack(n);
    var limit := Power(n.base, BUFFER_SIZE);
    if n.value < limit {
      UniqueRemainder(n.value, limit, 0, n.value);
      if v < 0 {
        NegativeLength(n);
      }
    } else if v < 0 {
      FitsBuffer(n.value, n.base);
      assert false;
    }
  }

  /** How long the digits of a negative number can get. */
  lemma {:induction false} NegativeLength(n: Number)
    requires n.Valid() && n.base == 10 && n.negative && 0 < n.value < WRAP * WRAP
    requires n.prec == 0 || !n.flags.zeroPad
    ensures |Padded(n)| == BUFFER_SIZE <==>
      (!n.flags.left && (n.prec >= BUFFER_SIZE || (n.flags.zeroPad && n.width > BUFFER_SIZE)))
  {
    TenToSixteen();
    PowerSum(10, 16, 15);
    NumeralShort(n.value, 10, BUFFER_SIZE, n.flags.upper, 31);
  }

  lemma {:induction false} TenToSixteen()
    ensures Power(10, 16) == 10_000_000_000_000_000 && Power(10, 15) == 1_000_000_000_000_000
  {
    assert Power(10, 8) == 100_000_000;
    PowerSum(10, 8, 8);
    PowerSum(10, 8, 7);
  }

  /** A format of one directive prints what the directive prints. */
  lemma {:induction false} LastDirective(fmt: string, d: Directive, args: seq<Arg>, s: string, k: nat)
    requires |fmt| > 0 && fmt[0] == '%' && ReadDirective(fmt, 1) == Some((d, |fmt|))
    requires DirectiveText(d, args, 0) == Some((s, k))
    ensures Printed(fmt, 0, args, 0) == Some((s, k))
  {
    assert Printed(fmt, |fmt|, args, k) == Some(([], k));
    assert s + [] == s;
  }

  // ---- Formats compose ------------------------------------------------------------------------

  /** From `j` on, `b` has the rest of `a` from `i` on, and maybe more. */
  predicate Follows(a: string, i: nat, b: string, j: nat) {
    i <= |a| && j <= |b| && a[i..] <= b[j..]
  }

  lemma {:induction false} FollowsAt(a: string, i: nat, b: string, j: nat, k: nat)
    requires Follows(a, i, b, j)
    ensures |a| - i <= |b| - j
    ensures i + k < |a| ==> At(a, i + k) == At(b, j + k)
    ensures i + k <= |a| ==> Follows(a, i + k, b, j + k)
  {
    if i + k < |a| {
      assert a[i..][k] == b[j..][k];
    }
    if i + k <= |a| {
      assert a[i + k..] == a[i..][k..];
      assert b[j + k..] == b[j..][k..];
    }
  }

  lemma {:induction false} SameMarks(a: string, i: nat, b: string, j: nat, m: Marks)
    requires Follows(a, i, b, j) && ReadMarks(a, i, m).1 < |a|
    ensures var (p, x) := ReadMarks(a, i, m);
      ReadMarks(b, j, m) == (p, j + x - i) && Follows(a, x, b, j + x - i)
    decreases |a| - i
  {
    FollowsAt(a, i, b, j, 0);
    if IsMark(a[i]) {
      FollowsAt(a, i, b, j, 1);
      SameMarks(a, i + 1, b, j + 1, WithMark(m, a[i]));
    }
  }

  lemma {:induction false} SameDigits(a: string, i: nat, b: string, j: nat)
    requires Follows(a, i, b, j) && DigitsEnd(a, i) < |a|
    ensures var x := DigitsEnd(a, i); var y := j + x - i;
      DigitsEnd(b, j) == y && Follows(a, x, b, y) && a[i..x] == b[j..y]
    decreases |a| - i
  {
    FollowsAt(a, i, b, j, 0);
    if IsDigit(a[i]) {
      FollowsAt(a, i, b, j, 1);
      SameDigits(a, i + 1, b, j + 1);
      var x := DigitsEnd(a, i);
      assert a[i..x] == [a[i]] + a[i + 1..x];
      assert b[j..j + x - i] == [b[j]] + b[j + 1..j + x - i];
    }
  }

  lemma {:induction false} SameCount(a: string, i: nat, b: string, j: nat)
    requires Follows(a, i, b, j) && ReadCount(a, i).1 < |a|
    ensures var (c, x) := ReadCount(a, i);
      ReadCount(b, j) == (c, j + x - i) && Follows(a, x, b, j + x - i)
  {
    hide Follows;
    FollowsAt(a, i, b, j, 0);
    if At(a, i) == '*' {
      FollowsAt(a, i, b, j, 1);
    } else if IsDigit(At(a, i)) {
      SameDigits(a, i, b, j);
    }
  }

  lemma {:induction false} SamePrecision(a: string, i: nat, b: string, j: nat)
    requires Follows(a, i, b, j) && ReadPrecision(a, i).1 < |a|
    ensures var (p, x) := ReadPrecision(a, i);
      ReadPrecision(b, j) == (p, j + x - i) && Follows(a, x, b, j + x - i)
  {
    hide Follows, ReadCount;
    FollowsAt(a, i, b, j, 0);
    if At(a, i) == '.' {
      FollowsAt(a, i, b, j, 1);
      SameCount(a, i + 1, b, j + 1);
    }
  }

  lemma {:induction false} SameLength(a: string, i: nat, b: string, j: nat)
    requires Follows(a, i, b, j) && ReadLength(a, i).1 < |a|
    ensures var (l, x) := ReadLength(a, i);
      ReadLength(b, j) == (l, j + x - i) && Follows(a, x, b, j + x - i)
  {
    hide Follows;
    FollowsAt(a, i, b, j, 0);
    FollowsAt(a, i, b, j, 1);
    FollowsAt(a, i, b, j, ReadLength(a, i).1 - i);
  }

  lemma {:induction false} SameFromLength(a: string, i: nat, b: string, j: nat,
                                          m: Marks, w: Count, p: Option<Count>)
    requires Follows(a, i, b, j) && ReadFromLength(a, i, m, w, p).Some?
    ensures var (d, x) := ReadFromLength(a, i, m, w, p).value;
      ReadFromLength(b, j, m, w, p) == Some((d, j + x - i)) && Follows(a, x, b, j + x - i)
  {
    hide Follows, ReadLength;
    SameLength(a, i, b, j);
    var end := ReadLength(a, i).1;
    FollowsAt(a, end, b, j + end - i, 0);
    FollowsAt(a, end, b, j + end - i, 1);
  }

  lemma {:induction false} SameFromPrecision(a: string, i: nat, b: string, j: nat, m: Marks, w: Count)
    requires Follows(a, i, b, j) && ReadFromPrecision(a, i, m, w).Some?
    ensures var (d, x) := ReadFromPrecision(a, i, m, w).value;
      ReadFromPrecision(b, j, m, w) == Some((d, j + x - i)) && Follows(a, x, b, j + x - i)
  {
    hide Follows, ReadPrecision, ReadLength;
    SamePrecision(a, i, b, j);
    var (p, x) := ReadPrecision(a, i);
    SameFromLength(a, x, b, j + x - i, m, w, p);
  }

  lemma {:induction false} SameFromWidth(a: string, i: nat, b: string, j: nat, m: Marks)
    requires Follows(a, i, b, j) && ReadFromWidth(a, i, m).Some?
    ensures var (d, x) := ReadFromWidth(a, i, m).value;
      ReadFromWidth(b, j, m) == Some((d, j + x - i)) && Follows(a, x, b, j + x - i)
  {
    hide Follows, ReadCount, ReadPrecision, ReadLength;
    SameCount(a, i, b, j);
    var (w, x) := ReadCount(a, i);
    SameFromPrecision(a, x, b, j + x - i, m, w);
  }

  /** A whole directive is read the same wherever it stands, whatever follows it. */
  lemma {:induction false} SameDirective(a: string, i: nat, b: string, j: nat)
    requires Follows(a, i, b, j) && ReadDirective(a, i).Some?
    ensures var (d, x) := ReadDirective(a, i).value;
      ReadDirective(b, j) == Some((d, j + x - i)) && Follows(a, x, b, j + x - i)
  {
    hide Follows, ReadMarks, ReadCount, ReadPrecision, ReadLength;
    SameMarks(a, i, b, j, NO_MARKS);
    var (m, x) := ReadMarks(a, i, NO_MARKS);
    SameFromWidth(a, x, b, j + x - i, m);
  }

  /** A whole format prints the same wherever it stands, and what follows it goes on with the
      arguments that are left. */
  lemma {:induction false} PrintedInside(a: string, i: nat, b: string, j: nat, args: seq<Arg>, k: nat)
    requires i <= |a| && Follows(a, i, b, j) && Printed(a, i, args, k).Some?
    ensures j + |a| - i <= |b|
    ensures var (s, k') := Printed(a, i, args, k).value;
      Printed(b, j, args, k) == Prepend(s, Printed(b, j + |a| - i, args, k'))
    decreases |a| - i
  {
    hide Follows, ReadDirective, DirectiveText;
    FollowsAt(a, i, b, j, 0);
    if i == |a| {
      PrependNothing(Printed(b, j, args, k));
    } else if a[i] != '%' {
      FollowsAt(a, i, b, j, 1);
      PrintedInside(a, i + 1, b, j + 1, args, k);
      var (s, k') := Printed(a, i + 1, args, k).value;
      PrependTwice([a[i]], s, Printed(b, j + |a| - i, args, k'));
    } else {
      FollowsAt(a, i, b, j, 1);
      SameDirective(a, i + 1, b, j + 1);
      var (d, x) := ReadDirective(a, i + 1).value;
      var (s, k1) := DirectiveText(d, args, k).value;
      PrintedInside(a, x, b, j + x - i, args, k1);
      var (s', k') := Printed(a, x, args, k1).value;
      PrependTwice(s, s', Printed(b, j + |a| - i, args, k'));
    }
  }

  lemma {:induction false} PrependNothing(r: Option<(string, nat)>)
    ensures Prepend([], r) == r
  {
    if r.Some? {
      assert [] + r.value.0 == r.value.0;
    }
  }

  lemma {:induction false} PrependTwice(s: string, t: string, r: Option<(string, nat)>)
    ensures Prepend(s, Prepend(t, r)) == Prepend(s + t, r)
  {
    if r.Some? {
      assert s + (t + r.value.0) == s + t + r.value.0;
    }
  }

  /** Formats compose: the output of one after the other is their outputs one after the other,
      each with its share of the arguments. */
  lemma {:induction false} FormatsCompose(a: string, b: string, args: seq<Arg>)
    requires Printed(a, 0, args, 0).Some?
    ensures var (s, k) := Printed(a, 0, args, 0).value;
      Printed(b, 0, args, k).Some?
      ==> Printed(a + b, 0, args, 0) == Prepend(s, Printed(b, 0, args, k))
  {
    var ab := a + b;
    assert ab[0..] == ab && a[0..] == a && ab[..|a|] == a;
    PrintedInside(a, 0, ab, 0, args, 0);
    var (s, k) := Printed(a, 0, args, 0).value;
    if Printed(b, 0, args, k).Some? {
      assert ab[|a|..] == b == b[0..];
      PrintedInside(b, 0, ab, |a|, args, k);
      var (t, k') := Printed(b, 0, args, k).value;
      assert Printed(ab, |ab|, args, k') == Some(([], k'));
      assert t + [] == t;
    }
  }

  // ---- Truncation -----------------------------------------------------------------------------

  /** A longer buffer stores an extension of what a shorter one stores. */
  lemma {:induction false} TruncationIsPrefix(output: string, short: string, m: nat, long: string, n: nat,
                                              before: string, before': string)
    requires 0 < m <= n
    requires Terminated(short, output, m, before) && Terminated(long, output, n, before')
    ensures short[..Min(|output|, m - 1)] <= long[..Min(|output|, n - 1)] <= output
  {
  }

  /** The promise of `snprintf`'s documentation: the output was stored whole exactly when the
      returned length is less than `count`. */
  lemma {:induction false} CompleteIff(output: string, data: string, count: nat, before: string)
    requires 0 < count && '\0' !in output && Terminated(data, output, count, before)
    ensures |output| < count
      <==> |output| < |data| && data[..|output|] == output && data[|output|] == '\0'
  {
    if count <= |output| < |data| {
      assert data[count - 1] == '\0' != output[count - 1];
      assert data[..|output|][count - 1] == data[count - 1];
    }
  }
}
