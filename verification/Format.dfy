/** The format language of `src/lib/printf.c` on values: what a format and its arguments
    print.  `Printf` proves that the interpreter puts out exactly this. */
module Format {
  import opened Words
  import opened Numerals
  import opened Sinks
  import opened Ntoa

  type Quad = x: int | 0 <= x < 0x1_0000_0000_0000_0000

  /** An argument as `va_arg` delivers it. */
  datatype Arg = WordArg(word: Word) | QuadArg(quad: Quad) | StringArg(chars: string)

  /** A width or a precision: left out, written in the format, or taken from an `int`. */
  datatype Count = Absent | Given(count: Word) | FromArg

  /** The length field, and the `FLAGS_` bits it sets: `long` and `size_t` are alike. */
  datatype Length = NoLength | H | HH | L | LL | J | T | Z {
    predicate Char() { HH? }
    predicate Short() { H? || HH? }
    predicate Long() { L? || LL? || T? || Z? }
    predicate LongLong() { LL? || J? }
  }

  datatype Directive = Directive(zeroPad: bool, left: bool, plus: bool, space: bool, hash: bool,
                                 width: Count, precision: Option<Count>, length: Length,
                                 letter: char)

  // ---- Reading a directive --------------------------------------------------------------------

  /** The character at `i`, or the NUL that ends the format. */
  function At(fmt: string, i: nat): char {
    if i < |fmt| then fmt[i] else '\0'
  }

  datatype Marks = Marks(zeroPad: bool, left: bool, plus: bool, space: bool, hash: bool)

  predicate IsMark(c: char) {
    c == '0' || c == '-' || c == '+' || c == ' ' || c == '#'
  }

  function WithMark(m: Marks, c: char): Marks {
    match c
    case '0' => m.(zeroPad := true)
    case '-' => m.(left := true)
    case '+' => m.(plus := true)
    case ' ' => m.(space := true)
    case _ => m.(hash := true)
  }

  function ReadMarks(fmt: string, i: nat, m: Marks): (r: (Marks, nat))
    requires i <= |fmt|
    ensures i <= r.1 <= |fmt|
    decreases |fmt| - i
  {
    if i < |fmt| && IsMark(fmt[i]) then ReadMarks(fmt, i + 1, WithMark(m, fmt[i])) else (m, i)
  }

  function ReadCount(fmt: string, i: nat): (r: (Count, nat))
    requires i <= |fmt|
    ensures i <= r.1 <= |fmt|
  {
    if IsDigit(At(fmt, i)) then
      var j := DigitsEnd(fmt, i);
      (Given(Mod32(ValueOf(fmt[i..j], 10))), j)
    else if At(fmt, i) == '*' then (FromArg, i + 1)
    else (Absent, i)
  }

  function ReadPrecision(fmt: string, i: nat): (r: (Option<Count>, nat))
    requires i <= |fmt|
    ensures i <= r.1 <= |fmt|
  {
    if At(fmt, i) == '.' then
      var (c, j) := ReadCount(fmt, i + 1);
      (Some(c), j)
    else (None, i)
  }

  function ReadLength(fmt: string, i: nat): (r: (Length, nat))
    requires i <= |fmt|
    ensures i <= r.1 <= |fmt|
  {
    match At(fmt, i)
    case 'l' => if At(fmt, i + 1) == 'l' then (LL, i + 2) else (L, i + 1)
    case 'h' => if At(fmt, i + 1) == 'h' then (HH, i + 2) else (H, i + 1)
    case 't' => (T, i + 1)
    case 'j' => (J, i + 1)
    case 'z' => (Z, i + 1)
    case _ => (NoLength, i)
  }

  const NO_MARKS := Marks(false, false, false, false, false)

  /** The directive after a `%`, and where it ends; none when the format ends inside it. */
  function ReadDirective(fmt: string, i: nat): (r: Option<(Directive, nat)>)
    requires i <= |fmt|
    ensures r.Some? ==> i < r.value.1 <= |fmt|
  {
    var (m, j) := ReadMarks(fmt, i, NO_MARKS);
    ReadFromWidth(fmt, j, m)
  }

  function ReadFromWidth(fmt: string, i: nat, m: Marks): (r: Option<(Directive, nat)>)
    requires i <= |fmt|
    ensures r.Some? ==> i < r.value.1 <= |fmt|
  {
    var (w, j) := ReadCount(fmt, i);
    ReadFromPrecision(fmt, j, m, w)
  }

  function ReadFromPrecision(fmt: string, i: nat, m: Marks, w: Count): (r: Option<(Directive, nat)>)
    requires i <= |fmt|
    ensures r.Some? ==> i < r.value.1 <= |fmt|
  {
    var (p, j) := ReadPrecision(fmt, i);
    ReadFromLength(fmt, j, m, w, p)
  }

  function ReadFromLength(fmt: string, i: nat, m: Marks, w: Count, p: Option<Count>)
    : (r: Option<(Directive, nat)>)
    requires i <= |fmt|
    ensures r.Some? ==> i < r.value.1 <= |fmt|
  {
    var (len, j) := ReadLength(fmt, i);
    if j < |fmt| then
      Some((Directive(m.zeroPad, m.left, m.plus, m.space, m.hash, w, p, len, fmt[j]), j + 1))
    else None
  }

  // ---- What a directive prints ----------------------------------------------------------------

  /** Two's complement: the low `modulus` of the word, as a signed number. */
  function SignedOf(x: nat, modulus: nat): int
    requires modulus > 0
  {
    if x < modulus - x then x else x - modulus
  }

  /** An `int` for a width or precision; the most negative one cannot be negated. */
  function CountArg(args: seq<Arg>, k: nat): (r: Option<int>)
    ensures r.Some? ==> -0x8000_0000 < r.value < 0x8000_0000
  {
    if k < |args| && args[k].WordArg? && args[k].word != 0x8000_0000
    then Some(SignedOf(args[k].word, 0x1_0000_0000)) else None
  }

  /** The field and precision a directive asks for, once its stars are taken from `args`. */
  datatype Field = Field(left: bool, width: Word, prec: Word, next: nat)

  function WidthOf(width: Count, left: bool, args: seq<Arg>, k: nat): (r: Option<Field>)
    ensures r.Some? ==> k <= r.value.next <= k + 1
  {
    match width
    case Absent => Some(Field(left, 0, 0, k))
    case Given(n) => Some(Field(left, n, 0, k))
    case FromArg =>
      match CountArg(args, k)
      case None => None
      case Some(w) => Some(if w < 0 then Field(true, -w, 0, k + 1) else Field(left, w, 0, k + 1))
  }

  function PrecisionOf(precision: Option<Count>, f: Field, args: seq<Arg>): (r: Option<Field>)
    ensures r.Some? ==> f.next <= r.value.next <= f.next + 1
  {
    match precision
    case Some(Given(n)) => Some(f.(prec := n))
    case Some(FromArg) =>
      (match CountArg(args, f.next)
       case None => None
       case Some(p) => Some(f.(prec := if p > 0 then p else 0, next := f.next + 1)))
    case _ => Some(f)
  }

  function FieldOf(d: Directive, args: seq<Arg>, k: nat): (r: Option<Field>)
    ensures r.Some? ==> k <= r.value.next <= k + 2
  {
    match WidthOf(d.width, d.left, args, k)
    case None => None
    case Some(f) => PrecisionOf(d.precision, f, args)
  }

  predicate IsInteger(letter: char) {
    letter == 'd' || letter == 'i' || letter == 'u' || letter == 'x' || letter == 'X'
    || letter == 'o' || letter == 'b'
  }

  predicate IsSigned(letter: char) {
    letter == 'd' || letter == 'i'
  }

  predicate IsFloat(letter: char) {
    letter == 'f' || letter == 'F' || letter == 'e' || letter == 'E' || letter == 'g' || letter == 'G'
  }

  function BaseOf(letter: char): (base: nat)
    ensures base == 2 || base == 8 || base == 10 || base == 16
  {
    match letter
    case 'x' => 16
    case 'X' => 16
    case 'o' => 8
    case 'b' => 2
    case _ => 10
  }

  /** The argument of an integer conversion, narrowed as the length says.  The most negative
      `int`, `long` and `long long` cannot be negated and are left undefined. */
  function IntegerArg(d: Directive, arg: Arg): (r: Option<int>)
    ensures r.Some? && arg.WordArg? ==> -WRAP < r.value < WRAP
  {
    var signed := IsSigned(d.letter);
    if d.length.LongLong() then
      if !arg.QuadArg? || (signed && arg.quad == 0x8000_0000_0000_0000) then None
      else Some(if signed then SignedOf(arg.quad, 0x1_0000_0000_0000_0000) else arg.quad)
    else if !arg.WordArg? then None
    else if d.length == HH then Some(if signed then SignedOf(arg.word % 0x100, 0x100) else arg.word % 0x100)
    else if d.length == H then Some(if signed then SignedOf(arg.word % 0x1_0000, 0x1_0000) else arg.word % 0x1_0000)
    else if signed && arg.word == 0x8000_0000 then None
    else Some(if signed then SignedOf(arg.word, 0x1_0000_0000) else arg.word)
  }

  /** The number that an integer directive prints for the value `v`. */
  function NumberOf(d: Directive, f: Field, v: int): (n: Number)
    ensures n.Valid()
  {
    var base := BaseOf(d.letter);
    var signed := IsSigned(d.letter);
    var precise := d.precision.Some?;
    Number(if v < 0 then -v else v, v < 0, base, f.prec, f.width,
           Flags(d.zeroPad && !precise, f.left, d.plus && signed, d.space && signed,
                 d.hash && base != 10, d.letter == 'X', precise))
  }

  /** `%p`: eight upper-case hexadecimal digits, whatever field was asked for. */
  function PointerOf(d: Directive, f: Field, address: Word): (n: Number)
    ensures n.Valid()
  {
    Number(address, false, 16, f.prec, 8,
           Flags(true, f.left, d.plus, d.space, d.hash, true, d.precision.Some?))
  }

  /** Text in its field: spaces before it, or after it with `-`. */
  function InField(s: string, f: Field): (r: string)
    ensures |r| == Max(|s|, f.width)
  {
    var pad := Repeat(' ', Excess(f.width, |s|));
    if f.left then s + pad else pad + s
  }

  /** A string argument cut to its precision, when it has one. */
  function Cut(s: string, d: Directive, f: Field): string {
    if d.precision.Some? && f.prec < |s| then s[..f.prec] else s
  }

  /** The text for the argument of a directive that takes one. */
  function ArgText(d: Directive, f: Field, arg: Arg): (r: Option<string>) {
    if IsInteger(d.letter) then
      (match IntegerArg(d, arg)
       case None => None
       case Some(v) => Some(Text(NumberOf(d, f, v))))
    else if d.letter == 'c' && arg.WordArg? then Some(InField([(arg.word % 0x100) as char], f))
    else if d.letter == 's' && arg.StringArg? && '\0' !in arg.chars then
      Some(InField(Cut(arg.chars, d, f), f))
    else if d.letter == 'p' && arg.WordArg? then Some(Text(PointerOf(d, f, arg.word)))
    else None
  }

  predicate TakesArg(letter: char) {
    IsInteger(letter) || letter == 'c' || letter == 's' || letter == 'p'
  }

  /** What a directive prints and how many arguments were taken; none when they do not fit it.
      Any other letter, `%` among them, prints itself. */
  function DirectiveText(d: Directive, args: seq<Arg>, k: nat): (r: Option<(string, nat)>)
    ensures r.Some? ==> k <= r.value.1
  {
    match FieldOf(d, args, k)
    case None => None
    case Some(f) =>
      if IsFloat(d.letter) then None
      else if !TakesArg(d.letter) then Some(([d.letter], f.next))
      else if f.next >= |args| then None
      else match ArgText(d, f, args[f.next])
        case None => None
        case Some(s) => Some((s, f.next + 1))
  }

  /** What the format prints from `i` on with the arguments from `k` on, and how many
      arguments it has then taken. */
  function Printed(fmt: string, i: nat, args: seq<Arg>, k: nat): (r: Option<(string, nat)>)
    requires i <= |fmt|
    decreases |fmt| - i
  {
    if i == |fmt| then Some(([], k))
    else if fmt[i] != '%' then Prepend([fmt[i]], Printed(fmt, i + 1, args, k))
    else
      match ReadDirective(fmt, i + 1)
      case None => None
      case Some((d, j)) =>
        match DirectiveText(d, args, k)
        case None => None
        case Some((s, k')) => Prepend(s, Printed(fmt, j, args, k'))
  }

  function Prepend(s: string, rest: Option<(string, nat)>): Option<(string, nat)> {
    if rest.Some? then Some((s + rest.value.0, rest.value.1)) else None
  }

  /** The format and its arguments belong together: the format is whole, free of floating
      point and of NUL, and every directive has the arguments it takes. */
  predicate WellFormed(fmt: string, args: seq<Arg>) {
    '\0' !in fmt && Printed(fmt, 0, args, 0).Some?
  }

  /** The complete output. */
  function Output(fmt: string, args: seq<Arg>): string
    requires WellFormed(fmt, args)
  {
    Printed(fmt, 0, args, 0).value.0
  }
}
