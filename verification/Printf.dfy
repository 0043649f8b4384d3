/** The interpreter of `src/lib/printf.c`: `_vsnprintf` over an output function, and the entry
    points that call it.  `fmt` is the format up to its NUL, an index stands for the format
    pointer, and `va` counts the arguments taken so far. */
module Printf {
  import opened Words
  import opened Numerals
  import opened Sinks
  import opened Ntoa
  import opened Format

  // ---- Reading a directive --------------------------------------------------------------------

  /** The `do` loop over the flag characters. */
  method EvaluateFlags(fmt: string, start: nat) returns (m: Marks, i: nat)
    requires start <= |fmt|
    ensures (m, i) == ReadMarks(fmt, start, NO_MARKS)
  {
    m, i := NO_MARKS, start;
    var n := true;
    while n
      invariant start <= i <= |fmt|
      invariant ReadMarks(fmt, start, NO_MARKS) == if n then ReadMarks(fmt, i, m) else (m, i)
      decreases |fmt| - i, n
    {
      var c := At(fmt, i);
      if i < |fmt| && IsMark(c) {
        m := WithMark(m, c);
        i := i + 1;
      } else {
        n := false;
      }
    }
  }

  method EvaluateWidth(fmt: string, start: nat, left: bool, args: seq<Arg>, va: nat)
    returns (f: Field, i: nat)
    requires start <= |fmt|
    requires WidthOf(ReadCount(fmt, start).0, left, args, va).Some?
    ensures i == ReadCount(fmt, start).1
    ensures WidthOf(ReadCount(fmt, start).0, left, args, va) == Some(f)
  {
    f, i := Field(left, 0, 0, va), start;
    if IsDigit(At(fmt, i)) {
      var width;
      width, i := Atoi(fmt, i);
      f := f.(width := width);
    } else if At(fmt, i) == '*' {
      var w := SignedOf(args[va].word, 0x1_0000_0000);
      if w < 0 {
        f := Field(true, -w, 0, va + 1);
      } else {
        f := Field(left, w, 0, va + 1);
      }
      i := i + 1;
    }
  }

  method EvaluatePrecision(fmt: string, start: nat, f0: Field, args: seq<Arg>)
    returns (precise: bool, f: Field, i: nat)
    requires start <= |fmt|
    requires PrecisionOf(ReadPrecision(fmt, start).0, f0, args).Some? && f0.prec == 0
    ensures i == ReadPrecision(fmt, start).1 && precise == ReadPrecision(fmt, start).0.Some?
    ensures PrecisionOf(ReadPrecision(fmt, start).0, f0, args) == Some(f)
  {
    precise, f, i := false, f0, start;
    if At(fmt, i) == '.' {
      precise := true;
      i := i + 1;
      if IsDigit(At(fmt, i)) {
        var prec;
        prec, i := Atoi(fmt, i);
        f := f.(prec := prec);
      } else if At(fmt, i) == '*' {
        var p := SignedOf(args[f.next].word, 0x1_0000_0000);
        f := f.(prec := if p > 0 then p else 0, next := f.next + 1);
        i := i + 1;
      }
    }
  }

  method EvaluateLength(fmt: string, start: nat) returns (length: Length, i: nat)
    requires start <= |fmt|
    ensures (length, i) == ReadLength(fmt, start)
  {
    length, i := NoLength, start;
    match At(fmt, i) {
      case 'l' =>
        length, i := L, i + 1;
        if At(fmt, i) == 'l' {
          length, i := LL, i + 1;
        }
      case 'h' =>
        length, i := H, i + 1;
        if At(fmt, i) == 'h' {
          length, i := HH, i + 1;
        }
      case 't' => length, i := T, i + 1;
      case 'j' => length, i := J, i + 1;
      case 'z' => length, i := Z, i + 1;
      case _ =>
    }
  }

  // ---- Converting an argument -----------------------------------------------------------------

  /** The flags as the specifier finds them. */
  function FlagsOf(d: Directive, f: Field): Flags {
    Flags(d.zeroPad, f.left, d.plus, d.space, d.hash, false, d.precision.Some?)
  }

  /** The base, and the flags as the integer conversions adjust them. */
  method AdjustFlags(d: Directive, f: Field) returns (base: nat, flags: Flags)
    ensures base == NumberOf(d, f, 0).base && flags == NumberOf(d, f, 0).flags
  {
    flags := FlagsOf(d, f);
    if d.letter == 'x' || d.letter == 'X' {
      base := 16;
    } else if d.letter == 'o' {
      base := 8;
    } else if d.letter == 'b' {
      base := 2;
    } else {
      base := 10;
      flags := flags.(hash := false);
    }
    if d.letter == 'X' {
      flags := flags.(upper := true);
    }
    if d.letter != 'i' && d.letter != 'd' {
      flags := flags.(plus := false, space := false);
    }
    if flags.precision {
      flags := flags.(zeroPad := false);
    }
  }

  /** The `va_arg` of an integer conversion with its casts. */
  method TakeInteger(d: Directive, arg: Arg) returns (value: int)
    requires IntegerArg(d, arg).Some?
    ensures Some(value) == IntegerArg(d, arg)
  {
    if d.letter == 'i' || d.letter == 'd' {
      if d.length.LongLong() {
        value := SignedOf(arg.quad, 0x1_0000_0000_0000_0000);
      } else if d.length.Long() {
        value := SignedOf(arg.word, 0x1_0000_0000);
      } else {
        value := if d.length.Char() then SignedOf(arg.word % 0x100, 0x100)
                 else if d.length.Short() then SignedOf(arg.word % 0x1_0000, 0x1_0000)
                 else SignedOf(arg.word, 0x1_0000_0000);
      }
    } else if d.length.LongLong() {
      value := arg.quad;
    } else if d.length.Long() {
      value := arg.word;
    } else {
      value := if d.length.Char() then arg.word % 0x100
               else if d.length.Short() then arg.word % 0x1_0000
               else arg.word;
    }
  }

  method PrintInteger(out: Sink, idx: nat, d: Directive, f: Field, arg: Arg) returns (next: nat)
    requires IsInteger(d.letter) && ArgText(d, f, arg).Some?
    requires out.Valid() && idx == |out.log| && out.Fits(|out.log| + |ArgText(d, f, arg).value|)
    modifies out, out.data
    ensures out.Valid() && out.before == old(out.before) && next == |out.log|
    ensures out.log == old(out.log) + ArgText(d, f, arg).value
  {
    var base, flags := AdjustFlags(d, f);
    var value := TakeInteger(d, arg);
    var n := Number(if value > 0 then value else 0 - value, value < 0, base, f.prec, f.width, flags);
    assert n == NumberOf(d, f, value);
    next := NtoaLong(out, idx, n);
  }

  /** `_strnlen_s` on a string whose NUL stands at its end. */
  method StrnLen(p: string, maxSize: Word) returns (n: nat)
    ensures n == Min(|p|, maxSize)
  {
    n := 0;
    var left := maxSize;
    while n < |p| && left != 0
      invariant n <= |p| && left == maxSize - n
    {
      left := left - 1;
      n := n + 1;
    }
  }

  /** The loop of `%s`: the string up to its NUL or, with a precision, that many characters. */
  method OutString(out: Sink, idx: nat, p: string, precise: bool, prec: Word) returns (next: nat)
    requires out.Valid() && idx == |out.log|
    requires out.Fits(|out.log| + if precise then Min(|p|, prec) else |p|)
    modifies out, out.data
    ensures out.Valid() && out.before == old(out.before) && next == |out.log|
    ensures out.log == old(out.log) + p[..if precise then Min(|p|, prec) else |p|]
  {
    next := idx;
    var at, left := 0, prec;
    assert out.log == old(out.log) + p[..at];
    while at < |p| && (!precise || left > 0)
      invariant 0 <= at <= |p| && (precise ==> at + left == prec)
      invariant out.Valid() && out.before == old(out.before) && next == |out.log|
      invariant out.log == old(out.log) + p[..at]
      decreases |p| - at
    {
      if precise {
        left := left - 1;
      }
      next := out.Out(p[at], next);
      assert p[..at + 1] == p[..at] + [p[at]];
      at := at + 1;
    }
  }

  method PrintString(out: Sink, idx: nat, d: Directive, f: Field, arg: Arg) returns (next: nat)
    requires d.letter == 's' && ArgText(d, f, arg).Some?
    requires d.precision.None? ==> f.prec == 0
    requires out.Valid() && idx == |out.log| && out.Fits(|out.log| + |ArgText(d, f, arg).value|)
    requires |arg.chars| < WRAP
    modifies out, out.data
    ensures out.Valid() && out.before == old(out.before) && next == |out.log|
    ensures out.log == old(out.log) + ArgText(d, f, arg).value
  {
    var p := arg.chars;
    var l := StrnLen(p, if f.prec != 0 then f.prec else WRAP - 1);
    if d.precision.Some? {
      l := if l < f.prec then l else f.prec;
    }
    assert Cut(p, d, f) == p[..l];
    Pieces(out.log, p[..l], f);
    next := idx;
    if !f.left {
      next := out.Fill(' ', Excess(f.width, l), next);
    }
    next := OutString(out, next, p, d.precision.Some?, f.prec);
    if f.left {
      next := out.Fill(' ', Excess(f.width, l), next);
    }
  }

  lemma {:induction false} Pieces(log: string, s: string, f: Field)
    ensures var pad := Repeat(' ', Excess(f.width, |s|));
      log + InField(s, f) == if f.left then log + s + pad else log + pad + s
  {
  }

  method PrintChar(out: Sink, idx: nat, f: Field, arg: Arg) returns (next: nat)
    requires arg.WordArg?
    requires out.Valid() && idx == |out.log| && out.Fits(|out.log| + Max(1, f.width))
    modifies out, out.data
    ensures out.Valid() && out.before == old(out.before) && next == |out.log|
    ensures out.log == old(out.log) + InField([(arg.word % 0x100) as char], f)
  {
    Pieces(out.log, [(arg.word % 0x100) as char], f);
    next := idx;
    if !f.left {
      next := out.Fill(' ', Excess(f.width, 1), next);
    }
    next := out.Out((arg.word % 0x100) as char, next);
    if f.left {
      next := out.Fill(' ', Excess(f.width, 1), next);
    }
  }

  method PrintPointer(out: Sink, idx: nat, d: Directive, f: Field, arg: Arg) returns (next: nat)
    requires d.letter == 'p' && arg.WordArg?
    requires out.Valid() && idx == |out.log| && out.Fits(|out.log| + |ArgText(d, f, arg).value|)
    modifies out, out.data
    ensures out.Valid() && out.before == old(out.before) && next == |out.log|
    ensures out.log == old(out.log) + ArgText(d, f, arg).value
  {
    var flags := FlagsOf(d, f).(zeroPad := true, upper := true);
    next := NtoaLong(out, idx, Number(arg.word, false, 16, f.prec, 8, flags));
  }

  // ---- The interpreter ------------------------------------------------------------------------

  /** The `switch` on the specifier. */
  method EvaluateSpecifier(out: Sink, idx: nat, d: Directive, f: Field, args: seq<Arg>)
    returns (next: nat, va: nat)
    requires !IsFloat(d.letter) && (d.precision.None? ==> f.prec == 0)
    requires TakesArg(d.letter) ==> f.next < |args| && ArgText(d, f, args[f.next]).Some?
    requires out.Valid() && idx == |out.log|
    requires out.Fits(|out.log| + |SpecifierText(d, f, args).0|)
    requires ShortStrings(args)
    modifies out, out.data
    ensures out.Valid() && out.before == old(out.before) && next == |out.log|
    ensures out.log == old(out.log) + SpecifierText(d, f, args).0 && va == SpecifierText(d, f, args).1
  {
    va := f.next;
    if IsInteger(d.letter) {
      next := PrintInteger(out, idx, d, f, args[va]);
      va := va + 1;
    } else if d.letter == 'c' {
      next := PrintChar(out, idx, f, args[va]);
      va := va + 1;
    } else if d.letter == 's' {
      next := PrintString(out, idx, d, f, args[va]);
      va := va + 1;
    } else if d.letter == 'p' {
      next := PrintPointer(out, idx, d, f, args[va]);
      va := va + 1;
    } else {
      next := out.Out(d.letter, idx);
    }
  }

  function SpecifierText(d: Directive, f: Field, args: seq<Arg>): (string, nat)
    requires TakesArg(d.letter) ==> f.next < |args| && ArgText(d, f, args[f.next]).Some?
  {
    if TakesArg(d.letter) then (ArgText(d, f, args[f.next]).value, f.next + 1) else ([d.letter], f.next)
  }

  /** Strings in memory are shorter than the address space. */
  predicate ShortStrings(args: seq<Arg>) {
    forall k :: 0 <= k < |args| && args[k].StringArg? ==> |args[k].chars| < WRAP
  }

  /** One directive, from the character after its `%`. */
  method EvaluateDirective(out: Sink, idx: nat, fmt: string, start: nat, args: seq<Arg>, va: nat)
    returns (next: nat, i: nat, va': nat)
    requires start <= |fmt| && ReadDirective(fmt, start).Some?
    requires DirectiveText(ReadDirective(fmt, start).value.0, args, va).Some?
    requires out.Valid() && idx == |out.log| && ShortStrings(args)
    requires out.Fits(|out.log| + |DirectiveText(ReadDirective(fmt, start).value.0, args, va).value.0|)
    modifies out, out.data
    ensures out.Valid() && out.before == old(out.before) && next == |out.log|
    ensures i == ReadDirective(fmt, start).value.1
    ensures var r := DirectiveText(ReadDirective(fmt, start).value.0, args, va).value;
      out.log == old(out.log) + r.0 && va' == r.1
  {
    hide ReadDirective, FieldOf, ArgText;
    ghost var d := ReadDirective(fmt, start).value.0;
    var d', f;
    d', f, i := EvaluateFields(fmt, start, args, va);
    if f.next < |args| {
      SameText(d, d', f, args[f.next]);
    }
    next, va' := EvaluateSpecifier(out, idx, d', f, args);
  }

  /** A directive up to its specifier: flags, width, precision, length. */
  method EvaluateFields(fmt: string, start: nat, args: seq<Arg>, va: nat)
    returns (d: Directive, f: Field, i: nat)
    requires start <= |fmt| && ReadDirective(fmt, start).Some?
    requires FieldOf(ReadDirective(fmt, start).value.0, args, va).Some?
    ensures i == ReadDirective(fmt, start).value.1 && Alike(ReadDirective(fmt, start).value.0, d)
    ensures FieldOf(ReadDirective(fmt, start).value.0, args, va) == Some(f)
    ensures d.precision.None? ==> f.prec == 0
  {
    hide ReadMarks, ReadLength;
    var m, j := EvaluateFlags(fmt, start);
    var w, k := EvaluateWidth(fmt, j, m.left, args, va);
    var precise, l;
    precise, f, l := EvaluatePrecision(fmt, k, w, args);
    var length, end := EvaluateLength(fmt, l);
    d := Directive(m.zeroPad, f.left, m.plus, m.space, m.hash, Absent,
                   if precise then Some(Absent) else None, length, fmt[end]);
    i := end + 1;
  }

  /** The parts of a directive that are still read once its field is known. */
  predicate Alike(d: Directive, e: Directive) {
    && d.letter == e.letter && d.length == e.length && d.precision.Some? == e.precision.Some?
    && d.zeroPad == e.zeroPad && d.plus == e.plus && d.space == e.space && d.hash == e.hash
  }

  /** Once the field is known, where its width and precision came from no longer matters. */
  lemma {:induction false} SameText(d: Directive, e: Directive, f: Field, arg: Arg)
    requires Alike(d, e)
    ensures ArgText(d, f, arg) == ArgText(e, f, arg)
  {
    if IsInteger(d.letter) {
      assert IntegerArg(d, arg) == IntegerArg(e, arg);
      if IntegerArg(d, arg).Some? {
        SameNumber(d, e, f, IntegerArg(d, arg).value);
      }
    } else if d.letter == 'p' && arg.WordArg? {
      assert PointerOf(d, f, arg.word) == PointerOf(e, f, arg.word);
    } else if d.letter == 's' && arg.StringArg? {
      assert Cut(arg.chars, d, f) == Cut(arg.chars, e, f);
    }
  }

  lemma {:induction false} SameNumber(d: Directive, e: Directive, f: Field, v: int)
    requires Alike(d, e)
    ensures NumberOf(d, f, v) == NumberOf(e, f, v)
  {
  }

  /** Where the interpreter stands: what it has put out, followed by what the rest of the
      format prints, is `whole`. */
  ghost predicate Underway(log: string, fmt: string, i: nat, args: seq<Arg>, va: nat, whole: string) {
    && i <= |fmt| && Printed(fmt, i, args, va).Some?
    && log + Printed(fmt, i, args, va).value.0 == whole
  }

  lemma {:induction false} OneStep(log: string, s: string, fmt: string, i: nat, j: nat,
                                   args: seq<Arg>, va: nat, va': nat, whole: string)
    requires Underway(log, fmt, i, args, va, whole) && j <= |fmt|
    requires Printed(fmt, i, args, va) == Prepend(s, Printed(fmt, j, args, va'))
    ensures |log| + |s| <= |whole| && Underway(log + s, fmt, j, args, va', whole)
  {
    assert log + s + Printed(fmt, j, args, va').value.0 == log + (s + Printed(fmt, j, args, va').value.0);
  }

  /** One turn of the loop over the format. */
  method EvaluateNext(out: Sink, idx: nat, fmt: string, start: nat, args: seq<Arg>, va: nat,
                      ghost whole: string)
    returns (next: nat, i: nat, va': nat)
    requires start < |fmt| && out.Valid() && idx == |out.log| && ShortStrings(args)
    requires Underway(out.log, fmt, start, args, va, whole) && out.Fits(|whole|)
    modifies out, out.data
    ensures out.Valid() && out.before == old(out.before) && next == |out.log|
    ensures start < i && Underway(out.log, fmt, i, args, va', whole)
  {
    if fmt[start] != '%' {
      OneStep(out.log, [fmt[start]], fmt, start, start + 1, args, va, va, whole);
      next := out.Out(fmt[start], idx);
      i, va' := start + 1, va;
    } else {
      ghost var (d, j) := ReadDirective(fmt, start + 1).value;
      ghost var (s, k) := DirectiveText(d, args, va).value;
      OneStep(out.log, s, fmt, start, j, args, va, k, whole);
      next, i, va' := EvaluateDirective(out, idx, fmt, start + 1, args, va);
    }
  }

  /** What the interpreter may be given: a format with arguments to match, and an output whose
      length its `int` result can hold. */
  predicate Callable(fmt: string, args: seq<Arg>) {
    WellFormed(fmt, args) && ShortStrings(args) && |Output(fmt, args)| < 0x8000_0000
  }

  /** `_vsnprintf`: it puts out the whole output, through any output function, and returns its
      length; then it terminates a buffer. */
  method Vsnprintf(out: Sink, fmt: string, args: seq<Arg>) returns (n: nat)
    requires Callable(fmt, args)
    requires out.Valid() && out.log == [] && out.maxlen < WRAP
    requires out.Fits(|Output(fmt, args)| + 1)
    modifies out, out.data
    ensures n == |Output(fmt, args)| && out.log == Output(fmt, args)
    ensures out.stream == if out.kind == ToStream then NonNul(Output(fmt, args)) else []
    ensures out.kind == ToBuffer ==>
      Terminated(out.data[..], Output(fmt, args), out.maxlen, old(out.before))
    ensures out.kind != ToBuffer ==> out.data[..] == old(out.before)
  {
    ghost var whole := Output(fmt, args);
    n := 0;
    var i, va := 0, 0;
    while i < |fmt|
      invariant out.Valid() && out.before == old(out.before) && n == |out.log|
      invariant Underway(out.log, fmt, i, args, va, whole)
      decreases |fmt| - i
    {
      n, i, va := EvaluateNext(out, n, fmt, i, args, va, whole);
    }
    out.Terminate(n);
  }

  /** A buffer of `before` into which at most `maxlen` characters went: the output cut to one
      less, a NUL, and the rest as it was. */
  predicate Terminated(data: string, output: string, maxlen: nat, before: string) {
    if maxlen == 0 then data == before
    else
      var n := Min(|output|, maxlen - 1);
      && n < |data| == |before|
      && data[..n] == output[..n] && data[n] == '\0' && data[n + 1..] == before[n + 1..]
  }

  // ---- Entry points ---------------------------------------------------------------------------

  /** `snprintf_` and `vsnprintf_`.  A null buffer stores nothing. */
  method Snprintf(buffer: array?<char>, count: Word, fmt: string, args: seq<Arg>) returns (n: nat)
    requires Callable(fmt, args)
    requires buffer != null ==> count <= buffer.Length
    modifies buffer
    ensures n == |Output(fmt, args)|
    ensures buffer != null ==> Terminated(buffer[..], Output(fmt, args), count, old(buffer[..]))
  {
    if buffer == null {
      var none := new char[0];
      var out := new Sink(ToNull, none, count);
      n := Vsnprintf(out, fmt, args);
    } else {
      var out := new Sink(ToBuffer, buffer, count);
      n := Vsnprintf(out, fmt, args);
    }
  }

  /** `sprintf_`: no limit, so the buffer has to hold the output and its NUL. */
  method Sprintf(buffer: array<char>, fmt: string, args: seq<Arg>) returns (n: nat)
    requires Callable(fmt, args)
    requires |Output(fmt, args)| < buffer.Length
    modifies buffer
    ensures n == |Output(fmt, args)| && buffer[..n] == Output(fmt, args) && buffer[n] == '\0'
    ensures buffer[n + 1..] == old(buffer[n + 1..])
  {
    var out := new Sink(ToBuffer, buffer, WRAP - 1);
    n := Vsnprintf(out, fmt, args);
  }

  /** `printf_`, `vprintf_` and `fctprintf`: the characters that reach the stream. */
  method Printf(fmt: string, args: seq<Arg>) returns (n: nat, stream: string)
    requires Callable(fmt, args)
    ensures n == |Output(fmt, args)| && stream == NonNul(Output(fmt, args))
  {
    var local := new char[1];
    var out := new Sink(ToStream, local, WRAP - 1);
    n := Vsnprintf(out, fmt, args);
    stream := out.stream;
  }
}
