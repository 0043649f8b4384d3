/** Integer conversion in `src/lib/printf.c`: `_ntoa_long`, `_ntoa_long_long`,
    `_ntoa_format` and `_out_rev`.  Digits stand in the buffer least significant first. */
module Ntoa {
  import opened Words
  import opened Numerals
  import opened Sinks

  /** The `FLAGS_` bits of a conversion, but for the length of its argument. */
  datatype Flags = Flags(zeroPad: bool, left: bool, plus: bool, space: bool, hash: bool,
                         upper: bool, precision: bool)

  /** The integer to print: its magnitude and sign, the base, and the field. */
  datatype Number = Number(value: nat, negative: bool, base: nat, prec: nat, width: nat,
                           flags: Flags) {
    predicate Valid() {
      2 <= base <= 16
    }
  }

  function Min(a: nat, b: nat): nat {
    if a < b then a else b
  }

  function Max(a: nat, b: nat): nat {
    if a < b then b else a
  }

  /** The digits as the digit loop leaves them; none for a zero of explicit precision. */
  function DigitPart(n: Number): (s: string)
    requires n.Valid()
    ensures |s| <= BUFFER_SIZE
  {
    if n.flags.precision && n.value == 0 then [] else Numeral(n.value, n.base, BUFFER_SIZE, n.flags.upper)
  }

  /** A place is kept for the sign when zeros fill the field. */
  function FieldWidth(n: Number): nat {
    if !n.flags.left && n.width > 0 && n.flags.zeroPad
       && (n.negative || n.flags.plus || n.flags.space)
    then n.width - 1 else n.width
  }

  function ZerosTo(s: string, n: nat): (r: string)
    requires |s| <= BUFFER_SIZE
    ensures |r| == Max(|s|, Min(n, BUFFER_SIZE))
  {
    s + Repeat('0', Max(|s|, Min(n, BUFFER_SIZE)) - |s|)
  }

  /** Leading zeros: up to the precision, then, with `0`, up to the field; none with `-`. */
  function Padded(n: Number): (s: string)
    requires n.Valid()
    ensures |s| <= BUFFER_SIZE
  {
    var s := DigitPart(n);
    if n.flags.left then s
    else if n.flags.zeroPad then ZerosTo(ZerosTo(s, n.prec), FieldWidth(n))
    else ZerosTo(s, n.prec)
  }

  /** No `#` for a zero value. */
  predicate Hashes(n: Number) {
    n.flags.hash && n.value != 0
  }

  /** `#` makes room for its prefix by dropping leading characters when the digits fill the
      field or the precision exactly. */
  predicate Strips(n: Number)
    requires n.Valid()
  {
    var len := |Padded(n)|;
    Hashes(n) && !n.flags.precision && len > 0 && (len == n.prec || len == FieldWidth(n))
  }

  function Stripped(n: Number): (s: string)
    requires n.Valid()
    ensures |s| <= BUFFER_SIZE
  {
    var s := Padded(n);
    if !Strips(n) then s
    else if n.base == 16 && |s| > 1 then s[..|s| - 2]
    else s[..|s| - 1]
  }

  /** Append `c` if the buffer has room. */
  function Append(s: string, c: char): (r: string)
    requires |s| <= BUFFER_SIZE
    ensures |r| <= BUFFER_SIZE
  {
    if |s| < BUFFER_SIZE then s + [c] else s
  }

  function Prefixed(n: Number): (s: string)
    requires n.Valid()
    ensures |s| <= BUFFER_SIZE
  {
    var s := Stripped(n);
    if !Hashes(n) then s
    else if n.base == 16 then Append(Append(s, if n.flags.upper then 'X' else 'x'), '0')
    else if n.base == 2 then Append(Append(s, 'b'), '0')
    else Append(s, '0')
  }

  function Signed(n: Number): (s: string)
    requires n.Valid()
    ensures |s| <= BUFFER_SIZE
  {
    var s := Prefixed(n);
    if n.negative then Append(s, '-')
    else if n.flags.plus then Append(s, '+')
    else if n.flags.space then Append(s, ' ')
    else s
  }

  function Excess(width: nat, len: nat): nat {
    if len < width then width - len else 0
  }

  /** The buffer turned round, with spaces on the side the flags say. */
  function Laid(s: string, width: nat, flags: Flags): (r: string) {
    PadBefore(|s|, width, flags) + Reversed(s) + PadAfter(|s|, width, flags)
  }

  function PadBefore(len: nat, width: nat, flags: Flags): (r: string) {
    if flags.left || flags.zeroPad then [] else Repeat(' ', Excess(width, len))
  }

  function PadAfter(len: nat, width: nat, flags: Flags): (r: string) {
    if flags.left then Repeat(' ', Excess(width, len)) else []
  }

  /** The whole conversion, in the order it is put out. */
  function Text(n: Number): (s: string)
    requires n.Valid()
  {
    Laid(Signed(n), FieldWidth(n), n.flags)
  }

  // ---- The code ---------------------------------------------------------------------------

  method WriteZeros(buf: array<char>, start: nat, upTo: nat) returns (len: nat)
    requires buf.Length == BUFFER_SIZE && start <= BUFFER_SIZE
    modifies buf
    ensures len <= BUFFER_SIZE && buf[..len] == ZerosTo(old(buf[..start]), upTo)
  {
    len := start;
    while len < upTo && len < BUFFER_SIZE
      invariant start <= len <= Max(start, Min(upTo, BUFFER_SIZE))
      invariant buf[..len] == old(buf[..start]) + Repeat('0', len - start)
    {
      ghost var done := buf[..len];
      buf[len] := '0';
      assert buf[..len + 1] == done + ['0'];
      len := len + 1;
    }
  }

  method WriteChar(buf: array<char>, start: nat, c: char) returns (len: nat)
    requires buf.Length == BUFFER_SIZE && start <= BUFFER_SIZE
    modifies buf
    ensures len <= BUFFER_SIZE && buf[..len] == Append(old(buf[..start]), c)
  {
    len := start;
    if len < BUFFER_SIZE {
      ghost var done := buf[..len];
      buf[len] := c;
      assert buf[..len + 1] == done + [c];
      len := len + 1;
    }
  }

  /** The padding part of `_ntoa_format`. */
  method Pad(buf: array<char>, start: nat, n: Number) returns (len: nat, width: nat)
    requires n.Valid() && buf.Length == BUFFER_SIZE && start <= BUFFER_SIZE
    requires buf[..start] == DigitPart(n)
    modifies buf
    ensures len <= BUFFER_SIZE && buf[..len] == Padded(n) && width == FieldWidth(n)
  {
    len, width := start, n.width;
    if !n.flags.left {
      if width > 0 && n.flags.zeroPad && (n.negative || n.flags.plus || n.flags.space) {
        width := width - 1;
      }
      len := WriteZeros(buf, len, n.prec);
      if n.flags.zeroPad {
        len := WriteZeros(buf, len, width);
      }
    }
  }

  /** The `#` part of `_ntoa_format`. */
  method Hash(buf: array<char>, start: nat, width: nat, n: Number) returns (len: nat)
    requires n.Valid() && buf.Length == BUFFER_SIZE && start <= BUFFER_SIZE
    requires buf[..start] == Padded(n) && width == FieldWidth(n)
    modifies buf
    ensures len <= BUFFER_SIZE && buf[..len] == Prefixed(n)
  {
    len := start;
    if n.flags.hash && n.value != 0 {
      if !n.flags.precision && len > 0 && (len == n.prec || len == width) {
        len := len - 1;
        if len > 0 && n.base == 16 {
          len := len - 1;
        }
      }
      assert buf[..len] == Stripped(n);
      if n.base == 16 && !n.flags.upper && len < BUFFER_SIZE {
        len := WriteChar(buf, len, 'x');
      } else if n.base == 16 && n.flags.upper && len < BUFFER_SIZE {
        len := WriteChar(buf, len, 'X');
      } else if n.base == 2 && len < BUFFER_SIZE {
        len := WriteChar(buf, len, 'b');
      }
      len := WriteChar(buf, len, '0');
    }
  }

  /** The sign part of `_ntoa_format`: the sign is dropped when the buffer is full. */
  method Sign(buf: array<char>, start: nat, n: Number) returns (len: nat)
    requires n.Valid() && buf.Length == BUFFER_SIZE && start <= BUFFER_SIZE
    requires buf[..start] == Prefixed(n)
    modifies buf
    ensures len <= BUFFER_SIZE && buf[..len] == Signed(n)
  {
    len := start;
    if n.negative {
      len := WriteChar(buf, len, '-');
    } else if n.flags.plus {
      len := WriteChar(buf, len, '+');
    } else if n.flags.space {
      len := WriteChar(buf, len, ' ');
    }
  }

  /** The loop of `_out_rev` that puts the buffer out backwards. */
  method OutReversed(out: Sink, start: nat, buf: array<char>, len: nat) returns (idx: nat)
    requires out.Valid() && start == |out.log| && buf != out.data
    requires len <= buf.Length && out.Fits(|out.log| + len)
    modifies out, out.data
    ensures out.Valid() && out.before == old(out.before) && idx == |out.log|
    ensures out.log == old(out.log) + Reversed(buf[..len])
  {
    idx := start;
    var left := len;
    ghost var text := buf[..len];
    assert text[..len] == text;
    while left > 0
      invariant 0 <= left <= len && buf[..len] == text
      invariant out.Valid() && out.before == old(out.before) && idx == |out.log|
      invariant out.log + Reversed(text[..left]) == old(out.log) + Reversed(text)
    {
      hide Reversed;
      ReversedStep(text, left);
      left := left - 1;
      assert text[left] == buf[left];
      Shift(out.log, text[left], Reversed(text[..left]));
      idx := out.Out(buf[left], idx);
    }
    assert text[..0] == [] && out.log + [] == out.log;
  }

  /** `_out_rev`: the buffer backwards, padded with spaces to the field. */
  method OutRev(out: Sink, start: nat, buf: array<char>, len: nat, width: nat, flags: Flags)
    returns (idx: nat)
    requires out.Valid() && start == |out.log| && buf != out.data
    requires len <= buf.Length
    requires out.Fits(|out.log| + |Laid(buf[..len], width, flags)|)
    modifies out, out.data
    ensures out.Valid() && out.before == old(out.before) && idx == |out.log|
    ensures out.log == old(out.log) + Laid(buf[..len], width, flags)
  {
    idx := start;
    ghost var text := Reversed(buf[..len]);
    Joined(out.log, PadBefore(len, width, flags), text, PadAfter(len, width, flags));
    if !flags.left && !flags.zeroPad {
      idx := out.Fill(' ', Excess(width, len), idx);
    }
    assert out.log == old(out.log) + PadBefore(len, width, flags);
    idx := OutReversed(out, idx, buf, len);
    if flags.left {
      idx := out.Fill(' ', Excess(width, len), idx);
    }
    assert out.log == old(out.log) + PadBefore(len, width, flags) + text + PadAfter(len, width, flags);
  }

  lemma {:induction false} Joined(a: string, b: string, c: string, d: string)
    ensures a + (b + c + d) == a + b + c + d
  {
  }

  /** `_ntoa_long` and `_ntoa_long_long`: the text of the number is put out. */
  method NtoaLong(out: Sink, start: nat, n: Number) returns (idx: nat)
    requires n.Valid() && out.Valid() && start == |out.log| && out.Fits(|out.log| + |Text(n)|)
    modifies out, out.data
    ensures out.Valid() && out.before == old(out.before) && idx == |out.log|
    ensures out.log == old(out.log) + Text(n)
  {
    var buf := new char[BUFFER_SIZE];
    var len := 0;
    if !n.flags.precision || n.value != 0 {
      len := WriteDigits(buf, n.value, n.base, n.flags.upper);
    }
    var width;
    len, width := Pad(buf, len, n);
    len := Hash(buf, len, width, n);
    len := Sign(buf, len, n);
    idx := OutRev(out, start, buf, len, width, n.flags);
  }

  lemma {:induction false} Shift(s: string, c: char, t: string)
    ensures s + ([c] + t) == s + [c] + t
  {
  }

  lemma {:induction false} ReversedStep(s: string, k: nat)
    requires 0 < k <= |s|
    ensures Reversed(s[..k]) == [s[k - 1]] + Reversed(s[..k - 1])
  {
    ReversedLast(s[..k]);
    assert s[..k][..k - 1] == s[..k - 1];
  }

  lemma {:induction false} ReversedAppend(s: string, c: char)
    ensures Reversed(s + [c]) == [c] + Reversed(s)
  {
    ReversedLast(s + [c]);
    assert (s + [c])[..|s|] == s;
  }

  lemma {:induction false} ReversedLast(s: string)
    requires s != []
    ensures Reversed(s) == [s[|s| - 1]] + Reversed(s[..|s| - 1])
  {
    if |s| > 1 {
      ReversedLast(s[1..]);
      assert s[1..][..|s| - 2] == s[..|s| - 1][1..];
    }
  }
}
