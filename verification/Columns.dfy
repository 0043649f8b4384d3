/** Text in a field: zeros in front, spaces on one side, and when two such texts differ. */
module Columns {
  import opened Numerals
  import opened Sinks
  import opened Ntoa
  import opened NtoaLaws

  // ---- Counting what is not a space -----------------------------------------------------------

  function Solid(s: string): nat {
    if s == [] then 0 else (if s[0] == ' ' then 0 else 1) + Solid(s[1..])
  }

  lemma {:induction false} SolidConcat(s: string, t: string)
    ensures Solid(s + t) == Solid(s) + Solid(t)
  {
    if s == [] {
      assert s + t == t;
    } else {
      assert (s + t)[1..] == s[1..] + t;
      SolidConcat(s[1..], t);
    }
  }

  lemma {:induction false} SolidSpaces(n: nat)
    ensures Solid(Repeat(' ', n)) == 0
  {
    if n > 0 {
      assert Repeat(' ', n)[1..] == Repeat(' ', n - 1);
      SolidSpaces(n - 1);
    }
  }

  lemma {:induction false} SolidPlain(s: string)
    requires Plain(s)
    ensures Solid(s) == |s|
  {
    if s != [] {
      assert IsPlain(s[0]);
      SolidPlain(s[1..]);
    }
  }

  /** Spaces, a sign, plain characters, spaces. */
  lemma {:induction false} SolidText(before: nat, sign: string, w: string, after: nat)
    requires Plain(w) && |sign| <= 1
    ensures Solid(Repeat(' ', before) + (sign + w) + Repeat(' ', after))
      == |w| + if sign == [] || sign == " " then 0 else 1
  {
    SolidConcat(Repeat(' ', before) + (sign + w), Repeat(' ', after));
    SolidConcat(Repeat(' ', before), sign + w);
    SolidConcat(sign, w);
    SolidSpaces(before);
    SolidSpaces(after);
    SolidPlain(w);
    assert sign != [] ==> sign == [sign[0]] && sign[1..] == [];
  }

  // ---- Spaces on one side ---------------------------------------------------------------------

  function Spread(before: nat, sign: string, w: string, after: nat): (s: string)
    ensures |s| == before + |sign| + |w| + after
  {
    Repeat(' ', before) + (sign + w) + Repeat(' ', after)
  }

  /** Spaces on one side, as the flag `-` says. */
  function OnSide(left: bool, pad: nat, sign: string, w: string): (s: string)
    ensures |s| == pad + |sign| + |w|
  {
    if left then Spread(0, sign, w, pad) else Spread(pad, sign, w, 0)
  }

  /** Texts with different numbers of solid characters differ. */
  lemma {:induction false} CountDiffers(left: bool, pad: nat, sign: string, w: string, pad': nat, sign': string, w': string)
    requires Plain(w) && Plain(w') && |sign| <= 1 && |sign'| <= 1
    requires |w| + (if sign == [] || sign == " " then 0 else 1)
          != |w'| + (if sign' == [] || sign' == " " then 0 else 1)
    ensures OnSide(left, pad', sign', w') != OnSide(left, pad, sign, w)
  {
    if left {
      SolidText(0, sign, w, pad);
      SolidText(0, sign', w', pad');
    } else {
      SolidText(pad, sign, w, 0);
      SolidText(pad', sign', w', 0);
    }
  }

  /** A space for a sign is a space of padding. */
  lemma {:induction false} SpaceMoves(before: nat, w: string, after: nat)
    ensures Spread(before + 1, "", w, after) == Spread(before, " ", w, after)
  {
    assert Repeat(' ', before + 1) == Repeat(' ', before) + " ";
  }

  /** A text that starts with a space differs from one that does not. */
  lemma {:induction false} StartDiffers(w: string, a: nat, a': nat)
    requires Plain(w) && w != []
    ensures Spread(0, "", w, a') != Spread(0, " ", w, a)
  {
    assert Spread(0, "", w, a')[0] == w[0] && IsPlain(w[0]);
    assert Spread(0, " ", w, a)[0] == ' ';
  }

  lemma {:induction false} ReversedZeros(s: string, n: nat)
    ensures Reversed(s + Repeat('0', n)) == Repeat('0', n) + Reversed(s)
  {
    if n == 0 {
      assert s + Repeat('0', 0) == s && Repeat('0', 0) + Reversed(s) == Reversed(s);
    } else {
      assert s + Repeat('0', n) == s + Repeat('0', n - 1) + ['0'];
      ReversedAppend(s + Repeat('0', n - 1), '0');
      ReversedZeros(s, n - 1);
      assert ['0'] + (Repeat('0', n - 1) + Reversed(s)) == Repeat('0', n) + Reversed(s);
    }
  }

  // ---- Zeros in front -------------------------------------------------------------------------

  function AtLeast(s: string, n: nat): (r: string)
    ensures |r| == Max(|s|, n)
  {
    Repeat('0', Excess(n, |s|)) + s
  }

  lemma {:induction false} AtLeastTwice(s: string, m: nat, n: nat)
    ensures AtLeast(AtLeast(s, m), n) == AtLeast(s, Max(|s|, Max(m, n)))
  {
    var a := AtLeast(s, m);
    assert AtLeast(a, n) == Repeat('0', Excess(n, |a|) + Excess(m, |s|)) + s;
  }

  lemma {:induction false} OneMoreZero(s: string)
    ensures ['0'] + s == AtLeast(s, |s| + 1)
  {
  }
}
