/** The output functions of `src/lib/printf.c` (`_out_buffer`, `_out_null`, and `_out_char`
    and `_out_fct`, which differ only in where the stream goes). */
module Sinks {
  import opened Words

  datatype Kind = ToBuffer | ToNull | ToStream

  function NonNul(s: string): (r: string)
    ensures '\0' !in r
  {
    if s == [] then [] else NonNul(s[..|s| - 1]) + if s[|s| - 1] == '\0' then [] else [s[|s| - 1]]
  }

  /** Every other character passes, one by one and in order; NULs vanish and nothing else does. */
  lemma {:induction false} NonNulPasses(s: string, t: string, c: char)
    ensures NonNul(s + t) == NonNul(s) + NonNul(t)
    ensures c != '\0' ==> NonNul([c]) == [c] && multiset(NonNul(s))[c] == multiset(s)[c]
    ensures NonNul(['\0']) == []
    ensures '\0' !in s ==> NonNul(s) == s
  {
    NonNulConcat(s, t);
    if c != '\0' {
      NonNulCounts(s, c);
    }
    assert [c][..0] == [];
    assert ['\0'][..0] == [];
    NonNulWhole(s);
  }

  lemma {:induction false} NonNulConcat(s: string, t: string)
    ensures NonNul(s + t) == NonNul(s) + NonNul(t)
    decreases |t|
  {
    if t == [] {
      assert s + t == s;
    } else {
      assert (s + t)[..|s + t| - 1] == s + t[..|t| - 1];
      NonNulConcat(s, t[..|t| - 1]);
    }
  }

  lemma {:induction false} NonNulCounts(s: string, c: char)
    requires c != '\0'
    ensures multiset(NonNul(s))[c] == multiset(s)[c]
  {
    if s != [] {
      assert s == s[..|s| - 1] + [s[|s| - 1]];
      NonNulCounts(s[..|s| - 1], c);
    }
  }

  lemma {:induction false} NonNulWhole(s: string)
    ensures '\0' !in s ==> NonNul(s) == s
  {
    if s != [] {
      assert s == s[..|s| - 1] + [s[|s| - 1]];
      NonNulWhole(s[..|s| - 1]);
    }
  }

  /** What `data` holds after `log` was put out, at most `maxlen` characters of it kept. */
  predicate Keeps(data: string, log: string, maxlen: nat, before: string) {
    && |data| == |before|
    && forall k :: 0 <= k < |data| ==>
      data[k] == if k < |log| && k < maxlen then log[k] else before[k]
  }

  /** An output function with its buffer and `maxlen`.  `log` is every character it was
      called with, in order. */
  class Sink {
    const kind: Kind
    const data: array<char>
    const maxlen: nat
    var stream: string
    ghost var log: string
    ghost var before: string

    ghost predicate Valid()
      reads this, data
    {
      && |before| == data.Length
      && (kind == ToBuffer ==> Keeps(data[..], log, maxlen, before))
      && (kind != ToBuffer ==> data[..] == before)
      && stream == (if kind == ToStream then NonNul(log) else [])
    }

    /** Room for `n` characters: the buffer is at least as long as what will be stored. */
    ghost predicate Fits(n: nat) {
      kind == ToBuffer ==> n <= data.Length || maxlen <= data.Length
    }

    /** Where one character goes: into its place in the buffer, if that is below the limit, or
        to the end of the stream, unless it is NUL. */
    predicate Puts(c: char, idx: nat, data0: string, data1: string, stream0: string, stream1: string) {
      && data1 == (if kind == ToBuffer && idx < maxlen && idx < |data0| then data0[idx := c] else data0)
      && stream1 == if kind == ToStream && c != '\0' then stream0 + [c] else stream0
    }

    constructor (kind: Kind, data: array<char>, maxlen: nat)
      ensures this.kind == kind && this.data == data && this.maxlen == maxlen
      ensures Valid() && log == [] && before == data[..]
    {
      this.kind, this.data, this.maxlen := kind, data, maxlen;
      stream, log, before := [], [], data[..];
    }

    /** `out(c, buffer, idx, maxlen)` at the running index: returns `idx + 1`. */
    method Out(c: char, idx: nat) returns (next: nat)
      requires Valid() && idx == |log| && Fits(|log| + 1)
      modifies this, data
      ensures Valid() && before == old(before) && log == old(log) + [c] && next == |log|
      ensures Puts(c, idx, old(data[..]), data[..], old(stream), stream)
    {
      match kind {
        case ToBuffer =>
          if idx < maxlen {
            data[idx] := c;
          }
        case ToNull =>
        case ToStream =>
          assert (log + [c])[..|log|] == log;
          if c != '\0' {
            stream := stream + [c];
          }
      }
      log := log + [c];
      next := idx + 1;
    }

    /** The `while` loops that put out `n` copies of one character. */
    method Fill(c: char, n: nat, idx: nat) returns (next: nat)
      requires Valid() && idx == |log| && Fits(|log| + n)
      modifies this, data
      ensures Valid() && before == old(before) && log == old(log) + Repeat(c, n) && next == |log|
    {
      next := idx;
      var i := 0;
      while i < n
        invariant 0 <= i <= n
        invariant Valid() && before == old(before)
        invariant log == old(log) + Repeat(c, i) && next == |log|
      {
        hide Puts;
        next := Out(c, next);
        i := i + 1;
      }
    }

    /** The terminating NUL: `out(0, buffer, idx < maxlen ? idx : maxlen - 1, maxlen)`. */
    method Terminate(idx: nat)
      requires Valid() && idx == |log| && Fits(|log| + 1) && maxlen < WRAP
      modifies data
      ensures kind != ToBuffer || maxlen == 0 ==> data[..] == before
      ensures kind == ToBuffer && maxlen > 0 ==>
        var n := if idx < maxlen then idx else maxlen - 1;
        && n < data.Length && data[..n] == log[..n] && data[n] == '\0'
        && data[n + 1..] == before[n + 1..]
    {
      if kind == ToBuffer {
        // `maxlen - 1` wraps to 2^32 - 1 for 0, which is never below `maxlen`.
        var at := if idx < maxlen then idx else Mod32(maxlen - 1);
        if at < maxlen {
          data[at] := '\0';
        }
      }
    }
  }

  function Repeat(c: char, n: nat): (s: string)
    ensures |s| == n
    ensures forall k :: 0 <= k < n ==> s[k] == c
  {
    seq(n, _ => c)
  }
}
