/** hex.c: conversion between binary data, integers and hexadecimal text. */
module Hex {
  import opened Bytes
  import opened Arith

  const INVALID: byte := 0xFF

  /** The value the initialised lookup table holds for character `c`. */
  function Val(c: byte): byte {
    if 0x30 <= c <= 0x39 then c - 0x30
    else if 0x61 <= c <= 0x66 then 10 + c - 0x61
    else if 0x41 <= c <= 0x46 then 10 + c - 0x41
    else INVALID
  }

  predicate IsDigit(c: byte) { Val(c) != INVALID }

  predicate IsHex(s: seq<byte>) { forall i :: 0 <= i < |s| ==> IsDigit(s[i]) }

  /** Character of the upper-case or lower-case output table. */
  function Digit(v: byte, upper: bool): (c: byte)
    requires v < 16
    ensures Val(c) == v
  {
    if v < 10 then 0x30 + v else if upper then 0x41 + v - 10 else 0x61 + v - 10
  }

  method InitTable(table: array<byte>)
    requires table.Length == 256
    modifies table
    ensures forall c :: 0 <= c < 256 ==> table[c] == Val(c)
  {
    for i := 0 to 256
      invariant forall c :: 0 <= c < i ==> table[c] == INVALID
    {
      table[i] := INVALID;
    }
    for i := 0x30 to 0x3A
      invariant forall c :: 0 <= c < 256 ==> table[c] == if 0x30 <= c < i then c - 0x30 else INVALID
    {
      table[i] := i - 0x30;
    }
    for i := 0x61 to 0x67
      invariant forall c :: 0 <= c < 256 && !(0x61 <= c <= 0x66) ==>
                              table[c] == if 0x30 <= c <= 0x39 then c - 0x30 else INVALID
      invariant forall c :: 0x61 <= c < i ==> table[c] == 10 + c - 0x61
    {
      table[i] := 10 + i - 0x61;
    }
    for i := 0x41 to 0x47
      invariant forall c :: 0 <= c < 256 && !(0x41 <= c <= 0x46) ==> table[c] == Val(c)
      invariant forall c :: 0x41 <= c < i ==> table[c] == 10 + c - 0x41
    {
      table[i] := 10 + i - 0x41;
    }
  }

  // ---------------------------------------------------------------- binary data

  /** The byte spelled by digits 2i and 2i+1. */
  function ByteAt(s: seq<byte>, i: nat): byte
    requires 2 * i + 1 < |s| && IsHex(s)
  {
    assert IsDigit(s[2 * i]) && IsDigit(s[2 * i + 1]);
    16 * Val(s[2 * i]) + Val(s[2 * i + 1])
  }

  /** The bytes denoted by hexadecimal text of even length. */
  function Bin(s: seq<byte>): (b: seq<byte>)
    requires |s| % 2 == 0 && IsHex(s)
  {
    seq(|s| / 2, i requires 0 <= i < |s| / 2 => ByteAt(s, i))
  }

  function DigitAt(b: seq<byte>, upper: bool, j: nat): (c: byte)
    requires j < 2 * |b|
    ensures IsDigit(c)
  {
    Digit(if j % 2 == 0 then b[j / 2] / 16 else b[j / 2] % 16, upper)
  }

  function Text(b: seq<byte>, upper: bool): (s: seq<byte>)
    ensures |s| == 2 * |b| && IsHex(s)
  {
    seq(2 * |b|, j requires 0 <= j < 2 * |b| => DigitAt(b, upper, j))
  }

  /** Text denotes exactly the bytes it was made from. */
  lemma TextRoundTrip(b: seq<byte>, upper: bool)
    ensures Bin(Text(b, upper)) == b
  {
    forall i | 0 <= i < |b| ensures ByteAt(Text(b, upper), i) == b[i] {
      assert (2 * i) / 2 == i && (2 * i + 1) / 2 == i;
      assert Text(b, upper)[2 * i] == DigitAt(b, upper, 2 * i);
      assert Text(b, upper)[2 * i + 1] == DigitAt(b, upper, 2 * i + 1);
    }
  }

  method ToBin(out: array<byte>, s: seq<byte>, bytes: nat) returns (ok: bool)
    requires bytes <= out.Length && 2 * bytes <= |s|
    modifies out
    ensures ok <==> IsHex(s[..2 * bytes])
    ensures ok ==> out[..bytes] == Bin(s[..2 * bytes])
    ensures out[bytes..] == old(out[bytes..])
  {
    var i, j := 0, 0;
    ok := true;
    while i < bytes
      invariant 0 <= i <= bytes && j == 2 * i
      invariant IsHex(s[..j])
      invariant forall k :: 0 <= k < i ==> out[k] == ByteAt(s[..j], k)
      invariant forall k :: bytes <= k < out.Length ==> out[k] == old(out[k])
    {
      var val1, val2 := Val(s[j]), Val(s[j + 1]);
      if val1 == INVALID || val2 == INVALID {
        assert s[..2 * bytes][j] == s[j] && s[..2 * bytes][j + 1] == s[j + 1];
        ok := false;
        return;
      }
      out[i] := 16 * val1 + val2;
      assert forall k :: 0 <= k < j + 2 ==> IsDigit(s[k]);
      assert forall k :: 0 <= k < i ==> ByteAt(s[..j + 2], k) == ByteAt(s[..j], k);
      i, j := i + 1, j + 2;
    }
  }

  method FromBin(out: array<byte>, at: nat, b: seq<byte>, upper: bool)
    requires at + 2 * |b| <= out.Length
    modifies out
    ensures out[at..at + 2 * |b|] == Text(b, upper)
    ensures forall k :: 0 <= k < at || at + 2 * |b| <= k < out.Length ==> out[k] == old(out[k])
  {
    var i, j := 0, at;
    while i < |b|
      invariant 0 <= i <= |b| && j == at + 2 * i
      invariant forall k :: 0 <= k < at || at + 2 * |b| <= k < out.Length ==> out[k] == old(out[k])
      invariant forall k :: 0 <= k < 2 * i ==> out[at + k] == Text(b, upper)[k]
    {
      out[j] := Digit(b[i] / 16, upper);
      out[j + 1] := Digit(b[i] % 16, upper);
      assert (2 * i) / 2 == i && (2 * i + 1) / 2 == i;
      i, j := i + 1, j + 2;
    }
  }

  // ---------------------------------------------------------------- integers

  /** Value of hexadecimal text, most significant digit first. */
  function Num(s: seq<byte>): nat
    requires IsHex(s)
  {
    if s == [] then 0 else 16 * Num(s[..|s| - 1]) + Val(s[|s| - 1])
  }

  function Pow16(n: nat): (p: nat)
    ensures p >= 1
  {
    if n == 0 then 1 else 16 * Pow16(n - 1)
  }

  /** hex_to_int: -1 for a character that is no digit or a value above INT64_MAX. */
  function IntOf(s: seq<byte>): (v: int)
    ensures -1 <= v <= INT64_MAX
  {
    if !IsHex(s) then -1
    else if Num(s) % TWO64 > INT64_MAX then -1
    else Num(s) % TWO64
  }

  lemma {:induction false} NumBound(s: seq<byte>)
    requires IsHex(s)
    ensures Num(s) < Pow16(|s|)
  {
    if s != [] { NumBound(s[..|s| - 1]); }
  }

  /** Short fields never wrap: the value read is the number written. */
  lemma IntOfShort(s: seq<byte>)
    requires |s| <= 8
    ensures IntOf(s) == if IsHex(s) then Num(s) else -1
    ensures IntOf(s) < 0x1_0000_0000
    ensures |s| <= 4 ==> IntOf(s) < 0x1_0000
    ensures |s| <= 2 ==> IntOf(s) < 0x100
  {
    if IsHex(s) {
      NumBound(s);
      assert Pow16(2) == 0x100 && Pow16(4) == 0x1_0000 by { assert Pow16(1) == 16 && Pow16(3) == 0x1000; }
      assert Pow16(6) == 0x100_0000 by { assert Pow16(5) == 0x10_0000; }
      assert Pow16(8) == 0x1_0000_0000 by { assert Pow16(7) == 0x1000_0000; }
      Pow16Monotone(|s|, 8);
      if |s| <= 4 { Pow16Monotone(|s|, 4); }
      if |s| <= 2 { Pow16Monotone(|s|, 2); }
    }
  }

  /** Up to 16 digits the number is read or, from 2^63 on, refused; more digits lose the leading ones. */
  lemma IntOfLonger(s: seq<byte>)
    requires IsHex(s)
    ensures |s| <= 16 ==> IntOf(s) == if Num(s) <= 0x7FFF_FFFF_FFFF_FFFF then Num(s) else -1
    ensures |s| > 16 ==> IntOf(s) == IntOf(s[|s| - 16..])
    decreases |s|
  {
    hide Num, Pow16, Val;
    Sixteen();
    if |s| <= 16 {
      NumBound(s);
      Pow16Monotone(|s|, 16);
    } else {
      DropLeading(s, 16);
    }
  }

  lemma Sixteen()
    ensures Pow16(16) == TWO64
  {
    assert Pow16(4) == 0x1_0000 && Pow16(8) == 0x1_0000_0000 by { assert Pow16(6) == 0x100_0000; }
    assert Pow16(12) == 0x1_0000_0000_0000 by { assert Pow16(10) == 0x100_0000_0000; }
    assert Pow16(14) == 0x100_0000_0000_0000;
  }

  lemma {:induction false} DropLeading(s: seq<byte>, n: nat)
    requires IsHex(s) && n <= |s|
    ensures Num(s) % Pow16(n) == Num(s[|s| - n..]) % Pow16(n)
    decreases n
  {
    if n > 0 {
      var front, tail := s[..|s| - 1], s[|s| - n..];
      hide Num, Val;
      DropLeading(front, n - 1);
      assert front[|front| - (n - 1)..] == tail[..n - 1];
      LastDigit(s);
      LastDigit(tail);
      assert tail[n - 1] == s[|s| - 1];
      ModTimes16(Num(s), Pow16(n - 1));
      ModTimes16(Num(tail), Pow16(n - 1));
    } else {
      assert Num(s) % 1 == 0 && Num(s[|s| - n..]) % 1 == 0;
    }
  }

  lemma LastDigit(s: seq<byte>)
    requires IsHex(s) && s != []
    ensures Num(s) / 16 == Num(s[..|s| - 1]) && Num(s) % 16 == Val(s[|s| - 1])
  {
    assert IsDigit(s[|s| - 1]);
  }

  lemma {:induction false} Pow16Monotone(a: nat, b: nat)
    requires a <= b
    ensures Pow16(a) <= Pow16(b)
    decreases b
  {
    if a < b { Pow16Monotone(a, b - 1); }
  }

  lemma NumStep(s: seq<byte>, i: nat)
    requires i < |s| && IsHex(s[..i]) && IsDigit(s[i])
    ensures IsHex(s[..i + 1]) && Num(s[..i + 1]) == 16 * Num(s[..i]) + Val(s[i])
    ensures Num(s[..i + 1]) % TWO64 == 16 * (Num(s[..i]) % TWO64) % TWO64 + Val(s[i])
  {
    assert s[..i + 1][..i] == s[..i];
    ShiftMod(Num(s[..i]), Val(s[i]));
  }

  lemma ShiftMod(v: nat, d: nat)
    requires d < 16
    ensures (16 * v + d) % TWO64 == 16 * (v % TWO64) % TWO64 + d
  {
    // the top digit goes, and what is left has room for the new one
    var q, r := v / TWO64, v % TWO64;
    var t, low := r / 0x1000_0000_0000_0000, r % 0x1000_0000_0000_0000;
    assert 16 * r == TWO64 * t + 16 * low;
    assert 16 * v + d == TWO64 * (16 * q + t) + (16 * low + d);
    RemainderUnique(16 * r, TWO64, t, 16 * low);
    RemainderUnique(16 * v + d, TWO64, 16 * q + t, 16 * low + d);
  }

  method ToInt(s: seq<byte>) returns (r: int)
    ensures r == IntOf(s)
  {
    var ret: uint64 := 0;
    for i := 0 to |s|
      invariant IsHex(s[..i])
      invariant ret == Num(s[..i]) % TWO64
    {
      ret := (16 * ret) % TWO64;
      var val := Val(s[i]);
      if val == INVALID { return -1; }
      NumStep(s, i);
      ret := ret + val;
    }
    assert s[..|s|] == s;
    if ret > INT64_MAX { return -1; }
    return ret;
  }

  /** The `n` low hexadecimal digits of `v`. */
  function IntText(v: nat, n: nat): (s: seq<byte>)
    ensures |s| == n && IsHex(s)
  {
    if n == 0 then [] else IntText(v / 16, n - 1) + [Digit(v % 16, true)]
  }

  lemma {:induction false} IntTextRoundTrip(v: nat, n: nat)
    ensures Num(IntText(v, n)) == v % Pow16(n)
  {
    if n > 0 {
      IntTextRoundTrip(v / 16, n - 1);
      var s := IntText(v, n);
      assert s[..n - 1] == IntText(v / 16, n - 1);
      ModTimes16(v, Pow16(n - 1));
    }
  }

  lemma ModTimes16(v: nat, m: nat)
    requires m >= 1
    ensures v % (16 * m) == 16 * (v / 16 % m) + v % 16
  {
    var q, r := v / 16 / m, v / 16 % m;
    assert v / 16 == q * m + r;
    assert v == (16 * m) * q + (16 * r + v % 16) by { assert 16 * (q * m) == (16 * m) * q; }
    RemainderUnique(v, 16 * m, q, 16 * r + v % 16);
  }

  method FromInt(out: array<byte>, at: nat, v: uint64, bytes: nat)
    requires at + 2 * bytes <= out.Length
    modifies out
    ensures out[at..at + 2 * bytes] == IntText(v, 2 * bytes)
    ensures forall k :: 0 <= k < at || at + 2 * bytes <= k < out.Length ==> out[k] == old(out[k])
  {
    var n := 2 * bytes;
    var o := n;
    var rest: nat := v;
    while o > 0
      invariant 0 <= o <= n
      invariant forall k :: 0 <= k < at || at + n <= k < out.Length ==> out[k] == old(out[k])
      invariant IntText(v, n) == IntText(rest, o) + out[at + o..at + n]
    {
      o := o - 1;
      ghost var tail := out[at + o + 1..at + n];
      out[at + o] := Digit(rest % 16, true);
      assert out[at + o + 1..at + n] == tail;
      assert out[at + o..at + n] == [out[at + o]] + tail;
      assert IntText(rest, o + 1) == IntText(rest / 16, o) + [out[at + o]];
      rest := rest / 16;
    }
  }
}
