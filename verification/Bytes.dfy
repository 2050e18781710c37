/** Machine integers of the C sources, written as bounded mathematical integers. */
module Bytes {
  type byte = x: int | 0 <= x < 0x100
  type uint16 = x: int | 0 <= x < 0x1_0000
  type uint32 = x: int | 0 <= x < 0x1_0000_0000
  type uint64 = x: int | 0 <= x < 0x1_0000_0000_0000_0000

  const TWO16 := 0x1_0000
  const TWO32 := 0x1_0000_0000
  const TWO64 := 0x1_0000_0000_0000_0000
  const UINT16_MAX: uint16 := 0xFFFF
  const UINT32_MAX: uint32 := 0xFFFF_FFFF
  const INT64_MAX: uint64 := 0x7FFF_FFFF_FFFF_FFFF

  const CR: byte := 0x0D
  const LF: byte := 0x0A
  const STAR: byte := 0x2A
  const SEMI: byte := 0x3B

  datatype Option<+T> = None | Some(value: T)

  function Min(a: nat, b: nat): nat { if a <= b then a else b }

  /** Concatenation of a sequence of byte strings. */
  function Flatten(ss: seq<seq<byte>>): seq<byte> {
    if ss == [] then [] else ss[0] + Flatten(ss[1..])
  }
}

/** Division facts with a variable divisor. */
module Arith {
  lemma ProductAtLeast(m: int, d: int)
    requires m > 0
    ensures d >= 1 ==> m * d >= m
    ensures d <= -1 ==> m * d <= -m
  {}

  lemma Euclid(x: int, p: int)
    requires p > 0
    ensures x == p * (x / p) + x % p && 0 <= x % p < p
    ensures x >= 0 ==> x / p >= 0
  {}

  lemma RemainderUnique(v: int, m: int, q: int, r: int)
    requires m > 0 && v == m * q + r && 0 <= r < m
    ensures v % m == r && v / m == q
  {
    var q', r' := v / m, v % m;
    Euclid(v, m);
    assert m * (q - q') == m * q - m * q';
    ProductAtLeast(m, q - q');
  }

  /** How quotient and remainder move when `d` is added: one carry, exactly when the remainder drops. */
  lemma Carry(q: nat, d: nat, p: nat)
    requires p > 0
    ensures (q + d) / p == q / p + d / p + (if (q + d) % p < q % p then 1 else 0)
  {
    var w, e := q % p, d % p;
    var n := q / p + d / p;
    Euclid(q, p);
    Euclid(d, p);
    assert p * n == p * (q / p) + p * (d / p);
    if w + e < p {
      RemainderUnique(q + d, p, n, w + e);
    } else {
      assert p * (n + 1) == p * n + p;
      RemainderUnique(q + d, p, n + 1, w + e - p);
    }
  }

  lemma MulStep(m: int, n: int)
    ensures m * (n + 1) == m * n + m
  {}

  lemma SmallMod(a: nat, m: nat)
    requires a < m
    ensures a % m == a
  {}

  lemma MulMonotone(f: nat, a: nat, b: nat)
    requires a <= b
    ensures f * a <= f * b
  {}

  lemma DivMonotone(a: nat, b: nat, p: nat)
    requires a <= b && p > 0
    ensures a / p <= b / p
  {
    Carry(a, b - a, p);
  }

  lemma MulDivExact(f: nat, a: nat)
    requires f > 0
    ensures f * a / f == a
  {
    RemainderUnique(f * a, f, a, 0);
  }
}
