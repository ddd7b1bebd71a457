/** Little-endian integers, as every codec of the program writes and reads them. */
module Bytes {
  import opened Types

  /** 2 to the power 8n. */
  function Pow256(n: nat): (p: int)
    ensures p >= 1
  {
    if n == 0 then 1 else 0x100 * Pow256(n - 1)
  }

  lemma Widths()
    ensures Pow256(1) == 0x100 && Pow256(2) == 0x1_0000 && Pow256(4) == 0x1_0000_0000
    ensures Pow256(8) == 0x1_0000_0000_0000_0000
  {
    assert Pow256(4) == 0x100 * Pow256(3) && Pow256(3) == 0x100 * Pow256(2);
    assert Pow256(6) == 0x100 * Pow256(5) && Pow256(8) == 0x100 * Pow256(7);
  }

  /** v >> 8n */
  function ShiftRight(v: nat, n: nat): nat {
    if n == 0 then v else ShiftRight(v / 0x100, n - 1)
  }

  /** The low `n` bytes of `v`, least significant first. */
  function Le(v: nat, n: nat): (b: seq<u8>)
    ensures |b| == n
  {
    if n == 0 then [] else [v % 0x100] + Le(v / 0x100, n - 1)
  }

  /** The 16-bit number of two bytes, low byte first. */
  function Word(low: u8, high: u8): u16 {
    var l: int, h: int := low, high;
    l + 0x100 * h
  }

  function FromLe(b: seq<u8>): nat {
    if b == [] then 0 else b[0] + 0x100 * FromLe(b[1..])
  }

  lemma {:induction false} FromLeBound(b: seq<u8>)
    ensures FromLe(b) < Pow256(|b|)
  {
    if b != [] { FromLeBound(b[1..]); }
  }

  lemma DivTwice(v: nat, p: int)
    requires p > 0
    ensures v / 0x100 / p == v / (0x100 * p)
  {
    var q, r := v / 0x100 / p, v / 0x100 % p;
    assert v / 0x100 == p * q + r && v == 0x100 * (v / 0x100) + v % 0x100;
    Quotient(v, 0x100 * p, q, 0x100 * r + v % 0x100);
  }

  lemma Quotient(v: int, m: int, q: int, r: int)
    requires 0 <= r < m && v == m * q + r
    ensures v / m == q
  {
    var d := q - v / m;
    assert m * d == m * q - m * (v / m);
    MulAtLeast(m, d);
  }

  /** Byte `i` is the digit of 256 to the power `i`. */
  lemma {:induction false} LeDigit(v: nat, n: nat, i: nat)
    requires i < n
    ensures Le(v, n)[i] == v / Pow256(i) % 0x100
  {
    if i > 0 {
      LeDigit(v / 0x100, n - 1, i - 1);
      DivTwice(v, Pow256(i - 1));
    }
  }

  /** Reading back `n` bytes gives the number, if it fits in them. */
  lemma {:induction false} LeRoundTrip(v: nat, n: nat)
    requires v < Pow256(n)
    ensures FromLe(Le(v, n)) == v
  {
    if n > 0 {
      LeRoundTrip(v / 0x100, n - 1);
      assert Le(v, n)[1..] == Le(v / 0x100, n - 1);
    }
  }

  /** `n` bytes hold the low part of any number. */
  lemma {:induction false} LeSplit(v: nat, n: nat)
    ensures v == FromLe(Le(v, n)) + Pow256(n) * ShiftRight(v, n)
  {
    if n > 0 {
      var w := v / 0x100;
      LeSplit(w, n - 1);
      FromLeFirst(v, n);
      Times256(Pow256(n - 1), ShiftRight(w, n - 1));
    }
  }

  lemma FromLeFirst(v: nat, n: nat)
    requires n > 0
    ensures FromLe(Le(v, n)) == v % 0x100 + 0x100 * FromLe(Le(v / 0x100, n - 1))
  {
    assert Le(v, n)[1..] == Le(v / 0x100, n - 1);
  }

  lemma Times256(p: int, s: int)
    ensures 0x100 * p * s == 0x100 * (p * s)
  {
  }

  lemma MulAtLeast(m: int, d: int)
    requires m > 0
    ensures d >= 1 ==> m * d >= m
    ensures d <= -1 ==> m * d <= -m
  {
  }

  lemma ModOfSplit(v: int, m: int, q: int, r: int)
    requires 0 <= r < m && v == r + m * q
    ensures v % m == r
  {
    var d := q - v / m;
    assert m * d == m * q - m * (v / m);
    MulAtLeast(m, d);
  }

  lemma {:induction false} LePrefix(v: nat, n: nat, k: nat)
    requires k <= n
    ensures Le(v, n)[..k] == Le(v, k)
  {
    if k > 0 { LePrefix(v / 0x100, n - 1, k - 1); }
  }

  lemma WordOfTwo(b: seq<u8>)
    requires |b| == 2
    ensures FromLe(b) == Word(b[0], b[1])
  {
    assert b[1..][1..] == [] && FromLe(b[1..]) == b[1] + 0x100 * FromLe([]);
  }

  lemma {:induction false} LeAppend(v: nat, n: nat)
    ensures Le(v, n + 1) == Le(v, n) + [ShiftRight(v, n) % 0x100]
  {
    if n > 0 { LeAppend(v / 0x100, n - 1); }
  }

  lemma {:induction false} FromLeAppend(b: seq<u8>, x: u8)
    ensures FromLe(b + [x]) == FromLe(b) + x * Pow256(|b|)
  {
    if b == [] {
      assert ([] + [x])[1..] == [];
    } else {
      assert (b + [x])[1..] == b[1..] + [x];
      FromLeAppend(b[1..], x);
    }
  }

  /** Pushes the low `n` bytes of `v`, one shift and mask at a time. */
  method PutLe(buf: seq<u8>, v: nat, n: nat) returns (out: seq<u8>)
    ensures out == buf + Le(v, n)
  {
    out := buf;
    for i := 0 to n
      invariant out == buf + Le(v, i)
    {
      LeAppend(v, i);
      out := out + [ShiftRight(v, i) % 0x100];
    }
  }

  /** Combines `n` bytes at `pos`, each shifted to its place. */
  method GetLe(data: seq<u8>, pos: nat, n: nat) returns (v: nat)
    requires pos + n <= |data|
    ensures v == FromLe(data[pos..pos + n]) && v < Pow256(n)
  {
    v := 0;
    for i := 0 to n
      invariant v == FromLe(data[pos..pos + i])
    {
      assert data[pos..pos + i + 1] == data[pos..pos + i] + [data[pos + i]];
      FromLeAppend(data[pos..pos + i], data[pos + i]);
      v := v + data[pos + i] * Pow256(i);
    }
    FromLeBound(data[pos..pos + n]);
  }

  /** The bytes `part` stand at `pos`. */
  predicate At(data: seq<u8>, pos: nat, part: seq<u8>) {
    pos + |part| <= |data| && forall i {:trigger part[i]} | 0 <= i < |part| :: data[pos + i] == part[i]
  }

  lemma AtSplit(data: seq<u8>, pos: nat, a: seq<u8>, b: seq<u8>)
    requires At(data, pos, a + b)
    ensures At(data, pos, a) && At(data, pos + |a|, b)
  {
    forall i | 0 <= i < |a|
      ensures data[pos + i] == a[i]
    {
      assert a[i] == (a + b)[i];
    }
    forall i | 0 <= i < |b|
      ensures data[pos + |a| + i] == b[i]
    {
      assert b[i] == (a + b)[|a| + i];
    }
  }

  lemma AtSlice(data: seq<u8>, pos: nat, part: seq<u8>)
    requires At(data, pos, part)
    ensures data[pos..pos + |part|] == part
  {
    forall i | 0 <= i < |part|
      ensures data[pos..pos + |part|][i] == part[i]
    {
      assert part[i] == data[pos + i];
    }
  }
}
