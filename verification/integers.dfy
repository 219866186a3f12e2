/** Fixed-width integer arithmetic: Lua's 64-bit `lua_Integer`, bytes, and the
    little-endian byte image of a C integer object. */
module Integers {

  type byte = x: int | 0 <= x < 256

  /** 2^63: half the range of a 64-bit integer. */
  const Half64: int := 0x8000_0000_0000_0000

  /** `lua_Integer`: a signed 64-bit integer. */
  type LuaInteger = x: int | -Half64 <= x < Half64

  /** C's conversion of an integer to a 32-bit `unsigned int`: the value modulo 2^32. */
  function ToUInt32(v: int): (u: nat)
    ensures u < 0x1_0000_0000
    ensures (u - v) % 0x1_0000_0000 == 0
  {
    v % 0x1_0000_0000
  }

  /** 256^n: the number of values an n-byte object can hold. */
  function Pow256(n: nat): (p: nat)
    ensures p >= 1
  {
    if n == 0 then 1 else 256 * Pow256(n - 1)
  }

  /** The n bytes, least significant first, of `x mod 256^n`: what C stores when a
      value is assigned to an n-byte integer object on a little-endian machine. */
  function ToLE(x: nat, n: nat): (b: seq<byte>)
    ensures |b| == n
  {
    if n == 0 then [] else [x % 256] + ToLE(x / 256, n - 1)
  }

  /** The unsigned value of a little-endian byte image. */
  function FromLE(b: seq<byte>): (x: nat)
    ensures x < Pow256(|b|)
  {
    if b == [] then 0 else b[0] + 256 * FromLE(b[1..])
  }

  /** Euclidean division is unique: if `x == m * k + s` with `0 <= s < m` then `s` is
      the remainder and `k` the quotient. */
  lemma DivModUnique(x: int, m: int, k: int, s: int)
    requires m > 0 && 0 <= s < m && x == m * k + s
    ensures x % m == s && x / m == k
  {
    var q, r := x / m, x % m;
    assert x == m * q + r;
    if q > k {
      assert m * q >= m * (k + 1) by { MulMonotone(m, k + 1, q); }
      assert false;
    } else if q < k {
      assert m * k >= m * (q + 1) by { MulMonotone(m, q + 1, k); }
      assert false;
    }
  }

  lemma MulMonotone(m: int, a: int, b: int)
    requires m > 0 && a <= b
    ensures m * a <= m * b
  {
    assert m * b - m * a == m * (b - a);
  }

  /** `a` and `b` agree modulo `m`: they have the same `m`-bit image. */
  predicate Congruent(a: int, b: int, m: int)
    requires m > 0
  {
    (a - b) % m == 0
  }

  /** A multiple of `m` is congruent to 0. */
  lemma CongruentMultiple(a: int, b: int, m: int, k: int)
    requires m > 0 && a - b == m * k
    ensures Congruent(a, b, m)
  {
    DivModUnique(a - b, m, k, 0);
  }

  /** Reducing modulo `m` keeps the residue. */
  lemma CongruentMod(v: int, m: int)
    requires m > 0
    ensures Congruent(v % m, v, m)
  {
    CongruentMultiple(v % m, v, m, -(v / m));
  }

  /** Shifting by `h`, reducing modulo `m` and shifting back keeps the residue. */
  lemma CongruentShiftedMod(v: int, h: int, m: int)
    requires m > 0
    ensures Congruent((v + h) % m - h, v, m)
  {
    CongruentMultiple((v + h) % m - h, v, m, -((v + h) / m));
  }

  lemma CongruentSymmetric(a: int, b: int, m: int)
    requires m > 0 && Congruent(a, b, m)
    ensures Congruent(b, a, m)
  {
    CongruentMultiple(b, a, m, -((a - b) / m));
  }

  lemma CongruentTransitive(a: int, b: int, c: int, m: int)
    requires m > 0 && Congruent(a, b, m) && Congruent(b, c, m)
    ensures Congruent(a, c, m)
  {
    CongruentMultiple(a, c, m, (a - b) / m + (b - c) / m);
  }

  /** Two congruent values less than `m` apart are equal. */
  lemma CongruentInWindow(a: int, b: int, m: int)
    requires m > 0 && Congruent(a, b, m) && -m < a - b < m
    ensures a == b
  {
    var d := a - b;
    var q := d / m;
    assert d == m * q;
    if q >= 1 {
      MulMonotone(m, 1, q);
    } else if q <= -1 {
      MulMonotone(m, q, -1);
    }
  }

  /** Peeling the low byte off a remainder modulo `256 * p`. */
  lemma ModSplit(x: nat, p: nat)
    requires p >= 1
    ensures x % (256 * p) == x % 256 + 256 * ((x / 256) % p)
  {
    var q := x / 256;
    var r := x % 256;
    var q2 := q / p;
    var r2 := q % p;
    assert x == 256 * q + r;
    assert q == p * q2 + r2;
    assert x == (256 * p) * q2 + (256 * r2 + r) by {
      assert 256 * q == 256 * (p * q2) + 256 * r2;
      assert 256 * (p * q2) == (256 * p) * q2;
    }
    assert 256 * r2 + r < 256 * p by {
      MulMonotone(256, r2 + 1, p);
    }
    DivModUnique(x, 256 * p, q2, 256 * r2 + r);
  }

  /** Reading back an n-byte store yields the stored value modulo 256^n. */
  lemma {:induction false} FromToLE(x: nat, n: nat)
    ensures FromLE(ToLE(x, n)) == x % Pow256(n)
  {
    if n > 0 {
      var b := ToLE(x, n);
      assert b[0] == x % 256 && b[1..] == ToLE(x / 256, n - 1);
      FromToLE(x / 256, n - 1);
      ModSplit(x, Pow256(n - 1));
    }
  }

  /** A byte image is determined by its value: storing what was read reproduces it. */
  lemma {:induction false} ToFromLE(b: seq<byte>)
    ensures ToLE(FromLE(b), |b|) == b
  {
    if b != [] {
      var x := FromLE(b);
      assert x == b[0] + 256 * FromLE(b[1..]);
      DivModUnique(x, 256, FromLE(b[1..]), b[0]);
      ToFromLE(b[1..]);
    }
  }

  lemma Pow256Values()
    ensures Pow256(1) == 0x100
    ensures Pow256(2) == 0x1_0000
    ensures Pow256(4) == 0x1_0000_0000
    ensures Pow256(8) == 0x1_0000_0000_0000_0000
  {
  }
}
