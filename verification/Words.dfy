/** Machine words and the few arithmetic facts that several components share. */
module Words {
  const U16: nat := 0x1_0000
  const U32: nat := 0x1_0000_0000

  type byte = x: int | 0 <= x < 256
  type word = x: int | 0 <= x < U16
  type u32 = x: int | 0 <= x < U32

  function Min(a: int, b: int): int {
    if a <= b then a else b
  }

  function Zeros(n: nat): (z: seq<byte>)
    ensures |z| == n && forall i :: 0 <= i < n ==> z[i] == 0
  {
    if n == 0 then [] else [0] + Zeros(n - 1)
  }

  lemma Regroup<T>(a: seq<T>, b: seq<T>, c: seq<T>)
    ensures a + (b + c) == (a + b) + c
  {}

  lemma TakeThenRest<T>(g: seq<T>, c: seq<T>, n: nat)
    requires n <= |c|
    ensures (g + c[..n]) + c[n..] == g + c
  {}

  lemma TakeOneMore<T>(s: seq<T>, k: nat)
    requires k < |s|
    ensures s[..k + 1] == s[..k] + [s[k]]
  {}

  lemma MulNonneg(a: int, b: int)
    requires a >= 0 && b >= 0
    ensures a * b >= 0
  {}

  lemma MulMono(a: nat, b: nat, m: nat)
    requires a <= b
    ensures a * m <= b * m
  {}

  lemma DivMod(x: int, n: int)
    requires n > 0
    ensures x == (x / n) * n + x % n && 0 <= x % n < n
  {}

  /** The remainder is the only number below the divisor that differs by a multiple. */
  lemma ModIsUnique(x: int, q: int, r: int, m: int)
    requires 0 <= r < m
    requires x == q * m + r
    ensures x / m == q && x % m == r
  {
    var d, s := x / m - q, x % m - r;
    assert x == (x / m) * m + x % m;
    assert d * m == (x / m) * m - q * m;
    assert d * m == -s;
    if d >= 1 {
      MulNonneg(d - 1, m);
    } else if d <= -1 {
      MulNonneg(-d - 1, m);
    }
  }
}
