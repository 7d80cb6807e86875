// Java `int` arithmetic: 32-bit two's-complement wrap-around and division
// that truncates toward zero. Dafny's integers are unbounded and its `/` is
// Euclidean, so both are written out here.
module JavaInt {

  const Two31: int := 0x8000_0000
  const Two32: int := 0x1_0000_0000

  /** The values of a Java `int`. */
  type int32 = x: int | -0x8000_0000 <= x < 0x8000_0000

  const MaxInt32: int32 := 0x7fff_ffff

  /** The `int` a Java addition or multiplication yields for the exact value `x`:
      the one `int` congruent to `x` modulo 2^32. */
  function Wrap(x: int): (r: int32)
    ensures (x - r) % Two32 == 0
    ensures -Two31 <= x < Two31 ==> r == x
  {
    var m := (x + Two31) % Two32;
    assert x - (m - Two31) == Two32 * ((x + Two31) / Two32);
    MultipleMod((x + Two31) / Two32);
    m - Two31
  }

  lemma MultipleMod(k: int)
    ensures (Two32 * k) % Two32 == 0
  {
  }

  /** Two `int`s congruent modulo 2^32 are equal. */
  lemma {:induction false} CongruentInt32Equal(a: int32, b: int32)
    requires (a - b) % Two32 == 0
    ensures a == b
  {
    var q := (a - b) / Two32;
    assert a - b == Two32 * q;
  }

  /** Wrapping after every step gives the same `int` as wrapping once at the end:
      a running Java `int` sum or counter is the exact total reduced modulo 2^32. */
  lemma WrapAdd(a: int, b: int)
    ensures Wrap(Wrap(a) + b) == Wrap(a + b)
  {
    var wa, lhs, rhs := Wrap(a), Wrap(Wrap(a) + b), Wrap(a + b);
    var p, q, s := (a - wa) / Two32, (wa + b - lhs) / Two32, (a + b - rhs) / Two32;
    assert a - wa == Two32 * p;
    assert wa + b - lhs == Two32 * q;
    assert a + b - rhs == Two32 * s;
    assert lhs - rhs == Two32 * (s - p - q);
    MultipleMod(s - p - q);
    CongruentInt32Equal(lhs, rhs);
  }

  /** Java's `a / n` for a positive divisor: the quotient truncated toward zero,
      so the remainder takes the sign of the dividend. */
  function TruncDiv(a: int, n: int): (q: int)
    requires n > 0
    ensures a >= 0 ==> 0 <= a - q * n < n
    ensures a < 0 ==> -n < a - q * n <= 0
    ensures -Two31 <= a < Two31 ==> -Two31 <= q < Two31
  {
    if a >= 0 then
      DivFacts(a, n);
      a / n
    else
      DivFacts(-a, n);
      -((-a) / n)
  }

  lemma DivFacts(a: nat, n: int)
    requires n > 0
    ensures 0 <= a - (a / n) * n < n
    ensures 0 <= a / n <= a
  {
    var q, r := a / n, a % n;
    assert a == q * n + r && 0 <= r < n;
    MulAtLeast(q, n);
  }

  lemma {:induction false} MulAtLeast(k: nat, n: int)
    requires n > 0
    ensures k * n >= k
  {
    if k > 0 {
      MulAtLeast(k - 1, n);
      assert k * n == (k - 1) * n + n;
    }
  }
}
