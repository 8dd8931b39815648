/** Division facts the models share; `/` and `%` are only used on non-negative numbers. */
module Arithmetic {

  lemma MulGrows(a: int, d: int)
    requires a > 0
    ensures d >= 1 ==> a * d >= a
    ensures d <= -1 ==> a * d <= -a
  {
    if d >= 1 {
      assert a * d == a + a * (d - 1);
    } else if d <= -1 {
      assert a * d == -a + a * (d + 1);
    }
  }

  lemma MulOneMore(a: int, b: int)
    ensures a * (b + 1) == a * b + a && a * 0 == 0
  {
  }

  lemma DivMod(x: int, a: int)
    requires a > 0
    ensures x == a * (x / a) + x % a && 0 <= x % a < a
  {
  }

  lemma MulMod(k: int, a: int)
    requires a > 0
    ensures (a * k) % a == 0
  {
    var x := a * k;
    DivMod(x, a);
    MulGrows(a, k - x / a);
    assert a * (k - x / a) == a * k - a * (x / a);
  }

  lemma ModAdd(x: int, y: int, a: int)
    requires a > 0 && x % a == 0 && y % a == 0
    ensures (x + y) % a == 0 && (x - y) % a == 0
  {
    DivMod(x, a);
    DivMod(y, a);
    var p, q := x / a, y / a;
    assert x + y == a * (p + q) && x - y == a * (p - q);
    MulMod(p + q, a);
    MulMod(p - q, a);
  }

  lemma SameMod(v: int, w: int, a: int, q: int)
    requires a > 0 && v - w == a * q
    ensures v % a == w % a
  {
    DivMod(v, a);
    DivMod(w, a);
    var d := q - v / a + w / a;
    assert a * d == a * q - a * (v / a) + a * (w / a);
    MulGrows(a, d);
  }

  lemma MulNat(a: nat, b: nat)
    ensures a * b >= 0
  {
  }

  /** The largest multiple of `a` that is not above `t`; for a power of two, t & ~(a - 1). */
  function RoundDown(t: nat, a: nat): (r: nat)
    requires a > 0
    ensures r % a == 0 && r <= t < r + a
  {
    DivMod(t, a);
    MulMod(t / a, a);
    MulNat(a, t / a);
    a * (t / a)
  }
}
