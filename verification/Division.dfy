/** Division of naturals by a divisor that is not a literal. */
module Division {
  /** v shifted down by a power of two d, and back up. */
  function Div(v: nat, d: nat): (q: nat)
    requires d >= 1
  {
    v / d
  }

  function Floor(v: nat, d: nat): (l: nat)
    requires d >= 1
  {
    var q: nat := Div(v, d);
    q * d
  }

  lemma DivBounds(v: nat, d: nat)
    requires d >= 1
    ensures v / d * d <= v < v / d * d + d
  {
    assert v == v / d * d + v % d;
  }

  lemma DivLess(v: nat, d: nat, n: nat)
    requires d >= 1 && v < n * d
    ensures v / d < n
  {
    DivBounds(v, d);
    if v / d >= n { MulOrder(n, v / d, d); }
  }

  lemma DivAtLeast(v: nat, d: nat, n: nat)
    requires d >= 1 && n * d <= v
    ensures n <= v / d
  {
    DivBounds(v, d);
    assert (v / d + 1) * d == v / d * d + d;
    if v / d < n { MulOrder(v / d + 1, n, d); }
  }

  lemma {:induction false} MulOrder(a: nat, b: nat, d: nat)
    requires a <= b
    ensures a * d <= b * d
  {
    assert b * d == a * d + (b - a) * d;
  }

  /** Quotient and remainder are unique. */
  lemma DivUnique(q: nat, r: nat, h: nat)
    requires r < h
    ensures (q * h + r) / h == q && (q * h + r) % h == r
  {
    var x := q * h + r;
    DivAtLeast(x, h, q);
    assert x < (q + 1) * h by { assert (q + 1) * h == q * h + h; }
    DivLess(x, h, q + 1);
    assert x == x / h * h + x % h;
  }

  /** Dividing by 256 and then by b is dividing by 256 b. */
  lemma DivByte(n: nat, b: nat)
    requires b >= 1
    ensures n / 256 / b == n / (256 * b)
  {
    DivBy(n, 256, b);
  }

  lemma DivBy(n: nat, a: nat, b: nat)
    requires a >= 1 && b >= 1
    ensures a * b >= 1 && n / a / b == n / (a * b)
  {
    var q, r, x, y := n / a / b, n / a % b, n / a, n % a;
    Recombined(n, a, b, q, r, x, y);
    DivUnique(q, a * r + y, a * b);
  }

  lemma Recombined(n: nat, a: nat, b: nat, q: nat, r: nat, x: nat, y: nat)
    requires a >= 1 && b >= 1 && x == q * b + r && r < b && n == x * a + y && y < a
    ensures a * b >= 1 && n == q * (a * b) + (a * r + y) && 0 <= a * r + y < a * b
  {
    assert x * a == q * b * a + r * a;
    MulThree(q, a, b);
    MulOrder(r + 1, b, a);
    assert (r + 1) * a == r * a + a;
  }

  lemma MulThree(q: nat, a: nat, b: nat)
    ensures q * b * a == q * (a * b)
  {
  }

  /** A multiple added leaves the remainder alone. */
  lemma ModAdd(x: nat, c: nat, m: nat)
    requires m >= 1
    ensures (x + c * m) % m == x % m
  {
    assert x == x / m * m + x % m;
    assert (x / m + c) * m == x / m * m + c * m;
    DivUnique(x / m + c, x % m, m);
  }
}
