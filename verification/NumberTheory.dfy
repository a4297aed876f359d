/** The little arithmetic the reframer bound rests on: remainders of multiples and the gcd. */
module NumberTheory {

  function Gcd(a: nat, b: nat): (g: nat)
    requires a > 0 || b > 0
    ensures g > 0
    decreases b
  {
    if b == 0 then a else Gcd(b, a % b)
  }

  lemma Distribute(a: int, b: int, c: int)
    ensures a * (b + c) == a * b + a * c
    ensures (b + c) * a == b * a + c * a
    ensures a * (b - c) == a * b - a * c
    ensures (b - c) * a == b * a - c * a
  {
  }

  lemma Associate(a: int, b: int, c: int)
    ensures a * (b * c) == a * b * c == b * (a * c)
  {
  }

  lemma Sign(d: int, p: nat)
    requires p > 0
    ensures d >= 1 ==> d * p >= p
    ensures d <= -1 ==> d * p + p <= 0
  {
    if d >= 1 { Distribute(p, d - 1, 1); } else if d <= -1 { Distribute(p, d + 1, -1); }
  }

  lemma Combine(q: nat, b: nat, r: nat, g: nat, u: nat, v: nat)
    requires b == g * u && r == g * v
    ensures q * b + r == g * (q * u + v)
  {
    Associate(q, g, u);
    Distribute(g, q * u, v);
  }

  lemma {:induction false} GcdDivides(a: nat, b: nat) returns (x: nat, y: nat)
    requires a > 0 || b > 0
    ensures a == Gcd(a, b) * x && b == Gcd(a, b) * y
    decreases b
  {
    if b == 0 {
      x, y := 1, 0;
    } else {
      var u, v := GcdDivides(b, a % b);
      Combine(a / b, b, a % b, Gcd(a, b), u, v);
      x, y := (a / b) * u + v, u;
    }
  }

  lemma {:induction false} Bezout(a: nat, b: nat) returns (u: int, v: int)
    requires a > 0 || b > 0
    ensures u * a + v * b == Gcd(a, b)
    decreases b
  {
    if b == 0 {
      u, v := 1, 0;
    } else {
      var x, y := Bezout(b, a % b);
      var q := a / b;
      assert a % b == a - q * b;
      Distribute(y, a, q * b);
      Associate(y, q, b);
      Associate(q, y, b);
      Distribute(b, x, q * y);
      u, v := y, x - q * y;
    }
  }

  lemma ModUnique(x: int, q: int, r: int, p: int)
    requires p > 0 && x == q * p + r && 0 <= r < p
    ensures x / p == q && x % p == r
  {
    assert x == (x / p) * p + x % p;
    Distribute(p, x / p, q);
    Sign(x / p - q, p);
  }

  /** A multiple of `io` never leaves a remainder above p - gcd(p, io). */
  lemma RemainderBound(p: nat, io: nat, m: nat)
    requires p > 0
    ensures m * io % p <= p - Gcd(p, io)
  {
    var g := Gcd(p, io);
    var x, y := GcdDivides(p, io);
    var q, r := m * io / p, m * io % p;
    assert m * io == q * p + r;
    Associate(m, g, y);
    Associate(q, g, x);
    var j := m * y - q * x;
    Distribute(g, m * y, q * x);
    assert r == g * j;
    Distribute(g, x, j);
    assert p - r == g * (x - j);
    Sign(x - j, g);
  }

  /** Some multiple of `io` leaves exactly that remainder. */
  lemma RemainderReached(p: nat, io: nat) returns (m: nat)
    requires p > 0
    ensures m * io % p == p - Gcd(p, io)
  {
    var g := Gcd(p, io);
    var x, y := GcdDivides(p, io);
    var v, u := Bezout(p, io);  // v * p + u * io == g
    Sign(x, g);
    var k: nat := if u >= 0 then u else 0;
    Sign(p, k + 1);
    Distribute(k, p, 1);
    var mm := p * k - u;
    assert mm >= 0;
    m := mm;
    Distribute(io, p * k, u);
    Associate(k, io, p);
    Associate(p, k, io);
    var q := k * io + v - 1;
    Distribute(p, k * io, v - 1);
    Distribute(p, v, 1);
    assert m * io == q * p + (p - g);
    ModUnique(m * io, q, p - g, p);
  }
}
