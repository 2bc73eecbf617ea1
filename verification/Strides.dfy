/** Which strides through a sequence of period twelve meet a given place in it. */
module Strides {
  /** The greatest common divisor with twelve. */
  function Gcd12(m: nat): (d: nat)
    ensures d in {1, 2, 3, 4, 6, 12}
  {
    match m % 12
    case 0 => 12
    case 2 => 2
    case 3 => 3
    case 4 => 4
    case 6 => 6
    case 8 => 4
    case 9 => 3
    case 10 => 2
    case _ => 1
  }

  predicate CommonDivisor(d: nat, m: nat) {
    d > 0 && m % d == 0 && 12 % d == 0
  }

  /** It is what it is called. */
  lemma Gcd12IsGreatest(m: nat)
    ensures CommonDivisor(Gcd12(m), m) && forall c: nat :: CommonDivisor(c, m) ==> c <= Gcd12(m)
  {
    var r := m % 12;
    assert m == 12 * (m / 12) + r;
    forall c: nat | CommonDivisor(c, m) ensures c <= Gcd12(m) {
      DivisorsOfTwelve(c);
    }
  }

  lemma Factor(c: nat, x: nat)
    requires c * x == 12
    ensures c <= 12
  {
    assert x >= 1;
    assert c * x == c + c * (x - 1);
  }

  lemma DivisorsOfTwelve(c: nat)
    requires c > 0 && 12 % c == 0
    ensures c in {1, 2, 3, 4, 6, 12}
  {
    Quotient(12, c);
    Factor(c, 12 / c);
  }

  /** The k-th of the places a, a + m, a + 2m, ... */
  function Index(a: nat, m: nat, k: nat): nat {
    a + k * m
  }

  lemma IndexNext(a: nat, m: nat, k: nat)
    ensures Index(a, m, k + 1) == Index(a, m, k) + m
  {
    assert (k + 1) * m == k * m + m;
  }

  lemma Multiples(q: int)
    ensures 2 * q % 2 == 3 * q % 3 == 4 * q % 4 == 6 * q % 6 == 12 * q % 12 == 0
  {
  }

  lemma Multiple(n: int, d: nat, q: int)
    requires d in {1, 2, 3, 4, 6, 12} && n == d * q
    ensures n % d == 0
  {
    Multiples(q);
    if d == 2 {
      assert n == 2 * q;
    } else if d == 3 {
      assert n == 3 * q;
    } else if d == 4 {
      assert n == 4 * q;
    } else if d == 6 {
      assert n == 6 * q;
    } else if d == 12 {
      assert n == 12 * q;
    }
  }

  /** A divisor of twelve divides every multiple of twelve. */
  lemma MultipleOfTwelve(d: nat, q: int)
    requires d in {1, 2, 3, 4, 6, 12}
    ensures 12 * q == d * (12 / d * q)
  {
    assert 12 == d * (12 / d);
    assert d * (12 / d) * q == d * (12 / d * q);
  }

  lemma DividesGap(a: nat, far: int, x: int, d: nat)
    requires d in {1, 2, 3, 4, 6, 12} && far == d * x && (a + far) % 12 == 1
    ensures (a - 1) % d == 0
  {
    var q := (a + far) / 12;
    MultipleOfTwelve(d, q);
    Difference(d, 12 / d * q, x);
    Multiple(a - 1, d, 12 / d * q - x);
  }

  lemma Difference(d: int, x: int, y: int)
    ensures d * x - d * y == d * (x - y)
  {
  }

  lemma Quotient(m: nat, d: nat)
    requires d > 0 && m % d == 0
    ensures m == d * (m / d)
  {
  }

  lemma Swap(k: int, d: int, x: int)
    ensures k * (d * x) == d * (k * x)
  {
  }

  /** If the stride gets to place 1 of the period, its greatest common divisor with
      twelve divides the start less one. */
  lemma HitDivides(a: nat, m: nat, k: nat)
    requires Index(a, m, k) % 12 == 1
    ensures (a - 1) % Gcd12(m) == 0
  {
    Gcd12IsGreatest(m);
    var d := Gcd12(m);
    var x := m / d;
    Quotient(m, d);
    Swap(k, d, x);
    DividesGap(a, k * m, k * x, d);
  }

  /** A multiple of the stride that is its greatest common divisor, modulo twelve. */
  lemma Inverse(m: nat) returns (inverse: nat, e: int)
    ensures inverse * (m % 12) == 12 * e + Gcd12(m)
  {
    match m % 12
    case 0 => inverse, e := 0, -1;
    case 5 => inverse, e := 5, 2;
    case 7 => inverse, e := 7, 4;
    case 8 => inverse, e := 2, 1;
    case 9 => inverse, e := 3, 2;
    case 10 => inverse, e := 5, 4;
    case 11 => inverse, e := 11, 10;
    case _ => inverse, e := 1, 0;
  }

  lemma GapDivides(a: nat, d: nat)
    requires d in {1, 2, 3, 4, 6, 12} && (a - 1) % d == 0
    ensures (1 - a) % 12 % d == 0
  {
    var y, q := (a - 1) / d, (1 - a) / 12;
    assert a - 1 == d * y;
    MultipleOfTwelve(d, q);
    Difference(d, -y, 12 / d * q);
    assert d * -y == -(d * y);
    Multiple((1 - a) % 12, d, -y - 12 / d * q);
  }

  lemma Products(far: int, m: nat, j: int, inverse: int, e: int, d: int)
    requires far == inverse * j && inverse * (m % 12) == 12 * e + d
    ensures far * m == 12 * (far * (m / 12) + j * e) + d * j
  {
    var q, r := m / 12, m % 12;
    assert far * m == far * (12 * q + r) == 12 * (far * q) + far * r;
    assert far * r == j * (inverse * r) == j * (12 * e + d) == 12 * (j * e) + d * j;
  }

  lemma SameResidue(a: nat, z: int, gap: int)
    requires gap == (1 - a) % 12
    ensures (a + 12 * z + gap) % 12 == 1
  {
  }

  lemma Shifted(n: int, z: int)
    ensures (n + 12 * z) % 12 == n % 12
  {
  }

  lemma Wrapped(a: nat, m: nat, k: nat)
    ensures Index(a, m, k % 12) % 12 == Index(a, m, k) % 12
  {
    var t, r := k / 12, k % 12;
    assert k * m == (12 * t + r) * m == 12 * (t * m) + r * m;
    Shifted(a + r * m, t * m);
  }

  /** And if it does, the stride gets there within twelve. */
  lemma DividesHits(a: nat, m: nat) returns (k: nat)
    requires (a - 1) % Gcd12(m) == 0
    ensures k < 12 && Index(a, m, k) % 12 == 1
  {
    var inverse, e := Inverse(m);
    var d := Gcd12(m);
    var gap := (1 - a) % 12;
    GapDivides(a, d);
    var j := gap / d;
    Quotient(gap, d);
    var far := inverse * j;
    Products(far, m, j, inverse, e, d);
    SameResidue(a, far * (m / 12) + j * e, gap);
    Wrapped(a, m, far);
    k := far % 12;
  }
}
