// Euclidean division facts used where a product of two variables meets a quotient.
module Division {
  function Min(a: int, b: int): int { if a <= b then a else b }

  lemma QuotientBrackets(a: int, d: int)
    requires d > 0
    ensures d * (a / d) <= a < d * (a / d + 1)
  {
  }

  // The quotient is the only integer whose multiple brackets the dividend.
  lemma QuotientUnique(a: int, d: int, q: int)
    requires d > 0 && d * q <= a < d * (q + 1)
    ensures a / d == q
  {
    var r := a / d;
    assert d * r <= a < d * (r + 1);
    if r < q {
      MulMono(d, r + 1, q);
    } else if q < r {
      MulMono(d, q + 1, r);
    }
  }

  lemma MulMono(d: int, x: int, y: int)
    requires d >= 0 && x <= y
    ensures d * x <= d * y
  {
  }

  lemma QuotientMono(a: int, b: int, d: int)
    requires d > 0 && a <= b
    ensures a / d <= b / d
  {
    var q, r := a / d, b / d;
    if r < q {
      MulMono(d, r + 1, q);
    }
  }

  // Multiplication and division by d form a Galois connection.
  lemma QuotientGalois(a: int, d: int, q: int)
    requires d > 0
    ensures d * q <= a <==> q <= a / d
  {
    var r := a / d;
    assert d * r <= a < d * (r + 1);
    if q <= r { MulMono(d, q, r); } else { MulMono(d, r + 1, q); }
  }

  lemma ShiftQuotient(a: int, d: int, s: int)
    requires d > 0
    ensures d * (s + 1) == d * s + d
    ensures (a - d * s) / d == a / d - s
  {
    var q := a / d;
    assert d * q <= a < d * (q + 1);
    assert d * (q - s) == d * q - d * s;
    assert d * (q - s + 1) == d * (q + 1) - d * s;
    QuotientUnique(a - d * s, d, q - s);
  }

  lemma MulAssoc(a: int, b: int, c: int)
    ensures a * (b * c) == (a * b) * c
  {
  }

  // Dividing the k-fold of c, up to a remainder below k, by the k-fold of m.
  lemma ScaleQuotient(k: nat, m: nat, c: nat, r: nat)
    requires r < k && m > 0
    ensures k * m > 0
    ensures (k * c + r) / (k * m) == c / m
  {
    var q := c / m;
    assert m * q <= c < m * (q + 1);
    MulMono(k, m * q, c);
    MulMono(k, c + 1, m * (q + 1));
    assert k * (c + 1) == k * c + k;
    MulAssoc(k, m, q);
    MulAssoc(k, m, q + 1);
    MulMono(m, 1, k);
    QuotientUnique(k * c + r, k * m, q);
  }

  function DivCeil(a: int, b: int): int
    requires b > 0
  {
    (a + b - 1) / b
  }

  lemma DivCeilBounds(a: int, b: int)
    requires b > 0
    ensures b * (DivCeil(a, b) - 1) < a <= b * DivCeil(a, b)
  {
    var q := DivCeil(a, b);
    assert b * q <= a + b - 1 < b * (q + 1);
    assert b * (q - 1) == b * q - b;
    assert b * (q + 1) == b * q + b;
  }
}
