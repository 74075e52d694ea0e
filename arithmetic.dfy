/** Facts about integer multiplication and floor division that the solver
    does not find by itself. */
module Arithmetic {

  lemma FloorDiv(a: int, b: int)
    requires b >= 1
    ensures (a / b) * b <= a < (a / b + 1) * b
  {
  }

  lemma MulMono(a: int, b: int, c: int)
    requires a <= b && c >= 0
    ensures a * c <= b * c
  {
    assert b * c - a * c == (b - a) * c;
  }

  /** If q * d is below n * d for a positive d, then q is below n. */
  lemma BelowProduct(q: int, n: int, d: int)
    requires d >= 1 && q * d < n * d
    ensures q < n
  {
    if q >= n {
      MulMono(n, q, d);
    }
  }

  /** A positive product with a positive second factor has a positive first factor. */
  lemma PositiveFactor(a: int, b: int)
    requires b >= 1 && a * b >= 1
    ensures a >= 1
  {
    if a <= 0 {
      MulMono(a, 0, b);
    }
  }

  /** floor(i * m / n) for 0 <= i < n is a valid index below m. */
  lemma ScaledIndex(i: int, n: int, m: int)
    requires 0 <= i < n && m >= 1
    ensures var s := (i * m) / n;
      0 <= s < m && s * n <= i * m < (s + 1) * n
  {
    var s := (i * m) / n;
    FloorDiv(i * m, n);
    MulMono(0, i, m);
    MulMono(i, n - 1, m);
    assert (n - 1) * m == n * m - m;
    assert s * n < m * n;
    BelowProduct(s, m, n);
    if s < 0 {
      MulMono(s + 1, 0, n);
    }
  }

  /** floor(v * k / top) for 0 <= v <= top lies in [0, k]. */
  lemma ScaledLevel(v: int, top: int, k: int)
    requires 0 <= v <= top && top >= 1 && k >= 0
    ensures var c := (v * k) / top;
      0 <= c <= k && c * top <= v * k < (c + 1) * top
  {
    var c := (v * k) / top;
    FloorDiv(v * k, top);
    MulMono(0, v, k);
    MulMono(v, top, k);
    assert c * top < (k + 1) * top;
    BelowProduct(c, k + 1, top);
    if c < 0 {
      MulMono(c + 1, 0, top);
    }
  }

  lemma MulPred(a: int, b: int)
    ensures (a - 1) * b + b == a * b
  {
  }

  /** Position x of row y in a text of n rows of w characters each: within
      the text, within the last row when y is the last row, and before the
      last row otherwise. */
  lemma RowOffset(x: int, y: int, w: int, n: int)
    requires 0 <= x < w && 0 <= y < n
    ensures 0 <= y * w + x < n * w
    ensures y == n - 1 ==> y * w + x == (n - 1) * w + x
    ensures y < n - 1 ==> y * w + x < (n - 1) * w
  {
    MulMono(0, y, w);
    MulPred(y + 1, w);
    MulMono(y + 1, n, w);
    if y < n - 1 {
      MulMono(y + 1, n - 1, w);
    }
  }

  /** Position k of a text of h rows of w characters is character k % w of
      row k / w. */
  lemma RowColumn(k: int, w: int, h: int)
    requires w >= 1 && 0 <= k < h * w
    ensures 0 <= k / w < h && 0 <= k % w < w && k == (k / w) * w + k % w
  {
    FloorDiv(k, w);
    BelowProduct(k / w, h, w);
    if k / w < 0 {
      MulMono(k / w + 1, 0, w);
    }
  }

  /** A quotient of a * b by d that is at least 1 needs a positive a. */
  lemma PositiveQuotient(a: int, b: int, d: int)
    requires b >= 1 && d >= 1
    ensures (a * b) / d >= 1 ==> a >= 1
  {
    if (a * b) / d >= 1 {
      FloorDiv(a * b, d);
      MulMono(1, (a * b) / d, d);
      PositiveFactor(a, b);
    }
  }

  /** Row-major addressing of 4-byte pixels inverts to the coordinates. */
  lemma RowMajor(x: int, y: int, w: int, h: int)
    requires 0 <= x < w && 0 <= y < h
    ensures var p := (y * w + x) * 4;
      0 <= p && p % 4 == 0 && p + 4 <= 4 * w * h && (p / 4) % w == x && (p / 4) / w == y
  {
    var q := y * w + x;
    assert (q * 4) / 4 == q;
    MulMono(y, h - 1, w);
    assert q + 1 <= h * w;
    MulMono(q + 1, h * w, 4);
    DivModUnique(q, w, y, x);
  }

  lemma DivModUnique(n: int, d: int, q: int, r: int)
    requires d >= 1 && 0 <= r < d && n == q * d + r
    ensures n / d == q && n % d == r
  {
    FloorDiv(n, d);
    var q' := n / d;
    if q' < q {
      MulMono(q' + 1, q, d);
    } else if q' > q {
      MulMono(q + 1, q', d);
    }
  }
}
