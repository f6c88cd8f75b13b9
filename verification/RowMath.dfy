/** Rows of b bytes: the multiplication and division facts the readers need. */
module RowMath {

  /** The bytes of so many rows. */
  ghost function Span(rows: nat, b: nat): nat {
    if rows == 0 then 0 else Span(rows - 1, b) + b
  }

  lemma {:induction false} SpanIsProduct(rows: nat, b: nat)
    ensures Span(rows, b) == rows * b
  {
    if rows > 0 {
      SpanIsProduct(rows - 1, b);
      assert rows * b == (rows - 1) * b + b;
    }
  }

  lemma {:induction false} SpanMonotone(x: nat, y: nat, b: nat)
    requires x <= y
    ensures Span(x, b) <= Span(y, b)
  {
    if x < y {
      SpanMonotone(x, y - 1, b);
    }
  }

  lemma {:induction false} SpanSum(x: nat, y: nat, b: nat)
    ensures Span(x + y, b) == Span(x, b) + Span(y, b)
  {
    if y > 0 {
      SpanSum(x, y - 1, b);
    }
  }

  lemma {:induction false} MulMonotone(x: nat, y: nat, b: nat)
    requires x <= y
    ensures x * b <= y * b
  {
    if x < y {
      MulMonotone(x, y - 1, b);
      assert y * b == (y - 1) * b + b;
    }
  }

  lemma MulOrder(m: nat, n: nat, b: nat)
    ensures m <= n ==> m * b <= n * b
    ensures m * b > n * b ==> m > n
  {
    if m <= n {
      MulMonotone(m, n, b);
    }
  }

  /** q whole rows and less than one more make q rows. */
  lemma Quotient(x: nat, b: nat, q: nat, r: nat)
    requires b > 0 && x == q * b + r && r < b
    ensures x / b == q
  {
    var d := x / b;
    assert x == d * b + x % b;
    assert (d + 1) * b == d * b + b && (q + 1) * b == q * b + b;
    MulOrder(d + 1, q, b);
    MulOrder(q + 1, d, b);
  }

  lemma Remainder(x: nat, b: nat, q: nat, r: nat)
    requires x == q * b + r && r < b
    ensures x / b == q && x % b == r
  {
    Quotient(x, b, q, r);
    assert x == b * (x / b) + x % b;
  }

  /** Whole rows are counted exactly, rounding down or up. */
  lemma WholeRows(rows: nat, b: nat)
    requires b > 0
    ensures rows * b / b == rows
    ensures (rows * b + b - 1) / b == rows
  {
    Quotient(rows * b, b, rows, 0);
    Quotient(rows * b + b - 1, b, rows, b - 1);
  }

  lemma DivMonotone(x: nat, y: nat, b: nat)
    requires x <= y && b > 0
    ensures x / b <= y / b
  {
    var d, e := x / b, y / b;
    assert d * b <= x && y < e * b + b;
    assert (e + 1) * b == e * b + b;
    MulOrder(e + 1, d, b);
  }
}
