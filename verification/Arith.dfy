/** Integer arithmetic as C++ does it, and the facts about it that the PID proofs use. */
module Arith {

  function Abs(x: int): nat { if x < 0 then -x else x }
  function Min(x: int, y: int): int { if x < y then x else y }
  function Max(x: int, y: int): int { if x < y then y else x }

  /** The C++ operator `/` on signed integers: truncation toward zero. */
  function TruncDiv(a: int, b: int): int
    requires b != 0
  {
    if b < 0 then TruncPos(-a, -b) else TruncPos(a, b)
  }

  function TruncPos(a: int, b: int): int
    requires b > 0
  {
    if a >= 0 then a / b else -(-a / b)
  }

  lemma LemmaMulMono(a: int, b: int, c: int)
    requires a <= b && 0 <= c
    ensures a * c <= b * c && c * a <= c * b
  {
  }

  lemma LemmaMulBound(a: int, b: int, m: int, n: int)
    requires -m <= a <= m && -n <= b <= n
    ensures -(m * n) <= a * b <= m * n
  {
    LemmaMulMono(Abs(a), m, Abs(b));
    LemmaMulMono(Abs(b), n, m);
    assert a * b == Abs(a) * Abs(b) || a * b == -(Abs(a) * Abs(b));
  }

  lemma LemmaQuotient(a: nat, b: nat)
    requires b > 0
    ensures 0 <= a / b && a / b * b <= a < a / b * b + b
  {
  }

  lemma LemmaQuotientMono(a: nat, a': nat, b: nat)
    requires b > 0 && a <= a'
    ensures a / b <= a' / b
  {
    LemmaQuotient(a, b);
    LemmaQuotient(a', b);
    if a' / b < a / b {
      LemmaMulMono(a' / b + 1, a / b, b);
    }
  }

  lemma LemmaQuotientOf(q: nat, b: nat)
    requires b > 0
    ensures q * b / b == q
  {
    var x := q * b;
    LemmaQuotient(x, b);
    if x / b < q {
      LemmaMulMono(x / b + 1, q, b);
    }
  }

  /** Truncating division commutes with negation. */
  lemma TruncDivOdd(a: int, b: int)
    requires b != 0
    ensures TruncDiv(-a, b) == -TruncDiv(a, b)
  {
  }

  lemma TruncDivMono(a: int, a': int, b: int)
    requires b > 0 && a <= a'
    ensures TruncDiv(a, b) <= TruncDiv(a', b)
  {
    if a >= 0 {
      LemmaQuotientMono(a, a', b);
    } else if a' < 0 {
      LemmaQuotientMono(-a', -a, b);
    } else {
      LemmaQuotient(-a, b);
      LemmaQuotient(a', b);
    }
  }

  lemma TruncDivExact(q: int, b: int)
    requires b > 0
    ensures TruncDiv(q * b, b) == q
  {
    if q >= 0 {
      LemmaQuotientOf(q, b);
    } else {
      LemmaQuotientOf(-q, b);
      assert -(q * b) == -q * b;
    }
  }

  lemma TruncDivRemainder(a: int, b: int)
    requires b > 0
    ensures -b < a - TruncDiv(a, b) * b < b
  {
    LemmaQuotient(Abs(a), b);
    assert -(Abs(a) / b) * b == -(Abs(a) / b * b);
  }

  /** A quotient is below `q` as soon as the dividend is below `q * b`. */
  lemma TruncDivBound(a: int, b: int, q: int)
    requires b > 0 && q >= 0 && -(q * b) <= a <= q * b
    ensures -q <= TruncDiv(a, b) <= q
  {
    TruncDivMono(a, q * b, b);
    TruncDivMono(-(q * b), a, b);
    TruncDivExact(q, b);
    TruncDivOdd(q * b, b);
  }
}
