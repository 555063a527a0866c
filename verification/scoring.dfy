/**
 * Score arithmetic. The source keeps `scoreMultiplier` as a float equal to
 * 1 at start and to sqrt(rowsCleared) after every cleared row; here it is
 * kept exactly, as its square, and every `Math.floor` of a product with it
 * becomes an integer square root.
 */
module Scoring {
  import opened Grid

  /** The largest r with r * r <= n. */
  function ISqrt(n: nat): (r: nat)
    ensures r * r <= n < (r + 1) * (r + 1)
    decreases n
  {
    if n < 4 then (if n == 0 then 0 else 1)
    else
      var t := ISqrt(n / 4);
      var s := 2 * t;
      ISqrtStep(n, t);
      if (s + 1) * (s + 1) <= n then s + 1 else s
  }

  /** The root of n / 4, doubled, is within two of the root of n. */
  lemma ISqrtStep(n: nat, t: nat)
    requires t * t <= n / 4 < (t + 1) * (t + 1)
    ensures (2 * t) * (2 * t) <= n < (2 * t + 2) * (2 * t + 2)
  {
    var q := n / 4;
    assert (2 * t) * (2 * t) == 4 * (t * t);
    assert (2 * t + 2) * (2 * t + 2) == 4 * ((t + 1) * (t + 1));
    assert 4 * q <= n < 4 * q + 4;
  }

  lemma MulLeft(a: nat, b: nat, c: nat)
    requires a <= b
    ensures a * c <= b * c
  {
  }

  lemma SquareMono(a: nat, b: nat)
    requires a <= b
    ensures a * a <= b * b
  {
    MulLeft(a, b, a);
    MulLeft(a, b, b);
  }

  /** Any x whose square is at most n is at most ISqrt(n). */
  lemma ISqrtAtLeast(n: nat, x: nat)
    requires x * x <= n
    ensures x <= ISqrt(n)
  {
    var r := ISqrt(n);
    if x > r {
      SquareMono(r + 1, x);
    }
  }

  /** `Math.floor(scoreMultiplier)`: the points a landing piece scores. */
  function LandingBonus(multiplierSq: nat): (r: nat)
    ensures r * r <= multiplierSq < (r + 1) * (r + 1)
  {
    ISqrt(multiplierSq)
  }

  /**
   * `Math.floor(W * rowsCleared * batch * scoreMultiplier)`: floor(k * sqrt(q))
   * with k = W * rowsCleared * batch and q = multiplierSq.
   */
  function ScoreDelta(rowsCleared: nat, batch: nat, multiplierSq: nat): (d: nat)
  {
    ISqrt(Square(W * rowsCleared * batch) * multiplierSq)
  }

  function Square(k: nat): (sq: nat) {
    k * k
  }

  /**
   * ScoreDelta is floor(W * rowsCleared * batch * sqrt(multiplierSq)); with a
   * multiplier of at least 1 it is at least W * rowsCleared * batch.
   */
  lemma ScoreDeltaBounds(rowsCleared: nat, batch: nat, multiplierSq: nat)
    ensures var k := W * rowsCleared * batch;
      ScoreDelta(rowsCleared, batch, multiplierSq) * ScoreDelta(rowsCleared, batch, multiplierSq) <= k * k * multiplierSq
      < (ScoreDelta(rowsCleared, batch, multiplierSq) + 1) * (ScoreDelta(rowsCleared, batch, multiplierSq) + 1)
    ensures multiplierSq >= 1 ==> ScoreDelta(rowsCleared, batch, multiplierSq) >= W * rowsCleared * batch
  {
    var k := W * rowsCleared * batch;
    if multiplierSq >= 1 {
      MulLeft(1, multiplierSq, k * k);
      assert k * k <= k * k * multiplierSq;
      ISqrtAtLeast(k * k * multiplierSq, k);
    }
  }

  lemma ISqrtQuadruple(n: nat)
    ensures ISqrt(4 * n) >= 2 * ISqrt(n)
  {
    var r := ISqrt(n);
    DoubleSquare(r, 1);
    assert (2 * r) * (2 * r) <= 4 * n;
    ISqrtAtLeast(4 * n, 2 * r);
  }

  lemma DoubleSquare(k: nat, q: nat)
    ensures (2 * k) * (2 * k) * q == 4 * (k * k * q)
  {
  }

  /**
   * The second row of a batch scores strictly more than a row cleared alone
   * with the same totals: doubling the batch count doubles the product under
   * the floor.
   */
  lemma BatchBonus(rowsCleared: nat, multiplierSq: nat)
    requires rowsCleared >= 1 && multiplierSq >= 1
    ensures ScoreDelta(rowsCleared, 2, multiplierSq) > ScoreDelta(rowsCleared, 1, multiplierSq)
  {
    var k := W * rowsCleared;
    assert W * rowsCleared * 1 == k && W * rowsCleared * 2 == 2 * k;
    DoubleSquare(k, multiplierSq);
    ISqrtQuadruple(k * k * multiplierSq);
    ScoreDeltaBounds(rowsCleared, 1, multiplierSq);
  }
}
