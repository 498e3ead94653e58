/** The integer Lagrange basis of Source Files/PaillierParty.cpp: the coefficients that
    recombine the shares of a polynomial with numParties coefficients into numParties! times its
    constant term. */
module Lagrange {

  function Factorial(n: nat): (f: nat)
    ensures 1 <= f
  {
    if n == 0 then 1 else n * Factorial(n - 1)
  }

  /** Binomial coefficients by Pascal's rule. */
  function Choose(n: nat, k: nat): nat {
    if k == 0 then 1 else if n == 0 then 0 else Choose(n - 1, k - 1) + Choose(n - 1, k)
  }

  lemma {:induction false} ChooseBeyond(n: nat, k: nat)
    requires n < k
    ensures Choose(n, k) == 0
  {
    if n > 0 {
      ChooseBeyond(n - 1, k - 1);
      ChooseBeyond(n - 1, k);
    }
  }

  lemma {:induction false} ChooseAll(n: nat)
    ensures Choose(n, n) == 1
  {
    if n > 0 {
      ChooseAll(n - 1);
      ChooseBeyond(n - 1, n);
    }
  }

  lemma {:induction false} ChoosePositive(n: nat, k: nat)
    requires k <= n
    ensures 1 <= Choose(n, k)
  {
    if k > 0 {
      ChoosePositive(n - 1, k - 1);
    }
  }

  /** (k + 1) C(n, k + 1) = (n - k) C(n, k). */
  lemma {:induction false} ChooseNext(n: nat, k: nat)
    ensures (k + 1) * Choose(n, k + 1) == (n - k) * Choose(n, k)
  {
    if n == 0 {
      if k > 0 {
        ChooseBeyond(0, k);
      }
    } else {
      ChooseNext(n - 1, k);
      if k > 0 {
        ChooseNext(n - 1, k - 1);
        var a, b, c := Choose(n - 1, k - 1), Choose(n - 1, k), Choose(n - 1, k + 1);
        assert Choose(n, k) == a + b && Choose(n, k + 1) == b + c;
        PascalStep(n, k, a, b, c);
      } else {
        assert Choose(n, 1) == Choose(n - 1, 0) + Choose(n - 1, 1);
      }
    }
  }

  lemma PascalStep(n: int, k: int, a: int, b: int, c: int)
    requires (k + 1) * c == (n - 1 - k) * b && k * b == (n - 1 - (k - 1)) * a
    ensures (k + 1) * (b + c) == (n - k) * (a + b)
  {
    assert (k + 1) * (b + c) == (k + 1) * b + (k + 1) * c == k * b + b + (n - 1 - k) * b;
    assert (n - 1 - k) * b + b == (n - k) * b;
  }

  /** (n + 1) C(n, k) = (n + 1 - k) C(n + 1, k). */
  lemma ChooseAbove(n: nat, k: nat)
    ensures (n + 1) * Choose(n, k) == (n + 1 - k) * Choose(n + 1, k)
  {
    if k > 0 {
      ChooseNext(n, k - 1);
      var a, b := Choose(n, k - 1), Choose(n, k);
      assert Choose(n + 1, k) == a + b && k * b == (n - (k - 1)) * a;
      AboveStep(n + 1 - k, k, a, b);
    }
  }

  lemma AboveStep(m: int, k: int, a: int, b: int)
    requires k * b == m * a
    ensures (m + k) * b == m * (a + b)
  {
  }

  function Sign(k: nat): (s: int)
    ensures s == 1 || s == -1
  {
    if k % 2 == 0 then 1 else -1
  }

  // ---------------------------------------------------------------- the loop

  /** The product after the factors of the parties 1 to t: a reciprocal of a binomial coefficient before
      party j, a binomial coefficient from there on. */
  function Partial(j: nat, t: nat): real
    requires 1 <= j
  {
    if t < j then (ChoosePositive(j - 1, t); Sign(t) as real / Choose(j - 1, t) as real)
    else (Sign(j - 1) * Choose(t, j)) as real
  }

  function Scaled(delta: real, x: real): real {
    delta * x
  }

  /** One factor u / v = (t + 1) / (t + 1 - j). */
  lemma PartialStep(j: nat, t: nat, delta: real, prod: real, u: real, v: real)
    requires 1 <= j && t + 1 != j && prod == Scaled(delta, Partial(j, t))
    requires u == (t + 1) as real && v == (t + 1 - j) as real
    ensures v != 0.0 && prod * u / v == Scaled(delta, Partial(j, t + 1))
  {
    hide Partial, Scaled;
    if t + 1 < j {
      PartialBefore(j, t, delta, prod, u, v);
    } else {
      PartialAfter(j, t, delta, prod, u, v);
    }
  }

  lemma PartialBefore(j: nat, t: nat, delta: real, prod: real, u: real, v: real)
    requires 1 <= j && t + 1 < j && prod == Scaled(delta, Partial(j, t))
    requires u == (t + 1) as real && v == (t + 1 - j) as real
    ensures prod * u / v == Scaled(delta, Partial(j, t + 1))
  {
    hide Choose, Sign, Scaled;
    ChooseNext(j - 1, t);
    ChoosePositive(j - 1, t);
    ChoosePositive(j - 1, t + 1);
    SignNext(t);
    var a, b, w := Choose(j - 1, t), Choose(j - 1, t + 1), j - 1 - t;
    ProductReal(t + 1, b);
    ProductReal(w, a);
    assert v == -(w as real) && Sign(t + 1) as real == -(Sign(t) as real);
    Quotients(Sign(t) as real, a as real, b as real, u, w as real);
    ScaleStep(delta, Sign(t) as real / a as real, Sign(t + 1) as real / b as real, u, v, prod);
  }

  lemma PartialAfter(j: nat, t: nat, delta: real, prod: real, u: real, v: real)
    requires 1 <= j <= t && prod == Scaled(delta, Partial(j, t))
    requires u == (t + 1) as real && v == (t + 1 - j) as real
    ensures prod * u / v == Scaled(delta, Partial(j, t + 1))
  {
    hide Choose, Sign, Scaled;
    ChooseAbove(t, j);
    var s, a, b := Sign(j - 1), Choose(t, j), Choose(t + 1, j);
    ProductSwap(s, a, t + 1);
    ProductSwap(s, b, t + 1 - j);
    ProductReal(s * a, t + 1);
    ProductReal(s * b, t + 1 - j);
    ScaleStep(delta, (s * a) as real, (s * b) as real, u, v, prod);
  }

  lemma SignNext(t: nat)
    ensures Sign(t + 1) == -Sign(t)
  {
  }

  lemma ScaleStep(delta: real, x: real, y: real, u: real, v: real, prod: real)
    requires x * u == y * v && prod == Scaled(delta, x) && v != 0.0
    ensures prod * u / v == Scaled(delta, y)
  {
    RealProductOf3(delta, x, u);
    RealProductOf3(delta, y, v);
    DivideReal(prod * u, Scaled(delta, y), v);
  }

  lemma Quotients(s: real, a: real, b: real, u: real, w: real)
    requires a > 0.0 && b > 0.0 && u * b == w * a
    ensures s / a * u == (-s) / b * -w
  {
    var x, y := s / a, (-s) / b;
    assert x * a == s && y * b == -s;
    CrossProducts(x, u, a, b, y, w, s);
    CancelReal(x * u, y * -w, a * b);
  }

  lemma CrossProducts(x: real, u: real, a: real, b: real, y: real, v: real, s: real)
    requires x * a == s && y * b == -s && u * b == v * a
    ensures x * u * (a * b) == y * -v * (a * b)
  {
    assert x * u * (a * b) == s * (u * b) by {
      assert x * u * (a * b) == (x * a) * (u * b);
    }
    assert y * -v * (a * b) == s * (v * a) by {
      assert y * -v * (a * b) == -((y * b) * (v * a));
    }
  }

  lemma CancelReal(p: real, q: real, k: real)
    requires k != 0.0 && p * k == q * k
    ensures p == q
  {
    assert (p - q) * k == 0.0;
  }

  lemma DivideReal(p: real, q: real, k: real)
    requires k != 0.0 && p == q * k
    ensures p / k == q
  {
  }

  lemma ProductSwap(a: int, b: int, c: int)
    ensures a * b * c == a * (c * b)
  {
  }

  lemma RealProductOf3(a: real, b: real, c: real)
    ensures a * (b * c) == a * b * c
  {
  }

  /** At party j, whose factor is left out, the reciprocal has become a sign. */
  lemma PartialSkip(j: nat)
    requires 1 <= j
    ensures Partial(j, j - 1) == Partial(j, j)
  {
    ChooseAll(j - 1);
    ChooseAll(j);
  }

  lemma PartialStart(j: nat, delta: real)
    requires 1 <= j
    ensures Scaled(delta, Partial(j, 0)) == delta
  {
  }

  /** The loop of initPaiilier for party j: the double is an integer, and this is its value. */
  method LagrangeBasis(j: nat, numParties: nat) returns (lambda: int)
    requires 1 <= j <= numParties
    ensures lambda == Factorial(numParties) * Sign(j - 1) * Choose(numParties, j)
  {
    hide Partial, Scaled;
    var delta := Factorial(numParties) as real;
    var prod := delta;
    PartialStart(j, delta);
    for t := 0 to numParties
      invariant prod == Scaled(delta, Partial(j, t))
    {
      var jTag := t + 1;
      if j == jTag {
        PartialSkip(j);
        continue;
      }
      var factor, divisor := jTag as real, (jTag - j) as real;
      PartialStep(j, t, delta, prod, factor, divisor);
      prod := prod * factor;
      prod := prod / divisor;
    }
    WholeProduct(j, numParties, delta, prod);
    lambda := prod.Floor;
  }

  lemma WholeProduct(j: nat, n: nat, delta: real, prod: real)
    requires 1 <= j <= n && delta == Factorial(n) as real && prod == Scaled(delta, Partial(j, n))
    ensures prod == (Factorial(n) * Sign(j - 1) * Choose(n, j)) as real
  {
    hide Factorial, Sign, Choose, Scaled;
    ScaledInt(Factorial(n), Sign(j - 1) * Choose(n, j));
    ProductOf3(Factorial(n), Sign(j - 1), Choose(n, j));
  }

  lemma ScaledInt(d: int, p: int)
    ensures Scaled(d as real, p as real) == (d * p) as real
  {
  }

  lemma ProductOf3(a: int, b: int, c: int)
    ensures a * (b * c) == a * b * c
  {
  }

  lemma ProductReal(a: int, b: int)
    ensures a as real * b as real == (a * b) as real
  {
  }

  // ---------------------------------------------------------------- recombination

  /** The value of the polynomial with these coefficients, lowest first. */
  function Eval(f: seq<int>, x: int): int {
    if f == [] then 0 else f[0] + x * Eval(f[1..], x)
  }

  function AddPolys(f: seq<int>, g: seq<int>): (r: seq<int>)
    ensures |r| == if |f| >= |g| then |f| else |g|
  {
    if f == [] then g else if g == [] then f else [f[0] + g[0]] + AddPolys(f[1..], g[1..])
  }

  lemma {:induction false} EvalAdd(f: seq<int>, g: seq<int>, x: int)
    ensures Eval(AddPolys(f, g), x) == Eval(f, x) + Eval(g, x)
  {
    if f != [] && g != [] {
      EvalAdd(f[1..], g[1..], x);
      var r := AddPolys(f, g);
      assert r[0] == f[0] + g[0] && r[1..] == AddPolys(f[1..], g[1..]);
      assert x * (Eval(f[1..], x) + Eval(g[1..], x)) == x * Eval(f[1..], x) + x * Eval(g[1..], x);
    }
  }

  /** f(x + 1) - f(x), which has one coefficient less. */
  function Difference(f: seq<int>): (r: seq<int>)
    ensures |r| == if f == [] then 0 else |f| - 1
  {
    if |f| <= 1 then []
    else
      var q := Difference(f[1..]);
      AddPolys([0] + q, AddPolys(q, f[1..]))
  }

  lemma {:induction false} EvalDifference(f: seq<int>, x: int)
    ensures Eval(Difference(f), x) == Eval(f, x + 1) - Eval(f, x)
  {
    if |f| == 1 {
      assert f[1..] == [];
    } else if |f| > 1 {
      var t := f[1..];
      var q := Difference(t);
      EvalDifference(t, x);
      EvalAdd([0] + q, AddPolys(q, t), x);
      EvalAdd(q, t, x);
      assert ([0] + q)[1..] == q;
      DifferenceStep(x, Eval(t, x + 1), Eval(t, x));
    }
  }

  lemma DifferenceStep(x: int, e': int, e: int)
    ensures (x + 1) * e' == x * e' + e' && x * (e' - e) == x * e' - x * e
  {
  }

  /** The sum of (-1)^k C(n, k) f(x + k) over k < m. */
  function Alternating(n: nat, f: seq<int>, x: int, m: nat): int {
    if m == 0 then 0 else Alternating(n, f, x, m - 1) + Sign(m - 1) * Choose(n, m - 1) * Eval(f, x + (m - 1))
  }

  /** Pascal's rule turns the sum for n + 1 into a difference of sums for n. */
  lemma {:induction false} AlternatingStep(n: nat, f: seq<int>, x: int, m: nat)
    requires 0 < m
    ensures Alternating(n + 1, f, x, m) == Alternating(n, f, x, m) - Alternating(n, f, x + 1, m - 1)
    decreases m
  {
    hide Eval;
    if m == 1 {
      assert Alternating(n + 1, f, x, 0) == 0 == Alternating(n, f, x, 0) == Alternating(n, f, x + 1, 0);
    } else {
      hide Alternating, Sign;
      AlternatingStep(n, f, x, m - 1);
      var k: nat := m - 1;
      var s, a, b, e := Sign(k), Choose(n, k - 1), Choose(n, k), Eval(f, x + k);
      assert Choose(n + 1, k) == a + b;
      SignNext(k - 1);
      PascalTerm(s, a, b, e);
      LastTerm(n + 1, f, x, m);
      LastTerm(n, f, x, m);
      LastTerm(n, f, x + 1, m - 1);
      assert x + 1 + (k - 1) == x + k;
    }
  }

  lemma LastTerm(n: nat, f: seq<int>, x: int, m: nat)
    requires 0 < m
    ensures Alternating(n, f, x, m) == Alternating(n, f, x, m - 1)
      + Sign(m - 1) * Choose(n, m - 1) * Eval(f, x + (m - 1))
  {
    hide Eval, Choose, Sign;
  }

  lemma PascalTerm(s: int, a: int, b: int, e: int)
    ensures s * (a + b) * e == s * b * e - (-s) * a * e
  {
    assert s * (a + b) * e == s * a * e + s * b * e;
    assert (-s) * a * e == -(s * a * e);
  }

  lemma {:induction false} AlternatingDifference(n: nat, f: seq<int>, x: int, m: nat)
    ensures Alternating(n, Difference(f), x, m) == Alternating(n, f, x + 1, m) - Alternating(n, f, x, m)
    decreases m
  {
    hide Difference, Eval;
    if m > 0 {
      AlternatingDifference(n, f, x, m - 1);
      EvalDifference(f, x + (m - 1));
      var c := Sign(m - 1) * Choose(n, m - 1);
      assert c * (Eval(f, x + 1 + (m - 1)) - Eval(f, x + (m - 1)))
        == c * Eval(f, x + 1 + (m - 1)) - c * Eval(f, x + (m - 1));
      assert x + (m - 1) + 1 == x + 1 + (m - 1);
    }
  }

  /** The sum over all k vanishes for polynomials with at most n coefficients. */
  lemma {:induction false} AlternatingVanishes(n: nat, f: seq<int>, x: int)
    requires |f| <= n
    ensures Alternating(n, f, x, n + 1) == 0
    decreases n
  {
    hide Eval, Difference;
    if n == 0 {
      EvalNone(f, x);
      assert Alternating(0, f, x, 0) == 0;
    } else {
      AlternatingStep(n - 1, f, x, n + 1);
      ChooseBeyond(n - 1, n);
      assert Alternating(n - 1, f, x, n + 1) == Alternating(n - 1, f, x, n);
      AlternatingDifference(n - 1, f, x, n);
      AlternatingVanishes(n - 1, Difference(f), x);
    }
  }

  lemma EvalNone(f: seq<int>, x: int)
    requires f == []
    ensures Eval(f, x) == 0
  {
  }

  /** The coefficient of party j. */
  function Lambda(n: nat, j: nat): int
    requires 1 <= j
  {
    Factorial(n) * Sign(j - 1) * Choose(n, j)
  }

  /** The sum of lambda_j f(j) over the first k parties. */
  function Recombined(n: nat, f: seq<int>, k: nat): int {
    if k == 0 then 0 else Recombined(n, f, k - 1) + Lambda(n, k) * Eval(f, k)
  }

  lemma {:induction false} RecombinedIs(n: nat, f: seq<int>, k: nat)
    ensures Recombined(n, f, k) == Factorial(n) * (Eval(f, 0) - Alternating(n, f, 0, k + 1))
    decreases k
  {
    hide Factorial, Eval;
    if k == 0 {
      assert Choose(n, 0) == 1 && Sign(0) == 1;
      assert Alternating(n, f, 0, 1) == Alternating(n, f, 0, 0) + Sign(0) * Choose(n, 0) * Eval(f, 0 + 0);
    } else {
      hide Choose;
      RecombinedIs(n, f, k - 1);
      var d, a := Factorial(n), Alternating(n, f, 0, k);
      RecombinedStep(d, Eval(f, 0), a, Sign(k - 1), Choose(n, k), Eval(f, k));
      assert Sign(k) == -Sign(k - 1);
      assert Alternating(n, f, 0, k + 1) == a + Sign(k) * Choose(n, k) * Eval(f, 0 + k);
    }
  }

  lemma RecombinedStep(d: int, e0: int, a: int, s: int, c: int, e: int)
    ensures d * (e0 - a) + d * s * c * e == d * (e0 - (a + (-s) * c * e))
  {
    Spread(d, e0 - a, s, c, e);
  }

  lemma Spread(d: int, a: int, s: int, c: int, e: int)
    ensures d * a + d * s * c * e == d * (a - (-s) * c * e)
  {
    assert (-s) * c * e == -(s * c * e);
    assert d * s * c * e == d * (s * c * e);
  }

  /** Recombination: for every polynomial with at most n coefficients the shares of n parties give n! times
      its constant term. */
  lemma Recombination(n: nat, f: seq<int>)
    requires |f| <= n
    ensures Recombined(n, f, n) == Factorial(n) * Eval(f, 0)
  {
    RecombinedIs(n, f, n);
    AlternatingVanishes(n, f, 0);
  }
}
