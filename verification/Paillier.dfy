/** Threshold Paillier decryption, Source Files/PaillierParty.cpp: shares, partial decryption and
    recombination modulo n^2, for any parameters a and b.  initPaiilier sets both to 1 and notes
    that other values do not work; DecryptScaled says what they do. */
module Paillier {
  import opened Numbers
  import opened Residues
  import opened Lagrange

  // ---------------------------------------------------------------- congruences

  /** a and b leave the same remainder. */
  ghost predicate Cong(a: int, b: int, q: int)
    requires 0 < q
  {
    a % q == b % q
  }

  lemma CongWitness(a: int, b: int, q: int, k: int)
    requires 0 < q && a == b + q * k
    ensures Cong(a, b, q)
  {
    assert a == q * (b / q + k) + b % q;
    ModUnique(a, q, b / q + k, b % q);
  }

  lemma CongQuotient(a: int, b: int, q: int) returns (k: int)
    requires 0 < q && Cong(a, b, q)
    ensures a == b + q * k
  {
    k := a / q - b / q;
    assert a == q * (a / q) + a % q && b == q * (b / q) + b % q;
    assert q * (a / q - b / q) == q * (a / q) - q * (b / q);
  }

  lemma CongAdd(a: int, b: int, c: int, d: int, q: int)
    requires 0 < q && Cong(a, b, q) && Cong(c, d, q)
    ensures Cong(a + c, b + d, q)
  {
    var k := CongQuotient(a, b, q);
    var l := CongQuotient(c, d, q);
    assert q * (k + l) == q * k + q * l;
    CongWitness(a + c, b + d, q, k + l);
  }

  lemma CongMul(a: int, b: int, c: int, d: int, q: int)
    requires 0 < q && Cong(a, b, q) && Cong(c, d, q)
    ensures Cong(a * c, b * d, q)
  {
    CongScale(a, b, c, q);
    CongScale(c, d, b, q);
    assert c * b == b * c && d * b == b * d;
  }

  lemma CongScale(a: int, b: int, c: int, q: int)
    requires 0 < q && Cong(a, b, q)
    ensures Cong(a * c, b * c, q)
  {
    var k := CongQuotient(a, b, q);
    Distribute(b, q, k, c);
    CongWitness(a * c, b * c, q, k * c);
  }

  lemma Distribute(b: int, q: int, k: int, c: int)
    ensures (b + q * k) * c == b * c + q * (k * c)
  {
    assert (b + q * k) * c == b * c + (q * k) * c;
  }

  lemma CongMod(a: int, q: int)
    requires 0 < q
    ensures Cong(a % q, a, q)
  {
    ModUnique(a % q, q, 0, a % q);
  }

  // ---------------------------------------------------------------- powers

  function Power(a: int, e: nat): int {
    if e == 0 then 1 else a * Power(a, e - 1)
  }

  /** a^e for any integer e, where b is an inverse of a. */
  function UnitPower(a: int, b: int, e: int): int {
    if e >= 0 then Power(a, e) else Power(b, -e)
  }

  ghost predicate Inverse(a: int, b: int, q: int)
    requires 0 < q
  {
    Cong(a * b, 1, q)
  }

  lemma {:induction false} PowerCong(a: int, b: int, e: nat, q: int)
    requires 0 < q && Cong(a, b, q)
    ensures Cong(Power(a, e), Power(b, e), q)
  {
    if e > 0 {
      PowerCong(a, b, e - 1, q);
      CongMul(a, b, Power(a, e - 1), Power(b, e - 1), q);
    }
  }

  /** One more factor, also below zero. */
  lemma UnitStep(a: int, b: int, e: int, q: int)
    requires 0 < q && Inverse(a, b, q)
    ensures Cong(UnitPower(a, b, e + 1), a * UnitPower(a, b, e), q)
    ensures Cong(UnitPower(a, b, e - 1), b * UnitPower(a, b, e), q)
  {
    if e < 0 {
      var p := Power(b, -e - 1);
      assert UnitPower(a, b, e) == b * p && UnitPower(a, b, e + 1) == p;
      CongMul(a * b, 1, p, p, q);
      ProductOf3(a, b, p);
    } else if e > 0 {
      var p := Power(a, e - 1);
      assert UnitPower(a, b, e) == a * p && UnitPower(a, b, e - 1) == p;
      CongMul(a * b, 1, p, p, q);
      ProductOf3(b, a, p);
    } else {
      assert Power(b, 1) == b * Power(b, 0) == b;
      assert Power(a, 1) == a;
    }
  }

  lemma {:induction false} UnitSum(a: int, b: int, e: int, f: int, q: int)
    requires 0 < q && Inverse(a, b, q)
    ensures Cong(UnitPower(a, b, e + f), UnitPower(a, b, e) * UnitPower(a, b, f), q)
    decreases if f >= 0 then f else -f
  {
    hide UnitPower, Cong, Inverse;
    if f > 0 {
      UnitSum(a, b, e, f - 1, q);
      UnitStep(a, b, e + (f - 1), q);
      UnitStep(a, b, f - 1, q);
      StepBoth(a, UnitPower(a, b, e), UnitPower(a, b, f - 1), UnitPower(a, b, f), UnitPower(a, b, e + (f - 1)),
        UnitPower(a, b, e + f), q);
    } else if f < 0 {
      UnitSum(a, b, e, f + 1, q);
      UnitStep(a, b, e + (f + 1), q);
      UnitStep(a, b, f + 1, q);
      StepBoth(b, UnitPower(a, b, e), UnitPower(a, b, f + 1), UnitPower(a, b, f), UnitPower(a, b, e + (f + 1)),
        UnitPower(a, b, e + f), q);
    } else {
      UnitZero(a, b);
      CongSelf(UnitPower(a, b, e), q);
    }
  }

  lemma CongSelf(a: int, q: int)
    requires 0 < q
    ensures Cong(a, a, q)
  {
  }

  lemma UnitZero(a: int, b: int)
    ensures UnitPower(a, b, 0) == 1
  {
  }

  lemma StepBoth(x: int, pe: int, pf': int, pf: int, ps': int, ps: int, q: int)
    requires 0 < q && Cong(ps', pe * pf', q) && Cong(ps, x * ps', q) && Cong(pf, x * pf', q)
    ensures Cong(ps, pe * pf, q)
  {
    CongMul(x, x, ps', pe * pf', q);
    CongMul(pe, pe, pf, x * pf', q);
    assert x * (pe * pf') == pe * (x * pf');
  }

  /** Powers of powers. */
  lemma {:induction false} UnitProduct(a: int, b: int, e: int, f: int, q: int)
    requires 0 < q && Inverse(a, b, q)
    ensures Inverse(UnitPower(a, b, e), UnitPower(a, b, -e), q)
    ensures Cong(UnitPower(UnitPower(a, b, e), UnitPower(a, b, -e), f), UnitPower(a, b, e * f), q)
    decreases if f >= 0 then f else -f
  {
    hide UnitPower, Cong;
    UnitSum(a, b, e, -e, q);
    UnitZero(a, b);
    CongSym(UnitPower(a, b, 0), UnitPower(a, b, e) * UnitPower(a, b, -e), q);
    var c, d := UnitPower(a, b, e), UnitPower(a, b, -e);
    if f > 0 {
      UnitProduct(a, b, e, f - 1, q);
      UnitStep(c, d, f - 1, q);
      UnitSum(a, b, e, e * (f - 1), q);
      assert e + e * (f - 1) == e * f;
      ProductStep(c, UnitPower(c, d, f - 1), UnitPower(c, d, f), UnitPower(a, b, e * (f - 1)), UnitPower(a, b, e * f),
        q);
    } else if f < 0 {
      UnitProduct(a, b, e, f + 1, q);
      UnitStep(c, d, f + 1, q);
      UnitSum(a, b, -e, e * (f + 1), q);
      assert -e + e * (f + 1) == e * f;
      ProductStep(d, UnitPower(c, d, f + 1), UnitPower(c, d, f), UnitPower(a, b, e * (f + 1)), UnitPower(a, b, e * f),
        q);
    } else {
      UnitZero(c, d);
      assert e * 0 == 0;
      CongSelf(1, q);
    }
  }

  lemma CongSym(a: int, b: int, q: int)
    requires 0 < q && Cong(a, b, q)
    ensures Cong(b, a, q)
  {
  }

  lemma ProductStep(x: int, p': int, p: int, r': int, r: int, q: int)
    requires 0 < q && Cong(p, x * p', q) && Cong(p', r', q) && Cong(r, x * r', q)
    ensures Cong(p, r, q)
  {
    CongMul(x, x, p', r', q);
  }

  lemma {:induction false} PowerProduct(a: int, c: int, e: nat)
    ensures Power(a * c, e) == Power(a, e) * Power(c, e)
  {
    if e > 0 {
      PowerProduct(a, c, e - 1);
      Rearrange(a, c, Power(a, e - 1), Power(c, e - 1));
    }
  }

  lemma Rearrange(a: int, c: int, p: int, r: int)
    ensures (a * c) * (p * r) == (a * p) * (c * r)
  {
    assert (a * c) * (p * r) == a * (c * (p * r)) == a * (p * (c * r));
  }

  lemma {:induction false} PowerSum(a: int, e: nat, f: nat)
    ensures Power(a, e + f) == Power(a, e) * Power(a, f)
  {
    if e > 0 {
      PowerSum(a, e - 1, f);
      assert a * (Power(a, e - 1) * Power(a, f)) == a * Power(a, e - 1) * Power(a, f);
    }
  }

  lemma {:induction false} PowerPower(a: int, e: nat, f: nat)
    ensures e * f >= 0 && Power(Power(a, e), f) == Power(a, e * f)
  {
    NonNegative(e, f);
    if f > 0 {
      PowerPower(a, e, f - 1);
      PowerSum(a, e, e * (f - 1));
      assert e + e * (f - 1) == e * f;
    } else {
      assert e * 0 == 0;
    }
  }

  lemma {:induction false} PowerOne(e: nat)
    ensures Power(1, e) == 1
  {
    if e > 0 {
      PowerOne(e - 1);
    }
  }

  /** (1 + n)^k is 1 + k n modulo n^2. */
  lemma {:induction false} OnePlus(n: int, k: nat)
    requires 0 < n
    ensures 0 < n * n && Cong(Power(1 + n, k), 1 + k * n, n * n)
  {
    assert n * n > 0;
    if k == 0 {
      CongSelf(1, n * n);
    } else {
      OnePlus(n, k - 1);
      CongMul(1 + n, 1 + n, Power(1 + n, k - 1), 1 + (k - 1) * n, n * n);
      OnePlusStep(n, k - 1);
      CongWitness((1 + n) * (1 + (k - 1) * n), 1 + k * n, n * n, k - 1);
    }
  }

  lemma OnePlusStep(n: int, m: int)
    ensures (1 + n) * (1 + m * n) == 1 + (m + 1) * n + (n * n) * m
  {
    assert (1 + n) * (1 + m * n) == 1 + m * n + n + n * (m * n);
    assert n * (m * n) == (n * n) * m;
    assert (m + 1) * n == m * n + n;
  }

  // ---------------------------------------------------------------- shares

  /** The sum of the first k polynomials. */
  function SumPolys(polys: seq<seq<int>>, k: nat): seq<int>
    requires k <= |polys|
  {
    if k == 0 then [] else AddPolys(SumPolys(polys, k - 1), polys[k - 1])
  }

  /** Every party chooses numParties coefficients, the lowest a multiple of m. */
  ghost predicate PolysOk(polys: seq<seq<int>>, numParties: nat, m: int)
    requires 0 < m
  {
    && |polys| == numParties
    && forall k :: 0 <= k < numParties
         ==> |polys[k]| == numParties && 0 < numParties && polys[k][0] % m == 0
             && forall i :: 0 <= i < numParties ==> polys[k][i] >= 0
  }

  /** secretShare: the share of party i is the sum of the values it is sent, modulo n m. */
  method SecretShare(polys: seq<seq<int>>, i: nat, nm: int) returns (share: int)
    requires 0 < nm
    ensures 0 <= share < nm && Cong(share, Eval(SumPolys(polys, |polys|), i), nm)
  {
    hide Eval, SumPolys, Cong;
    share := 0;
    SumNone(polys, i);
    CongSelf(0, nm);
    for k := 0 to |polys|
      invariant 0 <= share < nm && Cong(share, Eval(SumPolys(polys, k), i), nm)
    {
      var value := Eval(polys[k], i) % nm;
      CongMod(Eval(polys[k], i), nm);
      CongAdd(share, Eval(SumPolys(polys, k), i), value, Eval(polys[k], i), nm);
      SumNext(polys, k, i);
      CongMod(share + value, nm);
      CongTrans((share + value) % nm, share + value, Eval(SumPolys(polys, k + 1), i), nm);
      share := (share + value) % nm;
    }
  }

  lemma SumNone(polys: seq<seq<int>>, x: int)
    ensures Eval(SumPolys(polys, 0), x) == 0
  {
  }

  lemma SumNext(polys: seq<seq<int>>, k: nat, x: int)
    requires k < |polys|
    ensures Eval(SumPolys(polys, k + 1), x) == Eval(SumPolys(polys, k), x) + Eval(polys[k], x)
  {
    hide Eval;
    EvalAdd(SumPolys(polys, k), polys[k], x);
  }

  lemma CongTrans(a: int, b: int, c: int, q: int)
    requires 0 < q && Cong(a, b, q) && Cong(b, c, q)
    ensures Cong(a, c, q)
  {
  }

  lemma {:induction false} SumShape(polys: seq<seq<int>>, numParties: nat, m: int, k: nat)
    requires 0 < m && PolysOk(polys, numParties, m) && k <= numParties
    ensures |SumPolys(polys, k)| <= numParties
    ensures 0 <= Eval(SumPolys(polys, k), 0) && Cong(Eval(SumPolys(polys, k), 0), 0, m)
    decreases k
  {
    hide Eval, Cong;
    if k == 0 {
      SumNone(polys, 0);
      CongSelf(0, m);
    } else {
      SumShape(polys, numParties, m, k - 1);
      SumNext(polys, k - 1, 0);
      ConstantTerm(polys[k - 1]);
      CongMod(polys[k - 1][0], m);
      CongSym(polys[k - 1][0] % m, polys[k - 1][0], m);
      CongAdd(Eval(SumPolys(polys, k - 1), 0), 0, polys[k - 1][0], 0, m);
    }
  }

  lemma ConstantTerm(f: seq<int>)
    requires f != []
    ensures Eval(f, 0) == f[0]
  {
    assert 0 * Eval(f[1..], 0) == 0;
  }

  // ---------------------------------------------------------------- encryption and its powers

  /** The facts about the key and one ciphertext c = (1 + n)^M x^n: y is the inverse of x, ci that of c. */
  ghost predicate Encrypted(n: int, m: int, M: nat, x: int, y: int, c: int, ci: int) {
    && 1 < n && 0 < m && 0 < n * n && 0 < 4 * n * m
    && Inverse(x, y, n * n) && Cong(Power(x, 4 * n * m), 1, n * n)
    && Cong(c, Power(1 + n, M) * Power(x, n), n * n) && Inverse(c, ci, n * n)
  }

  /** encrypt, with g = (1 + n)^a b^n: an encryption of a * plain with randomness b^plain x. */
  method Encrypt(n: int, a: nat, b: int, plain: nat, x: int) returns (c: int)
    requires 1 < n
    ensures 0 < n * n && a * plain >= 0
    ensures Cong(c, Power(1 + n, a * plain) * Power(Power(b, plain) * x, n), n * n)
  {
    hide Power, Cong;
    assert n * n > 0;
    NonNegative(a, plain);
    var q := n * n;
    var g := ((Power(1 + n, a) % q) * (Power(b, n) % q)) % q;
    ProductMod(Power(1 + n, a), Power(b, n), q);
    PowerCong(g, Power(1 + n, a) * Power(b, n), plain, q);
    c := ((Power(g, plain) % q) * (Power(x, n) % q)) % q;
    ProductMod(Power(g, plain), Power(x, n), q);
    CongSelf(Power(x, n), q);
    CongMul(Power(g, plain), Power(Power(1 + n, a) * Power(b, n), plain), Power(x, n), Power(x, n), q);
    CipherForm(n, a, b, plain, x);
    CongTrans(c, Power(g, plain) * Power(x, n), Power(1 + n, a * plain) * Power(Power(b, plain) * x, n), q);
  }

  lemma ProductMod(u: int, v: int, q: int)
    requires 0 < q
    ensures Cong(((u % q) * (v % q)) % q, u * v, q)
  {
    hide Cong;
    CongMod(u, q);
    CongMod(v, q);
    CongMul(u % q, u, v % q, v, q);
    CongMod((u % q) * (v % q), q);
    CongTrans(((u % q) * (v % q)) % q, (u % q) * (v % q), u * v, q);
  }

  lemma CipherForm(n: nat, a: nat, b: int, plain: nat, x: int)
    ensures a * plain >= 0
    ensures Power(Power(1 + n, a) * Power(b, n), plain) * Power(x, n)
      == Power(1 + n, a * plain) * Power(Power(b, plain) * x, n)
  {
    hide Power;
    PowerProduct(Power(1 + n, a), Power(b, n), plain);
    PowerPower(1 + n, a, plain);
    PowerPower(b, n, plain);
    PowerPower(b, plain, n);
    assert n * plain == plain * n;
    PowerProduct(Power(b, plain), x, n);
    var u, v, w := Power(1 + n, a * plain), Power(Power(b, plain), n), Power(x, n);
    assert (u * v) * w == u * (v * w);
  }

  /** The randomness vanishes in multiples of 4 m. */
  lemma RandomnessVanishes(n: nat, m: nat, x: int, u: nat)
    requires 0 < n * n && 0 < 4 * n * m && Cong(Power(x, 4 * n * m), 1, n * n)
    ensures 4 * m * u >= 0 && Cong(Power(Power(x, n), 4 * m * u), 1, n * n)
  {
    hide Power, Cong;
    NonNegative(4 * m, u);
    PowerPower(x, n, 4 * m * u);
    assert n * (4 * m * u) == (4 * n * m) * u;
    PowerPower(x, 4 * n * m, u);
    PowerCong(Power(x, 4 * n * m), 1, u, n * n);
    PowerOne(u);
  }

  /** c^e is (1 + n)^(M e) when the exponent is a multiple of 4 m. */
  lemma PowerOfCipher(n: int, m: int, M: nat, x: int, y: int, c: int, ci: int, e: nat, u: nat)
    requires Encrypted(n, m, M, x, y, c, ci) && e == 4 * m * u
    ensures M * e >= 0 && Cong(Power(c, e), 1 + (M * e) * n, n * n)
  {
    hide Power, Cong, Inverse;
    var q := n * n;
    var a, b := Power(1 + n, M), Power(x, n);
    NonNegative(M, e);
    PowerCong(c, a * b, e, q);
    PowerProduct(a, b, e);
    PowerPower(1 + n, M, e);
    OnePlus(n, M * e);
    RandomnessVanishes(n, m, x, u);
    CongMul(Power(a, e), 1 + (M * e) * n, Power(b, e), 1, q);
    CongTrans(Power(c, e), Power(a, e) * Power(b, e), 1 + (M * e) * n, q);
  }

  /** c^(4 n m) = 1. */
  lemma CipherOrder(n: int, m: int, M: nat, x: int, y: int, c: int, ci: int)
    requires Encrypted(n, m, M, x, y, c, ci)
    ensures Cong(Power(c, 4 * n * m), 1, n * n)
  {
    hide Power, Cong;
    assert 4 * m * n == 4 * n * m;
    PowerOfCipher(n, m, M, x, y, c, ci, 4 * n * m, n);
    var k := M * (4 * m);
    assert (M * (4 * n * m)) * n == (n * n) * k;
    CongWitness(1 + (M * (4 * n * m)) * n, 1, n * n, k);
    CongTrans(Power(c, 4 * n * m), 1 + (M * (4 * n * m)) * n, 1, n * n);
  }

  /** Multiples of 4 n m do not matter in the exponent. */
  lemma OrderDrops(n: int, m: int, M: nat, x: int, y: int, c: int, ci: int, e: nat, w: int)
    requires Encrypted(n, m, M, x, y, c, ci)
    ensures Cong(UnitPower(c, ci, e + (4 * n * m) * w), Power(c, e), n * n)
  {
    hide Power, Cong;
    var q, d := n * n, 4 * n * m;
    CipherOrder(n, m, M, x, y, c, ci);
    UnitSum(c, ci, e, d * w, q);
    UnitProduct(c, ci, d, w, q);
    var p, p' := UnitPower(c, ci, d), UnitPower(c, ci, -d);
    OneToAny(p, p', w, q);
    CongSym(UnitPower(p, p', w), UnitPower(c, ci, d * w), q);
    CongTrans(UnitPower(c, ci, d * w), UnitPower(p, p', w), 1, q);
    CongSelf(Power(c, e), q);
    CongMul(Power(c, e), Power(c, e), UnitPower(c, ci, d * w), 1, q);
    CongTrans(UnitPower(c, ci, e + d * w), Power(c, e) * UnitPower(c, ci, d * w), Power(c, e), q);
  }

  /** Powers of 1. */
  lemma OneToAny(p: int, p': int, w: int, q: int)
    requires 0 < q && Cong(p, 1, q) && Inverse(p, p', q)
    ensures Cong(UnitPower(p, p', w), 1, q)
  {
    hide Power, Cong;
    CongSelf(p', q);
    CongMul(p, 1, p', p', q);
    CongSym(p * p', 1 * p', q);
    CongTrans(p', p * p', 1, q);
    var e := if w >= 0 then w else -w;
    PowerCong(p, 1, e, q);
    PowerCong(p', 1, e, q);
    PowerOne(e);
  }

  // ---------------------------------------------------------------- decryption

  /** partialDecrypt. */
  function PartialDecrypt(c: int, delta: nat, share: nat, q: int): int
    requires 0 < q
  {
    NonNegative(delta, share);
    NonNegative(2, delta * share);
    Power(c, 2 * (delta * share)) % q
  }

  /** InvMod. */
  method InvMod(a: int, q: int) returns (b: int)
    requires 0 < q && exists z :: 0 <= z < q && Inverse(a, z, q)
    ensures 0 <= b < q && Inverse(a, b, q)
  {
    b :| 0 <= b < q && (a * b) % q == 1 % q;
  }

  lemma InverseBelow(a: int, b: int, q: int)
    requires 0 < q && Inverse(a, b, q)
    ensures exists z :: 0 <= z < q && Inverse(a, z, q)
  {
    CongMod(b, q);
    CongMul(a, a, b % q, b, q);
    assert Inverse(a, b % q, q);
  }

  /** PowerMod, with a negative exponent for a power of the inverse. */
  method PowerMod(a: int, e: int, q: int, ghost ai: int) returns (r: int)
    requires 0 < q && Inverse(a, ai, q)
    ensures 0 <= r < q && Cong(r, UnitPower(a, ai, e), q)
  {
    hide Power, Cong;
    if e >= 0 {
      CongMod(Power(a, e), q);
      r := Power(a, e) % q;
    } else {
      InverseBelow(a, ai, q);
      var b := InvMod(a, q);
      CongSelf(a, q);
      InverseUnique(a, b, a, ai, q);
      PowerCong(b, ai, -e, q);
      CongMod(Power(b, -e), q);
      r := Power(b, -e) % q;
      CongTrans(r, Power(b, -e), Power(ai, -e), q);
    }
  }

  lemma InverseUnique(a: int, b: int, a': int, b': int, q: int)
    requires 0 < q && Cong(a, a', q) && Inverse(a, b, q) && Inverse(a', b', q)
    ensures Cong(b, b', q)
  {
    hide Cong;
    CongSelf(b, q);
    CongSelf(b', q);
    CongSym(a' * b', 1, q);
    CongMul(b, b, 1, a' * b', q);
    CongSym(a, a', q);
    CongSelf(b * b', q);
    CongMul(a', a, b * b', b * b', q);
    assert b * (a' * b') == a' * (b * b') && a * (b * b') == (a * b) * b';
    CongMul(a * b, 1, b', b', q);
    assert b * 1 == b && 1 * b' == b';
    CongTrans(b, a' * (b * b'), a * (b * b'), q);
    CongTrans(b, (a * b) * b', b', q);
  }

  /** The sum of lambda_j s_j over the first k parties. */
  function ShareSum(n: nat, s: seq<nat>, k: nat): int
    requires k <= |s|
  {
    if k == 0 then 0 else ShareSum(n, s, k - 1) + Lambda(n, k) * s[k - 1]
  }

  /** Shares of a polynomial recombine to numParties! times its constant term, up to multiples of n m. */
  lemma {:induction false} ShareSumIs(numParties: nat, s: seq<nat>, f: seq<int>, nm: int, k: nat) returns (w: int)
    requires 0 < nm && k <= |s| && forall i :: 0 <= i < |s| ==> Cong(s[i], Eval(f, i + 1), nm)
    ensures ShareSum(numParties, s, k) == Recombined(numParties, f, k) + nm * w
    decreases k
  {
    hide Eval, Cong, Lambda;
    if k == 0 {
      w := 0;
    } else {
      var v := ShareSumIs(numParties, s, f, nm, k - 1);
      var t := CongQuotient(s[k - 1], Eval(f, k), nm);
      var l := Lambda(numParties, k);
      w := v + l * t;
      assert l * (Eval(f, k) + nm * t) == l * Eval(f, k) + nm * (l * t) by {
        assert l * (nm * t) == nm * (l * t);
      }
      assert nm * (v + l * t) == nm * v + nm * (l * t);
    }
  }

  /** One partial decryption raised to twice its coefficient. */
  lemma PartialPower(c: int, ci: int, delta: nat, share: nat, lambda: int, q: int)
    requires 0 < q && Inverse(c, ci, q)
    ensures delta * share >= 0
    ensures var d, e := PartialDecrypt(c, delta, share, q), 2 * (delta * share);
      Inverse(d, UnitPower(c, ci, -e), q)
      && Cong(UnitPower(d, UnitPower(c, ci, -e), 2 * lambda), UnitPower(c, ci, 4 * delta * (lambda * share)), q)
  {
    hide Power, Cong;
    NonNegative(delta, share);
    var d, e := PartialDecrypt(c, delta, share, q), 2 * (delta * share);
    var p, p' := UnitPower(c, ci, e), UnitPower(c, ci, -e);
    CongMod(Power(c, e), q);
    assert Cong(d, p, q);
    UnitProduct(c, ci, e, 2 * lambda, q);
    CongSelf(p', q);
    CongMul(d, p, p', p', q);
    CongTrans(d * p', p * p', 1, q);
    UnitCong(d, p, p', 2 * lambda, q);
    assert e * (2 * lambda) == 4 * delta * (lambda * share) by {
      ExponentProduct(delta, share, lambda);
    }
    CongTrans(UnitPower(d, p', 2 * lambda), UnitPower(p, p', 2 * lambda), UnitPower(c, ci, e * (2 * lambda)), q);
  }

  lemma ExponentProduct(delta: int, share: int, lambda: int)
    ensures (2 * (delta * share)) * (2 * lambda) == 4 * delta * (lambda * share)
  {
    assert (2 * (delta * share)) * (2 * lambda) == 4 * ((delta * share) * lambda);
    assert (delta * share) * lambda == delta * (lambda * share);
  }

  lemma UnitCong(a: int, a': int, b: int, e: int, q: int)
    requires 0 < q && Cong(a, a', q)
    ensures Cong(UnitPower(a, b, e), UnitPower(a', b, e), q)
  {
    hide Power, Cong;
    if e >= 0 {
      PowerCong(a, a', e, q);
    } else {
      CongSelf(Power(b, -e), q);
    }
  }

  /** The product of the partial decryptions in decrypt. */
  method CombinePartials(partials: seq<int>, lambdas: seq<int>, q: int, ghost c: int, ghost ci: int, ghost delta: nat,
                         ghost s: seq<nat>) returns (prod: int)
    requires 1 < q && Inverse(c, ci, q) && |partials| == |lambdas| == |s|
    requires forall i :: 0 <= i < |s|
               ==> partials[i] == PartialDecrypt(c, delta, s[i], q) && lambdas[i] == Lambda(|s|, i + 1)
    ensures 0 <= prod < q && Cong(prod, UnitPower(c, ci, 4 * delta * ShareSum(|s|, s, |s|)), q)
  {
    hide Power, Cong, PartialDecrypt, Lambda, UnitPower;
    prod := 1;
    UnitZero(c, ci);
    CongSelf(1, q);
    assert 4 * delta * ShareSum(|s|, s, 0) == 0;
    for i := 0 to |partials|
      invariant 0 <= prod < q && Cong(prod, UnitPower(c, ci, 4 * delta * ShareSum(|s|, s, i)), q)
    {
      PartialPower(c, ci, delta, s[i], lambdas[i], q);
      ghost var inverse := UnitPower(c, ci, -(2 * (delta * s[i])));
      var r := PowerMod(partials[i], 2 * lambdas[i], q, inverse);
      ghost var e, f := 4 * delta * ShareSum(|s|, s, i), 4 * delta * (lambdas[i] * s[i]);
      CongTrans(r, UnitPower(partials[i], inverse, 2 * lambdas[i]), UnitPower(c, ci, f), q);
      CongMul(prod, UnitPower(c, ci, e), r, UnitPower(c, ci, f), q);
      UnitSum(c, ci, e, f, q);
      CongSym(UnitPower(c, ci, e + f), UnitPower(c, ci, e) * UnitPower(c, ci, f), q);
      CongMod(prod * r, q);
      CongTrans((prod * r) % q, prod * r, UnitPower(c, ci, e) * UnitPower(c, ci, f), q);
      CongTrans((prod * r) % q, UnitPower(c, ci, e) * UnitPower(c, ci, f), UnitPower(c, ci, e + f), q);
      SumExponent(delta, ShareSum(|s|, s, i), lambdas[i] * s[i]);
      prod := (prod * r) % q;
    }
  }

  lemma SumExponent(delta: int, a: int, b: int)
    ensures 4 * delta * (a + b) == 4 * delta * a + 4 * delta * b
  {
  }

  /** All parties' keys and shares: the shares are values of the sum F of their polynomials. */
  ghost predicate Keyed(polys: seq<seq<int>>, n: int, m: int, s: seq<nat>) {
    && 1 < n && 0 < m && 0 < n * m && 0 < |s| && PolysOk(polys, |s|, m)
    && (forall i :: 0 <= i < |s| ==> Cong(s[i], Eval(SumPolys(polys, |polys|), i + 1), n * m))
  }

  /** The exponent of the combined product: 4 delta^2 F(0), up to the order of the ciphertext. */
  lemma CombinedExponent(polys: seq<seq<int>>, n: int, m: int, s: seq<nat>) returns (F0: nat, w: int)
    requires Keyed(polys, n, m, s)
    ensures 1 < n && F0 == Eval(SumPolys(polys, |polys|), 0) && Cong(F0, 0, m)
    ensures var d := Factorial(|s|);
      d * d * F0 >= 0 && 4 * d * ShareSum(|s|, s, |s|) == 4 * (d * d * F0) + (4 * n * m) * w
  {
    hide Eval, SumPolys, Cong, Factorial, Lambda;
    SumShape(polys, |s|, m, |s|);
    var f := SumPolys(polys, |polys|);
    F0 := Eval(f, 0);
    Recombination(|s|, f);
    var v := ShareSumIs(|s|, s, f, n * m, |s|);
    var d := Factorial(|s|);
    w := d * v;
    NonNegative(d, d);
    NonNegative(d * d, F0);
    ExponentSplit(d, F0, n, m, v);
  }

  lemma ExponentSplit(d: int, F0: int, n: int, m: int, v: int)
    ensures 4 * d * (d * F0 + n * m * v) == 4 * (d * d * F0) + (4 * n * m) * (d * v)
  {
    assert d * (d * F0 + n * m * v) == d * (d * F0) + d * (n * m * v);
    assert d * (d * F0) == d * d * F0;
    assert d * (n * m * v) == (n * m) * (d * v);
    assert 4 * d * (d * F0 + n * m * v) == 4 * (d * (d * F0 + n * m * v));
    assert (4 * n * m) * (d * v) == 4 * ((n * m) * (d * v));
  }

  /** L_function. */
  function LFunction(value: int, n: int): int
    requires 0 < n
  {
    (value - 1) / n
  }

  /** What L makes of 1 + k n modulo n^2. */
  lemma LOfPower(prod: int, k: int, n: int)
    requires 1 < n && 0 < n * n && 0 <= prod < n * n && Cong(prod, 1 + k * n, n * n)
    ensures LFunction(prod, n) == k % n
  {
    var r, t := k % n, k / n;
    LExpand(k, n, t, r);
    LBound(r, n);
    ModUnique(1 + k * n, n * n, t, 1 + r * n);
    ModUnique(prod, n * n, 0, prod);
    assert r * n == n * r;
    ModUnique(r * n, n, r, 0);
  }

  lemma LExpand(k: int, n: int, t: int, r: int)
    requires k == n * t + r
    ensures 1 + k * n == (n * n) * t + (1 + r * n)
  {
    assert (n * t + r) * n == n * t * n + r * n;
    assert n * t * n == (n * n) * t;
  }

  lemma LBound(r: int, n: int)
    requires 1 < n && 0 <= r < n
    ensures 0 <= 1 + r * n < n * n
  {
    assert n * n == r * n + (n - r) * n;
    MulSign(n, n - r);
    MulSign(n, r);
    assert (n - r) * n == n * (n - r) && r * n == n * r;
  }

  /** decrypt of an encryption of a * M.  The result is M divided by a, because phi contains a twice: the plaintext
      itself comes out if and only if a M = M modulo n. */
  method Decrypt(partials: seq<int>, lambdas: seq<int>, pubKeys: seq<int>, n: int, a: nat, delta: nat,
                 ghost polys: seq<seq<int>>, ghost s: seq<nat>,
                 ghost m: int, ghost M: nat, ghost x: int, ghost y: int, ghost c: int, ghost ci: int, ghost z: int)
                 returns (plain: int)
    requires a * M >= 0 && Encrypted(n, m, a * M, x, y, c, ci) && Keyed(polys, n, m, s) && M < n
    requires Cong(KeySum(pubKeys, n, |pubKeys|), a * Eval(SumPolys(polys, |polys|), 0), n)
    requires |partials| == |lambdas| == |s| && delta == Factorial(|s|)
    requires forall i :: 0 <= i < |s|
               ==> partials[i] == PartialDecrypt(c, delta, s[i], n * n) && lambdas[i] == Lambda(|s|, i + 1)
    requires Inverse(4 * (delta * delta * ((a * KeySum(pubKeys, n, |pubKeys|)) % n)), z, n)
    ensures 0 <= plain < n && Cong(a * plain, M, n)
    ensures plain == M <==> Cong(a * M, M, n)
  {
    hide Power, Cong, PartialDecrypt, Lambda, Encrypted, Keyed, Factorial, Inverse, Eval, SumPolys;
    InverseOfCipher(n, m, a * M, x, y, c, ci);
    var sum := SumKeys(pubKeys, n);
    var phi := (a * sum) % n;
    var prod := CombinePartials(partials, lambdas, n * n, c, ci, delta, s);
    ghost var F0, w := CombinedExponent(polys, n, m, s);
    ghost var e := 4 * (delta * delta * F0);
    OrderDrops(n, m, a * M, x, y, c, ci, e, w);
    CongTrans(prod, UnitPower(c, ci, 4 * delta * ShareSum(|s|, s, |s|)), Power(c, e), n * n);
    PlainPower(n, m, a * M, x, y, c, ci, delta, F0, prod);
    var LResult := LFunction(prod, n);
    LOfPower(prod, (a * M) * e, n);
    var scale := (4 * (delta * delta * phi)) % n;
    ScaledInverse(4 * (delta * delta * phi), z, n);
    InverseBelow(scale, z, n);
    var combinedShare := InvMod(scale, n);
    ScaleIs(n, a, e, delta, F0, sum, phi, scale);
    plain := (LResult * combinedShare) % n;
    DecryptScaled(n, a, M, e, scale, combinedShare, plain);
  }

  function KeySum(keys: seq<int>, n: int, k: nat): int
    requires 0 < n && k <= |keys|
  {
    if k == 0 then 0 else (KeySum(keys, n, k - 1) + keys[k - 1]) % n
  }

  method SumKeys(keys: seq<int>, n: int) returns (sum: int)
    requires 0 < n
    ensures sum == KeySum(keys, n, |keys|)
  {
    sum := 0;
    for k := 0 to |keys|
      invariant sum == KeySum(keys, n, k)
    {
      sum := (sum + keys[k]) % n;
    }
  }

  /** The public key of a party and the constant term of its polynomial come from the same beta. */
  lemma KeyOfTerm(a: int, beta: int, n: int, m: int)
    requires 0 < n && 0 < m
    ensures 0 < n * m && Cong((((a * beta) % n) * m) % n, a * ((beta * m) % (n * m)), n)
  {
    hide Cong;
    MulSign(n, m);
    var p, v := beta * m, (beta * m) % (n * m);
    KeyProduct(a, beta, n, m);
    TermOf(p, n, m);
    CongSelf(a, n);
    CongMul(a, a, p, v, n);
    CongTrans((((a * beta) % n) * m) % n, a * p, a * v, n);
  }

  lemma KeyProduct(a: int, beta: int, n: int, m: int)
    requires 0 < n
    ensures Cong((((a * beta) % n) * m) % n, a * (beta * m), n)
  {
    hide Cong;
    var u := ((a * beta) % n) * m;
    CongMod(a * beta, n);
    CongSelf(m, n);
    CongMul((a * beta) % n, a * beta, m, m, n);
    CongMod(u, n);
    CongTrans(u % n, u, a * beta * m, n);
    assert a * (beta * m) == a * beta * m;
  }

  lemma TermOf(p: int, n: int, m: int)
    requires 0 < n && 0 < n * m
    ensures Cong(p, p % (n * m), n)
  {
    hide Cong;
    var v := p % (n * m);
    CongMod(p, n * m);
    var k := CongQuotient(v, p, n * m);
    assert n * m * k == n * (m * k);
    CongWitness(v, p, n, m * k);
    CongSym(v, p, n);
  }

  /** Therefore the sum of the keys is a times the constant term of the sum of the polynomials. */
  lemma {:induction false} KeysAgree(polys: seq<seq<int>>, keys: seq<int>, a: int, n: int, k: nat)
    requires 0 < n && |keys| == |polys| && k <= |keys|
      && forall i :: 0 <= i < |keys| ==> polys[i] != [] && Cong(keys[i], a * polys[i][0], n)
    ensures Cong(KeySum(keys, n, k), a * Eval(SumPolys(polys, k), 0), n)
    decreases k
  {
    hide Cong, Eval;
    if k == 0 {
      SumNone(polys, 0);
      CongSelf(0, n);
    } else {
      KeysAgree(polys, keys, a, n, k - 1);
      SumNext(polys, k - 1, 0);
      ConstantTerm(polys[k - 1]);
      CongAdd(KeySum(keys, n, k - 1), a * Eval(SumPolys(polys, k - 1), 0), keys[k - 1], a * polys[k - 1][0], n);
      Factored(a, Eval(SumPolys(polys, k - 1), 0), polys[k - 1][0]);
      CongMod(KeySum(keys, n, k - 1) + keys[k - 1], n);
      CongTrans(KeySum(keys, n, k), KeySum(keys, n, k - 1) + keys[k - 1], a * Eval(SumPolys(polys, k), 0), n);
    }
  }

  lemma Factored(a: int, b: int, c: int)
    ensures a * b + a * c == a * (b + c)
  {
  }

  lemma InverseOfCipher(n: int, m: int, M: nat, x: int, y: int, c: int, ci: int)
    requires Encrypted(n, m, M, x, y, c, ci)
    ensures 1 < n && 0 < m && 1 < n * n && Inverse(c, ci, n * n)
  {
    hide Power, Cong, Inverse;
    assert n * n >= 2 * n;
  }

  lemma ScaledInverse(a: int, z: int, n: int)
    requires 0 < n && Inverse(a, z, n)
    ensures Inverse(a % n, z, n)
  {
    CongMod(a, n);
    CongSelf(z, n);
    CongMul(a % n, a, z, z, n);
  }

  lemma PlainPower(n: int, m: int, M: nat, x: int, y: int, c: int, ci: int, delta: nat, F0: nat, prod: int)
    requires Encrypted(n, m, M, x, y, c, ci) && Cong(F0, 0, m) && delta * delta * F0 >= 0
    requires Cong(prod, Power(c, 4 * (delta * delta * F0)), n * n)
    ensures Cong(prod, 1 + (M * (4 * (delta * delta * F0))) * n, n * n)
  {
    hide Power, Cong, Inverse;
    var k := CongQuotient(F0, 0, m);
    MulSign(m, k);
    var u := delta * delta * k;
    NonNegative(delta, delta);
    NonNegative(delta * delta, k);
    assert delta * delta * F0 == m * u by {
      assert (delta * delta) * (m * k) == m * ((delta * delta) * k);
    }
    assert 4 * (m * u) == 4 * m * u;
    PowerOfCipher(n, m, M, x, y, c, ci, 4 * (delta * delta * F0), u);
    CongTrans(prod, Power(c, 4 * (delta * delta * F0)), 1 + (M * (4 * (delta * delta * F0))) * n, n * n);
  }

  /** The number whose inverse decrypt multiplies with contains a twice. */
  lemma ScaleIs(n: int, a: nat, e: int, delta: nat, F0: nat, sum: int, phi: int, scale: int)
    requires 0 < n && e == 4 * (delta * delta * F0) && Cong(sum, a * F0, n) && phi == (a * sum) % n
    requires scale == (4 * (delta * delta * phi)) % n
    ensures Cong(scale, a * (a * e), n)
  {
    hide Cong;
    var k := 4 * (delta * delta);
    CongSelf(a, n);
    CongMul(a, a, sum, a * F0, n);
    CongMod(a * sum, n);
    CongTrans(phi, a * sum, a * (a * F0), n);
    CongSelf(k, n);
    CongMul(k, k, phi, a * (a * F0), n);
    assert k * phi == 4 * (delta * delta * phi) && k * F0 == e;
    assert k * (a * (a * F0)) == a * (a * (k * F0));
    CongMod(k * phi, n);
    CongTrans(scale, k * phi, a * (a * e), n);
  }

  /** What comes out is M divided by a. */
  lemma DecryptScaled(n: int, a: nat, M: nat, e: int, scale: int, inverse: int, plain: int)
    requires 1 < n && M < n && Cong(scale, a * (a * e), n) && Inverse(scale, inverse, n)
    requires plain == ((((a * M) * e) % n) * inverse) % n
    ensures Cong(a * plain, M, n) && (plain == M <==> Cong(a * M, M, n))
  {
    hide Cong;
    var t := (a * M) * e;
    CongMod(t, n);
    CongSelf(inverse, n);
    CongMul(t % n, t, inverse, inverse, n);
    CongMod((t % n) * inverse, n);
    CongTrans(plain, (t % n) * inverse, t * inverse, n);
    CongSelf(inverse, n);
    CongSym(scale, a * (a * e), n);
    CongMul(a * (a * e), scale, inverse, inverse, n);
    CongTrans(a * (a * e) * inverse, scale * inverse, 1, n);
    CongSelf(M, n);
    CongMul(M, M, a * (a * e) * inverse, 1, n);
    CongSelf(a, n);
    CongMul(a, a, plain, t * inverse, n);
    ScaledProduct(a, M, e, inverse);
    CongTrans(a * plain, M * (a * (a * e) * inverse), M, n);
    if Cong(a * M, M, n) {
      Cancelled(a, M, plain, (a * e) * inverse, n);
    }
  }

  /** So decryption is right for all plaintexts if and only if a is 1 modulo n. */
  lemma AllPlaintexts(a: nat, n: int)
    requires 1 < n
    ensures (forall M: nat :: M < n ==> Cong(a * M, M, n)) <==> Cong(a, 1, n)
  {
    hide Cong;
    assert a * 1 == a;
    if Cong(a, 1, n) {
      forall M: nat
        ensures Cong(a * M, M, n)
      {
        CongSelf(M, n);
        CongMul(a, 1, M, M, n);
      }
    }
  }

  lemma ScaledProduct(a: int, M: int, e: int, i: int)
    ensures a * ((a * M) * e * i) == M * (a * (a * e) * i)
    ensures a * (a * e) * i == a * ((a * e) * i)
  {
    assert (a * M) * e * i == M * ((a * e) * i);
    assert a * (M * ((a * e) * i)) == M * (a * ((a * e) * i));
  }

  /** a has the inverse b, so a u = a v gives u = v. */
  lemma Cancelled(a: int, u: nat, v: int, b: int, n: int)
    requires 0 < n && u < n && 0 <= v < n && Cong(a * b, 1, n) && Cong(a * u, u, n) && Cong(a * v, u, n)
    ensures v == u
  {
    hide Cong;
    CongSym(a * v, u, n);
    CongTrans(a * u, u, a * v, n);
    CongSelf(b, n);
    CongMul(a * u, a * v, b, b, n);
    CongSelf(u, n);
    CongSelf(v, n);
    CongMul(a * b, 1, u, u, n);
    CongMul(a * b, 1, v, v, n);
    Commuted(a, u, b);
    Commuted(a, v, b);
    CongSym((a * b) * u, u, n);
    CongTrans(u, (a * b) * u, (a * b) * v, n);
    CongTrans(u, (a * b) * v, v, n);
    SmallCong(v, u, n);
  }

  lemma Commuted(a: int, u: int, b: int)
    ensures (a * u) * b == (a * b) * u
  {
  }

  lemma SmallCong(v: int, u: nat, n: int)
    requires 0 < n && u < n && 0 <= v < n && Cong(u, v, n)
    ensures v == u
  {
    ModUnique(u, n, 0, u);
    ModUnique(v, n, 0, v);
  }

  // ---------------------------------------------------------------- the whole scheme

  /** The coefficients of a party: beta m, and what it draws for the others. */
  function PolyOf(beta: int, tail: seq<nat>, n: nat, m: nat): (f: seq<int>)
    requires 0 < n * m
    ensures |f| == |tail| + 1 && forall i :: 0 <= i < |f| ==> f[i] >= 0
  {
    [(beta * m) % (n * m)] + seq(|tail|, i requires 0 <= i < |tail| => tail[i] as int)
  }

  function PolysOf(betas: seq<int>, tails: seq<seq<nat>>, n: nat, m: nat): (polys: seq<seq<int>>)
    requires 0 < n * m && |betas| == |tails|
    ensures |polys| == |betas| && forall k :: 0 <= k < |polys| ==> polys[k] == PolyOf(betas[k], tails[k], n, m)
  {
    seq(|betas|, k requires 0 <= k < |betas| => PolyOf(betas[k], tails[k], n, m))
  }

  /** The public key that goes with beta. */
  function KeyOf(beta: int, a: int, n: nat, m: nat): int
    requires 0 < n
  {
    (((a * beta) % n) * m) % n
  }

  function KeysOf(betas: seq<int>, a: int, n: nat, m: nat): (keys: seq<int>)
    requires 0 < n
    ensures |keys| == |betas| && forall k :: 0 <= k < |keys| ==> keys[k] == KeyOf(betas[k], a, n, m)
  {
    seq(|betas|, k requires 0 <= k < |betas| => KeyOf(betas[k], a, n, m))
  }

  /** beta m modulo n m is a multiple of m. */
  lemma TermDivides(beta: int, n: nat, m: nat)
    requires 0 < m && 0 < n * m
    ensures ((beta * m) % (n * m)) % m == 0
  {
    hide Cong;
    var v := (beta * m) % (n * m);
    CongMod(beta * m, n * m);
    var k := CongQuotient(v, beta * m, n * m);
    assert n * m * k == m * (n * k) && beta * m == m * beta;
    assert v == m * (beta + n * k);
    ModUnique(v, m, beta + n * k, 0);
  }

  lemma PolysOfOk(betas: seq<int>, tails: seq<seq<nat>>, n: nat, m: nat)
    requires 0 < m && 0 < n * m && |betas| == |tails| && forall k :: 0 <= k < |tails| ==> |tails[k]| == |tails| - 1
    ensures PolysOk(PolysOf(betas, tails, n, m), |betas|, m)
  {
    forall k | 0 <= k < |betas|
      ensures ((betas[k] * m) % (n * m)) % m == 0
    {
      TermDivides(betas[k], n, m);
    }
  }

  lemma KeysOfAgree(betas: seq<int>, tails: seq<seq<nat>>, a: int, n: nat, m: nat)
    requires 0 < n && 0 < m && 0 < n * m && |betas| == |tails|
    ensures var polys, keys := PolysOf(betas, tails, n, m), KeysOf(betas, a, n, m);
      Cong(KeySum(keys, n, |keys|), a * Eval(SumPolys(polys, |polys|), 0), n)
  {
    hide Cong, Eval, SumPolys, KeySum;
    var polys, keys := PolysOf(betas, tails, n, m), KeysOf(betas, a, n, m);
    forall k | 0 <= k < |keys|
      ensures polys[k] != [] && Cong(keys[k], a * polys[k][0], n)
    {
      KeyOfTerm(a, betas[k], n, m);
    }
    KeysAgree(polys, keys, a, n, |keys|);
  }

  /** u is a unit modulo n^2 whose order divides 4 n m; ui is its inverse. */
  ghost predicate Unit(u: int, ui: int, n: int, m: int)
    requires 1 < n && 0 < m
  {
    0 < n * n && 0 < 4 * n * m && Inverse(u, ui, n * n) && Cong(Power(u, 4 * n * m), 1, n * n)
  }

  lemma UnitTimes(u: int, ui: int, v: int, vi: int, n: int, m: int)
    requires 1 < n && 0 < m && Unit(u, ui, n, m) && Unit(v, vi, n, m)
    ensures Unit(u * v, ui * vi, n, m)
  {
    hide Power, Cong;
    CongMul(u * ui, 1, v * vi, 1, n * n);
    Rearrange(u, v, ui, vi);
    PowerProduct(u, v, 4 * n * m);
    CongMul(Power(u, 4 * n * m), 1, Power(v, 4 * n * m), 1, n * n);
  }

  lemma {:induction false} UnitRaised(u: int, ui: int, e: nat, n: int, m: int)
    requires 1 < n && 0 < m && Unit(u, ui, n, m)
    ensures Unit(Power(u, e), Power(ui, e), n, m)
  {
    hide Unit;
    if e == 0 {
      UnitOne(u, ui, n, m);
    } else {
      UnitRaised(u, ui, e - 1, n, m);
      UnitTimes(u, ui, Power(u, e - 1), Power(ui, e - 1), n, m);
    }
  }

  lemma UnitOne(u: int, ui: int, n: int, m: int)
    requires 1 < n && 0 < m && Unit(u, ui, n, m)
    ensures Unit(1, 1, n, m)
  {
    hide Power;
    PowerOne(4 * n * m);
  }

  /** (1 + n)^M x^n has an inverse: that of (1 + n)^M is 1 - M n. */
  lemma CipherInverse(n: int, m: int, M: nat, x: int, y: int, c: int) returns (ci: int)
    requires 1 < n && 0 < m && Unit(x, y, n, m) && Cong(c, Power(1 + n, M) * Power(x, n), n * n)
    ensures Encrypted(n, m, M, x, y, c, ci)
  {
    hide Power, Cong;
    var q := n * n;
    ci := (1 - M * n) * Power(y, n);
    OnePlus(n, M);
    var u, v := Power(1 + n, M), 1 - M * n;
    CongSelf(v, q);
    CongMul(u, 1 + M * n, v, v, q);
    SquareVanishes(M, n);
    CongWitness((1 + M * n) * v, 1, q, -(M * M));
    CongTrans(u * v, (1 + M * n) * v, 1, q);
    PowerProduct(x, y, n);
    PowerCong(x * y, 1, n, q);
    PowerOne(n);
    CongMul(u * v, 1, Power(x, n) * Power(y, n), 1, q);
    Rearrange(u, Power(x, n), v, Power(y, n));
    CongSelf(ci, q);
    CongMul(c, u * Power(x, n), ci, ci, q);
    CongTrans(c * ci, (u * Power(x, n)) * (v * Power(y, n)), 1, q);
  }

  lemma SquareVanishes(M: int, n: int)
    ensures (1 + M * n) * (1 - M * n) == 1 + (n * n) * (-(M * M))
  {
    assert (1 + M * n) * (1 - M * n) == 1 - (M * n) * (M * n);
    assert (M * n) * (M * n) == (n * n) * (M * M);
  }

  /** The shares of all parties, and the coefficients of the recombination. */
  method Deal(polys: seq<seq<int>>, n: nat, m: nat) returns (shares: seq<nat>, lambdas: seq<int>)
    requires 1 < n && 0 < m && 0 < n * m && 0 < |polys| && PolysOk(polys, |polys|, m)
    ensures |shares| == |lambdas| == |polys| && Keyed(polys, n, m, shares)
    ensures forall k :: 0 <= k < |lambdas| ==> lambdas[k] == Lambda(|polys|, k + 1)
  {
    hide Cong, Lambda, Eval, SumPolys, PolysOk;
    shares, lambdas := [], [];
    for i := 0 to |polys|
      invariant |shares| == |lambdas| == i
      invariant forall k :: 0 <= k < i ==> Cong(shares[k], Eval(SumPolys(polys, |polys|), k + 1), n * m)
      invariant forall k :: 0 <= k < i ==> lambdas[k] == Lambda(|polys|, k + 1)
    {
      var share := SecretShare(polys, i + 1, n * m);
      var lambda := LagrangeBasis(i + 1, |polys|);
      LambdaIs(|polys|, i + 1, lambda);
      shares, lambdas := shares + [share], lambdas + [lambda];
    }
  }

  lemma LambdaIs(n: nat, j: nat, lambda: int)
    requires 1 <= j && lambda == Factorial(n) * Sign(j - 1) * Choose(n, j)
    ensures lambda == Lambda(n, j)
  {
  }

  /** An encryption, with what is known of it. */
  method EncryptUnit(n: nat, m: nat, a: nat, b: int, x: int, plain: nat, ghost bi: int, ghost xi: int)
      returns (c: int, ghost r: int, ghost ri: int, ghost ci: int)
    requires 1 < n && 0 < m && Unit(b, bi, n, m) && Unit(x, xi, n, m)
    ensures a * plain >= 0 && Encrypted(n, m, a * plain, r, ri, c, ci)
  {
    hide Power, Cong, Encrypted, Unit;
    c := Encrypt(n, a, b, plain, x);
    UnitRaised(b, bi, plain, n, m);
    UnitTimes(Power(b, plain), Power(bi, plain), x, xi, n, m);
    r, ri := Power(b, plain) * x, Power(bi, plain) * xi;
    ci := CipherInverse(n, m, a * plain, r, ri, c);
  }

  /** All parties deal out shares of their polynomials, one of them encrypts, each decrypts partially with its share,
      and
      the partial decryptions are combined: the plaintext divided by a comes out, for a = 1 the plaintext. */
  method Threshold(betas: seq<int>, tails: seq<seq<nat>>, n: nat, m: nat, a: nat, b: int, x: int, plain: nat,
                   ghost bi: int, ghost xi: int, ghost z: int) returns (result: int)
    requires 1 < n && 0 < m && 0 < |betas| == |tails| && (forall k :: 0 <= k < |tails| ==> |tails[k]| == |tails| - 1)
      && plain < n
    requires Unit(b, bi, n, m) && Unit(x, xi, n, m)
    requires var keys, delta := KeysOf(betas, a, n, m), Factorial(|betas|);
      Inverse(4 * (delta * delta * ((a * KeySum(keys, n, |keys|)) % n)), z, n)
    ensures 0 <= result < n && Cong(a * result, plain, n)
    ensures result == plain <==> Cong(a * plain, plain, n)
    ensures Cong(a, 1, n) ==> result == plain
  {
    hide Power, Cong, PartialDecrypt, Lambda, Encrypted, Eval, SumPolys, Factorial, Inverse, KeySum, Unit, Keyed,
      PolysOk;
    MulSign(n, m);
    var polys, keys := PolysOf(betas, tails, n, m), KeysOf(betas, a, n, m);
    PolysOfOk(betas, tails, n, m);
    KeysOfAgree(betas, tails, a, n, m);
    var shares, lambdas := Deal(polys, n, m);
    var c;
    ghost var r, ri, ci;
    c, r, ri, ci := EncryptUnit(n, m, a, b, x, plain, bi, xi);
    assert n * n > 0;
    var delta := Factorial(|betas|);
    var partials := seq(|betas|, i requires 0 <= i < |betas| => PartialDecrypt(c, delta, shares[i], n * n));
    result := Decrypt(partials, lambdas, keys, n, a, delta, polys, shares, m, plain, r, ri, c, ci, z);
    RightForOne(a, plain, n);
  }

  lemma RightForOne(a: nat, plain: nat, n: int)
    requires 1 < n && plain < n
    ensures Cong(a, 1, n) ==> Cong(a * plain, plain, n)
  {
    hide Cong;
    AllPlaintexts(a, n);
  }
}
