/** Where the words lie that recompose of gf2x-1.1/fft.c reads behind residues of a split transform: if there are any,
    one of them begins at a position at which split_reconstruct reads the smaller half - but for one exception. */
module StrayPositions {
  import opened Numbers
  import opened FftAlgebra

  /** The sizes of the smaller half: K blocks of M bits, residues of 2 (K/3) bits in w words, products of n bits that
      are
      put together from halves modulo x^n1 + 1 and x^n2 + 1. */
  ghost predicate Shape(K: nat, M: nat, w: nat, n1: nat, n2: nat, n: nat) {
    && IsPow3(K) && 243 <= K && 0 < M && 2 * (K / 3) <= 64 * w < 2 * (K / 3) + 64
    && n2 == K * M && n1 == n2 + K && n1 + 64 <= n <= 2 * n2 < n + 2 * K + 64
  }

  /** A block that begins at bit r of a word is read past its residue. */
  predicate TooFar(r: nat, K: nat, M: nat, w: nat) {
    r + 2 * (K / 3) > 64 * w + M
  }

  function Start(j: nat, M: nat): nat {
    NonNegative(j, M);
    j * M
  }

  // ---------------------------------------------------------------- powers of 3

  lemma {:induction false} PowerMod8(K: nat)
    requires IsPow3(K)
    ensures K % 8 == 1 || K % 8 == 3
  {
    if K > 1 {
      PowerMod8(K / 3);
      ThriceMod8(K, K / 3);
    }
  }

  lemma ThriceMod8(K: nat, t: nat)
    requires K == 3 * t && (t % 8 == 1 || t % 8 == 3)
    ensures K % 8 == 1 || K % 8 == 3
  {
  }

  /** What 64 w exceeds 2 (K/3) by. */
  lemma Excess(K: nat, w: nat)
    requires IsPow3(K) && 243 <= K && 2 * (K / 3) <= 64 * w < 2 * (K / 3) + 64
    ensures var d := 64 * w - 2 * (K / 3); (d == 62 || d == 58 || d <= 46) && (d == 58 ==> K % 64 == 9 || K % 64 == 41)
    ensures K % 3 == 0 && (K / 3) % 3 == 0 && (K % 64 == 9 ==> 64 * w == 2 * (K / 3) + 58)
  {
    hide IsPow3;
    PowerThirds(K);
    PowerMod8(K / 3);
    ExcessOfThird(K, K / 3, w);
  }

  lemma ExcessOfThird(K: nat, t: nat, w: nat)
    requires K == 3 * t && (t % 8 == 1 || t % 8 == 3) && 2 * t <= 64 * w < 2 * t + 64
    ensures var d := 64 * w - 2 * t; (d == 62 || d == 58 || d <= 46) && (d == 58 ==> K % 64 == 9 || K % 64 == 41)
    ensures K % 64 == 9 ==> 64 * w == 2 * t + 58
  {
    var q, y := t / 64, t % 64;
    InWord(t, q, y);
    ExcessOf(y, 64 * w - 2 * t, w - 2 * q);
    Thrice(K, q, y);
  }

  lemma InWord(t: nat, q: nat, y: nat)
    requires q == t / 64 && y == t % 64
    ensures t == 64 * q + y && y % 8 == t % 8
  {
    Multiple8(y, 8 * q);
  }

  lemma Multiple8(a: int, m: int)
    ensures (a + 8 * m) % 8 == a % 8
  {
  }

  lemma ExcessOf(y: nat, d: nat, m: int)
    requires y < 64 && (y % 8 == 1 || y % 8 == 3) && 64 * m == d + 2 * y && d < 64
    ensures d == 62 || d == 58 || d <= 46
    ensures d == 58 ==> y == 3 || y == 35
    ensures y == 3 ==> d == 58
  {
  }

  lemma Thrice(K: nat, q: nat, y: nat)
    requires K == 3 * (64 * q + y) && y < 64
    ensures (y == 3 ==> K % 64 == 9) && (y == 35 ==> K % 64 == 41) && (K % 64 == 9 ==> y == 3)
  {
  }

  lemma PowerThirds(K: nat)
    requires IsPow3(K) && 9 <= K
    ensures K % 3 == 0 && IsPow3(K / 3) && (K / 3) % 3 == 0
  {
  }

  // ---------------------------------------------------------------- blocks that begin at the same bit of a word

  lemma SameBit(i: int, j: int, M: int, P: int, k: int)
    requires i == j + P * k && (P * M) % 64 == 0
    ensures (i * M) % 64 == (j * M) % 64
  {
    var c := P * M / 64;
    assert P * M == 64 * c;
    Distributed(j, P * k, M);
    Exchanged(P, k, M);
    assert i * M == j * M + 64 * (c * k) by { Exchanged64(c, k); }
    Multiple64(j * M, c * k);
  }

  lemma Distributed(a: int, b: int, M: int)
    ensures (a + b) * M == a * M + b * M
  {
  }

  lemma Exchanged(P: int, k: int, M: int)
    ensures (P * k) * M == (P * M) * k
  {
  }

  lemma Exchanged64(c: int, k: int)
    ensures (64 * c) * k == 64 * (c * k)
  {
  }

  lemma Multiple64(a: int, m: int)
    ensures (a + 64 * m) % 64 == a % 64
  {
  }

  /** P blocks further on a block begins at the same bit; one of these lies in any P M consecutive bits. */
  lemma PeriodBlock(j: nat, M: nat, P: nat, s: nat, len: nat) returns (i: nat)
    requires 0 < M && 0 < P && (P * M) % 64 == 0 && P * M <= len
    ensures s <= Start(i, M) < s + len && Start(i, M) % 64 == Start(j, M) % 64
  {
    var q := (s + M - 1) / M;
    var k: int := (j - q) % P;
    i := q + k;
    var f := (j - q) / P;
    assert j - q == P * f + k;
    SameBit(i, j, M, P, -f);
    Distributed(q, k, M);
    RoundedUp(s, M, q);
    AtMost(k, P - 1, M);
    Distributed(P, -1, M);
    NonNegative(k, M);
  }

  lemma RoundedUp(s: nat, M: nat, q: nat)
    requires 0 < M && q == (s + M - 1) / M
    ensures s <= q * M < s + M
  {
    assert s + M - 1 == M * q + (s + M - 1) % M;
  }

  lemma AtMost(a: int, b: int, M: int)
    requires a <= b && 0 <= M
    ensures a * M <= b * M
  {
  }

  // ---------------------------------------------------------------- a block in the window

  /** Blocks of five and more bits: the window has 64 blocks. */
  lemma LongWindow(K: nat, M: nat, w: nat, n1: nat, n2: nat, n: nat)
    requires Shape(K, M, w, n1, n2, n) && 5 <= M <= 63
    ensures 64 * M <= n - n1
  {
    hide IsPow3;
    assert n - n1 > n2 - 3 * K - 64;
    Distributed(M, -3, K);
    assert n2 == M * K;
    AtLeast(M - 3, K, 243);
  }

  lemma AtLeast(a: int, K: int, k: int)
    requires 0 <= a && k <= K
    ensures a * k <= a * K
  {
  }

  /** The exception: the last bits of the words in the window are not the first of a block. */
  predicate NoTopBit(K: nat, M: nat, n1: nat, n: nat) {
    M == 3 && K % 64 == 9 && n == n1 + 92
  }

  lemma WindowSizes(K: nat, M: nat, w: nat, n1: nat, n2: nat, n: nat, r: nat)
    requires Shape(K, M, w, n1, n2, n) && TooFar(r, K, M, w) && r < 64
    ensures 2 <= M <= 63 && n1 + 64 <= n && 64 * w <= K
  {
    hide IsPow3;
    assert K * 1 == K;
  }

  lemma StrayFound(K: nat, M: nat, w: nat, n1: nat, n2: nat, n: nat, j0: nat) returns (j: nat)
    requires Shape(K, M, w, n1, n2, n) && TooFar(Start(j0, M) % 64, K, M, w) && n % 64 == 0 && !NoTopBit(K, M, n1, n)
    ensures TooFar(Start(j, M) % 64, K, M, w) && K <= 64 * w + Start(j, M) < K + n - n1
  {
    hide Shape, TooFar, Start;
    WindowSizes(K, M, w, n1, n2, n, Start(j0, M) % 64);
    var s := K - 64 * w;
    if 5 <= M {
      LongWindow(K, M, w, n1, n2, n);
      j := PeriodBlock(j0, M, 64, s, n - n1);
    } else if M == 4 {
      j := PeriodBlock(j0, 4, 16, s, n - n1);
    } else if M == 3 {
      j := OfThree(K, w, n1, n2, n, j0);
    } else {
      j := PeriodBlock(j0, 2, 32, s, n - n1);
    }
  }

  /** Blocks of three bits begin at each third position. */
  lemma OfThree(K: nat, w: nat, n1: nat, n2: nat, n: nat, j0: nat) returns (j: nat)
    requires Shape(K, 3, w, n1, n2, n) && TooFar(Start(j0, 3) % 64, K, 3, w) && n % 64 == 0 && !NoTopBit(K, 3, n1, n)
    ensures TooFar(Start(j, 3) % 64, K, 3, w) && K <= 64 * w + Start(j, 3) < K + n - n1
  {
    hide IsPow3;
    var d := 64 * w - 2 * (K / 3);
    Excess(K, w);
    WindowSizes(K, 3, w, n1, n2, n, Start(j0, 3) % 64);
    assert d < 60 && n1 == 4 * K;
    hide Shape, Start;
    var b: nat;
    if d <= 46 {
      b := TopOfWord(K, w);
    } else {
      b := if K % 64 == 41 then K + 22 else K + 118;
      WindowOf92(K, n1, n);
      FirstBits(K, K / 3, w);
    }
    j := ThirdAt(K, w, b);
  }

  lemma ThirdAt(K: nat, w: nat, b: nat) returns (j: nat)
    requires 64 * w <= b && (b - 64 * w) % 3 == 0 && b % 64 + 2 * (K / 3) > 64 * w + 3
    ensures 64 * w + Start(j, 3) == b && TooFar(Start(j, 3) % 64, K, 3, w)
  {
    j := (b - 64 * w) / 3;
    Multiple64(3 * j, w);
  }

  /** A position in the window where a block begins, near the end of a word. */
  lemma TopOfWord(K: nat, w: nat) returns (b: nat)
    requires 243 <= K && 64 * w < 2 * (K / 3) + 64
    ensures K <= b < K + 64 && b % 64 >= 50 && (b - 64 * w) % 3 == 0
  {
    var x := K % 64;
    var base := if x <= 61 then K + 61 - x else K + 114 - x;
    BaseOf(K, x, base);
    var k := (2 * (base - 64 * w)) % 3;
    b := base + k;
    NextMultiple(base - 64 * w, k);
    Within(base, k);
  }

  lemma BaseOf(K: nat, x: nat, base: nat)
    requires x == K % 64 && base == if x <= 61 then K + 61 - x else K + 114 - x
    ensures (base % 64 == 61 || base % 64 == 50) && K <= base <= K + 61
  {
  }

  lemma NextMultiple(e: int, k: nat)
    requires k == (2 * e) % 3
    ensures k < 3 && (e + k) % 3 == 0
  {
  }

  lemma Within(base: nat, k: nat)
    requires (base % 64 == 61 || base % 64 == 50) && k < 3
    ensures (base + k) % 64 >= 50
  {
  }

  lemma WindowOf92(K: nat, n1: nat, n: nat)
    requires n % 64 == 0 && n1 == 4 * K && n1 + 64 <= n && (K % 64 == 9 ==> n != n1 + 92)
    ensures K % 64 == 9 ==> n1 + 156 <= n
    ensures K % 64 == 41 ==> (K + 22) % 64 == 63
    ensures K % 64 == 9 ==> (K + 118) % 64 == 63
  {
  }

  lemma FirstBits(K: nat, t: nat, w: nat)
    requires K == 3 * t && t % 3 == 0 && 64 * w == 2 * t + 58
    ensures (K + 22 - 64 * w) % 3 == 0 && (K + 118 - 64 * w) % 3 == 0
  {
    assert K + 22 - 64 * w == t - 36;
    assert K + 118 - 64 * w == t + 60;
  }

  /** In the exceptional case no bit that is read too much is read again: the positions that are read are, modulo
      x^n2 + 1, those below 64 and those from K to K + 91. */
  lemma NothingRead(K: nat, w: nat, n1: nat, n2: nat, n: nat, j: nat, b: nat)
    requires Shape(K, 3, w, n1, n2, n) && NoTopBit(K, 3, n1, n) && TooFar(Start(j, 3) % 64, K, 3, w) && j < K
    requires 64 * w + Start(j, 3) <= b < 64 * (Start(j, 3) / 64 + w + 1)
    ensures !(K <= b < K + 92) && !(n2 <= b < n2 + 64) && 64 <= b < n2 + K
  {
    hide IsPow3;
    Excess(K, w);
    var S := 64 * w + 3 * j;
    Multiple64(3 * j, w);
    StartOfThree(S, K / 3, w, j);
    NotTop(K, S, b);
    LongEnough(K);
  }

  lemma LongEnough(K: nat)
    requires 243 <= K && K % 3 == 0 && K % 64 == 9
    ensures 373 <= K
  {
  }

  lemma StartOfThree(S: nat, t: nat, w: nat, j: nat)
    requires S == 64 * w + 3 * j && t % 3 == 0 && 64 * w == 2 * t + 58
    ensures S % 3 == 1
  {
    assert S == 3 * (2 * (t / 3) + 19 + j) + 1;
  }

  lemma NotTop(K: nat, S: nat, b: nat)
    requires K % 64 == 9 && K % 3 == 0 && S % 3 == 1 && S % 64 >= 62 && S <= b <= S + 63 - S % 64
    ensures !(K <= b < K + 92) && !(3 * K <= b < 3 * K + 64)
  {
    var q, k := K / 64, K / 3;
    assert K == 64 * q + 9 && K == 3 * k;
    NotTopOf(S, b, q, 9, 92, k);
    NotTopOf(S, b, 3 * q, 27, 64, 3 * k);
  }

  /** A range that begins at a multiple of 3 and at bit r of a word, and that contains only one pair of last bits. */
  lemma NotTopOf(S: nat, b: nat, q: nat, r: nat, len: nat, k: nat)
    requires S % 3 == 1 && S % 64 >= 62 && S <= b <= S + 63 - S % 64 && r + len < 126 && r < 62 && r % 3 == 0
      && 64 * q + r == 3 * k
    ensures !(64 * q + r <= b < 64 * q + r + len)
  {
    LastBits(S, b);
    TopOf(b, q, r, len);
    TopStarts(q, r, k);
    Multiple64(62, q);
    Multiple64(63, q);
  }

  lemma LastBits(S: nat, b: nat)
    requires S % 64 >= 62 && S <= b <= S + 63 - S % 64
    ensures b % 64 >= 62 && (S == b || (S % 64 == 62 && b == S + 1))
  {
  }

  lemma TopStarts(q: nat, r: nat, k: nat)
    requires r < 62 && r % 3 == 0 && 64 * q + r == 3 * k
    ensures (64 * q + 62) % 3 == 2 && (64 * q + 63) % 3 == 0
  {
    assert 64 * q + 62 == 3 * (k - r / 3 + 20) + 2;
  }

  lemma TopOf(b: nat, q: nat, r: nat, len: nat)
    requires b % 64 >= 62 && r + len < 126 && r < 62
    ensures 64 * q + r <= b < 64 * q + r + len ==> b == 64 * q + 62 || b == 64 * q + 63
  {
  }
}
