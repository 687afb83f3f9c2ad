/**
 * The integer helpers of aoc/src/lib.rs: the extended Euclidean algorithm,
 * the modular inverse, the Chinese remainder theorem, and prefix sums with
 * range queries over them. The generic `T: Signed` / `T: Num` of the source
 * is instantiated at unbounded `int`; Rust's truncating `/` and `%` are
 * written out with TruncDiv and TruncRem.
 */
module Numbers {
  import opened Wrappers
  import opened Geometry

  /** `d` divides `n` (every `d` divides 0, and 0 divides only 0). */
  ghost predicate Divides(d: int, n: int) {
    exists k :: n == d * k
  }

  lemma DividesBy(d: int, n: int, k: int)
    requires n == d * k
    ensures Divides(d, n)
  {
  }

  /** `d` divides a linear combination of two of its multiples. */
  lemma DividesCombination(d: int, a: int, b: int, u: int, v: int)
    requires Divides(d, a) && Divides(d, b)
    ensures Divides(d, a * u + b * v)
  {
    var ka :| a == d * ka;
    var kb :| b == d * kb;
    assert a * u + b * v == d * (ka * u + kb * v) by {
      assert a * u == d * (ka * u);
      assert b * v == d * (kb * v);
    }
  }

  /** One step of the Bezout bookkeeping in `egcd`: with b = a*q + rem, a solution for (rem, a) gives one for (a, b). */
  lemma BezoutStep(a: int, b: int, q: int, rem: int, x: int, y: int, g: int)
    requires b == a * q + rem
    requires rem * x + a * y == g
    ensures a * (y - q * x) + b * x == g
  {
    calc {
      a * (y - q * x) + b * x;
      a * y - a * q * x + (a * q + rem) * x;
      { assert (a * q + rem) * x == a * q * x + rem * x; }
      a * y + rem * x;
    }
  }

  /**
   * `egcd(a, b) = (g, x, y)` (lib.rs): recursion on (b % a, a) until the first
   * argument is zero. The result satisfies Bezout's identity a*x + b*y == g.
   */
  function Egcd(a: int, b: int): (r: (int, int, int))
    ensures a * r.1 + b * r.2 == r.0
    decreases Abs(a)
  {
    if a == 0 then (b, 0, 1)
    else
      TruncDivRem(b, a);
      var (g, x, y) := Egcd(TruncRem(b, a), a);
      BezoutStep(a, b, TruncDiv(b, a), TruncRem(b, a), x, y, g);
      (g, y - TruncDiv(b, a) * x, x)
  }

  /** The first component of `egcd` divides both arguments. */
  lemma {:induction false} EgcdDivides(a: int, b: int)
    ensures Divides(Egcd(a, b).0, a) && Divides(Egcd(a, b).0, b)
    decreases Abs(a)
  {
    var g := Egcd(a, b).0;
    if a == 0 {
      DividesBy(g, a, 0);
      DividesBy(g, b, 1);
    } else {
      TruncDivRem(b, a);
      var rem := TruncRem(b, a);
      EgcdDivides(rem, a);
      assert g == Egcd(rem, a).0;
      DividesCombination(g, a, rem, TruncDiv(b, a), 1);
      assert a * TruncDiv(b, a) + rem * 1 == b;
    }
  }

  /** Every common divisor of the arguments divides the first component of `egcd`: it is a greatest common divisor. */
  lemma EgcdGreatest(a: int, b: int, d: int)
    requires Divides(d, a) && Divides(d, b)
    ensures Divides(d, Egcd(a, b).0)
  {
    var r := Egcd(a, b);
    DividesCombination(d, a, b, r.1, r.2);
  }

  /** On non-negative arguments the gcd is non-negative, and zero only when both arguments are. */
  lemma {:induction false} EgcdNonNegative(a: int, b: int)
    requires a >= 0 && b >= 0
    ensures Egcd(a, b).0 >= 0
    ensures Egcd(a, b).0 == 0 <==> a == 0 && b == 0
    decreases a
  {
    if a != 0 {
      TruncDivRem(b, a);
      EgcdNonNegative(TruncRem(b, a), a);
    }
  }

  /** With a zero second argument `egcd` returns the first argument as the gcd. */
  lemma EgcdZeroRight(x: int)
    ensures Egcd(x, 0).0 == x
  {
    if x != 0 {
      assert TruncRem(0, x) == 0;
      assert Egcd(x, 0).0 == Egcd(0, x).0;
    }
  }

  /** A truncating remainder differs from the dividend by a multiple of the divisor. */
  lemma TruncRemCongruent(a: int, n: int)
    requires n != 0
    ensures Divides(n, a - TruncRem(a, n))
  {
    TruncDivRem(a, n);
    DividesBy(n, a - TruncRem(a, n), TruncDiv(a, n));
  }

  /**
   * `mod_inv(x, n)` (lib.rs): the inverse of `x` modulo `n` when `egcd` reports
   * gcd 1, normalised by `(s % n + n) % n`. The source panics (remainder by
   * zero) exactly when n == 0 and the gcd is 1, that is when x == 1.
   */
  function ModInv(x: int, n: int): (r: Option<int>)
    requires n != 0 || x != 1
    ensures r.Some? <==> Egcd(x, n).0 == 1
    ensures r.Some? ==> Divides(n, x * r.value - 1)
    ensures r.Some? && n > 0 ==> 0 <= r.value < n
    ensures r.Some? && n < 0 ==> n < r.value <= 0
  {
    var (g, s, t) := Egcd(x, n);
    if g == 1 then
      EgcdZeroRight(x);
      var r := TruncRem(TruncRem(s, n) + n, n);
      ModInvCorrect(x, n, s, t, r);
      Some(r)
    else
      None
  }

  /** The normalised Bezout coefficient is an inverse of `x` and lies between 0 and `n`. */
  lemma ModInvCorrect(x: int, n: int, s: int, t: int, r: int)
    requires n != 0
    requires x * s + n * t == 1
    requires r == TruncRem(TruncRem(s, n) + n, n)
    ensures Divides(n, x * r - 1)
    ensures n > 0 ==> 0 <= r < n
    ensures n < 0 ==> n < r <= 0
  {
    var s1 := TruncRem(s, n);
    TruncDivRem(s, n);
    TruncDivRem(s1 + n, n);
    var k1, k2 := TruncDiv(s, n), TruncDiv(s1 + n, n);
    TwoReductions(n, s, s1, r, k1, k2);
    ShiftedCongruent(x, n, s, t, r, 1 - k1 - k2);
  }

  /** Two reductions by `n` in a row shift the value by a multiple of `n`. */
  lemma TwoReductions(n: int, s: int, s1: int, r: int, k1: int, k2: int)
    requires s == n * k1 + s1 && s1 + n == n * k2 + r
    ensures r == s + n * (1 - k1 - k2)
  {
    assert n * (1 - k1 - k2) == n - n * k1 - n * k2;
  }

  /** If r = s + n*c then x*r - 1 is a multiple of n whenever x*s + n*t == 1. */
  lemma ShiftedCongruent(x: int, n: int, s: int, t: int, r: int, c: int)
    requires x * s + n * t == 1
    requires r == s + n * c
    ensures Divides(n, x * r - 1)
  {
    assert x * r == x * s + n * (x * c) by {
      assert x * (n * c) == n * (x * c);
    }
    assert x * r - 1 == n * (x * c - t);
    DividesBy(n, x * r - 1, x * c - t);
  }

  /** The product of all moduli, `modulii.iter().product()`. */
  function Product(ms: seq<int>): int {
    if |ms| == 0 then 1 else Product(ms[..|ms| - 1]) * ms[|ms| - 1]
  }

  /** A product is non-zero exactly when every factor is. */
  lemma {:induction false} ProductNonZero(ms: seq<int>)
    ensures Product(ms) != 0 <==> forall i :: 0 <= i < |ms| ==> ms[i] != 0
  {
    if |ms| > 0 {
      var init := ms[..|ms| - 1];
      ProductNonZero(init);
      assert forall i :: 0 <= i < |init| ==> init[i] == ms[i];
      assert Product(ms) == Product(init) * ms[|ms| - 1];
    }
  }

  /** How many of the first `n` moduli come before the first zero one (`n` when there is none). */
  function FirstZero(ms: seq<int>, n: nat): (k: nat)
    requires n <= |ms|
    ensures k <= n
    ensures forall i :: 0 <= i < k ==> ms[i] != 0
    ensures k < n ==> ms[k] == 0
  {
    if n == 0 then 0
    else
      var k := FirstZero(ms, n - 1);
      if k < n - 1 || ms[n - 1] == 0 then k else n
  }

  /**
   * The running sum of `chinese_remainder` after its first `n` (residue,
   * modulus) pairs, or None once some `mod_inv` has failed; it exists exactly
   * when every one of those partial products is invertible.
   */
  function CrtPartial(rs: seq<int>, ms: seq<int>, prod: int, n: nat): (r: Option<int>)
    requires n <= |rs| && n <= |ms|
    requires forall i :: 0 <= i < n ==> ms[i] != 0
    ensures r.Some? <==> forall i :: 0 <= i < n ==> Egcd(TruncDiv(prod, ms[i]), ms[i]).0 == 1
  {
    if n == 0 then Some(0)
    else
      match CrtPartial(rs, ms, prod, n - 1)
      case None => None
      case Some(sum) =>
        var p := TruncDiv(prod, ms[n - 1]);
        match ModInv(p, ms[n - 1])
        case None => None
        case Some(inv) => Some(sum + rs[n - 1] * inv * p)
  }

  /**
   * `chinese_remainder` panics: the loop gets through every pair before the
   * first zero modulus and then divides by it (`prod / modulus`), or it gets
   * through all pairs and the product is 0 (`sum % prod`).
   */
  predicate CrtPanics(rs: seq<int>, ms: seq<int>) {
    var k := FirstZero(ms, Min(|rs|, |ms|));
    CrtPartial(rs, ms, Product(ms), k).Some? && (k < Min(|rs|, |ms|) || Product(ms) == 0)
  }

  /**
   * What `chinese_remainder(residues, modulii)` returns when it does not
   * panic: pairs are zipped, so the shorter sequence decides how many are
   * used. A zero modulus anywhere never gives a result, and a result is
   * reduced below the product.
   */
  function Crt(rs: seq<int>, ms: seq<int>): (r: Option<int>)
    requires !CrtPanics(rs, ms)
    ensures r.Some? ==> forall i :: 0 <= i < |ms| ==> ms[i] != 0
    ensures r.Some? ==> Abs(r.value) < Abs(Product(ms))
  {
    match CrtPartial(rs, ms, Product(ms), FirstZero(ms, Min(|rs|, |ms|)))
    case None => None
    case Some(sum) =>
      ProductNonZero(ms);
      TruncDivRem(sum, Product(ms));
      Some(TruncRem(sum, Product(ms)))
  }

  /**
   * `chinese_remainder` (lib.rs): accumulates residue * inverse * partial
   * product over the zipped pairs, giving up with None at the first pair whose
   * partial product has no inverse, and reduces the sum modulo the product.
   */
  method ChineseRemainder(rs: seq<int>, ms: seq<int>) returns (r: Option<int>)
    requires !CrtPanics(rs, ms)
    ensures r == Crt(rs, ms)
  {
    var prod := Product(ms);
    ghost var k := FirstZero(ms, Min(|rs|, |ms|));
    var sum := 0;
    var i := 0;
    while i < |rs| && i < |ms|
      invariant 0 <= i <= Min(|rs|, |ms|)
      invariant forall j :: 0 <= j < i ==> ms[j] != 0
      invariant CrtPartial(rs, ms, prod, i) == Some(sum)
    {
      var p := TruncDiv(prod, ms[i]);
      var inv := ModInv(p, ms[i]);
      if inv.None? {
        return None;
      }
      sum := sum + rs[i] * inv.value * p;
      i := i + 1;
    }
    r := Some(TruncRem(sum, prod));
  }

  /**
   * With non-zero moduli `chinese_remainder` never panics, and it gives up
   * exactly when the partial product of some used pair is not invertible
   * modulo its modulus.
   */
  lemma CrtNone(rs: seq<int>, ms: seq<int>)
    requires forall i :: 0 <= i < |ms| ==> ms[i] != 0
    ensures !CrtPanics(rs, ms)
    ensures Crt(rs, ms).None? <==>
      exists i :: 0 <= i < Min(|rs|, |ms|) && Egcd(TruncDiv(Product(ms), ms[i]), ms[i]).0 != 1
  {
    ProductNonZero(ms);
    assert FirstZero(ms, Min(|rs|, |ms|)) == Min(|rs|, |ms|);
  }

  /** Zero has an inverse only modulo 1: `egcd(0, m)` reports `m`. */
  lemma ZeroInvertible(m: int)
    requires m != 0
    ensures Egcd(TruncDiv(0, m), m).0 == 1 <==> m == 1
  {
    assert TruncDiv(0, m) == 0;
  }

  /**
   * With a zero modulus somewhere the product is 0, every partial product is
   * 0, and `chinese_remainder` panics exactly when all moduli before the first
   * zero one are 1; otherwise it returns None.
   */
  lemma CrtZeroModulus(rs: seq<int>, ms: seq<int>, j: nat)
    requires j < |ms| && ms[j] == 0
    ensures CrtPanics(rs, ms) <==> forall i :: 0 <= i < FirstZero(ms, Min(|rs|, |ms|)) ==> ms[i] == 1
    ensures !CrtPanics(rs, ms) ==> Crt(rs, ms) == None
  {
    ProductNonZero(ms);
    forall i | 0 <= i < FirstZero(ms, Min(|rs|, |ms|))
      ensures Egcd(TruncDiv(Product(ms), ms[i]), ms[i]).0 == 1 <==> ms[i] == 1
    {
      ZeroInvertible(ms[i]);
    }
  }

  /** `chinese_remainder(&[1], &[3, 0])`: the product is 0, `mod_inv(0, 3)` fails, so None comes back before the zero modulus is reached. */
  lemma CrtZeroModulusExample()
    ensures !CrtPanics([1], [3, 0])
    ensures Crt([1], [3, 0]) == None
  {
    CrtZeroModulus([1], [3, 0], 1);
    assert FirstZero([3, 0], 1) == 1;
  }

  /** `chinese_remainder(&[1], &[0])` divides by the zero modulus, and `chinese_remainder(&[1], &[1, 0])` reduces modulo a zero product. */
  lemma CrtPanicExamples()
    ensures CrtPanics([1], [0])
    ensures CrtPanics([1], [1, 0])
  {
    CrtZeroModulus([1], [0], 0);
    CrtZeroModulus([1], [1, 0], 1);
    assert FirstZero([0], 1) == 0;
    assert FirstZero([1, 0], 1) == 1;
  }

  lemma ProductExample()
    ensures Product([3, 5, 7]) == 105
  {
    assert [3, 5, 7][..2] == [3, 5];
    assert [3, 5][..1] == [3];
    assert [3][..0] == [];
  }

  lemma ModInvExample3()
    ensures ModInv(35, 3) == Some(2)
  {
    assert TruncRem(3, 35) == 3 && TruncDiv(3, 35) == 0;
    assert TruncRem(35, 3) == 2 && TruncDiv(35, 3) == 11;
    assert TruncRem(3, 2) == 1 && TruncDiv(3, 2) == 1;
    assert TruncRem(2, 1) == 0 && TruncDiv(2, 1) == 2;
    assert Egcd(35, 3) == (1, -1, 12);
    assert TruncRem(-1, 3) == -1;
    assert TruncRem(2, 3) == 2;
  }

  lemma ModInvExample5()
    ensures ModInv(21, 5) == Some(1)
  {
    assert TruncRem(5, 21) == 5 && TruncDiv(5, 21) == 0;
    assert TruncRem(21, 5) == 1 && TruncDiv(21, 5) == 4;
    assert TruncRem(5, 1) == 0 && TruncDiv(5, 1) == 5;
    assert Egcd(21, 5) == (1, 1, -4);
    assert TruncRem(1, 5) == 1;
    assert TruncRem(6, 5) == 1;
  }

  lemma ModInvExample7()
    ensures ModInv(15, 7) == Some(1)
  {
    assert TruncRem(7, 15) == 7 && TruncDiv(7, 15) == 0;
    assert TruncRem(15, 7) == 1 && TruncDiv(15, 7) == 2;
    assert TruncRem(7, 1) == 0 && TruncDiv(7, 1) == 7;
    assert Egcd(15, 7) == (1, 1, -2);
    assert TruncRem(1, 7) == 1;
    assert TruncRem(8, 7) == 1;
  }

  lemma CrtExampleStep1()
    ensures CrtPartial([2, 3, 2], [3, 5, 7], 105, 1) == Some(140)
  {
    ModInvExample3();
    assert TruncDiv(105, 3) == 35;
  }

  lemma CrtExampleStep2()
    ensures CrtPartial([2, 3, 2], [3, 5, 7], 105, 2) == Some(203)
  {
    CrtExampleStep1();
    ModInvExample5();
    assert TruncDiv(105, 5) == 21;
    assert [3, 5, 7][1] == 5 && [2, 3, 2][1] == 3;
    assert 140 + 3 * 1 * 21 == 203;
  }

  lemma CrtExampleStep3()
    ensures CrtPartial([2, 3, 2], [3, 5, 7], 105, 3) == Some(233)
  {
    CrtExampleStep2();
    ModInvExample7();
    assert TruncDiv(105, 7) == 15;
    assert [3, 5, 7][2] == 7 && [2, 3, 2][2] == 2;
    assert 203 + 2 * 1 * 15 == 233;
  }

  /** The source's own example: 23 is 2 mod 3, 3 mod 5 and 2 mod 7. */
  lemma CrtExample()
    ensures !CrtPanics([2, 3, 2], [3, 5, 7])
    ensures Crt([2, 3, 2], [3, 5, 7]) == Some(23)
  {
    ProductExample();
    assert FirstZero([3, 5, 7], 3) == 3;
    CrtExampleStep3();
    assert Min(|[2, 3, 2]|, |[3, 5, 7]|) == 3;
    assert CrtPartial([2, 3, 2], [3, 5, 7], Product([3, 5, 7]), 3) == Some(233);
    assert TruncRem(233, 105) == 23;
  }

  /** `a` and `b` are coprime: some integer combination of them is 1. */
  ghost predicate Coprime(a: int, b: int) {
    exists u, v :: a * u + b * v == 1
  }

  /** The moduli are positive and pairwise coprime: the setting of the Chinese remainder theorem. */
  ghost predicate CrtModuli(ms: seq<int>) {
    (forall i :: 0 <= i < |ms| ==> ms[i] > 0) &&
    (forall i, j :: 0 <= i < |ms| && 0 <= j < |ms| && i != j ==> Coprime(ms[i], ms[j]))
  }

  /** All moduli but the one at index `i`. */
  function Others(ms: seq<int>, i: nat): seq<int>
    requires i < |ms|
  {
    ms[..i] + ms[i + 1..]
  }

  lemma {:induction false} ProductPositive(ms: seq<int>)
    requires forall i :: 0 <= i < |ms| ==> ms[i] > 0
    ensures Product(ms) > 0
  {
    if |ms| > 0 {
      ProductPositive(ms[..|ms| - 1]);
      MulPositive(Product(ms[..|ms| - 1]), ms[|ms| - 1]);
    }
  }

  lemma MulPositive(a: int, b: int)
    requires a > 0 && b > 0
    ensures a * b > 0
  {
  }

  lemma {:induction false} ProductAppend(a: seq<int>, b: seq<int>)
    ensures Product(a + b) == Product(a) * Product(b)
    decreases |b|
  {
    if |b| == 0 {
      assert a + b == a;
    } else {
      var bi := b[..|b| - 1];
      assert (a + b)[..|a + b| - 1] == a + bi;
      ProductAppend(a, bi);
      assert Product(a + b) == Product(a) * Product(bi) * b[|b| - 1];
    }
  }

  /** The product is the factor at `i` times the product of the others. */
  lemma ProductSplit(ms: seq<int>, i: nat)
    requires i < |ms|
    ensures Product(ms) == ms[i] * Product(Others(ms, i))
  {
    var pre, x, post := ms[..i], ms[i], ms[i + 1..];
    assert ms == pre + ([x] + post);
    ProductAppend(pre, [x] + post);
    ProductAppend([x], post);
    ProductSingleton(x);
    ProductAppend(pre, post);
    MulSwap(Product(pre), x, Product(post));
  }

  lemma ProductSingleton(x: int)
    ensures Product([x]) == x
  {
    assert [x][..0] == [];
  }

  lemma MulSwap(a: int, b: int, c: int)
    ensures a * (b * c) == b * (a * c)
  {
  }

  lemma ProductHasFactor(ms: seq<int>, i: nat)
    requires i < |ms|
    ensures Divides(ms[i], Product(ms))
  {
    ProductSplit(ms, i);
    DividesBy(ms[i], Product(ms), Product(Others(ms, i)));
  }

  /** Multiplying by a positive `m` keeps a non-zero factor at least `m` away from 0. */
  lemma MulMonotone(m: int, k: int)
    requires m > 0
    ensures k >= 1 ==> m * k >= m
    ensures k <= -1 ==> m * k <= -m
  {
    if k >= 1 {
      assert m * k == m + m * (k - 1);
    } else if k <= -1 {
      assert m * k == -m + m * (k + 1);
    }
  }

  /** Dividing an exact multiple by a positive divisor gives back the factor. */
  lemma TruncDivExact(m: int, q: int)
    requires m > 0 && q >= 0
    ensures TruncDiv(m * q, m) == q
  {
    assert m * q >= 0;
    TruncDivRem(m * q, m);
    var d := TruncDiv(m * q, m);
    assert m * (q - d) == m * q - m * d;
    MulMonotone(m, q - d);
  }

  lemma CoprimeMul(x: int, y: int, m: int)
    requires Coprime(x, m) && Coprime(y, m)
    ensures Coprime(x * y, m)
  {
    var u1, v1 :| x * u1 + m * v1 == 1;
    var u2, v2 :| y * u2 + m * v2 == 1;
    // (x*u1) * (y*u2) == (1 - m*v1) * (1 - m*v2)
    var u, v := u1 * u2, v1 + v2 - m * v1 * v2;
    assert (x * u1) * (y * u2) == (1 - m * v1) * (1 - m * v2);
    assert (x * y) * u == (x * u1) * (y * u2);
    assert (1 - m * v1) * (1 - m * v2) == 1 - m * v;
  }

  lemma {:induction false} CoprimeProduct(a: seq<int>, m: int)
    requires forall k :: 0 <= k < |a| ==> Coprime(a[k], m)
    ensures Coprime(Product(a), m)
  {
    if |a| == 0 {
      assert 1 * 1 + m * 0 == 1;
    } else {
      CoprimeProduct(a[..|a| - 1], m);
      CoprimeMul(Product(a[..|a| - 1]), a[|a| - 1], m);
    }
  }

  /** A non-negative divisor of 1 is 1. */
  lemma DividesOne(g: int)
    requires g >= 0 && Divides(g, 1)
    ensures g == 1
  {
    var k :| 1 == g * k;
  }

  /** For positive coprime arguments `egcd` reports gcd 1. */
  lemma CoprimeEgcd(a: int, m: int)
    requires a > 0 && m > 0 && Coprime(a, m)
    ensures Egcd(a, m).0 == 1
  {
    var g := Egcd(a, m).0;
    EgcdNonNegative(a, m);
    EgcdDivides(a, m);
    var u, v :| a * u + m * v == 1;
    DividesCombination(g, a, m, u, v);
    DividesOne(g);
  }

  /** The partial product `prod / m_j` of `chinese_remainder` is coprime to `m_j` and has an inverse modulo it. */
  lemma PartialProductInvertible(ms: seq<int>, j: nat)
    requires CrtModuli(ms) && j < |ms|
    ensures TruncDiv(Product(ms), ms[j]) == Product(Others(ms, j))
    ensures ModInv(Product(Others(ms, j)), ms[j]).Some?
  {
    var o := Others(ms, j);
    forall k | 0 <= k < |o| ensures o[k] > 0 && Coprime(o[k], ms[j]) {
      if k < j {
        assert o[k] == ms[k];
      } else {
        assert o[k] == ms[k + 1];
      }
    }
    ProductPositive(o);
    ProductSplit(ms, j);
    TruncDivExact(ms[j], Product(o));
    CoprimeProduct(o, ms[j]);
    CoprimeEgcd(Product(o), ms[j]);
  }

  /** Every other modulus divides the partial product that leaves out `m_j`. */
  lemma OtherModulusDivides(ms: seq<int>, i: nat, j: nat)
    requires i < |ms| && j < |ms| && i != j
    ensures Divides(ms[i], Product(Others(ms, j)))
  {
    var o := Others(ms, j);
    if i < j {
      assert o[i] == ms[i];
      ProductHasFactor(o, i);
    } else {
      assert o[i - 1] == ms[i];
      ProductHasFactor(o, i - 1);
    }
  }

  /** One step of `chinese_remainder`'s accumulation, under the theorem's assumptions. */
  lemma CrtPartialStep(rs: seq<int>, ms: seq<int>, n: nat)
    requires CrtModuli(ms) && |rs| == |ms|
    requires 0 < n <= |ms|
    requires CrtPartial(rs, ms, Product(ms), n - 1).Some?
    ensures ModInv(Product(Others(ms, n - 1)), ms[n - 1]).Some?
    ensures CrtPartial(rs, ms, Product(ms), n) ==
      Some(CrtPartial(rs, ms, Product(ms), n - 1).value
           + rs[n - 1] * ModInv(Product(Others(ms, n - 1)), ms[n - 1]).value * Product(Others(ms, n - 1)))
  {
    PartialProductInvertible(ms, n - 1);
  }

  /** Adding the term of pair `j` keeps the running sum congruent to the residues added so far, modulo `m_i`. */
  lemma CongruenceStep(m: int, sum: int, before: int, r: int, inv: int, q: int, same: bool)
    requires Divides(m, sum - before)
    requires same ==> Divides(m, q * inv - 1)
    requires !same ==> Divides(m, q)
    ensures Divides(m, sum + r * inv * q - (if same then before + r else before))
  {
    if same {
      assert r * inv * q - r == (q * inv - 1) * r;
      DividesCombination(m, sum - before, q * inv - 1, 1, r);
    } else {
      assert r * inv * q == q * (r * inv);
      DividesCombination(m, sum - before, q, 1, r * inv);
    }
  }

  lemma TermNonNegative(r: int, inv: int, q: int)
    requires r >= 0 && inv >= 0 && q > 0
    ensures r * inv * q >= 0
  {
  }

  /** Under the theorem's assumptions no `mod_inv` fails, and non-negative residues give a non-negative sum. */
  lemma {:induction false} CrtPartialSome(rs: seq<int>, ms: seq<int>, n: nat)
    requires CrtModuli(ms) && |rs| == |ms| && n <= |ms|
    ensures CrtPartial(rs, ms, Product(ms), n).Some?
    ensures (forall k :: 0 <= k < |rs| ==> rs[k] >= 0) ==> CrtPartial(rs, ms, Product(ms), n).value >= 0
  {
    if n > 0 {
      CrtPartialSome(rs, ms, n - 1);
      CrtPartialStep(rs, ms, n);
      if forall k :: 0 <= k < |rs| ==> rs[k] >= 0 {
        var q := Product(Others(ms, n - 1));
        ProductPositive(Others(ms, n - 1));
        TermNonNegative(rs[n - 1], ModInv(q, ms[n - 1]).value, q);
      }
    }
  }

  /**
   * After the first `n` pairs, modulo `m_i` the running sum is already `r_i`
   * once pair `i` has been added, and 0 before.
   */
  lemma {:induction false} CrtPartialCongruent(rs: seq<int>, ms: seq<int>, i: nat, n: nat)
    requires CrtModuli(ms) && |rs| == |ms|
    requires i < |ms| && n <= |ms|
    requires CrtPartial(rs, ms, Product(ms), n).Some?
    ensures Divides(ms[i], CrtPartial(rs, ms, Product(ms), n).value - (if i < n then rs[i] else 0))
  {
    if n == 0 {
      DividesBy(ms[i], 0, 0);
    } else {
      var j := n - 1;
      CrtPartialSome(rs, ms, j);
      CrtPartialCongruent(rs, ms, i, j);
      CrtPartialStep(rs, ms, n);
      var q := Product(Others(ms, j));
      if i != j {
        OtherModulusDivides(ms, i, j);
      }
      CongruenceStep(ms[i], CrtPartial(rs, ms, Product(ms), j).value, if i < j then rs[i] else 0,
                     rs[j], ModInv(q, ms[j]).value, q, i == j);
    }
  }

  /**
   * The Chinese remainder theorem for `chinese_remainder`: for positive,
   * pairwise coprime moduli and as many residues, the result exists and is
   * congruent to every residue modulo its modulus; for non-negative residues
   * it is the least such number, in [0, product).
   */
  lemma CrtCorrect(rs: seq<int>, ms: seq<int>)
    requires CrtModuli(ms) && |rs| == |ms|
    ensures !CrtPanics(rs, ms)
    ensures Crt(rs, ms).Some?
    ensures forall i :: 0 <= i < |ms| ==> Divides(ms[i], Crt(rs, ms).value - rs[i])
    ensures (forall k :: 0 <= k < |rs| ==> rs[k] >= 0) ==> 0 <= Crt(rs, ms).value < Product(ms)
  {
    var prod := Product(ms);
    ProductPositive(ms);
    assert FirstZero(ms, |ms|) == |ms|;
    CrtPartialSome(rs, ms, |ms|);
    var sum := CrtPartial(rs, ms, prod, |ms|).value;
    assert Crt(rs, ms) == Some(TruncRem(sum, prod)) by {
      assert Min(|rs|, |ms|) == |ms|;
    }
    forall i | 0 <= i < |ms| ensures Divides(ms[i], TruncRem(sum, prod) - rs[i]) {
      CrtPartialCongruent(rs, ms, i, |ms|);
      ProductHasFactor(ms, i);
      ReduceKeepsCongruence(ms[i], sum, rs[i], prod);
    }
    TruncDivRem(sum, prod);
  }

  /** Reducing modulo a multiple of `m` keeps a number's residue modulo `m`. */
  lemma ReduceKeepsCongruence(m: int, sum: int, r: int, prod: int)
    requires prod != 0
    requires Divides(m, sum - r) && Divides(m, prod)
    ensures Divides(m, TruncRem(sum, prod) - r)
  {
    TruncDivRem(sum, prod);
    DividesCombination(m, sum - r, prod, 1, -TruncDiv(sum, prod));
  }

  /** Head-first sum of a sequence. */
  function Sum(s: seq<int>): int {
    if |s| == 0 then 0 else s[0] + Sum(s[1..])
  }

  /** The sum of a concatenation is the sum of the parts. */
  lemma {:induction false} SumAppend(a: seq<int>, b: seq<int>)
    ensures Sum(a + b) == Sum(a) + Sum(b)
  {
    if |a| == 0 {
      assert a + b == b;
    } else {
      assert (a + b)[1..] == a[1..] + b;
      SumAppend(a[1..], b);
    }
  }

  /** The running totals of `scan` starting from `state`. */
  function Scan(state: int, a: seq<int>): (r: seq<int>)
    ensures |r| == |a|
    decreases |a|
  {
    if |a| == 0 then [] else [state + a[0]] + Scan(state + a[0], a[1..])
  }

  lemma {:induction false} ScanIsPrefixSum(state: int, a: seq<int>, i: nat)
    requires i < |a|
    ensures Scan(state, a)[i] == state + Sum(a[..i + 1])
    decreases i
  {
    if i > 0 {
      ScanIsPrefixSum(state + a[0], a[1..], i - 1);
      assert a[..i + 1][1..] == a[1..][..i];
    } else {
      assert a[..1][1..] == [];
    }
  }

  /** `cum_sum(a)` (lib.rs): element i is the sum of a[0..=i]. */
  function CumSum(a: seq<int>): (r: seq<int>)
    ensures |r| == |a|
    ensures forall i :: 0 <= i < |a| ==> r[i] == Sum(a[..i + 1])
  {
    var r := Scan(0, a);
    forall i | 0 <= i < |a| ensures r[i] == Sum(a[..i + 1]) {
      ScanIsPrefixSum(0, a, i);
    }
    r
  }

  /** `range_sum_inclusive(cum_sum, a, b)` (lib.rs); indexing past the end panics in the source. */
  function RangeSumInclusive(cs: seq<int>, a: nat, b: nat): (r: int)
    requires b < a || b < |cs|
    ensures b < a ==> r == 0
    ensures a <= b ==> r == cs[b] - (if a == 0 then 0 else cs[a - 1])
  {
    if b < a then 0
    else if a == 0 then cs[b]
    else cs[b] - cs[a - 1]
  }

  /** `range_sum(cum_sum, a, b)` (lib.rs): the half-open range [a, b). */
  function RangeSum(cs: seq<int>, a: nat, b: nat): (r: int)
    requires b == 0 || b - 1 < a || b - 1 < |cs|
    ensures b <= a ==> r == 0
    ensures a < b ==> r == RangeSumInclusive(cs, a, b - 1)
  {
    if b > 0 then RangeSumInclusive(cs, a, b - 1) else 0
  }

  /** On prefix sums, the inclusive range query is the sum of v[a..=b]. */
  lemma RangeSumInclusiveIsSum(v: seq<int>, a: nat, b: nat)
    requires b < a || b < |v|
    ensures RangeSumInclusive(CumSum(v), a, b) == if b < a then 0 else Sum(v[a..b + 1])
  {
    if a <= b {
      if a == 0 {
        assert v[..b + 1] == v[0..b + 1];
      } else {
        assert v[..b + 1] == v[..a] + v[a..b + 1];
        SumAppend(v[..a], v[a..b + 1]);
        assert v[..a - 1 + 1] == v[..a];
      }
    }
  }

  /** On prefix sums, the half-open range query is the sum of v[a..b]. */
  lemma RangeSumIsSum(v: seq<int>, a: nat, b: nat)
    requires b <= |v|
    ensures RangeSum(CumSum(v), a, b) == if b <= a then 0 else Sum(v[a..b])
  {
    if b > 0 {
      RangeSumInclusiveIsSum(v, a, b - 1);
    }
  }
}
