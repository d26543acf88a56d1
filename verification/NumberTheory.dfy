/** Congruences, Euclid's lemma, Fermat's little theorem and Chinese remainder uniqueness. */
module NumberTheory {

  ghost predicate Prime(p: int) {
    p >= 2 && forall m :: 2 <= m < p ==> p % m != 0
  }

  function Pow(b: int, e: nat): int {
    if e == 0 then 1 else b * Pow(b, e - 1)
  }

  // ------------------------------------------------------------ congruences

  ghost predicate Divides(m: int, x: int) {
    exists k :: x == k * m
  }

  /** `a` and `b` leave the same remainder on division by `m`. */
  ghost predicate Cong(a: int, b: int, m: int) {
    Divides(m, a - b)
  }

  lemma DividesMod(m: int, x: int)
    requires m > 0
    ensures Divides(m, x) <==> x % m == 0
  {
    if Divides(m, x) {
      var k :| x == k * m;
      ModUnique(x, k, 0, m);
    }
    if x % m == 0 {
      assert x == (x / m) * m;
    }
  }

  lemma NonnegativeProduct(a: nat, b: nat)
    ensures a * b >= 0
  {
  }

  lemma NonzeroMultiple(k: int, m: int)
    requires m > 0
    ensures k == 0 || k * m >= m || k * m <= -m
  {
    if k > 0 {
      NonnegativeProduct(k - 1, m);
      assert k * m == (k - 1) * m + m;
    } else if k < 0 {
      NonnegativeProduct(-k - 1, m);
      assert -(k * m) == (-k - 1) * m + m;
    }
  }

  lemma ModUnique(a: int, q: int, r: int, m: int)
    requires m > 0 && a == q * m + r && 0 <= r < m
    ensures a % m == r && a / m == q
  {
    var d := q - a / m;
    assert d * m == a % m - r by {
      assert d * m == q * m - (a / m) * m;
    }
    NonzeroMultiple(d, m);
  }

  /** A number below `m` in size that `m` divides is zero. */
  lemma SmallMultiple(m: int, x: int)
    requires m > 0 && Divides(m, x) && -m < x < m
    ensures x == 0
  {
    var k :| x == k * m;
    NonzeroMultiple(k, m);
  }

  lemma CongMod(a: int, m: int)
    requires m > 0
    ensures Cong(a, a % m, m)
  {
    assert a - a % m == (a / m) * m;
  }

  lemma CongToMod(a: int, b: int, m: int)
    requires m > 0 && Cong(a, b, m)
    ensures a % m == b % m
  {
    var k :| a - b == k * m;
    assert a == (k + b / m) * m + b % m by {
      assert (k + b / m) * m == k * m + (b / m) * m;
    }
    ModUnique(a, k + b / m, b % m, m);
  }

  lemma ModToCong(a: int, b: int, m: int)
    requires m > 0 && a % m == b % m
    ensures Cong(a, b, m)
  {
    assert a - b == (a / m) * m - (b / m) * m == (a / m - b / m) * m;
  }

  lemma CongSym(a: int, b: int, m: int)
    requires Cong(a, b, m)
    ensures Cong(b, a, m)
  {
    var k :| a - b == k * m;
    assert b - a == (-k) * m;
  }

  lemma CongTrans(a: int, b: int, c: int, m: int)
    requires Cong(a, b, m) && Cong(b, c, m)
    ensures Cong(a, c, m)
  {
    var k :| a - b == k * m;
    var l :| b - c == l * m;
    assert a - c == (k + l) * m;
  }

  lemma CongAdd(a: int, b: int, c: int, d: int, m: int)
    requires Cong(a, b, m) && Cong(c, d, m)
    ensures Cong(a + c, b + d, m)
  {
    var k :| a - b == k * m;
    var l :| c - d == l * m;
    assert (a + c) - (b + d) == (k + l) * m;
  }

  lemma CongMul(a: int, b: int, c: int, d: int, m: int)
    requires Cong(a, b, m) && Cong(c, d, m)
    ensures Cong(a * c, b * d, m)
  {
    var k :| a - b == k * m;
    var l :| c - d == l * m;
    assert a * c - b * d == (a - b) * c + b * (c - d);
    assert (a - b) * c == (k * c) * m;
    assert b * (c - d) == (b * l) * m;
    assert a * c - b * d == (k * c + b * l) * m;
  }

  lemma CongRefl(a: int, m: int)
    ensures Cong(a, a, m)
  {
    assert a - a == 0 * m;
  }

  lemma {:induction false} CongPow(a: int, b: int, e: nat, m: int)
    requires Cong(a, b, m)
    ensures Cong(Pow(a, e), Pow(b, e), m)
  {
    if e == 0 {
      CongRefl(1, m);
    } else {
      CongPow(a, b, e - 1, m);
      CongMul(a, b, Pow(a, e - 1), Pow(b, e - 1), m);
    }
  }

  // ------------------------------------------------------------ powers

  lemma {:induction false} PowAdd(b: int, x: nat, y: nat)
    ensures Pow(b, x + y) == Pow(b, x) * Pow(b, y)
  {
    if x > 0 {
      PowAdd(b, x - 1, y);
      assert Pow(b, x + y) == b * Pow(b, x - 1 + y);
      assert b * (Pow(b, x - 1) * Pow(b, y)) == (b * Pow(b, x - 1)) * Pow(b, y);
    }
  }

  lemma {:induction false} PowMul(b: int, x: nat, y: nat)
    ensures x * y >= 0 && Pow(b, x * y) == Pow(Pow(b, x), y)
  {
    if y > 0 {
      PowMul(b, x, y - 1);
      assert x * y == x + x * (y - 1);
      PowAdd(b, x, x * (y - 1));
    } else {
      assert x * y == 0;
    }
  }

  lemma {:induction false} PowOne(e: nat)
    ensures Pow(1, e) == 1
  {
    if e > 0 {
      PowOne(e - 1);
    }
  }

  // ------------------------------------------------------------ Euclid's lemma

  lemma {:induction false} EuclidSmall(p: int, a: int, b: int)
    requires Prime(p) && 0 < a < p && Divides(p, a * b)
    ensures Divides(p, b)
    decreases a
  {
    if a > 1 {
      var q, r := p / a, p % a;
      assert p == q * a + r;
      var k :| a * b == k * p;
      assert r * b == p * b - q * (a * b) by {
        assert r == p - q * a;
        assert (p - q * a) * b == p * b - (q * a) * b;
      }
      assert r * b == (b - q * k) * p by {
        assert q * (k * p) == (q * k) * p;
      }
      EuclidSmall(p, r, b);
    }
  }

  /** A prime that divides a product divides one of the factors. */
  lemma Euclid(p: int, a: int, b: int)
    requires Prime(p) && Divides(p, a * b) && !Divides(p, a)
    ensures Divides(p, b)
  {
    var r := a % p;
    DividesMod(p, a);
    var k :| a * b == k * p;
    assert r * b == (k - (a / p) * b) * p by {
      assert r == a - (a / p) * p;
      assert (a - (a / p) * p) * b == a * b - ((a / p) * b) * p;
    }
    EuclidSmall(p, r, b);
  }

  lemma CongCancel(p: int, c: int, a: int, b: int)
    requires Prime(p) && !Divides(p, c) && Cong(c * a, c * b, p)
    ensures Cong(a, b, p)
  {
    assert c * a - c * b == c * (a - b);
    Euclid(p, c, a - b);
  }

  // ------------------------------------------------------------ Fermat's little theorem

  function Factorial(n: nat): nat {
    if n == 0 then 1 else Factorial(n - 1) * n
  }

  /** Product of the members of `s` among 1..n. */
  function ProductUpTo(s: set<int>, n: nat): int {
    if n == 0 then 1 else ProductUpTo(s, n - 1) * (if n in s then n else 1)
  }

  function Range(n: nat): (s: set<int>)
    ensures forall x :: x in s <==> 1 <= x <= n
  {
    if n == 0 then {} else Range(n - 1) + {n}
  }

  lemma SwapFactors(a: int, b: int, c: int)
    ensures (a * b) * c == (a * c) * b
  {
  }

  lemma {:induction false} ProductInsert(s: set<int>, x: int, n: nat)
    requires x !in s && 1 <= x <= n
    ensures ProductUpTo(s + {x}, n) == ProductUpTo(s, n) * x
  {
    if x == n {
      ProductIgnoresAbove(s, x, n - 1);
      assert ProductUpTo(s, n) == ProductUpTo(s, n - 1);
    } else {
      ProductInsert(s, x, n - 1);
      var f := if n in s then n else 1;
      SwapFactors(ProductUpTo(s, n - 1), x, f);
    }
  }

  lemma {:induction false} ProductIgnoresAbove(s: set<int>, x: int, n: nat)
    requires x > n
    ensures ProductUpTo(s + {x}, n) == ProductUpTo(s, n)
  {
    if n > 0 {
      ProductIgnoresAbove(s, x, n - 1);
    }
  }

  lemma {:induction false} ProductFull(n: nat, m: nat)
    requires n <= m
    ensures ProductUpTo(Range(m), n) == Factorial(n)
  {
    if n > 0 {
      ProductFull(n - 1, m);
    }
  }

  lemma {:induction false} RangeSize(n: nat)
    ensures |Range(n)| == n
  {
    if n > 0 {
      RangeSize(n - 1);
    }
  }

  /** Residues of a, 2a, ..., ja. */
  function Multiples(a: int, j: nat, p: int): set<int>
    requires p > 0
  {
    if j == 0 then {} else Multiples(a, j - 1, p) + {(a * j) % p}
  }

  lemma {:induction false} MultiplesMember(a: int, j: nat, p: int, x: int) returns (i: int)
    requires p > 0 && x in Multiples(a, j, p)
    ensures 1 <= i <= j && x == (a * i) % p
  {
    if x == (a * j) % p {
      i := j;
    } else {
      i := MultiplesMember(a, j - 1, p, x);
    }
  }

  lemma NextMultipleIsNew(a: int, j: nat, p: int)
    requires Prime(p) && !Divides(p, a) && 1 <= j < p
    ensures (a * j) % p !in Multiples(a, j - 1, p)
    ensures 1 <= (a * j) % p < p
  {
    if (a * j) % p in Multiples(a, j - 1, p) {
      var i := MultiplesMember(a, j - 1, p, (a * j) % p);
      ModToCong(a * j, a * i, p);
      CongCancel(p, a, j, i);
      SmallMultiple(p, j - i);
    }
    if (a * j) % p == 0 {
      DividesMod(p, a * j);
      Euclid(p, a, j);
      SmallMultiple(p, j);
    }
  }

  lemma PairFactors(a: int, b: int, c: int, d: int)
    ensures (a * b) * (c * d) == (c * a) * (b * d)
  {
    assert (a * b) * (c * d) == a * (b * (c * d)) == a * (c * (b * d)) == (a * c) * (b * d);
  }

  lemma OneMoreMultiple(s: set<int>, product: int, a: int, j: nat, p: int)
    requires p > 1 && j > 0
    requires (a * j) % p !in s && 1 <= (a * j) % p < p
    requires Cong(ProductUpTo(s, p - 1), product, p)
    ensures Cong(ProductUpTo(s + {(a * j) % p}, p - 1), product * (a * j), p)
  {
    hide Cong, ProductUpTo;
    var x := (a * j) % p;
    ProductInsert(s, x, p - 1);
    CongMod(a * j, p);
    CongSym(a * j, x, p);
    CongMul(ProductUpTo(s, p - 1), product, x, a * j, p);
  }

  lemma OneMore(s: set<int>, x: int, n: nat, j: nat)
    requires s <= Range(n) && |s| == j && x !in s && 1 <= x <= n
    ensures s + {x} <= Range(n) && |s + {x}| == j + 1
  {
  }

  lemma {:induction false} MultiplesProduct(a: int, j: nat, p: int)
    requires Prime(p) && !Divides(p, a) && j < p
    ensures Multiples(a, j, p) <= Range(p - 1) && |Multiples(a, j, p)| == j
    ensures Cong(ProductUpTo(Multiples(a, j, p), p - 1), Pow(a, j) * Factorial(j), p)
  {
    hide Prime, Divides, Cong, Range, ProductUpTo;
    if j == 0 {
      EmptyProduct(p - 1);
      CongRefl(1, p);
    } else {
      var s, x := Multiples(a, j - 1, p), (a * j) % p;
      MultiplesProduct(a, j - 1, p);
      NextMultipleIsNew(a, j, p);
      OneMoreMultiple(s, Pow(a, j - 1) * Factorial(j - 1), a, j, p);
      OneMore(s, x, p - 1, j - 1);
      PairFactors(Pow(a, j - 1), Factorial(j - 1), a, j);
    }
  }

  lemma {:induction false} EmptyProduct(n: nat)
    ensures ProductUpTo({}, n) == 1
  {
    if n > 0 {
      EmptyProduct(n - 1);
    }
  }

  lemma {:induction false} FactorialNotDivisible(p: int, n: nat)
    requires Prime(p) && n < p
    ensures !Divides(p, Factorial(n))
  {
    if n == 0 {
      if Divides(p, 1) {
        SmallMultiple(p, 1);
      }
    } else {
      FactorialNotDivisible(p, n - 1);
      if Divides(p, Factorial(n)) {
        Euclid(p, Factorial(n - 1), n);
        SmallMultiple(p, n);
      }
    }
  }

  lemma SubsetOfSameSize(s: set<int>, t: set<int>)
    requires s <= t && |s| == |t|
    ensures s == t
  {
    assert t == s + (t - s);
  }

  lemma CancelFactor(p: int, f: int, w: int)
    requires Prime(p) && !Divides(p, f) && Cong(f, w * f, p)
    ensures Cong(w, 1, p)
  {
    CongSym(f, w * f, p);
    assert w * f == f * w && f == f * 1;
    CongCancel(p, f, w, 1);
  }

  /** Fermat's little theorem. */
  lemma Fermat(a: int, p: int)
    requires Prime(p) && !Divides(p, a)
    ensures Cong(Pow(a, p - 1), 1, p)
  {
    hide Divides, Cong, Pow, Factorial, ProductUpTo, Multiples, Range;
    MultiplesProduct(a, p - 1, p);
    RangeSize(p - 1);
    SubsetOfSameSize(Multiples(a, p - 1, p), Range(p - 1));
    ProductFull(p - 1, p - 1);
    FactorialNotDivisible(p, p - 1);
    CancelFactor(p, Factorial(p - 1), Pow(a, p - 1));
  }

  lemma {:induction false} DividesPow(m: int, a: int, e: nat)
    requires Divides(m, a) && e > 0
    ensures Divides(m, Pow(a, e))
  {
    var k :| a == k * m;
    assert Pow(a, e) == (k * Pow(a, e - 1)) * m by {
      assert Pow(a, e) == (k * m) * Pow(a, e - 1);
    }
  }

  /** Positive exponents that agree modulo p - 1 give powers that agree modulo the prime p. */
  lemma PowModExponent(a: int, p: int, x: nat, y: nat, k: nat)
    requires Prime(p) && x > 0 && y > 0 && x == y + k * (p - 1)
    ensures Cong(Pow(a, x), Pow(a, y), p)
  {
    if Divides(p, a) {
      DividesPow(p, a, x);
      DividesPow(p, a, y);
      var u :| Pow(a, x) == u * p;
      var v :| Pow(a, y) == v * p;
      assert Pow(a, x) - Pow(a, y) == (u - v) * p;
    } else {
      Fermat(a, p);
      PowMul(a, p - 1, k);
      assert (p - 1) * k == k * (p - 1);
      PowAdd(a, y, k * (p - 1));
      CongPow(Pow(a, p - 1), 1, k, p);
      PowOne(k);
      CongRefl(Pow(a, y), p);
      CongMul(Pow(a, y), Pow(a, y), Pow(a, k * (p - 1)), 1, p);
    }
  }

  // ------------------------------------------------------------ Chinese remainders

  lemma DistinctPrimes(p: int, q: int)
    requires Prime(p) && Prime(q) && p != q
    ensures !Divides(p, q)
  {
    if Divides(p, q) {
      DividesMod(p, q);
      if p > q {
        SmallMultiple(p, q);
      }
    }
  }

  lemma CommonMultiple(p: int, q: int, z: int)
    requires Prime(q) && !Divides(q, p) && Divides(p, z) && Divides(q, z)
    ensures Divides(p * q, z)
  {
    var k :| z == k * p;
    hide Prime;
    assert k * p == p * k;
    Euclid(q, p, k);
    var l :| k == l * q;
    MulAssoc(l, q, p);
  }

  lemma MulAssoc(a: int, b: int, c: int)
    ensures (a * b) * c == a * (c * b)
  {
  }

  /** A number below p * q is determined by its residues modulo two distinct primes. */
  lemma ChineseUnique(p: int, q: int, x: int, y: int)
    requires Prime(p) && Prime(q) && p != q
    requires 0 <= x < p * q && 0 <= y < p * q
    requires Cong(x, y, p) && Cong(x, y, q)
    ensures x == y
  {
    DistinctPrimes(q, p);
    CommonMultiple(p, q, x - y);
    hide Prime, Divides, Cong;
    SmallMultiple(p * q, x - y);
  }
}
