/**
 Why the exponents derived in src/key/mod.rs are the right ones: signing with them in the
 Chinese remainder form of RFC 8017 gives the plain RSA signature, and verification undoes it.
 */
module RsaSigning {
  import opened Keys
  import opened NumberTheory

  /** A valid RSA key in the sense of section 3.2 of RFC 8017, except that a factor may be 2. */
  ghost predicate WellFormed(c: RsaComponents) {
    && Prime(c.p) && Prime(c.q) && c.p != c.q
    && c.n == c.p * c.q
    && Cong(c.e * c.d, 1, c.p - 1) && Cong(c.e * c.d, 1, c.q - 1)
    && Cong(c.q * c.iqmp, 1, c.p)
  }

  ghost predicate OddFactors(c: RsaComponents) {
    c.p != 2 && c.q != 2
  }

  /** RSASP1 with the key (n, d): section 5.2.1 of RFC 8017, step 2.a. */
  function Rsasp1(n: nat, d: nat, m: nat): int
    requires n > 0
  {
    Pow(m, d) % n
  }

  /** RSASP1 with the five-part key: section 5.2.1 of RFC 8017, step 2.b. */
  function Rsasp1Crt(k: PrivateKey, m: nat): int
    requires k.p > 0 && k.q > 0
  {
    var s1 := Pow(m, k.dp) % k.p;
    var s2 := Pow(m, k.dq) % k.q;
    var h := ((s1 - s2) * k.iqmp) % k.p;
    s2 + k.q * h
  }

  /** RSAVP1: section 5.2.2 of RFC 8017. */
  function Rsavp1(k: PublicKey, s: int): int
    requires k.n > 0
  {
    Pow(s, k.e) % k.n
  }

  /** A multiple of m has no inverse modulo m, unless m is 1. */
  lemma NoInverse(e: nat, d: nat, m: nat)
    requires m > 0 && d % m == 0 && Cong(e * d, 1, m)
    ensures m == 1
  {
    DividesMod(m, d);
    var k :| d == k * m;
    var l :| e * d - 1 == l * m;
    assert e * d == (e * k) * m;
    assert 1 == (e * k - l) * m;
    if m > 1 {
      SmallMultiple(m, 1);
    }
  }

  /** The CRT exponent of one factor is positive when the factor is odd. */
  lemma ExponentsPositive(e: nat, d: nat, p: nat)
    requires p > 2 && Cong(e * d, 1, p - 1)
    ensures d % (p - 1) > 0 && d > 0 && e > 0 && e * d >= 1
  {
    if d % (p - 1) == 0 {
      NoInverse(e, d, p - 1);
    }
    if e == 0 {
      assert d * e == e * d;
      NoInverse(d, e, p - 1);
    }
    assert e * d >= d by { NonnegativeProduct(e - 1, d); assert e * d == (e - 1) * d + d; }
  }

  /** One factor's reduced exponent satisfies the defining equation of dP in section 3.2 of RFC 8017. */
  lemma ReducedExponent(e: nat, d: nat, p: nat)
    requires p >= 2 && Cong(e * d, 1, p - 1)
    ensures 0 <= d % (p - 1) < p - 1 && Cong(e * (d % (p - 1)), 1, p - 1)
  {
    var m := p - 1;
    CongMod(d, m);
    CongSym(d, d % m, m);
    CongRefl(e, m);
    CongMul(e, e, d % m, d, m);
    CongTrans(e * (d % m), e * d, 1, m);
  }

  /** The agent derives exactly the CRT exponents of section 3.2 of RFC 8017, the only ones in range. */
  lemma DerivedExponents(c: RsaComponents)
    requires WellFormed(c)
    ensures !ZeroModulus(c)
    ensures var k := Derive(c);
            && k.dp < c.p - 1 && Cong(c.e * k.dp, 1, c.p - 1)
            && k.dq < c.q - 1 && Cong(c.e * k.dq, 1, c.q - 1)
    ensures forall x: nat | x < c.p - 1 && Cong(c.e * x, 1, c.p - 1) :: x == Derive(c).dp
    ensures forall x: nat | x < c.q - 1 && Cong(c.e * x, 1, c.q - 1) :: x == Derive(c).dq
  {
    ReducedExponent(c.e, c.d, c.p);
    ReducedExponent(c.e, c.d, c.q);
    forall x: nat | x < c.p - 1 && Cong(c.e * x, 1, c.p - 1)
      ensures x == Derive(c).dp
    {
      InverseUnique(c.e, x, Derive(c).dp, c.p - 1);
    }
    forall x: nat | x < c.q - 1 && Cong(c.e * x, 1, c.q - 1)
      ensures x == Derive(c).dq
    {
      InverseUnique(c.e, x, Derive(c).dq, c.q - 1);
    }
  }

  lemma InverseUnique(e: int, x: int, y: int, m: int)
    requires 0 <= x < m && 0 <= y < m && Cong(e * x, 1, m) && Cong(e * y, 1, m)
    ensures x == y
  {
    // x = x * (e * y) = (e * x) * y = y
    CongRefl(x, m);
    CongRefl(y, m);
    CongMul(e * y, 1, x, x, m);
    CongMul(e * x, 1, y, y, m);
    assert (e * y) * x == (e * x) * y;
    CongSym((e * y) * x, 1 * x, m);
    CongTrans(x, (e * y) * x, y, m);
    SmallMultiple(m, x - y);
  }

  /** Modulo one odd factor, the derived exponent gives the power that d gives. */
  lemma HalfSignature(m: nat, e: nat, d: nat, p: nat)
    requires Prime(p) && p > 2 && Cong(e * d, 1, p - 1)
    ensures Cong(Pow(m, d % (p - 1)) % p, Pow(m, d), p)
  {
    var dp := d % (p - 1);
    ExponentsPositive(e, d, p);
    assert d == dp + (d / (p - 1)) * (p - 1);
    PowModExponent(m, p, d, dp, d / (p - 1));
    CongMod(Pow(m, dp), p);
    CongTrans(Pow(m, d), Pow(m, dp), Pow(m, dp) % p, p);
    CongSym(Pow(m, d), Pow(m, dp) % p, p);
  }

  /** Garner's recombination: s2 + q * h has the residue s1 modulo p. */
  lemma Recombine(s1: int, s2: int, p: int, q: int, iqmp: int)
    requires p > 0 && Cong(q * iqmp, 1, p)
    ensures var h := ((s1 - s2) * iqmp) % p;
            Cong(s2 + q * h, s1, p) && Cong(s2 + q * h, s2, q)
  {
    var t := s1 - s2;
    var h := (t * iqmp) % p;
    CongMod(t * iqmp, p);
    CongSym(t * iqmp, h, p);
    CongRefl(q, p);
    CongMul(q, q, h, t * iqmp, p);
    CongRefl(t, p);
    CongMul(q * iqmp, 1, t, t, p);
    assert (q * iqmp) * t == q * (t * iqmp);
    CongTrans(q * h, q * (t * iqmp), t, p);
    CongRefl(s2, p);
    CongAdd(s2, s2, q * h, t, p);
    assert (s2 + q * h) - s2 == h * q;
  }

  lemma RecombinedRange(s2: int, h: int, p: int, q: int)
    requires 0 <= s2 < q && 0 <= h < p
    ensures 0 <= s2 + q * h < p * q
  {
    NonnegativeProduct(q, h);
    NonnegativeProduct(q, p - 1 - h);
    assert q * (p - 1 - h) == p * q - q - q * h;
  }

  /** Signing with the derived exponents is plain RSA signing, for every message representative. */
  lemma CrtIsPlain(c: RsaComponents, m: nat)
    requires WellFormed(c) && OddFactors(c)
    ensures Rsasp1Crt(Derive(c), m) == Rsasp1(c.n, c.d, m)
  {
    var k := Derive(c);
    var x := Pow(m, c.d);
    var s1 := Pow(m, k.dp) % c.p;
    var s2 := Pow(m, k.dq) % c.q;
    var s := Rsasp1Crt(k, m);
    HalfSignature(m, c.e, c.d, c.p);
    HalfSignature(m, c.e, c.d, c.q);
    Recombine(s1, s2, c.p, c.q, c.iqmp);
    CongTrans(s, s1, x, c.p);
    CongTrans(s, s2, x, c.q);
    RecombinedRange(s2, ((s1 - s2) * c.iqmp) % c.p, c.p, c.q);
    ResidueModProduct(x, c.p, c.q);
    CongTrans(s, x, x % c.n, c.p);
    CongTrans(s, x, x % c.n, c.q);
    ChineseUnique(c.p, c.q, s, x % c.n);
  }

  /** Both forms of the imported key, (n, d) and the five-part one, sign alike. */
  lemma ImportedSignsAlike(c: RsaComponents, m: nat)
    requires WellFormed(c) && OddFactors(c)
    ensures !ZeroModulus(c) && Derive(c).n > 0
    ensures Rsasp1(Derive(c).n, Derive(c).d, m) == Rsasp1Crt(Derive(c), m)
  {
    CrtIsPlain(c, m);
    hide Pow;
  }

  /** Reducing modulo p * q keeps the residues modulo both factors. */
  lemma ResidueModProduct(x: int, p: int, q: int)
    requires p > 0 && q > 0
    ensures p * q > 0 && Cong(x, x % (p * q), p) && Cong(x, x % (p * q), q)
  {
    NonnegativeProduct(p - 1, q);
    assert p * q == (p - 1) * q + q;
    var u := x / (p * q);
    assert x - x % (p * q) == u * (p * q);
    assert u * (p * q) == (u * q) * p == (u * p) * q;
  }

  /** A signature made with the derived exponents verifies to the representative that was signed. */
  lemma VerifyUndoesSign(c: RsaComponents, m: nat)
    requires WellFormed(c) && OddFactors(c) && m < c.n
    ensures Rsavp1(Public(Derive(c)), Rsasp1Crt(Derive(c), m)) == m
  {
    CrtIsPlain(c, m);
    var s := Rsasp1(c.n, c.d, m);
    var v := Pow(s, c.e);
    HalfVerify(c, m, c.p, c.q);
    assert c.p * c.q == c.q * c.p;
    HalfVerify(c, m, c.q, c.p);
    ResidueModProduct(v, c.p, c.q);
    CongSym(v, v % c.n, c.p);
    CongSym(v, v % c.n, c.q);
    CongTrans(v % c.n, v, m, c.p);
    CongTrans(v % c.n, v, m, c.q);
    ChineseUnique(c.p, c.q, v % c.n, m);
  }

  lemma HalfVerify(c: RsaComponents, m: nat, p: nat, other: nat)
    requires Prime(p) && p > 2 && other > 0 && c.n == p * other && Cong(c.e * c.d, 1, p - 1)
    ensures c.n > 0 && Cong(Pow(Rsasp1(c.n, c.d, m), c.e), m, p)
  {
    var x := Pow(m, c.d);
    ResidueModProduct(x, p, other);
    CongSym(x, x % c.n, p);
    CongPow(x % c.n, x, c.e, p);
    PowMul(m, c.d, c.e);
    assert c.d * c.e == c.e * c.d;
    ExponentsPositive(c.e, c.d, p);
    var k :| c.e * c.d - 1 == k * (p - 1);
    NonzeroMultiple(k, p - 1);
    assert k >= 0;
    PowModExponent(m, p, c.e * c.d, 1, k);
    assert Pow(m, 1) == m;
    CongTrans(Pow(x % c.n, c.e), Pow(x, c.e), m, p);
  }

  lemma {:induction false} PowZero(e: nat)
    requires e > 0
    ensures Pow(0, e) == 0
  {
  }

  lemma EvenProduct(a: nat, b: nat)
    ensures b % 2 == 0 ==> (a * b) % 2 == 0
  {
    var h := b / 2;
    if b % 2 == 0 {
      assert b == 2 * h;
      assert a * b == (a * h) * 2;
    }
  }

  lemma ModulusPositive(c: RsaComponents)
    requires WellFormed(c)
    ensures c.n > 0
  {
    hide Prime, Cong;
    assert c.p >= 2 && c.q >= 2 by { PrimeBound(c.p); PrimeBound(c.q); }
    NonnegativeProduct(c.p - 1, c.q - 1);
    assert c.n == (c.p - 1) * (c.q - 1) + c.p + c.q - 1;
  }

  lemma PrimeBound(p: int)
    requires Prime(p)
    ensures p >= 2
  {
  }

  lemma FirstFactorTwo(c: RsaComponents)
    requires WellFormed(c) && c.p == 2
    ensures Rsasp1Crt(Derive(c), 0) == c.q && c.d > 0
  {
    PrimeBound(c.q);
    var k := Derive(c);
    hide Prime;
    ExponentsPositive(c.e, c.d, c.q);
    PowZero(k.dq);
    CongToMod(c.q * c.iqmp, 1, 2);
    EvenProduct(c.q, c.iqmp);
    assert k.dp == 0 && Pow(0, 0) == 1;
    assert (1 * c.iqmp) % 2 == 1;
    assert c.q * 1 == c.q;
  }

  lemma SecondFactorTwo(c: RsaComponents)
    requires WellFormed(c) && c.q == 2
    ensures Rsasp1Crt(Derive(c), 0) % 2 == 1 && c.d > 0
  {
    PrimeBound(c.p);
    var k := Derive(c);
    hide Prime, Cong;
    ExponentsPositive(c.e, c.d, c.p);
    PowZero(k.dp);
    assert k.dq == 0 && Pow(0, 0) == 1;
  }

  /** With a factor 2 the derived exponent is zero, and the CRT form no longer signs the representative 0 as 0. */
  lemma EvenFactorFails(c: RsaComponents)
    requires WellFormed(c) && !OddFactors(c)
    ensures c.n > 0 && Rsasp1(c.n, c.d, 0) == 0
    ensures Rsasp1Crt(Derive(c), 0) != 0
  {
    ModulusPositive(c);
    PrimeBound(c.q);
    if c.p == 2 {
      FirstFactorTwo(c);
    } else {
      SecondFactorTwo(c);
    }
    PowZero(c.d);
    hide WellFormed, Derive, Rsasp1Crt;
  }

  /** Exactly which otherwise valid keys the derived exponents serve: those whose two factors are odd. */
  lemma CrtIsPlainIff(c: RsaComponents)
    requires WellFormed(c)
    ensures c.n > 0
    ensures (forall m: nat | m < c.n :: Rsasp1Crt(Derive(c), m) == Rsasp1(c.n, c.d, m)) <==> OddFactors(c)
  {
    ModulusPositive(c);
    hide WellFormed;
    if OddFactors(c) {
      forall m: nat | m < c.n
        ensures Rsasp1Crt(Derive(c), m) == Rsasp1(c.n, c.d, m)
      {
        CrtIsPlain(c, m);
      }
    } else {
      EvenFactorFails(c);
      var zero: nat := 0;
      assert Rsasp1Crt(Derive(c), zero) != Rsasp1(c.n, c.d, zero);
    }
  }

  /** A valid key with odd factors, the smallest there is. */
  lemma OddFactorExample()
    ensures WellFormed(RsaComponents(15, 3, 3, 2, 3, 5)) && OddFactors(RsaComponents(15, 3, 3, 2, 3, 5))
  {
    assert 3 * 3 - 1 == 4 * 2 && 3 * 3 - 1 == 2 * 4 && 5 * 2 - 1 == 3 * 3;
  }

  const EVEN: RsaComponents := RsaComponents(6, 1, 1, 1, 2, 3)

  lemma EvenExampleIsValid()
    ensures WellFormed(EVEN)
  {
    assert 1 * 1 - 1 == 0 * 1 && 1 * 1 - 1 == 0 * 2 && 3 * 1 - 1 == 1 * 2;
  }

  /** A valid key with the factor 2, on which the derived exponents fail. */
  lemma EvenFactorExample()
    ensures WellFormed(EVEN) && !OddFactors(EVEN)
    ensures Rsasp1(EVEN.n, EVEN.d, 0) == 0 && Rsasp1Crt(Derive(EVEN), 0) == 3
  {
    hide WellFormed, Rsasp1Crt, Rsasp1;
    EvenExampleIsValid();
    FirstFactorTwo(EVEN);
    EvenFactorFails(EVEN);
  }
}
