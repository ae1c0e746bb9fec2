// Why decryption undoes encryption when p and q are distinct primes:
// Fermat's little theorem (through the binomial theorem) and the Chinese
// remainder argument for n = p * q.

module RsaRoundTrip {
  import opened Wrappers
  import opened Rsa

  predicate Prime(p: int)
  {
    p >= 2 && forall k :: 2 <= k < p ==> !Divides(k, p)
  }

  // ---------------------------------------------------------------------------
  // Arithmetic facts, each kept small

  lemma MulComm3(a: int, b: int, c: int)
    ensures a * (b * c) == b * (a * c) && (a * b) * c == a * (b * c)
  {
  }

  /** Congruent numbers differ by a multiple of the modulus. */
  lemma ModDifference(x: int, y: int, n: int)
    requires n > 0 && Divides(n, x - y)
    ensures x % n == y % n
  {
    var t := (x - y) / n;
    assert x - y == n * t;
    ModAddMultiple(y, n, t);
    assert x == y + n * t;
  }

  lemma DifferenceOfCongruent(x: int, y: int, n: int)
    requires n > 0 && x % n == y % n
    ensures Divides(n, x - y)
  {
    assert x == n * (x / n) + x % n;
    assert y == n * (y / n) + y % n;
    assert x - y == n * (x / n - y / n);
    DividesMultiple(n, x / n - y / n);
  }

  lemma ProductExpand(a: int, b: int, n: int, qa: int, ra: int)
    requires a == n * qa + ra
    ensures a * b == ra * b + n * (qa * b)
  {
  }

  /** The remainder of a product depends only on the factors' remainders. */
  lemma ModMul(a: int, b: int, n: int)
    requires n > 0
    ensures (a * b) % n == ((a % n) * (b % n)) % n
  {
    ModMulParts(a, b, n, a / n, a % n, b / n, b % n);
  }

  lemma ModMulParts(a: int, b: int, n: int, qa: int, ra: int, qb: int, rb: int)
    requires n > 0 && a == n * qa + ra && b == n * qb + rb
    ensures (a * b) % n == (ra * rb) % n
  {
    ProductExpand(a, b, n, qa, ra);
    ProductExpand(b, ra, n, qb, rb);
    assert ra * b == b * ra;
    assert a * b == rb * ra + n * (qb * ra + qa * b);
    assert rb * ra == ra * rb;
    ModAddMultiple(ra * rb, n, qb * ra + qa * b);
  }

  lemma DividesProduct(c: int, a: int, b: int)
    requires c > 0 && Divides(c, a)
    ensures Divides(c, a * b)
  {
    DividesMultiple(c, 1);
    DividesLinear(c, a, c, b, 0);
  }

  /** A positive number is at least as large as each of its positive divisors. */
  lemma DivisorBound(c: int, k: int)
    requires c > 0 && k > 0 && Divides(c, k)
    ensures c <= k
  {
    var t := k / c;
    assert k == c * t;
    PositiveFactor(c, t);
    MultipleBound(c, t);
  }

  lemma PositiveFactor(c: int, t: int)
    requires c > 0 && c * t > 0
    ensures t >= 1
  {
  }

  // ---------------------------------------------------------------------------
  // Primes

  /** A prime has no common factor with a smaller positive number. */
  lemma PrimeCoprime(p: int, k: int)
    requires Prime(p) && 0 < k < p
    ensures Gcd(p, k) == 1
  {
    GcdDivides(p, k);
    var g := Gcd(p, k);
    DivisorBound(g, k);
  }

  /** A number below a prime and above 0 combines with it into 1. */
  lemma CoprimeCombination(p: int, r: int) returns (x: int, y: int)
    requires Prime(p) && 0 < r < p
    ensures p * x + r * y == 1
  {
    PrimeCoprime(p, r);
    EgcdGcd(p, r);
    EgcdBezout(p, r);
    var g;
    g, x, y := Egcd(p, r).0, Egcd(p, r).1, Egcd(p, r).2;
  }

  lemma DividesReducedProduct(p: int, a: int, b: int)
    requires p > 0 && Divides(p, a * b)
    ensures Divides(p, (a % p) * b)
  {
    var r, m := a % p, b % p;
    ModMul(a, b, p);
    ModMul(r, b, p);
    DivModUnique(r, p, 0, r);
    assert (a * b) % p == (r * m) % p;
    assert (r * b) % p == (r * m) % p;
  }

  lemma EuclidAlgebra(p: int, r: int, b: int, x: int, y: int)
    requires p * x + r * y == 1
    ensures b == p * (b * x) + (r * b) * y
  {
    assert b == b * (p * x + r * y);
    assert b * (p * x) == p * (b * x);
    assert b * (r * y) == (r * b) * y;
  }

  /** Euclid's lemma: a prime dividing a product divides one of the factors. */
  lemma Euclid(p: int, a: int, b: int)
    requires Prime(p) && Divides(p, a * b) && !Divides(p, a)
    ensures Divides(p, b)
  {
    var r := a % p;
    var x, y := CoprimeCombination(p, r);
    DividesReducedProduct(p, a, b);
    EuclidAlgebra(p, r, b, x, y);
    DividesMultiple(p, 1);
    DividesLinear(p, p, r * b, b * x, y);
  }

  /** Two distinct primes: the smaller does not divide the larger. */
  lemma DistinctPrimes(p: int, q: int)
    requires Prime(p) && Prime(q) && p != q
    ensures !Divides(q, p)
  {
    if p < q {
      DivModUnique(p, q, 0, p);
    }
  }

  /** Chinese remainder step: a number divisible by two distinct primes is
      divisible by their product. */
  lemma DividesBoth(p: int, q: int, x: int)
    requires Prime(p) && Prime(q) && p != q && Divides(p, x) && Divides(q, x)
    ensures Divides(p * q, x)
  {
    var t := x / p;
    assert x == p * t;
    DistinctPrimes(p, q);
    Euclid(q, p, t);
    var s := t / q;
    assert t == q * s;
    assert x == (p * q) * s by {
      MulComm3(p, q, s);
    }
    MultipleBound(p, q);
    DividesMultiple(p * q, s);
  }

  // ---------------------------------------------------------------------------
  // Powers

  lemma {:induction false} PowAdd(b: int, i: nat, j: nat)
    ensures Pow(b, i + j) == Pow(b, i) * Pow(b, j)
    decreases i
  {
    if i > 0 {
      PowAdd(b, i - 1, j);
      MulComm3(b, Pow(b, i - 1), Pow(b, j));
    }
  }

  lemma {:induction false} PowMul(b: int, i: nat, j: nat)
    ensures Pow(b, i * j) == Pow(Pow(b, i), j)
    decreases j
  {
    if j > 0 {
      PowMul(b, i, j - 1);
      assert i * j == i + i * (j - 1);
      PowAdd(b, i, i * (j - 1));
    }
  }

  /** A power's remainder depends only on the base's remainder. */
  lemma {:induction false} PowModBase(b: int, k: nat, n: int)
    requires n > 0
    ensures Pow(b, k) % n == Pow(b % n, k) % n
    decreases k
  {
    if k > 0 {
      PowModBase(b, k - 1, n);
      ModMulCongruent(b, Pow(b, k - 1), Pow(b % n, k - 1), n);
    }
  }

  /** Multiplying by a number or by its remainder, and by two congruent
      numbers, gives congruent products. */
  lemma ModMulCongruent(b: int, x: int, y: int, n: int)
    requires n > 0 && x % n == y % n
    ensures (b * x) % n == ((b % n) * y) % n
  {
    var r := b % n;
    DivModUnique(r, n, 0, r);
    ModMul(b, x, n);
    ModMul(r, y, n);
  }

  lemma {:induction false} PowOfOne(k: nat)
    ensures Pow(1, k) == 1
    decreases k
  {
    if k > 0 {
      PowOfOne(k - 1);
    }
  }

  lemma {:induction false} PowOfZero(k: nat)
    requires k >= 1
    ensures Pow(0, k) == 0
  {
  }

  // ---------------------------------------------------------------------------
  // The binomial theorem

  function Binom(n: nat, k: nat): nat
  {
    if k == 0 then 1 else if n == 0 then 0 else Binom(n - 1, k - 1) + Binom(n - 1, k)
  }

  lemma {:induction false} BinomBeyond(n: nat, k: nat)
    requires k > n
    ensures Binom(n, k) == 0
    decreases n
  {
    if n > 0 {
      BinomBeyond(n - 1, k - 1);
      BinomBeyond(n - 1, k);
    }
  }

  lemma {:induction false} BinomAll(n: nat)
    ensures Binom(n, n) == 1
    decreases n
  {
    if n > 0 {
      BinomAll(n - 1);
      BinomBeyond(n - 1, n);
    }
  }

  /** The absorption identity k * C(n, k) == n * C(n - 1, k - 1). */
  lemma {:induction false} Absorption(n: nat, k: nat)
    requires n >= 1 && k >= 1
    ensures k * Binom(n, k) == n * Binom(n - 1, k - 1)
    decreases n
  {
    if n == 1 {
      if k > 1 {
        BinomBeyond(1, k);
        BinomBeyond(0, k - 1);
      }
    } else if k == 1 {
      assert Binom(n, 1) == n by {
        BinomOne(n);
      }
    } else {
      // k C(n, k) = k C(n-1, k-1) + k C(n-1, k)
      //           = (k-1) C(n-1, k-1) + C(n-1, k-1) + k C(n-1, k)
      //           = (n-1) C(n-2, k-2) + C(n-1, k-1) + (n-1) C(n-2, k-1)
      //           = (n-1) C(n-1, k-1) + C(n-1, k-1)
      Absorption(n - 1, k - 1);
      Absorption(n - 1, k);
      var a, b := Binom(n - 1, k - 1), Binom(n - 1, k);
      var c0, c1 := Binom(n - 2, k - 2), Binom(n - 2, k - 1);
      assert Binom(n, k) == a + b;
      assert a == c0 + c1;
      AbsorptionAlgebra(n, k, a, b, c0, c1);
    }
  }

  lemma AbsorptionAlgebra(n: int, k: int, a: int, b: int, c0: int, c1: int)
    requires a == c0 + c1 && (k - 1) * a == (n - 1) * c0 && k * b == (n - 1) * c1
    ensures k * (a + b) == n * a
  {
    assert k * (a + b) == (k - 1) * a + a + k * b;
    assert (n - 1) * c0 + (n - 1) * c1 == (n - 1) * a;
  }

  lemma {:induction false} BinomOne(n: nat)
    ensures Binom(n, 1) == n
    decreases n
  {
    if n > 0 {
      BinomOne(n - 1);
    }
  }

  /** The first k terms of the expansion of (a + 1)^n. */
  function Terms(n: nat, a: int, k: nat): int
  {
    if k == 0 then 0 else Terms(n, a, k - 1) + Binom(n, k - 1) * Pow(a, k - 1)
  }

  /** Pascal's rule, summed: the terms for n + 1 are a times the terms for n
      plus the terms for n. */
  lemma {:induction false} TermsPascal(n: nat, a: int, k: nat)
    ensures Terms(n + 1, a, k + 1) == a * Terms(n, a, k) + Terms(n, a, k + 1)
    decreases k
  {
    if k > 0 {
      TermsPascal(n, a, k - 1);
      var c0, c1 := Binom(n, k - 1), Binom(n, k);
      var tp, pw := Terms(n, a, k - 1), Pow(a, k - 1);
      assert Binom(n + 1, k) == c0 + c1;
      assert Pow(a, k) == a * pw;
      assert Terms(n, a, k) == tp + c0 * pw;
      assert Terms(n, a, k + 1) == Terms(n, a, k) + c1 * Pow(a, k);
      assert Terms(n + 1, a, k + 1) == Terms(n + 1, a, k) + Binom(n + 1, k) * Pow(a, k);
      PascalAlgebra(a, tp, c0, c1, pw);
    }
  }

  lemma PascalAlgebra(a: int, tp: int, c0: int, c1: int, pw: int)
    ensures a * tp + (tp + c0 * pw) + (c0 + c1) * (a * pw)
         == a * (tp + c0 * pw) + ((tp + c0 * pw) + c1 * (a * pw))
  {
    assert (c0 + c1) * (a * pw) == c0 * (a * pw) + c1 * (a * pw);
    assert a * (tp + c0 * pw) == a * tp + a * (c0 * pw);
    assert c0 * (a * pw) == a * (c0 * pw);
  }

  lemma {:induction false} BinomialTheorem(n: nat, a: int)
    ensures Pow(a + 1, n) == Terms(n, a, n + 1)
    decreases n
  {
    if n > 0 {
      var t := Terms(n - 1, a, n);
      assert Terms(n - 1, a, n + 1) == t by {
        BinomBeyond(n - 1, n);
      }
      assert Terms(n, a, n + 1) == a * t + t by {
        TermsPascal(n - 1, a, n);
      }
      assert Pow(a + 1, n) == (a + 1) * t by {
        BinomialTheorem(n - 1, a);
      }
      AddOneTimes(a, t);
    }
  }

  lemma AddOneTimes(a: int, t: int)
    ensures (a + 1) * t == a * t + t
  {
  }

  // ---------------------------------------------------------------------------
  // Fermat's little theorem

  lemma PrimeDividesBinom(p: int, k: nat)
    requires Prime(p) && 0 < k < p
    ensures Divides(p, Binom(p, k))
  {
    var b := Binom(p, k);
    Absorption(p, k);
    DividesMultiple(p, Binom(p - 1, k - 1));
    assert Divides(p, k * b);
    assert !Divides(p, k) by {
      DivModUnique(k, p, 0, k);
    }
    Euclid(p, k, b);
  }

  /** The middle terms of (a + 1)^p are multiples of p. */
  lemma {:induction false} MiddleTerms(p: int, a: int, k: nat)
    requires Prime(p) && 1 <= k <= p
    ensures Divides(p, Terms(p, a, k) - 1)
    decreases k
  {
    if k == 1 {
      DividesMultiple(p, 0);
    } else {
      MiddleTerms(p, a, k - 1);
      PrimeDividesBinom(p, k - 1);
      AddMultipleTerm(p, Terms(p, a, k - 1), Binom(p, k - 1), Pow(a, k - 1));
    }
  }

  lemma AddMultipleTerm(p: int, before: int, c: int, w: int)
    requires p > 0 && Divides(p, before - 1) && Divides(p, c)
    ensures Divides(p, before + c * w - 1)
  {
    DividesProduct(p, c, w);
    DividesLinear(p, before - 1, c * w, 1, 1);
  }

  /** (a + 1)^p and a^p + 1 leave the same remainder modulo p. */
  lemma FreshmansDream(p: int, a: int)
    requires Prime(p)
    ensures Pow(a + 1, p) % p == (Pow(a, p) + 1) % p
  {
    BinomialTheorem(p, a);
    BinomAll(p);
    MiddleTerms(p, a, p);
    assert Pow(a + 1, p) == Terms(p, a, p) + Pow(a, p);
    assert Pow(a + 1, p) - (Pow(a, p) + 1) == Terms(p, a, p) - 1;
    ModDifference(Pow(a + 1, p), Pow(a, p) + 1, p);
  }

  /** Fermat: a^p and a leave the same remainder modulo p. */
  lemma {:induction false} Fermat(p: int, a: nat)
    requires Prime(p)
    ensures Pow(a, p) % p == a % p
    decreases a
  {
    if a == 0 {
      PowOfZero(p);
    } else {
      Fermat(p, a - 1);
      FreshmansDream(p, a - 1);
      DifferenceOfCongruent(Pow(a - 1, p), a - 1, p);
      assert (Pow(a - 1, p) + 1) - a == Pow(a - 1, p) - (a - 1);
      ModDifference(Pow(a - 1, p) + 1, a, p);
    }
  }

  lemma FactorOut(a: int, x: int)
    ensures a * x - a == a * (x - 1)
  {
  }

  /** Fermat for a base that p does not divide: a^(p-1) leaves remainder 1. */
  lemma FermatUnit(p: int, a: nat)
    requires Prime(p) && !Divides(p, a)
    ensures Pow(a, p - 1) % p == 1
  {
    var x := Pow(a, p - 1);
    Fermat(p, a);
    PowAdd(a, 1, p - 1);
    assert Pow(a, p) == a * x;
    DifferenceOfCongruent(a * x, a, p);
    FactorOut(a, x);
    Euclid(p, a, x - 1);
    ModDifference(x, 1, p);
    DivModUnique(1, p, 0, 1);
  }

  // ---------------------------------------------------------------------------
  // The round trip

  /** A power of a number congruent to 1 is congruent to 1. */
  lemma PowOfUnit(p: int, x: int, k: nat)
    requires p >= 2 && x % p == 1
    ensures Pow(x, k) % p == 1
  {
    PowModBase(x, k, p);
    PowOfOne(k);
    DivModUnique(1, p, 0, 1);
  }

  /** Multiplying by a number congruent to 1 keeps the remainder. */
  lemma TimesUnit(p: int, m: int, x: int)
    requires p > 0 && x % p == 1
    ensures (m * x) % p == m % p
  {
    var r := m % p;
    ModMul(m, x, p);
    assert (m * x) % p == (r * 1) % p;
    DivModUnique(r, p, 0, r);
  }

  /** m^(1 + k (p-1) j) leaves the remainder of m modulo the prime p. */
  lemma ExponentModPrime(p: int, m: nat, k: nat, j: nat, e: nat)
    requires Prime(p) && e == 1 + k * ((p - 1) * j)
    ensures Pow(m, e) % p == m % p
  {
    var t := k * ((p - 1) * j);
    PowAdd(m, 1, t);
    assert Pow(m, e) == m * Pow(m, t);
    if Divides(p, m) {
      DividesProduct(p, m, Pow(m, t));
    } else {
      var kj := k * j;
      assert t == (p - 1) * kj by {
        MulComm3(k, p - 1, j);
      }
      PowMul(m, p - 1, kj);
      FermatUnit(p, m);
      PowOfUnit(p, Pow(m, p - 1), kj);
      TimesUnit(p, m, Pow(m, t));
    }
  }

  lemma QuotientForm(ed: nat, phi: int)
    requires phi > 1 && ed % phi == 1 % phi
    ensures ed / phi >= 0 && ed == 1 + (ed / phi) * phi
  {
    DivModUnique(1, phi, 0, 1);
  }

  /** With e * d == 1 modulo (p-1)(q-1), m^(e d) leaves m modulo p * q. */
  lemma ExponentModN(p: int, q: int, m: nat, ed: nat)
    requires Prime(p) && Prime(q) && p != q && m < p * q
    requires ed % Phi(p, q) == 1 % Phi(p, q) && Phi(p, q) > 1
    ensures Pow(m, ed) % (p * q) == m
  {
    var phi := Phi(p, q);
    QuotientForm(ed, phi);
    var k: nat := ed / phi;
    assert ed == 1 + k * ((p - 1) * (q - 1));
    assert ed == 1 + k * ((q - 1) * (p - 1)) by {
      MulComm3(k, p - 1, q - 1);
      MulComm3(k, q - 1, p - 1);
    }
    var x := Pow(m, ed);
    ExponentModPrime(p, m, k, q - 1, ed);
    ExponentModPrime(q, m, k, p - 1, ed);
    DifferenceOfCongruent(x, m, p);
    DifferenceOfCongruent(x, m, q);
    DividesBoth(p, q, x - m);
    MultipleBound(p, q);
    ModDifference(x, m, p * q);
    DivModUnique(m, p * q, 0, m);
  }

  /** Distinct primes give phi at least 2. */
  lemma PhiOfDistinctPrimes(p: int, q: int)
    requires Prime(p) && Prime(q) && p != q
    ensures Phi(p, q) >= 2 && p * q >= 6
  {
    if p < q {
      MultipleBound(p - 1, q - 1);
      MultipleBound(p, q);
      assert p * q >= 2 * q;
    } else {
      MultipleBound(q - 1, p - 1);
      assert Phi(p, q) == (q - 1) * (p - 1);
      MultipleBound(q, p);
      assert p * q == q * p;
    }
  }

  /** RSADP undoes RSAEP: for distinct primes p and q, and exponents with
      e * d == 1 modulo (p-1)(q-1), every message 0 <= m < n comes back. */
  lemma PowModRoundTrip(p: int, q: int, e: nat, d: nat, m: nat)
    requires Prime(p) && Prime(q) && p != q && m < p * q
    requires (e * d) % Phi(p, q) == 1 % Phi(p, q)
    ensures PowMod(PowMod(m, e, p * q), d, p * q) == m
  {
    var n := p * q;
    PhiOfDistinctPrimes(p, q);
    PowModBase(Pow(m, e), d, n);
    PowMul(m, e, d);
    ExponentModN(p, q, m, e * d);
  }

  /** The script's keys, when p and q are distinct primes: decrypting the
      ciphertext of an accepted message gives the message back. */
  lemma KeyRoundTrip(p: int, q: int, key: KeyPair, m: int)
    requires Prime(p) && Prime(q) && p != q
    requires key.n == p * q && (key.e * key.d) % Phi(p, q) == 1 % Phi(p, q)
    requires 0 < m < key.n
    ensures Encrypt(key, m).Some? && Decrypt(key, Encrypt(key, m).value) == m
  {
    PowModRoundTrip(p, q, key.e, key.d, m);
  }

  /** The script also accepts p == q. Then phi is not the order that
      Fermat needs: p = q = 3 gives n = 9, phi = 4, e = 3 and d = 3, and
      the message 3 comes back as 0. */
  lemma EqualPrimes()
    ensures Phi(3, 3) == 4 && LeastExponent(3, Phi(3, 3))
    ensures ModInverse(3, Phi(3, 3)) == Success(3) && (3 * 3) % Phi(3, 3) == 1
    ensures PowMod(PowMod(3, 3, 9), 3, 9) == 0
  {
    assert Gcd(2, 4) == 2 && Gcd(3, 4) == 1;
    assert Pow(3, 3) == 27;
    assert Pow(0, 3) == 0;
  }
}
