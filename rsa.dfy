// Textbook RSA parameter choice: Python's floor division and remainder, the
// extended Euclidean algorithm, the modular inverse, the search for the
// public exponent, and the unpadded encryption and decryption primitives
// (RSAEP and RSADP of RFC 8017, sections 5.1.1 and 5.1.2).

module Rsa {
  import opened Wrappers

  // ---------------------------------------------------------------------------
  // Python's `//` and `%`, which round the quotient toward minus infinity

  /** `a // b`. */
  function FloorDiv(a: int, b: int): int
    requires b != 0
  {
    if b > 0 then a / b
    else if a % -b == 0 then -(a / -b)
    else -(a / -b) - 1
  }

  /** `a % b`: the remainder takes the sign of `b`. */
  function PyMod(a: int, b: int): (r: int)
    requires b != 0
    ensures a == b * FloorDiv(a, b) + r
    ensures b > 0 ==> 0 <= r < b
    ensures b < 0 ==> b < r <= 0
  {
    a - b * FloorDiv(a, b)
  }

  /** With a positive modulus, Python's `%` is Dafny's. */
  lemma PyModPositive(a: int, b: int)
    requires b > 0
    ensures PyMod(a, b) == a % b && FloorDiv(a, b) == a / b
  {
  }

  function Abs(a: int): nat
  {
    if a < 0 then -a else a
  }

  // ---------------------------------------------------------------------------
  // Divisibility

  /** `c` divides `a`, for a positive `c`. */
  predicate Divides(c: int, a: int)
    requires c > 0
  {
    a % c == 0
  }

  lemma DividesMultiple(c: int, k: int)
    requires c > 0
    ensures Divides(c, c * k)
  {
    assert c * k == c * k + 0;
    DivModUnique(c * k, c, k, 0);
  }

  /** A nonzero multiple of a positive number is at least that number in size. */
  lemma MultipleBound(c: int, k: int)
    requires c > 0 && k >= 1
    ensures c * k >= c
  {
    assert c * k == c * (k - 1) + c;
  }

  /** Euclidean division has only one quotient and remainder. */
  lemma DivModUnique(a: int, c: int, q: int, r: int)
    requires c > 0 && a == c * q + r && 0 <= r < c
    ensures a / c == q && a % c == r
  {
    var q0, r0 := a / c, a % c;
    assert c * (q0 - q) == r - r0 by {
      assert c * q0 + r0 == c * q + r;
      assert c * (q0 - q) == c * q0 - c * q;
    }
    if q0 > q {
      MultipleBound(c, q0 - q);
    } else if q0 < q {
      MultipleBound(c, q - q0);
    }
  }

  lemma DividesLinear(c: int, a: int, b: int, x: int, y: int)
    requires c > 0 && Divides(c, a) && Divides(c, b)
    ensures Divides(c, a * x + b * y)
  {
    var ka, kb := a / c, b / c;
    assert a == c * ka;
    assert b == c * kb;
    assert a * x + b * y == c * (ka * x + kb * y);
    DividesMultiple(c, ka * x + kb * y);
  }

  /** Adding a multiple of the modulus does not change the remainder. */
  lemma ModAddMultiple(a: int, c: int, k: int)
    requires c > 0
    ensures (a + c * k) % c == a % c
  {
    assert a + c * k == c * (a / c + k) + a % c;
    DivModUnique(a + c * k, c, a / c + k, a % c);
  }

  // ---------------------------------------------------------------------------
  // Greatest common divisor

  /** `math.gcd` on naturals: Euclid's algorithm. */
  function Gcd(a: nat, b: nat): nat
    decreases b
  {
    if b == 0 then a else Gcd(b, a % b)
  }

  /** The inner `egcd` of `mod_inverse`, on any integers: it stops because
      `|a % b| < |b|`. */
  function Egcd(a: int, b: int): (r: (int, int, int))
    decreases Abs(b)
  {
    if b == 0 then (a, 1, 0)
    else
      var (g, x, y) := Egcd(b, PyMod(a, b));
      (g, y, x - FloorDiv(a, b) * y)
  }

  /** Bezout: the coefficients combine `a` and `b` into the first component. */
  lemma {:induction false} EgcdBezout(a: int, b: int)
    ensures var (g, x, y) := Egcd(a, b); a * x + b * y == g
    decreases Abs(b)
  {
    if b != 0 {
      var q, r := FloorDiv(a, b), PyMod(a, b);
      EgcdBezout(b, r);
      var (g, x, y) := Egcd(b, r);
      BezoutStep(a, b, q, r, x, y);
    }
  }

  /** The back-substitution of one `egcd` step keeps the combination. */
  lemma BezoutStep(a: int, b: int, q: int, r: int, x: int, y: int)
    requires a == b * q + r
    ensures a * y + b * (x - q * y) == b * x + r * y
  {
    calc {
      a * y + b * (x - q * y);
      (b * q + r) * y + b * x - b * (q * y);
      { assert (b * q) * y == b * (q * y); }
      b * x + r * y;
    }
  }

  /** On naturals the first component of `egcd` is `math.gcd`. */
  lemma {:induction false} EgcdGcd(a: nat, b: nat)
    ensures Egcd(a, b).0 == Gcd(a, b)
    decreases b
  {
    if b != 0 {
      PyModPositive(a, b);
      EgcdGcd(b, a % b);
    }
  }

  /** Gcd is a common divisor, and it is 0 only for two zeros. */
  lemma {:induction false} GcdDivides(a: nat, b: nat)
    ensures Gcd(a, b) == 0 <==> a == 0 && b == 0
    ensures Gcd(a, b) > 0 ==> Divides(Gcd(a, b), a) && Divides(Gcd(a, b), b)
    decreases b
  {
    if b == 0 {
      if a > 0 {
        DividesMultiple(a, 1);
        DividesMultiple(a, 0);
      }
    } else {
      GcdDivides(b, a % b);
      var g := Gcd(a, b);
      assert a == b * (a / b) + (a % b) * 1;
      DividesLinear(g, b, a % b, a / b, 1);
    }
  }

  /** Every common divisor divides Gcd: it is the greatest one. */
  lemma GcdGreatest(a: nat, b: nat, c: int)
    requires c > 0 && Divides(c, a) && Divides(c, b)
    ensures Divides(c, Gcd(a, b))
  {
    EgcdBezout(a, b);
    EgcdGcd(a, b);
    var (g, x, y) := Egcd(a, b);
    DividesLinear(c, a, b, x, y);
  }

  // ---------------------------------------------------------------------------
  // Modular inverse

  datatype InverseError =
    | NoInverse      // gcd(e, phi) is not 1: the source raises an Exception
    | ZeroDivision   // phi is 0 and e is 1: `x % phi` raises ZeroDivisionError

  /** `mod_inverse(e, phi)`. */
  function ModInverse(e: int, phi: int): (r: Result<int, InverseError>)
    ensures r == Failure(NoInverse) <==> Egcd(e, phi).0 != 1
    ensures r == Failure(ZeroDivision) <==> Egcd(e, phi).0 == 1 && phi == 0
    ensures r.Success? && phi > 0 ==> 0 <= r.value < phi
    ensures r.Success? && phi < 0 ==> phi < r.value <= 0
  {
    var (g, x, y) := Egcd(e, phi);
    if g != 1 then Failure(NoInverse)
    else if phi == 0 then Failure(ZeroDivision)
    else Success(PyMod(x, phi))
  }

  /** The inverse is an inverse: `e * d` leaves remainder 1 modulo phi,
      which is 1 itself once phi is above 1. */
  lemma ModInverseInverts(e: int, phi: int)
    requires phi > 0 && ModInverse(e, phi).Success?
    ensures (e * ModInverse(e, phi).value) % phi == 1 % phi
    ensures phi > 1 ==> (e * ModInverse(e, phi).value) % phi == 1
  {
    EgcdBezout(e, phi);
    var (g, x, y) := Egcd(e, phi);
    InverseMod(e, phi, x, y, FloorDiv(x, phi), PyMod(x, phi));
    if phi > 1 {
      DivModUnique(1, phi, 0, 1);
    }
  }

  /** From `e * x + phi * y == 1`, the reduced coefficient `x - phi * k`
      times e is 1 plus a multiple of phi. */
  lemma InverseAlgebra(e: int, phi: int, x: int, y: int, k: int)
    requires e * x + phi * y == 1
    ensures e * (x - phi * k) == 1 + phi * (-y - e * k)
  {
    assert e * (x - phi * k) == e * x - e * (phi * k);
    assert e * (phi * k) == phi * (e * k);
    assert phi * (-y - e * k) == -(phi * y) - phi * (e * k);
  }

  lemma InverseMod(e: int, phi: int, x: int, y: int, k: int, d: int)
    requires phi > 0 && e * x + phi * y == 1 && x == phi * k + d
    ensures (e * d) % phi == 1 % phi
  {
    InverseAlgebra(e, phi, x, y, k);
    ModAddMultiple(1, phi, -y - e * k);
  }

  /** On naturals the inverse exists exactly when gcd(e, phi) is 1. */
  lemma ModInverseExists(e: nat, phi: nat)
    requires phi > 0
    ensures ModInverse(e, phi).Success? <==> Gcd(e, phi) == 1
  {
    EgcdGcd(e, phi);
  }

  // ---------------------------------------------------------------------------
  // Key generation

  datatype KeyError =
    | PrimesTooSmall   // p or q is at most 1
    | NoExponent       // no e in [2, phi) is coprime to phi

  datatype KeyPair = KeyPair(n: nat, e: nat, d: nat)

  function Phi(p: int, q: int): int
  {
    (p - 1) * (q - 1)
  }

  /** The smallest integer e >= 2 coprime to phi (phi >= 1). */
  predicate LeastExponent(e: nat, phi: nat)
  {
    2 <= e && Gcd(e, phi) == 1 && forall k :: 2 <= k < e ==> Gcd(k, phi) != 1
  }

  /** gcd(phi - 1, phi) is 1, so the search below phi succeeds once phi > 2. */
  lemma GcdPredecessor(phi: nat)
    requires phi >= 2
    ensures Gcd(phi - 1, phi) == 1
  {
    GcdDivides(phi - 1, phi);
    var g := Gcd(phi - 1, phi);
    DividesLinear(g, phi, phi - 1, 1, -1);
    assert phi * 1 + (phi - 1) * -1 == 1;
    assert 1 % g == 0;
  }

  /** The e-selection loop, and the check after it. */
  method ChooseExponent(phi: nat) returns (r: Option<nat>)
    requires phi >= 1
    ensures r.Some? ==> LeastExponent(r.value, phi)
    ensures r.None? <==> phi == 2
  {
    var e: nat := 2;
    while e < phi
      invariant 2 <= e
      invariant phi > 2 ==> e < phi
      invariant phi <= 2 ==> e == 2
      invariant forall k :: 2 <= k < e ==> Gcd(k, phi) != 1
      decreases phi - e
    {
      if Gcd(e, phi) == 1 {
        break;
      }
      if e + 1 == phi {
        GcdPredecessor(phi);
      }
      e := e + 1;
    }
    assert Gcd(2, 1) == 1 && Gcd(2, 2) == 2;
    if Gcd(e, phi) != 1 {
      return None;
    }
    r := Some(e);
  }

  /** The part of key generation after n and phi are known. */
  method KeysFor(n: nat, phi: nat) returns (r: Result<KeyPair, KeyError>)
    requires phi >= 1
    ensures r.Failure? <==> phi == 2
    ensures r.Failure? ==> r.error == NoExponent
    ensures r.Success? ==> r.value.n == n && LeastExponent(r.value.e, phi)
    ensures r.Success? ==> r.value.d < phi
    ensures r.Success? ==> (r.value.e * r.value.d) % phi == 1 % phi
  {
    var e := ChooseExponent(phi);
    if e.None? {
      return Failure(NoExponent);
    }
    ModInverseExists(e.value, phi);
    var d := ModInverse(e.value, phi);
    assert d.Success?;
    ModInverseInverts(e.value, phi);
    r := Success(KeyPair(n, e.value, d.value));
  }

  /** Key generation from the two primes read by the script. */
  method GenerateKeys(p: int, q: int) returns (r: Result<KeyPair, KeyError>)
    ensures r == Failure(PrimesTooSmall) <==> p <= 1 || q <= 1
    ensures r == Failure(NoExponent) <==> p > 1 && q > 1 && Phi(p, q) == 2
    ensures r.Success? ==> r.value.n == p * q && Phi(p, q) >= 1 && LeastExponent(r.value.e, Phi(p, q))
    ensures r.Success? ==> r.value.d < Phi(p, q)
    ensures r.Success? ==> (r.value.e * r.value.d) % Phi(p, q) == 1 % Phi(p, q)
  {
    if p <= 1 || q <= 1 {
      return Failure(PrimesTooSmall);
    }
    MultipleBound(p, q);
    MultipleBound(p - 1, q - 1);
    r := KeysFor(p * q, Phi(p, q));
  }

  // ---------------------------------------------------------------------------
  // Encryption and decryption

  function Pow(b: int, k: nat): int
  {
    if k == 0 then 1 else b * Pow(b, k - 1)
  }

  /** Python's three-argument `pow` for a positive modulus. */
  function PowMod(b: int, k: nat, m: int): (r: int)
    requires m > 0
    ensures 0 <= r < m
  {
    Pow(b, k) % m
  }

  /** The message check and `pow(msg, e, n)`: None when the message is not
      in 1 .. n-1. */
  function Encrypt(key: KeyPair, m: int): (c: Option<int>)
    requires key.n > 0 && key.e >= 0
    ensures c.Some? <==> 0 < m < key.n
    ensures c.Some? ==> 0 <= c.value < key.n
  {
    if m <= 0 || m >= key.n then None else Some(PowMod(m, key.e, key.n))
  }

  /** `pow(cipher, d, n)`. */
  function Decrypt(key: KeyPair, c: int): (m: int)
    requires key.n > 0 && key.d >= 0
    ensures 0 <= m < key.n
  {
    PowMod(c, key.d, key.n)
  }
}
