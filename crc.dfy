// Cyclic redundancy check by mod-2 long division, as the Java Sender and
// Receiver of the CRC assignment compute it. The division keeps a window
// `rem` as long as the divisor; every step drops the window's first bit
// (XOR-ing the divisor in when that bit is 1) and pulls in the next
// dividend bit.

module Crc {

  /** The Java programs keep bits in `int` arrays; the model keeps them 0 or 1. */
  type Bit = b: int | 0 <= b <= 1

  /** Java's `^` on two bits. */
  function Xor(a: Bit, b: Bit): (r: Bit)
    ensures r == 1 <==> a != b
  {
    if a == b then 0 else 1
  }

  /** Bitwise XOR of two equally long bit strings. */
  function XorBits(a: seq<Bit>, b: seq<Bit>): (r: seq<Bit>)
    requires |a| == |b|
    ensures |r| == |a|
    ensures forall i :: 0 <= i < |r| ==> (r[i] == 1 <==> a[i] != b[i])
  {
    seq(|a|, i requires 0 <= i < |a| => Xor(a[i], b[i]))
  }

  function Zeros(k: nat): (r: seq<Bit>)
    ensures |r| == k
    ensures forall i :: 0 <= i < k ==> r[i] == 0
  {
    seq(k, i => 0)
  }

  // ---------------------------------------------------------------------------
  // The division, as a specification

  /** One step of the inner for loops: the window without its first bit,
      XOR-ed with the divisor's tail when that first bit is 1. */
  function Step(r: seq<Bit>, g: seq<Bit>): (s: seq<Bit>)
    requires |r| == |g| >= 1
    ensures |s| == |g| - 1
  {
    if r[0] == 1 then XorBits(r[1..], g[1..]) else r[1..]
  }

  /** The window after every remaining dividend bit has been pulled in. */
  function Reduced(r: seq<Bit>, rest: seq<Bit>, g: seq<Bit>): (w: seq<Bit>)
    requires |r| == |g| >= 1
    ensures |w| == |g|
    decreases |rest|
  {
    if rest == [] then r else Reduced(Step(r, g) + [rest[0]], rest[1..], g)
  }

  /** The window once the whole dividend has been read. */
  function Window(d: seq<Bit>, g: seq<Bit>): (w: seq<Bit>)
    requires 1 <= |g| <= |d|
    ensures |w| == |g|
  {
    Reduced(d[..|g|], d[|g|..], g)
  }

  /** The CRC remainder: a last step on the final window. */
  function Remainder(d: seq<Bit>, g: seq<Bit>): (r: seq<Bit>)
    requires 1 <= |g| <= |d|
    ensures |r| == |g| - 1
  {
    Step(Window(d, g), g)
  }

  // ---------------------------------------------------------------------------
  // What the remainder means: it is linear in the dividend, it is the
  // identity on a short dividend, and it vanishes on shifted copies of a
  // divisor whose leading bit is 1. RemainderOfMultiple puts these together:
  // a dividend written as a GF(2) multiple of the divisor plus a shorter r
  // has remainder r, so Remainder is the remainder of polynomial division.

  lemma StepLinear(a: seq<Bit>, b: seq<Bit>, g: seq<Bit>)
    requires |a| == |b| == |g| >= 1
    ensures Step(XorBits(a, b), g) == XorBits(Step(a, g), Step(b, g))
  {
    var x := XorBits(a, b);
    assert x[1..] == XorBits(a[1..], b[1..]);
  }

  lemma {:induction false} ReducedLinear(a: seq<Bit>, ra: seq<Bit>, b: seq<Bit>, rb: seq<Bit>, g: seq<Bit>)
    requires |a| == |b| == |g| >= 1 && |ra| == |rb|
    ensures Reduced(XorBits(a, b), XorBits(ra, rb), g) == XorBits(Reduced(a, ra, g), Reduced(b, rb, g))
    decreases |ra|
  {
    if ra != [] {
      StepLinear(a, b, g);
      var na := Step(a, g) + [ra[0]];
      var nb := Step(b, g) + [rb[0]];
      var x := XorBits(ra, rb);
      assert Step(XorBits(a, b), g) + [x[0]] == XorBits(na, nb);
      assert x[1..] == XorBits(ra[1..], rb[1..]);
      ReducedLinear(na, ra[1..], nb, rb[1..], g);
    }
  }

  /** XOR-ing two dividends XORs their remainders. */
  lemma RemainderLinear(d: seq<Bit>, e: seq<Bit>, g: seq<Bit>)
    requires 1 <= |g| <= |d| && |e| == |d|
    ensures Remainder(XorBits(d, e), g) == XorBits(Remainder(d, g), Remainder(e, g))
  {
    var x := XorBits(d, e);
    assert x[..|g|] == XorBits(d[..|g|], e[..|g|]);
    assert x[|g|..] == XorBits(d[|g|..], e[|g|..]);
    ReducedLinear(d[..|g|], d[|g|..], e[..|g|], e[|g|..], g);
    StepLinear(Window(d, g), Window(e, g), g);
  }

  /** A leading 0 does not change the remainder. */
  lemma LeadingZero(d: seq<Bit>, g: seq<Bit>)
    requires 1 <= |g| <= |d|
    ensures Remainder([0] + d, g) == Remainder(d, g)
  {
    var n := |g|;
    var z := [0] + d;
    assert z[..n] == [0] + d[..n - 1];
    assert Step(z[..n], g) + [z[n]] == d[..n];
    assert z[n..][1..] == d[n..];
  }

  /** A dividend shorter than the divisor's degree, after leading zeros, is
      its own remainder. */
  lemma {:induction false} RemainderOfShort(k: nat, r: seq<Bit>, g: seq<Bit>)
    requires k >= 1 && |g| >= 1 && |r| == |g| - 1
    ensures Remainder(Zeros(k) + r, g) == r
    decreases k
  {
    if k == 1 {
      assert (Zeros(1) + r)[..|g|] == [0] + r;
      assert (Zeros(1) + r)[|g|..] == [];
      assert ([0] + r)[1..] == r;
    } else {
      assert Zeros(k) + r == [0] + (Zeros(k - 1) + r);
      LeadingZero(Zeros(k - 1) + r, g);
      RemainderOfShort(k - 1, r, g);
    }
  }

  lemma {:induction false} ReducedZeros(rest: seq<Bit>, g: seq<Bit>)
    requires |g| >= 1
    requires forall i :: 0 <= i < |rest| ==> rest[i] == 0
    ensures Reduced(Zeros(|g|), rest, g) == Zeros(|g|)
    decreases |rest|
  {
    if rest != [] {
      assert Step(Zeros(|g|), g) + [rest[0]] == Zeros(|g|);
      ReducedZeros(rest[1..], g);
    }
  }

  /** A divisor with leading bit 1, followed by zeros, leaves no remainder. */
  lemma RemainderOfDivisor(g: seq<Bit>, k: nat)
    requires |g| >= 1 && g[0] == 1
    ensures Remainder(g + Zeros(k), g) == Zeros(|g| - 1)
  {
    var d := g + Zeros(k);
    assert d[..|g|] == g;
    assert d[|g|..] == Zeros(k);
    assert Step(g, g) + [0] == Zeros(|g|);
    if k == 0 {
      assert Step(g, g) == Zeros(|g| - 1);
    } else {
      assert Zeros(k)[1..] == Zeros(k - 1);
      ReducedZeros(Zeros(k - 1), g);
      assert Step(Zeros(|g|), g) == Zeros(|g| - 1);
    }
  }

  /** Adding a shifted multiple of the divisor keeps the remainder. */
  lemma AddMultiple(d: seq<Bit>, j: nat, k: nat, g: seq<Bit>)
    requires |g| >= 1 && g[0] == 1 && |d| == j + |g| + k
    ensures Remainder(XorBits(d, Zeros(j) + g + Zeros(k)), g) == Remainder(d, g)
  {
    var m := Zeros(j) + g + Zeros(k);
    RemainderLinear(d, m, g);
    RemainderOfDivisor(g, k);
    ShiftedRemainder(j, g + Zeros(k), g);
    assert Zeros(j) + (g + Zeros(k)) == m;
    assert XorBits(Remainder(d, g), Zeros(|g| - 1)) == Remainder(d, g);
  }

  /** Leading zeros in front of a long dividend do not change the remainder. */
  lemma {:induction false} ShiftedRemainder(j: nat, d: seq<Bit>, g: seq<Bit>)
    requires 1 <= |g| <= |d|
    ensures Remainder(Zeros(j) + d, g) == Remainder(d, g)
    decreases j
  {
    if j > 0 {
      assert Zeros(j) + d == [0] + (Zeros(j - 1) + d);
      LeadingZero(Zeros(j - 1) + d, g);
      ShiftedRemainder(j - 1, d, g);
    } else {
      assert Zeros(0) + d == d;
    }
  }

  lemma XorSelf(a: seq<Bit>)
    ensures XorBits(a, a) == Zeros(|a|)
  {
  }

  /** The GF(2) product of the quotient q and the divisor g: the XOR of a
      copy of g shifted to every position where q has a 1. */
  function Multiple(q: seq<Bit>, g: seq<Bit>): (m: seq<Bit>)
    requires |g| >= 1
    ensures |m| == |q| + |g| - 1
    decreases |q|
  {
    if q == [] then Zeros(|g| - 1)
    else XorBits(Lead(q[0], |q|, g), [0] + Multiple(q[1..], g))
  }

  /** The copy of g that the quotient's leading bit b contributes. */
  function Lead(b: Bit, n: nat, g: seq<Bit>): (t: seq<Bit>)
    requires n >= 1 && |g| >= 1
    ensures |t| == n + |g| - 1
  {
    if b == 1 then g + Zeros(n - 1) else Zeros(n + |g| - 1)
  }

  /** XOR-ing a word that starts with 0 commutes with prefixing 0. */
  lemma XorShifted(t: seq<Bit>, m: seq<Bit>, y: seq<Bit>)
    requires |t| == |m| + 1 && |m| == |y|
    ensures XorBits(XorBits(t, [0] + m), [0] + y) == XorBits([0] + XorBits(m, y), t)
  {
    var lhs := XorBits(XorBits(t, [0] + m), [0] + y);
    var rhs := XorBits([0] + XorBits(m, y), t);
    forall i | 0 <= i < |lhs|
      ensures lhs[i] == rhs[i]
    {
      if i > 0 {
        assert ([0] + m)[i] == m[i - 1] && ([0] + y)[i] == y[i - 1];
        assert ([0] + XorBits(m, y))[i] == XorBits(m, y)[i - 1];
      }
    }
  }

  /** Splitting off the quotient's leading bit. */
  lemma SplitLead(q: seq<Bit>, r: seq<Bit>, g: seq<Bit>)
    requires |q| >= 1 && |g| >= 1 && |r| == |g| - 1
    ensures XorBits(Multiple(q, g), Zeros(|q|) + r)
         == XorBits([0] + XorBits(Multiple(q[1..], g), Zeros(|q| - 1) + r), Lead(q[0], |q|, g))
  {
    assert Zeros(|q|) + r == [0] + (Zeros(|q| - 1) + r);
    XorShifted(Lead(q[0], |q|, g), Multiple(q[1..], g), Zeros(|q| - 1) + r);
  }

  /** XOR-ing in the leading bit's copy of g keeps the remainder. */
  lemma DropLead(d: seq<Bit>, b: Bit, n: nat, g: seq<Bit>)
    requires n >= 1 && |g| >= 1 && g[0] == 1 && |d| == n + |g| - 1
    ensures Remainder(XorBits(d, Lead(b, n, g)), g) == Remainder(d, g)
  {
    if b == 1 {
      AddMultiple(d, 0, n - 1, g);
      assert Zeros(0) + g + Zeros(n - 1) == Lead(b, n, g);
    } else {
      XorZeros(d);
    }
  }

  /** The quotient 0: a zero followed by r has remainder r. */
  lemma RemainderOfLast(r: seq<Bit>, g: seq<Bit>)
    requires |g| >= 1 && |r| == |g| - 1
    ensures Remainder([0] + XorBits(Multiple([], g), Zeros(0) + r), g) == r
  {
    assert XorBits(Zeros(|g| - 1), Zeros(0) + r) == r;
    assert [0] + r == Zeros(1) + r;
    RemainderOfShort(1, r, g);
  }

  /** The remainder of q * g + r, for r shorter than g, is r. */
  lemma {:induction false} RemainderOfMultiple(q: seq<Bit>, r: seq<Bit>, g: seq<Bit>)
    requires |q| >= 1 && |g| >= 1 && g[0] == 1 && |r| == |g| - 1
    ensures Remainder(XorBits(Multiple(q, g), Zeros(|q|) + r), g) == r
    decreases |q|
  {
    var rest := XorBits(Multiple(q[1..], g), Zeros(|q| - 1) + r);
    if |q| == 1 {
      assert q[1..] == [];
      RemainderOfLast(r, g);
    } else {
      RemainderOfMultiple(q[1..], r, g);
      LeadingZero(rest, g);
    }
    SplitLead(q, r, g);
    DropLead([0] + rest, q[0], |q|, g);
  }

  lemma XorZeros(a: seq<Bit>)
    ensures XorBits(a, Zeros(|a|)) == a
  {
  }

  // ---------------------------------------------------------------------------
  // Sender

  /** The dividend: the dataword followed by one zero less than the divisor has bits. */
  function Dividend(data: seq<Bit>, g: seq<Bit>): (d: seq<Bit>)
    requires |g| >= 1
    ensures |d| == |data| + |g| - 1
    ensures d[..|data|] == data && forall i :: |data| <= i < |d| ==> d[i] == 0
  {
    data + Zeros(|g| - 1)
  }

  /** The codeword: the dataword followed by its CRC bits. */
  function Codeword(data: seq<Bit>, g: seq<Bit>): (c: seq<Bit>)
    requires |data| >= 1 && |g| >= 1
    ensures |c| == |data| + |g| - 1
    ensures c[..|data|] == data
  {
    data + Remainder(Dividend(data, g), g)
  }

  /** Appending r to a word is XOR-ing zeros-then-r onto the word padded with zeros. */
  lemma AppendAsXor(a: seq<Bit>, r: seq<Bit>)
    ensures a + r == XorBits(a + Zeros(|r|), Zeros(|a|) + r)
  {
    var x := XorBits(a + Zeros(|r|), Zeros(|a|) + r);
    forall i | 0 <= i < |x|
      ensures x[i] == (a + r)[i]
    {
      if i < |a| {
        assert (Zeros(|a|) + r)[i] == 0;
      } else {
        assert (a + Zeros(|r|))[i] == 0;
      }
    }
  }

  /** The receiver finds no remainder in a codeword built by the sender. */
  lemma CodewordAccepted(data: seq<Bit>, g: seq<Bit>)
    requires |data| >= 1 && |g| >= 1
    ensures Remainder(Codeword(data, g), g) == Zeros(|g| - 1)
  {
    var d := Dividend(data, g);
    var r := Remainder(d, g);
    var e := Zeros(|data|) + r;
    AppendAsXor(data, r);
    RemainderLinear(d, e, g);
    RemainderOfShort(|data|, r, g);
    XorSelf(r);
  }

  /** The inner for loops of crcDivision: shift the window left by one,
      XOR-ing in the divisor when the bit shifted out is 1. The last cell
      keeps its old value. */
  method ShiftWindow(rem: array<Bit>, divisor: array<Bit>)
    requires rem.Length == divisor.Length >= 1 && rem != divisor
    modifies rem
    ensures rem[..rem.Length - 1] == Step(old(rem[..]), divisor[..])
    ensures rem[rem.Length - 1] == old(rem[rem.Length - 1])
  {
    var n := rem.Length;
    ghost var r0 := rem[..];
    if rem[0] == 1 {
      for i := 1 to n
        invariant forall k :: 0 <= k < i - 1 ==> rem[k] == Xor(r0[k + 1], divisor[k + 1])
        invariant forall k :: i - 1 <= k < n ==> rem[k] == r0[k]
      {
        rem[i - 1] := Xor(rem[i], divisor[i]);
      }
    } else {
      for i := 1 to n
        invariant forall k :: 0 <= k < i - 1 ==> rem[k] == r0[k + 1]
        invariant forall k :: i - 1 <= k < n ==> rem[k] == r0[k]
      {
        rem[i - 1] := rem[i];
      }
    }
  }

  /** Pulling dividend bit `curr` into the shifted window leaves the final
      window unchanged. */
  lemma PullBit(before: seq<Bit>, after: seq<Bit>, d: seq<Bit>, curr: nat, g: seq<Bit>)
    requires |before| == |after| == |g| >= 1 && curr < |d|
    requires after[..|g| - 1] == Step(before, g) && after[|g| - 1] == d[curr]
    ensures Reduced(before, d[curr..], g) == Reduced(after, d[curr + 1..], g)
  {
    assert after == Step(before, g) + [d[curr]];
    assert d[curr..][1..] == d[curr + 1..];
  }

  /** crcDivision of Sender.java (and its copy in Receiver.java). */
  method CrcDivision(dividend: array<Bit>, divisor: array<Bit>) returns (rem: array<Bit>)
    requires 1 <= divisor.Length <= dividend.Length
    ensures rem[..] == Remainder(dividend[..], divisor[..])
  {
    var n := divisor.Length;
    var curr := n;
    rem := new Bit[n](i requires 0 <= i < n reads dividend => dividend[i]);
    assert rem[..] == dividend[..][..n];
    assert dividend[..][curr..] == dividend[curr..];
    while curr <= dividend.Length
      invariant n <= curr <= dividend.Length
      invariant rem.Length == n && rem != divisor && rem != dividend
      invariant Window(dividend[..], divisor[..]) == Reduced(rem[..], dividend[curr..], divisor[..])
      decreases dividend.Length - curr
    {
      ghost var before := rem[..];
      ShiftWindow(rem, divisor);
      if curr < dividend.Length {
        ghost var shifted := rem[..n - 1];
        rem[n - 1] := dividend[curr];
        assert rem[..n - 1] == shifted;
        PullBit(before, rem[..], dividend[..], curr, divisor[..]);
        curr := curr + 1;
      } else {
        assert dividend[curr..] == [];
        rem := CopyOf(rem, n - 1);
        break;
      }
    }
  }

  /** Arrays.copyOf: a fresh array with the first `len` elements. */
  method CopyOf(a: array<Bit>, len: nat) returns (b: array<Bit>)
    requires len <= a.Length
    ensures b[..] == a[..len]
  {
    b := new Bit[len](i requires 0 <= i < len reads a => a[i]);
  }

  // ---------------------------------------------------------------------------
  // Receiver

  /** The receiver's verdict: `error` is raised exactly when some remainder
      bit is not 0. */
  method CheckCodeword(codeword: array<Bit>, divisor: array<Bit>) returns (error: bool)
    requires 1 <= divisor.Length <= codeword.Length
    ensures error <==> Remainder(codeword[..], divisor[..]) != Zeros(divisor.Length - 1)
    ensures error <==>
      exists i :: 0 <= i < divisor.Length - 1 && Remainder(codeword[..], divisor[..])[i] != 0
  {
    var remainder := CrcDivision(codeword, divisor);
    error := false;
    var k := 0;
    while k < remainder.Length
      invariant 0 <= k <= remainder.Length
      invariant !error
      invariant forall i :: 0 <= i < k ==> remainder[i] == 0
    {
      if remainder[k] != 0 {
        error := true;
        break;
      }
      k := k + 1;
    }
    if !error {
      assert remainder[..] == Zeros(divisor.Length - 1);
    }
  }
}
