// The C++ CRC sender. Its main loop is the Java one, but its last step sets
// the window's last cell to 0 and erases the first cell, so it returns the
// remainder without its first bit, followed by a 0.

module CrcCpp {
  import opened Crc

  /** A by-value vector copied into a fresh array. */
  method ToArray(s: seq<Bit>) returns (a: array<Bit>)
    ensures fresh(a) && a[..] == s
  {
    a := new Bit[|s|](i requires 0 <= i < |s| => s[i]);
  }

  /** The while loop over `curr` shared by both versions below: on return
      `rem` holds the final window. */
  method ReadDividend(dividend: seq<Bit>, g: array<Bit>) returns (rem: array<Bit>)
    requires 1 <= g.Length <= |dividend|
    ensures fresh(rem) && rem.Length == g.Length
    ensures rem[..] == Window(dividend, g[..])
  {
    var n := g.Length;
    var m := |dividend|;
    rem := ToArray(dividend[..n]);
    var curr := n;
    while curr < m
      invariant n <= curr <= m
      invariant rem.Length == n
      invariant Window(dividend, g[..]) == Reduced(rem[..], dividend[curr..], g[..])
      decreases m - curr
    {
      ghost var before := rem[..];
      ShiftWindow(rem, g);
      ghost var shifted := rem[..n - 1];
      rem[n - 1] := dividend[curr];
      assert rem[..n - 1] == shifted;
      PullBit(before, rem[..], dividend, curr, g[..]);
      curr := curr + 1;
    }
  }

  /** crcDivision as written: the final step zeroes the last cell and the
      first cell is erased. */
  method CrcDivision(dividend: seq<Bit>, divisor: seq<Bit>) returns (rem: seq<Bit>)
    requires 1 <= |divisor| <= |dividend|
    ensures rem == (Remainder(dividend, divisor) + [0])[1..]
    ensures |rem| == |divisor| - 1
    ensures |divisor| >= 2 ==> rem[|rem| - 1] == 0
  {
    var n := |divisor|;
    var g := ToArray(divisor);
    var buf := ReadDividend(dividend, g);
    ShiftWindow(buf, g);
    buf[n - 1] := 0;
    assert buf[..] == Remainder(dividend, divisor) + [0];
    rem := buf[1..];
  }

  /** One step of Reduced, unfolded. */
  lemma ReducedUnfold(r: seq<Bit>, rest: seq<Bit>, g: seq<Bit>)
    requires |r| == |g| >= 1 && rest != []
    ensures Reduced(r, rest, g) == Reduced(Step(r, g) + [rest[0]], rest[1..], g)
  {
  }

  /** Dividing 1001000 by 1011 leaves 110. */
  lemma ExampleRemainder()
    ensures Remainder([1, 0, 0, 1, 0, 0, 0], [1, 0, 1, 1]) == [1, 1, 0]
  {
    var g: seq<Bit> := [1, 0, 1, 1];
    var d: seq<Bit> := [1, 0, 0, 1, 0, 0, 0];
    assert d[..4] == [1, 0, 0, 1] && d[4..] == [0, 0, 0];
    assert Step([1, 0, 0, 1], g) + [0] == [0, 1, 0, 0];
    assert Step([0, 1, 0, 0], g) + [0] == [1, 0, 0, 0];
    assert Step([1, 0, 0, 0], g) + [0] == [0, 1, 1, 0];
    assert Step([0, 1, 1, 0], g) == [1, 1, 0];
    ReducedUnfold([1, 0, 0, 1], [0, 0, 0], g);
    assert [0, 0, 0][1..] == [0, 0];
    ReducedUnfold([0, 1, 0, 0], [0, 0], g);
    assert [0, 0][1..] == [0];
    ReducedUnfold([1, 0, 0, 0], [0], g);
    assert [0][1..] == [];
    assert Window(d, g) == [0, 1, 1, 0];
  }

  /** Dividing 1001100 by 1011 leaves 010, which is not zero. */
  lemma ExampleCodewordRejected()
    ensures Remainder([1, 0, 0, 1, 1, 0, 0], [1, 0, 1, 1]) == [0, 1, 0]
  {
    var g: seq<Bit> := [1, 0, 1, 1];
    var c: seq<Bit> := [1, 0, 0, 1, 1, 0, 0];
    assert c[..4] == [1, 0, 0, 1] && c[4..] == [1, 0, 0];
    assert Step([1, 0, 0, 1], g) + [1] == [0, 1, 0, 1];
    assert Step([0, 1, 0, 1], g) + [0] == [1, 0, 1, 0];
    assert Step([1, 0, 1, 0], g) + [0] == [0, 0, 1, 0];
    assert Step([0, 0, 1, 0], g) == [0, 1, 0];
    ReducedUnfold([1, 0, 0, 1], [1, 0, 0], g);
    assert [1, 0, 0][1..] == [0, 0];
    ReducedUnfold([0, 1, 0, 1], [0, 0], g);
    assert [0, 0][1..] == [0];
    ReducedUnfold([1, 0, 1, 0], [0], g);
    assert [0][1..] == [];
    assert Window(c, g) == [0, 0, 1, 0];
  }

  /** The data 1001 and divisor 1011: the true remainder is 110, the C++
      division gives 100, and the receiver rejects the codeword 1001100
      that the C++ sender builds from it. */
  lemma AsWrittenRejected()
    ensures Remainder(Dividend([1, 0, 0, 1], [1, 0, 1, 1]), [1, 0, 1, 1]) == [1, 1, 0]
    ensures (Remainder(Dividend([1, 0, 0, 1], [1, 0, 1, 1]), [1, 0, 1, 1]) + [0])[1..] == [1, 0, 0]
    ensures Remainder([1, 0, 0, 1] + [1, 0, 0], [1, 0, 1, 1]) != Zeros(3)
  {
    assert Dividend([1, 0, 0, 1], [1, 0, 1, 1]) == [1, 0, 0, 1, 0, 0, 0];
    assert [1, 0, 0, 1] + [1, 0, 0] == [1, 0, 0, 1, 1, 0, 0];
    ExampleRemainder();
    ExampleCodewordRejected();
    assert Zeros(3)[1] == 0;
  }

  /** crcDivision as evidently intended: after the final step the window's
      stale last cell is dropped, which gives the true remainder. */
  method CrcDivisionFixed(dividend: seq<Bit>, divisor: seq<Bit>) returns (rem: seq<Bit>)
    requires 1 <= |divisor| <= |dividend|
    ensures rem == Remainder(dividend, divisor)
  {
    var n := |divisor|;
    var g := ToArray(divisor);
    var buf := ReadDividend(dividend, g);
    ShiftWindow(buf, g);
    rem := buf[..n - 1];
  }

  /** The first push_back loop of main: `k` zeros after the dataword. */
  method PadZeros(dataword: seq<Bit>, k: nat) returns (dividend: seq<Bit>)
    ensures dividend == dataword + Zeros(k)
  {
    dividend := dataword;
    for i := 0 to k
      invariant dividend == dataword + Zeros(i)
    {
      assert Zeros(i) + [0] == Zeros(i + 1);
      dividend := dividend + [0];
    }
  }

  /** The second push_back loop of main: the bits of `tail` after `word`. */
  method AppendBits(word: seq<Bit>, tail: seq<Bit>) returns (r: seq<Bit>)
    ensures r == word + tail
  {
    r := word;
    for i := 0 to |tail|
      invariant r == word + tail[..i]
    {
      assert tail[..i + 1] == tail[..i] + [tail[i]];
      r := r + [tail[i]];
    }
    assert tail[..|tail|] == tail;
  }

  /** main as written: the dividend is the dataword with `dLength - 1`
      zeros pushed back, and the codeword is the dataword with what
      crcDivision returns pushed back, which is the true remainder shifted
      by one bit (AsWrittenRejected shows a codeword it spoils). */
  method BuildCodeword(dataword: seq<Bit>, divisor: seq<Bit>) returns (remainder: seq<Bit>, codeword: seq<Bit>)
    requires |dataword| >= 1 && |divisor| >= 1
    ensures remainder == (Remainder(Dividend(dataword, divisor), divisor) + [0])[1..]
    ensures codeword == dataword + remainder
  {
    var dividend := PadZeros(dataword, |divisor| - 1);
    remainder := CrcDivision(dividend, divisor);
    codeword := AppendBits(dataword, remainder);
  }

  /** main with the corrected division: the codeword is the one the Java
      sender builds, and the receiver accepts it. */
  method BuildCodewordFixed(dataword: seq<Bit>, divisor: seq<Bit>) returns (remainder: seq<Bit>, codeword: seq<Bit>)
    requires |dataword| >= 1 && |divisor| >= 1
    ensures remainder == Remainder(Dividend(dataword, divisor), divisor)
    ensures codeword == Codeword(dataword, divisor)
    ensures Remainder(codeword, divisor) == Zeros(|divisor| - 1)
  {
    var dividend := PadZeros(dataword, |divisor| - 1);
    remainder := CrcDivisionFixed(dividend, divisor);
    codeword := AppendBits(dataword, remainder);
    CodewordAccepted(dataword, divisor);
  }
}
