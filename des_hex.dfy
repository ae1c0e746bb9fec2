/** The text side of Assignment_7/DES.py: `hex_to_bin`, `bin_to_hex` and the
    computation of the main program (hex key and plaintext in, hex ciphertext
    and decrypted text out). */
module DesHex {
  import opened Wrappers
  import opened Des
  import opened Ascii

  // ---------------------------------------------------------------------------
  // Digits and strings

  predicate IsHexDigit(c: char) {
    '0' <= c <= '9' || 'a' <= c <= 'f' || 'A' <= c <= 'F'
  }

  /** The strings `int(s, 16)` accepts in this model: one or more hex digits. */
  predicate IsHexString(s: string) {
    |s| > 0 && forall i :: 0 <= i < |s| ==> IsHexDigit(s[i])
  }

  function DigitValue(c: char): (d: nat)
    requires IsHexDigit(c)
    ensures d < 16
  {
    if c <= '9' then c as nat - '0' as nat
    else if c <= 'F' then c as nat - 'A' as nat + 10
    else c as nat - 'a' as nat + 10
  }

  /** The lower-case digit `hex()` writes for d. */
  function LowerDigit(d: nat): (c: char)
    requires d < 16
    ensures IsHexDigit(c) && DigitValue(c) == d
  {
    if d < 10 then ('0' as nat + d) as char else ('a' as nat + d - 10) as char
  }

  /** `str.zfill(width)` on an unsigned string: pads with `zero` on the left up
      to `width` and leaves longer strings as they are. */
  function ZFill<T>(s: seq<T>, zero: T, width: nat): (r: seq<T>)
    ensures |r| == if |s| < width then width else |s|
  {
    if |s| < width then seq(width - |s|, _ => zero) + s else s
  }

  /** `int(s, 16)`: the value of a hex string, most significant digit first. */
  function HexValue(s: string): (v: nat)
    requires forall i :: 0 <= i < |s| ==> IsHexDigit(s[i])
    ensures v < Pow16(|s|)
  {
    if s == [] then 0 else 16 * HexValue(s[..|s| - 1]) + DigitValue(s[|s| - 1])
  }

  function Pow16(n: nat): (p: nat)
    ensures p >= 1
  {
    if n == 0 then 1 else 16 * Pow16(n - 1)
  }

  lemma {:induction false} Pow16IsPow2(n: nat)
    ensures Pow16(n) == Pow2(4 * n)
  {
    if n > 0 {
      Pow16IsPow2(n - 1);
      var k := 4 * (n - 1);
      assert Pow2(k + 4) == 2 * Pow2(k + 3) == 4 * Pow2(k + 2) == 8 * Pow2(k + 1) == 16 * Pow2(k);
    }
  }

  /** `bin(v)[2:]`: the shortest binary numeral of v ("0" for zero). */
  function ToBinary(v: nat): (r: Bits)
    ensures |r| >= 1
  {
    if v < 2 then [if v == 1 then '1' else '0']
    else ToBinary(v / 2) + [if v % 2 == 1 then '1' else '0']
  }

  /** `hex(v)[2:]`: the shortest lower-case hex numeral of v ("0" for zero). */
  function ToHex(v: nat): (r: string)
    ensures |r| >= 1
  {
    if v < 16 then [LowerDigit(v)] else ToHex(v / 16) + [LowerDigit(v % 16)]
  }

  /** The n low hex digits of v, lower case, most significant first. */
  function FixedHex(v: nat, n: nat): (r: string)
    ensures |r| == n
    ensures forall i :: 0 <= i < n ==> IsHexDigit(r[i])
  {
    if n == 0 then [] else FixedHex(v / 16, n - 1) + [LowerDigit(v % 16)]
  }

  // ---------------------------------------------------------------------------
  // The two converters

  /** hex_to_bin: `bin(int(s, 16))[2:].zfill(4 * len(s))`; `int` raises on
      an empty or non-hex string, which is None here. */
  function HexToBin(s: string): (r: Option<Bits>)
    ensures r.Some? <==> IsHexString(s)
  {
    if IsHexString(s) then Some(ZFill(ToBinary(HexValue(s)), '0', 4 * |s|)) else None
  }

  /** bin_to_hex: `hex(int(b, 2))[2:].upper().zfill(len(b) // 4)`; `int`
      raises on the empty string, which is None here. */
  function BinToHex(b: Bits): (r: Option<string>)
    ensures r.Some? <==> b != []
  {
    if b == [] then None else Some(ZFill(Upper(ToHex(BitsValue(b))), '0', |b| / 4))
  }

  // ---------------------------------------------------------------------------
  // Lemmas

  lemma {:induction false} FixedBitsZero(n: nat)
    ensures FixedBits(0, n) == seq(n, _ => '0')
  {
    if n > 0 {
      FixedBitsZero(n - 1);
    }
  }

  lemma {:induction false} FixedHexZero(n: nat)
    ensures FixedHex(0, n) == seq(n, _ => '0')
  {
    if n > 0 {
      FixedHexZero(n - 1);
    }
  }

  /** The shortest numeral fits in any width that holds the value. */
  lemma {:induction false} ToBinaryFits(v: nat, w: nat)
    requires 1 <= w && v < Pow2(w)
    ensures |ToBinary(v)| <= w
  {
    if v >= 2 {
      assert w != 1 by {
        assert Pow2(1) == 2;
      }
      ToBinaryFits(v / 2, w - 1);
    }
  }

  /** Zero-filling the shortest binary numeral to a width that holds the value
      gives the fixed-width numeral. */
  lemma {:induction false} ZFillBinary(v: nat, w: nat)
    requires 1 <= w && v < Pow2(w)
    ensures ZFill(ToBinary(v), '0', w) == FixedBits(v, w)
  {
    if v >= 2 {
      var x: Bit := if v % 2 == 1 then '1' else '0';
      assert w >= 2 && v / 2 < Pow2(w - 1) by {
        assert Pow2(1) == 2;
      }
      assert ToBinary(v) == ToBinary(v / 2) + [x];
      assert FixedBits(v, w) == FixedBits(v / 2, w - 1) + [x];
      ZFillBinary(v / 2, w - 1);
      ToBinaryFits(v / 2, w - 1);
      ZFillSnoc(ToBinary(v / 2), x, '0', w - 1);
      calc {
        ZFill(ToBinary(v), '0', w);
        ZFill(ToBinary(v / 2) + [x], '0', (w - 1) + 1);
        ZFill(ToBinary(v / 2), '0', w - 1) + [x];
        FixedBits(v / 2, w - 1) + [x];
      }
    } else {
      ZFillDigit(v, w);
    }
  }

  /** The base case of ZFillBinary: a single binary digit. */
  lemma ZFillDigit(v: nat, w: nat)
    requires 1 <= w && v < 2
    ensures ZFill(ToBinary(v), '0', w) == FixedBits(v, w)
  {
    var bit: Bit := if v == 1 then '1' else '0';
    var z, f := ZFill(ToBinary(v), '0', w), FixedBits(v, w);
    assert ToBinary(v) == [bit];
    FixedBitsZero(w - 1);
    assert f == FixedBits(0, w - 1) + [bit];
    forall i | 0 <= i < w
      ensures z[i] == f[i]
    {
      ZFillAt(ToBinary(v), '0', w, i);
    }
  }

  /** Zero-filling a string with one more element at the end, to one more
      place, fills the same zeros in front. */
  lemma ZFillSnoc<T>(s: seq<T>, x: T, zero: T, width: nat)
    requires |s| <= width
    ensures ZFill(s + [x], zero, width + 1) == ZFill(s, zero, width) + [x]
  {
  }

  lemma {:induction false} ToHexFits(v: nat, n: nat)
    requires 1 <= n && v < Pow16(n)
    ensures |ToHex(v)| <= n
  {
    if v >= 16 {
      ToHexFits(v / 16, n - 1);
    }
  }

  lemma {:induction false} ZFillHex(v: nat, n: nat)
    requires 1 <= n && v < Pow16(n)
    ensures ZFill(ToHex(v), '0', n) == FixedHex(v, n)
  {
    if v >= 16 {
      var x := LowerDigit(v % 16);
      assert n >= 2 && v / 16 < Pow16(n - 1);
      assert ToHex(v) == ToHex(v / 16) + [x];
      assert FixedHex(v, n) == FixedHex(v / 16, n - 1) + [x];
      ZFillHex(v / 16, n - 1);
      ToHexFits(v / 16, n - 1);
      ZFillSnoc(ToHex(v / 16), x, '0', n - 1);
    } else {
      FixedHexZero(n - 1);
      assert FixedHex(v, n) == seq(n - 1, _ => '0') + [LowerDigit(v)];
    }
  }

  /** Upper-casing commutes with zero-filling. */
  lemma UpperZFill(s: string, n: nat)
    ensures Upper(ZFill(s, '0', n)) == ZFill(Upper(s), '0', n)
  {
    var z, y := ZFill(s, '0', n), ZFill(Upper(s), '0', n);
    forall i | 0 <= i < |z|
      ensures Upper(z)[i] == y[i]
    {
      ZFillAt(s, '0', n, i);
      ZFillAt(Upper(s), '0', n, i);
    }
  }

  /** One cell of a zero-filled sequence: a pad zero, or a cell of s. */
  lemma ZFillAt<T>(s: seq<T>, zero: T, width: nat, i: nat)
    requires i < |ZFill(s, zero, width)|
    ensures var pad := |ZFill(s, zero, width)| - |s|;
      ZFill(s, zero, width)[i] == if i < pad then zero else s[i - pad]
  {
    if |s| < width {
      var p := seq(width - |s|, _ => zero);
      assert ZFill(s, zero, width) == p + s;
    }
  }

  /** Writing a hex string's value back with as many digits gives the string
      again, up to case. */
  lemma {:induction false} FixedHexOfValue(s: string)
    requires forall i :: 0 <= i < |s| ==> IsHexDigit(s[i])
    ensures Upper(FixedHex(HexValue(s), |s|)) == Upper(s)
  {
    if s != [] {
      var front, last := s[..|s| - 1], s[|s| - 1];
      var v, d := HexValue(s), LowerDigit(DigitValue(last));
      var a := FixedHex(HexValue(front), |front|);
      assert Upper(a) == Upper(front) by {
        FixedHexOfValue(front);
      }
      assert FixedHex(v, |s|) == a + [d] by {
        DivMod16(HexValue(front), DigitValue(last));
      }
      assert Upper(a + [d]) == Upper(front) + [UpperChar(last)] by {
        UpperSnoc(a, d);
        RewriteDigit(last);
      }
      assert Upper(s) == Upper(front) + [UpperChar(last)] by {
        assert s == front + [last];
        UpperSnoc(front, last);
      }
    }
  }

  lemma DivMod16(a: nat, d: nat)
    requires d < 16
    ensures (16 * a + d) / 16 == a && (16 * a + d) % 16 == d
  {
  }

  lemma Halve(q: nat, a: nat, d: nat)
    ensures (2 * (q * a) + d) / 2 == q * a + d / 2
    ensures (2 * (q * a) + d) % 2 == d % 2
  {
    var x := q * a;
    assert 2 * x + d == 2 * (x + d / 2) + d % 2;
  }

  /** The bits of a * 2^w + d, for d below 2^w, are those of a then those of d. */
  lemma {:induction false} FixedBitsSplit(a: nat, d: nat, n: nat, w: nat)
    requires d < Pow2(w)
    ensures FixedBits(Pow2(w) * a + d, n + w) == FixedBits(a, n) + FixedBits(d, w)
    decreases w
  {
    if w == 0 {
      assert d == 0 && Pow2(0) * a == a;
    } else {
      var q := Pow2(w - 1);
      assert Pow2(w) * a == 2 * (q * a);
      Halve(q, a, d);
      FixedBitsSplit(a, d / 2, n, w - 1);
    }
  }

  /** The first 4k bits of a hex string are the bits of its first k digits. */
  lemma {:induction false} HexBitsPrefix(s: string, k: nat)
    requires forall i :: 0 <= i < |s| ==> IsHexDigit(s[i])
    requires k <= |s|
    ensures FixedBits(HexValue(s), 4 * |s|)[..4 * k] == FixedBits(HexValue(s[..k]), 4 * k)
    decreases |s|
  {
    if k < |s| {
      var front := s[..|s| - 1];
      var a, d := HexValue(front), DigitValue(s[|s| - 1]);
      var head := FixedBits(a, 4 * |front|);
      assert HexValue(s) == Pow2(4) * a + d by {
        assert Pow2(4) == 16;
      }
      FixedBitsSplit(a, d, 4 * |front|, 4);
      assert FixedBits(HexValue(s), 4 * |s|) == head + FixedBits(d, 4);
      assert (head + FixedBits(d, 4))[..4 * k] == head[..4 * k];
      HexBitsPrefix(front, k);
      assert front[..k] == s[..k];
    } else {
      assert s[..k] == s;
    }
  }

  /** hex_to_bin of a prefix of k digits is the first 4k bits. */
  lemma HexToBinPrefix(s: string, k: nat)
    requires IsHexString(s) && 1 <= k <= |s|
    ensures IsHexString(s[..k])
    ensures HexToBin(s).value[..4 * k] == HexToBin(s[..k]).value
  {
    var p := s[..k];
    assert forall i :: 0 <= i < |p| ==> IsHexDigit(p[i]) by {
      forall i | 0 <= i < |p|
        ensures IsHexDigit(p[i])
      {
        assert p[i] == s[i];
      }
    }
    HexToBinMeaning(s);
    HexToBinMeaning(p);
    HexBitsPrefix(s, k);
  }

  /** The decrypted block printed in hex: the first 16 digits of the
      plaintext, upper-cased. */
  lemma DecryptedHex(plainHex: string, decrypted: Bits)
    requires IsHexString(plainHex) && |plainHex| >= 16
    requires decrypted == HexToBin(plainHex).value[..64]
    ensures BinToHex(decrypted) == Some(Upper(plainHex[..16]))
  {
    HexToBinPrefix(plainHex, 16);
    HexRoundTrip(plainHex[..16]);
  }

  /** Writing a digit's value back gives the digit, up to case. */
  lemma RewriteDigit(c: char)
    requires IsHexDigit(c)
    ensures UpperChar(LowerDigit(DigitValue(c))) == UpperChar(c)
  {
  }

  /** Upper-casing a digit keeps its value. */
  lemma UpperDigitValue(d: nat)
    requires d < 16
    ensures IsHexDigit(UpperChar(LowerDigit(d))) && DigitValue(UpperChar(LowerDigit(d))) == d
  {
  }

  /** The value of a fixed-width hex numeral is the number it was made from. */
  lemma {:induction false} HexValueOfFixed(v: nat, n: nat)
    requires v < Pow16(n)
    ensures HexValue(Upper(FixedHex(v, n))) == v
  {
    if n > 0 {
      var front, d := FixedHex(v / 16, n - 1), LowerDigit(v % 16);
      var u := Upper(FixedHex(v, n));
      HexValueOfFixed(v / 16, n - 1);
      UpperSnoc(front, d);
      assert u[..n - 1] == Upper(front) && u[n - 1] == UpperChar(d);
      UpperDigitValue(v % 16);
    }
  }

  /** A bit string is the fixed-width numeral of its own value. */
  lemma {:induction false} FixedBitsOfValue(b: Bits)
    ensures FixedBits(BitsValue(b), |b|) == b
  {
    if b != [] {
      var front, last := b[..|b| - 1], b[|b| - 1];
      var v := BitsValue(b);
      FixedBitsOfValue(front);
      assert v / 2 == BitsValue(front) && (v % 2 == 1 <==> last == '1');
      assert FixedBits(v, |b|) == FixedBits(v / 2, |b| - 1) + [last];
      assert b == front + [last];
    }
  }

  /** hex_to_bin gives 4 bits per digit, holding the value of the hex string. */
  lemma HexToBinMeaning(s: string)
    requires IsHexString(s)
    ensures HexToBin(s).value == FixedBits(HexValue(s), 4 * |s|)
    ensures |HexToBin(s).value| == 4 * |s|
    ensures BitsValue(HexToBin(s).value) == HexValue(s)
  {
    Pow16IsPow2(|s|);
    ZFillBinary(HexValue(s), 4 * |s|);
    FixedBitsValue(HexValue(s), 4 * |s|);
  }

  /** bin_to_hex on a whole number of nibbles gives one upper-case digit per
      nibble, holding the value of the bits. */
  lemma BinToHexMeaning(b: Bits)
    requires b != [] && |b| % 4 == 0
    ensures BinToHex(b).value == Upper(FixedHex(BitsValue(b), |b| / 4))
    ensures |BinToHex(b).value| == |b| / 4
    ensures IsHexString(BinToHex(b).value)
    ensures HexValue(BinToHex(b).value) == BitsValue(b)
  {
    var n := |b| / 4;
    Pow16IsPow2(n);
    assert 4 * n == |b|;
    ZFillHex(BitsValue(b), n);
    UpperZFill(ToHex(BitsValue(b)), n);
    HexValueOfFixed(BitsValue(b), n);
    UpperHexDigits(FixedHex(BitsValue(b), n));
  }

  /** Upper-casing keeps hex digits hex digits. */
  lemma UpperHexDigits(s: string)
    requires forall i :: 0 <= i < |s| ==> IsHexDigit(s[i])
    ensures forall i :: 0 <= i < |s| ==> IsHexDigit(Upper(s)[i])
  {
    forall i | 0 <= i < |s|
      ensures IsHexDigit(Upper(s)[i])
    {
      assert IsHexDigit(s[i]);
    }
  }

  /** bin_to_hex undoes hex_to_bin, up to upper case. */
  lemma HexRoundTrip(s: string)
    requires IsHexString(s)
    ensures BinToHex(HexToBin(s).value) == Some(Upper(s))
  {
    var v := HexValue(s);
    var b := HexToBin(s).value;
    assert |b| == 4 * |s| && BitsValue(b) == v by {
      HexToBinMeaning(s);
    }
    assert |b| / 4 == |s|;
    assert BinToHex(b) == Some(Upper(FixedHex(v, |s|))) by {
      BinToHexMeaning(b);
    }
    assert Upper(FixedHex(v, |s|)) == Upper(s) by {
      FixedHexOfValue(s);
    }
  }

  /** hex_to_bin undoes bin_to_hex on a whole number of nibbles. */
  lemma BinRoundTrip(b: Bits)
    requires b != [] && |b| % 4 == 0
    ensures HexToBin(BinToHex(b).value) == Some(b)
  {
    BinToHexMeaning(b);
    var s := BinToHex(b).value;
    HexToBinMeaning(s);
    assert 4 * |s| == |b|;
    FixedBitsOfValue(b);
  }

  // ---------------------------------------------------------------------------
  // The main program

  /** Lines 202-203 of the main program: both inputs through hex_to_bin.
      None where a conversion raises, or where a block is shorter than the
      64 bits the permutations index. */
  method ReadBlocks(keyHex: string, plainHex: string) returns (r: Option<(Bits, Bits)>)
    ensures r.None? <==>
      !(IsHexString(keyHex) && IsHexString(plainHex) && |keyHex| >= 16 && |plainHex| >= 16)
    ensures r.Some? ==> r.value == (HexToBin(keyHex).value, HexToBin(plainHex).value)
    ensures r.Some? ==> |r.value.0| == 4 * |keyHex| && |r.value.1| == 4 * |plainHex|
  {
    var keyBin := HexToBin(keyHex);
    var plainBin := HexToBin(plainHex);
    if keyBin.None? || plainBin.None? {
      return None;
    }
    assert |keyBin.value| == 4 * |keyHex| by {
      HexToBinMeaning(keyHex);
    }
    assert |plainBin.value| == 4 * |plainHex| by {
      HexToBinMeaning(plainHex);
    }
    if |keyBin.value| < 64 || |plainBin.value| < 64 {
      return None;
    }
    return Some((keyBin.value, plainBin.value));
  }

  /** What the program prints after reading a hex key and a hex plaintext:
      the ciphertext and the decrypted text, both in hex. It fails (None)
      where the source raises: a string that is not hex, or fewer than 16
      digits, which leaves the permutations short of bits. */
  method RunDes(keyHex: string, plainHex: string) returns (out: Option<(string, string)>)
    ensures out.None? <==>
      !(IsHexString(keyHex) && IsHexString(plainHex) && |keyHex| >= 16 && |plainHex| >= 16)
    ensures out.Some? ==>
      var subkeys := KeySchedule(HexToBin(keyHex).value);
      var cipher := DesBlock(HexToBin(plainHex).value, subkeys, true);
      out.value.0 == BinToHex(cipher).value
    ensures out.Some? ==> out.value.1 == Upper(plainHex[..16])
    ensures out.Some? && |plainHex| == 16 ==> out.value.1 == Upper(plainHex)
  {
    var blocks := ReadBlocks(keyHex, plainHex);
    if blocks.None? {
      return None;
    }
    var (keyBin, plainBin) := blocks.value;
    var subkeys := GenerateSubkeys(keyBin);
    var cipherBin := DesEncryptBlock(plainBin, subkeys, true);
    var decryptedBin := DesEncryptBlock(cipherBin, subkeys, false);
    assert decryptedBin == plainBin[..64] by {
      DecryptUndoesEncrypt(plainBin, subkeys);
    }
    out := Some((BinToHex(cipherBin).value, BinToHex(decryptedBin).value));
    DecryptedHex(plainHex, decryptedBin);
    if |plainHex| == 16 {
      TakeAll(plainHex, 16);
    }
  }

  lemma TakeAll<T>(s: seq<T>, n: nat)
    requires |s| == n
    ensures s[..n] == s
  {
  }
}
