/** The DES block cipher of Assignment_7/DES.py: bit-string helpers, the key
    schedule, the round function f and the 16-round Feistel block transform,
    which deciphers by running the same rounds over the reversed subkeys.
    Bit strings are, as in the source, strings of the characters '0' and '1'. */
module Des {
  import opened DesTables

  /** One bit, as the source stores it: a character of a '0'/'1' string. */
  type Bit = c: char | c == '0' || c == '1' witness '0'
  type Bits = seq<Bit>

  // ---------------------------------------------------------------------------
  // Helpers

  /** permute: output bit i is the input bit that table[i] names (1-based). */
  function Permute(bits: Bits, table: seq<Position>): (r: Bits)
    requires Fits(table, |bits|)
    ensures |r| == |table|
  {
    seq(|table|, i requires 0 <= i < |table| => bits[table[i] - 1])
  }

  /** left_shift: `bits[n:] + bits[:n]`; a slice past the end is empty, so
      for n > |bits| the string comes back unchanged. */
  function LeftShift(bits: Bits, n: nat): (r: Bits)
    ensures |r| == |bits|
    ensures n > |bits| ==> r == bits
  {
    if n <= |bits| then bits[n..] + bits[..n] else bits
  }

  /** left_shift is a left rotation: bit i of the result is bit i + n of the
      input, wrapping round at the end. */
  lemma LeftShiftRotates(bits: Bits, n: nat)
    requires n <= |bits|
    ensures forall i :: 0 <= i < |bits| ==>
      LeftShift(bits, n)[i] == if i + n < |bits| then bits[i + n] else bits[i + n - |bits|]
  {
  }

  /** Two rotations in a row are one rotation by the sum. */
  lemma LeftShiftAdd(bits: Bits, a: nat, b: nat)
    requires a + b <= |bits|
    ensures LeftShift(LeftShift(bits, a), b) == LeftShift(bits, a + b)
  {
    var once := LeftShift(bits, a);
    var twice := LeftShift(once, b);
    LeftShiftRotates(bits, a);
    LeftShiftRotates(once, b);
    LeftShiftRotates(bits, a + b);
    assert forall i :: 0 <= i < |bits| ==> twice[i] == LeftShift(bits, a + b)[i];
  }

  /** A rotation by the full length gives the string back. */
  lemma LeftShiftFull(bits: Bits)
    ensures LeftShift(bits, |bits|) == bits
  {
    assert bits[|bits|..] + bits[..|bits|] == bits;
  }

  /** xor_bits: bit i is '1' exactly when a[i] and b[i] differ; only the first
      |a| bits of b are read. */
  function XorBits(a: Bits, b: Bits): (r: Bits)
    requires |b| >= |a|
    ensures |r| == |a|
    ensures forall i :: 0 <= i < |a| ==> (r[i] == '1' <==> a[i] != b[i])
  {
    seq(|a|, i requires 0 <= i < |a| => if a[i] == b[i] then '0' else '1')
  }

  /** XOR with the same string twice is the identity. */
  lemma XorTwice(a: Bits, b: Bits)
    requires |b| >= |a|
    ensures XorBits(XorBits(a, b), b) == a
  {
    var once := XorBits(a, b);
    var twice := XorBits(once, b);
    forall i | 0 <= i < |a|
      ensures twice[i] == a[i]
    {
      assert (once[i] == '1') == (a[i] != b[i]);
    }
  }

  /** split_bits: the first n bits and the rest (Python slices stop at the end). */
  function SplitBits(bits: Bits, n: nat): (halves: (Bits, Bits))
    ensures halves.0 + halves.1 == bits
    ensures |halves.0| == if n <= |bits| then n else |bits|
  {
    if n <= |bits| then (bits[..n], bits[n..]) else (bits, [])
  }

  /** The value of a bit string read as a binary number, most significant bit
      first, as `int(bits, 2)` reads it. */
  function BitsValue(bits: Bits): (v: nat)
    ensures v < Pow2(|bits|)
  {
    if bits == [] then 0
    else 2 * BitsValue(bits[..|bits| - 1]) + (if bits[|bits| - 1] == '1' then 1 else 0)
  }

  function Pow2(n: nat): (p: nat)
    ensures p >= 1
  {
    if n == 0 then 1 else 2 * Pow2(n - 1)
  }

  /** The `width` low bits of v, most significant first: `format(v, '0<width>b')`
      when v fits in `width` bits. */
  function FixedBits(v: nat, width: nat): (r: Bits)
    ensures |r| == width
  {
    if width == 0 then [] else FixedBits(v / 2, width - 1) + [if v % 2 == 1 then '1' else '0']
  }

  /** `format(v, '0<width>b')` holds v when v fits in `width` bits. */
  lemma {:induction false} FixedBitsValue(v: nat, width: nat)
    requires v < Pow2(width)
    ensures BitsValue(FixedBits(v, width)) == v
  {
    if width > 0 {
      var r := FixedBits(v, width);
      FixedBitsValue(v / 2, width - 1);
      assert r[..width - 1] == FixedBits(v / 2, width - 1);
    }
  }

  // ---------------------------------------------------------------------------
  // Key side

  /** PC-1: the 56 key bits that the schedule uses, parity bits dropped. */
  function PermutedChoice1(key64: Bits): (r: Bits)
    requires |key64| >= 63
    ensures |r| == 56
  {
    Pc1Fits();
    Permute(key64, PC_1)
  }

  /** PC-2: the 48 bits of C || D that make a subkey. */
  function PermutedChoice2(cd: Bits): (r: Bits)
    requires |cd| >= 56
    ensures |r| == 48
  {
    Pc2Fits();
    Permute(cd, PC_2)
  }

  /** The 48-bit subkey of a round (1-based), stated directly: both 28-bit
      halves C0 and D0 of the PC-1 output rotated by the schedule's total up to
      that round, then PC-2 of C || D. */
  function RoundKey(c0: Bits, d0: Bits, round: nat): (k: Bits)
    requires |c0| == 28 && |d0| == 28 && 1 <= round <= 16
    ensures |k| == 48
  {
    PermutedChoice2(LeftShift(c0, Shifted(round)) + LeftShift(d0, Shifted(round)))
  }

  /** The subkeys of the first n rounds, from the PC-1 halves C0 and D0. */
  function SubkeysFrom(c0: Bits, d0: Bits, n: nat): (keys: seq<Bits>)
    requires |c0| == 28 && |d0| == 28 && n <= 16
    ensures |keys| == n
    ensures forall i :: 0 <= i < n ==> |keys[i]| == 48
  {
    if n == 0 then [] else SubkeysFrom(c0, d0, n - 1) + [RoundKey(c0, d0, n)]
  }

  /** The 16 subkeys derived from a key. PC-1 names no position past 63,
      so only the first 63 characters of the key are read. */
  function KeySchedule(key64: Bits): (subkeys: seq<Bits>)
    requires |key64| >= 63
    ensures |subkeys| == 16
    ensures ValidKeys(subkeys)
  {
    var key56 := PermutedChoice1(key64);
    SubkeysFrom(key56[..28], key56[28..], 16)
  }

  /** After the 16 rounds of the schedule both halves are back to their PC-1
      values. */
  lemma HalvesRestored(half: Bits)
    requires |half| == 28
    ensures LeftShift(half, Shifted(16)) == half
  {
    ShiftsTotal();
    LeftShiftFull(half);
  }

  /** Entry i of the schedule is the round key of round i + 1. */
  lemma {:induction false} SubkeysFromAt(c0: Bits, d0: Bits, n: nat, i: nat)
    requires |c0| == 28 && |d0| == 28 && i < n <= 16
    ensures SubkeysFrom(c0, d0, n)[i] == RoundKey(c0, d0, i + 1)
  {
    if i < n - 1 {
      SubkeysFromAt(c0, d0, n - 1, i);
    }
  }

  /** The last subkey is PC-2 of the unrotated PC-1 output, since the
      shifts of the schedule add up to a full turn of each half. */
  lemma LastSubkey(key64: Bits)
    requires |key64| >= 63
    ensures KeySchedule(key64)[15] == PermutedChoice2(PermutedChoice1(key64))
  {
    var key56 := PermutedChoice1(key64);
    SubkeysFromAt(key56[..28], key56[28..], 16, 15);
    HalvesRestored(key56[..28]);
    HalvesRestored(key56[28..]);
    assert key56[..28] + key56[28..] == key56;
  }

  /** One step of the schedule: rotating the halves reached after `round`
      rounds by that round's shift gives the halves of round `round + 1`. */
  lemma ShiftStep(half0: Bits, round: nat)
    requires |half0| == 28 && round < 16
    ensures LeftShift(LeftShift(half0, Shifted(round)), SHIFT_SCHEDULE[round])
         == LeftShift(half0, Shifted(round + 1))
  {
    ShiftedBound(round + 1);
    LeftShiftAdd(half0, Shifted(round), SHIFT_SCHEDULE[round]);
  }

  /** generate_subkeys: rotates C and D step by step and appends PC-2 of C || D. */
  method GenerateSubkeys(key64: Bits) returns (subkeys: seq<Bits>)
    requires |key64| >= 63
    ensures subkeys == KeySchedule(key64)
  {
    var key56 := PermutedChoice1(key64);
    var c0, d0 := key56[..28], key56[28..];  // divide_into_c_d
    var c, d := c0, d0;
    subkeys := [];
    for round := 0 to |SHIFT_SCHEDULE|
      invariant c == LeftShift(c0, Shifted(round)) && d == LeftShift(d0, Shifted(round))
      invariant subkeys == SubkeysFrom(c0, d0, round)
    {
      ShiftStep(c0, round);
      ShiftStep(d0, round);
      c := LeftShift(c, SHIFT_SCHEDULE[round]);
      d := LeftShift(d, SHIFT_SCHEDULE[round]);
      subkeys := subkeys + [PermutedChoice2(c + d)];
    }
  }

  // ---------------------------------------------------------------------------
  // Data side

  function InitialPermutation(block: Bits): (r: Bits)
    requires |block| >= 64
    ensures |r| == 64
  {
    IpFits();
    Permute(block, IP)
  }

  function FinalPermutation(block: Bits): (r: Bits)
    requires |block| >= 64
    ensures |r| == 64
  {
    IpFits();
    Permute(block, IP_INV)
  }

  /** The final permutation undoes the initial one (on the first 64 bits). */
  lemma FinalUndoesInitial(block: Bits)
    requires |block| >= 64
    ensures FinalPermutation(InitialPermutation(block)) == block[..64]
  {
    var out := FinalPermutation(InitialPermutation(block));
    forall i | 0 <= i < 64
      ensures out[i] == block[i]
    {
      IpAt(i);
    }
  }

  /** The initial permutation undoes the final one (on the first 64 bits). */
  lemma InitialUndoesFinal(block: Bits)
    requires |block| >= 64
    ensures InitialPermutation(FinalPermutation(block)) == block[..64]
  {
    var out := InitialPermutation(FinalPermutation(block));
    forall i | 0 <= i < 64
      ensures out[i] == block[i]
    {
      IpInvAt(i);
    }
  }

  function Expansion(block32: Bits): (r: Bits)
    requires |block32| >= 32
    ensures |r| == 48
  {
    EFits();
    Permute(block32, E)
  }

  function PPermutation(bits32: Bits): (r: Bits)
    requires |bits32| >= 32
    ensures |r| == 32
  {
    PFits();
    Permute(bits32, P)
  }

  /** The S-box row of a 6-bit chunk: its first and last bits. */
  function Row(chunk: Bits): (row: nat)
    requires |chunk| == 6
    ensures row < 4
  {
    BitsValue([chunk[0], chunk[5]])
  }

  /** The S-box column of a 6-bit chunk: its four middle bits. */
  function Column(chunk: Bits): (col: nat)
    requires |chunk| == 6
    ensures col < 16
  {
    assert Pow2(4) == 16;
    BitsValue(chunk[1..5])
  }

  /** The 4 bits that S-box number `box` (0-based) gives for chunk `box` of
      the input. */
  function SBoxNibble(bits48: Bits, box: nat): (out: Bits)
    requires |bits48| >= 48 && box < 8
    ensures |out| == 4
  {
    var chunk := bits48[box * 6 .. (box + 1) * 6];
    SBoxShape(box, Row(chunk));
    FixedBits(S_BOXES[box][Row(chunk)][Column(chunk)], 4)
  }

  /** The outputs of the eight S-boxes, concatenated: 48 bits in, 32 out. */
  function Substituted(bits48: Bits): (r: Bits)
    requires |bits48| >= 48
    ensures |r| == 32
  {
    seq(32, j requires 0 <= j < 32 => SBoxNibble(bits48, j / 4)[j % 4])
  }

  /** Bits 4*box .. 4*box+3 of the substitution are the output of S-box `box`. */
  lemma SubstitutedChunk(bits48: Bits, box: nat)
    requires |bits48| >= 48 && box < 8
    ensures Substituted(bits48)[4 * box .. 4 * box + 4] == SBoxNibble(bits48, box)
  {
    var r := Substituted(bits48);
    forall t | 0 <= t < 4
      ensures r[4 * box + t] == SBoxNibble(bits48, box)[t]
    {
      assert (4 * box + t) / 4 == box && (4 * box + t) % 4 == t;
    }
  }

  /** sbox_substitution: looks up one S-box per 6-bit chunk and appends its
      value as 4 bits. */
  method SboxSubstitution(bits48: Bits) returns (result: Bits)
    requires |bits48| >= 48
    ensures result == Substituted(bits48)
  {
    result := [];
    for i := 0 to 8
      invariant result == Substituted(bits48)[..4 * i]
    {
      var chunk := bits48[i * 6 .. (i + 1) * 6];
      var row := BitsValue([chunk[0], chunk[5]]);
      var col := BitsValue(chunk[1..5]);
      SBoxShape(i, row);
      var val := S_BOXES[i][row][col];
      SubstitutedChunk(bits48, i);
      result := result + FixedBits(val, 4);
    }
  }

  /** feistel: the round function f(R, K) = P(S(E(R) xor K)). */
  function Feistel(r: Bits, k: Bits): (out: Bits)
    requires |r| >= 32 && |k| >= 48
    ensures |out| == 32
  {
    var expanded := Expansion(r);
    var xored := XorBits(expanded, k);
    var sboxOut := Substituted(xored);
    PPermutation(sboxOut)
  }

  /** The two 32-bit halves of the block between rounds. */
  datatype Halves = Halves(left: Bits, right: Bits)
  {
    predicate Valid() { |left| == 32 && |right| == 32 }
    function Swap(): Halves { Halves(right, left) }
  }

  /** Every subkey has the 48 bits the round function reads. */
  predicate ValidKeys(keys: seq<Bits>) {
    forall i :: 0 <= i < |keys| ==> |keys[i]| >= 48
  }

  /** One Feistel round: `l, r = r, xor_bits(l, feistel(r, k))`. */
  function Round(h: Halves, k: Bits): (h': Halves)
    requires h.Valid() && |k| >= 48
    ensures h'.Valid()
  {
    Halves(h.right, XorBits(h.left, Feistel(h.right, k)))
  }

  /** The halves after one round per key, in the order of `keys`. */
  function Rounds(h: Halves, keys: seq<Bits>): (h': Halves)
    requires h.Valid() && ValidKeys(keys)
    ensures h'.Valid()
    decreases |keys|
  {
    if keys == [] then h else Round(Rounds(h, keys[..|keys| - 1]), keys[|keys| - 1])
  }

  /** Rounds may equally be unfolded from the first key. */
  lemma {:induction false} RoundsFirst(h: Halves, k: Bits, rest: seq<Bits>)
    requires h.Valid() && |k| >= 48 && ValidKeys(rest)
    ensures ValidKeys([k] + rest)
    ensures Rounds(h, [k] + rest) == Rounds(Round(h, k), rest)
    decreases |rest|
  {
    var keys := [k] + rest;
    if rest == [] {
      assert keys[..|keys| - 1] == [];
    } else {
      var front, last := rest[..|rest| - 1], rest[|rest| - 1];
      assert keys[..|keys| - 1] == [k] + front;
      assert keys[|keys| - 1] == last;
      RoundsFirst(h, k, front);
      calc {
        Rounds(h, keys);
        Round(Rounds(h, [k] + front), last);
        Round(Rounds(Round(h, k), front), last);
        Rounds(Round(h, k), rest);
      }
    }
  }

  /** Python's `list(reversed(s))`. */
  function Reversed<T>(s: seq<T>): (r: seq<T>)
    ensures |r| == |s|
    ensures forall i :: 0 <= i < |s| ==> r[i] == s[|s| - 1 - i]
  {
    if s == [] then [] else Reversed(s[1..]) + [s[0]]
  }

  /** The Feistel property: running the rounds over the reversed keys on the
      swapped output gives back the swapped input. */
  lemma {:induction false} RoundsUndo(h: Halves, keys: seq<Bits>)
    requires h.Valid() && ValidKeys(keys)
    ensures ValidKeys(Reversed(keys))
    ensures Rounds(Rounds(h, keys).Swap(), Reversed(keys)) == h.Swap()
    decreases |keys|
  {
    if keys != [] {
      var front, k := keys[..|keys| - 1], keys[|keys| - 1];
      var mid := Rounds(h, front);
      var out := Round(mid, k);
      assert Reversed(keys) == [k] + Reversed(front);
      RoundsUndo(h, front);
      RoundsFirst(out.Swap(), k, Reversed(front));
      XorTwice(mid.left, Feistel(mid.right, k));
      assert Round(out.Swap(), k) == mid.Swap();
    }
  }

  /** Rounds over one more key of a key list. */
  lemma RoundsSnoc(h: Halves, keys: seq<Bits>, i: nat)
    requires h.Valid() && ValidKeys(keys) && i < |keys|
    ensures ValidKeys(keys[..i]) && ValidKeys(keys[..i + 1])
    ensures Rounds(h, keys[..i + 1]) == Round(Rounds(h, keys[..i]), keys[i])
  {
    assert keys[..i + 1][..i] == keys[..i];
  }

  /** Reversing a key list keeps every key long enough. */
  lemma ReversedKeys(keys: seq<Bits>)
    requires ValidKeys(keys)
    ensures ValidKeys(Reversed(keys))
  {
  }

  /** des_encrypt_block as a function: IP, the rounds (over the subkeys, or
      over the reversed subkeys when deciphering), the final swap and IP_INV. */
  function DesBlock(block64: Bits, subkeys: seq<Bits>, encrypt: bool): (out: Bits)
    requires |block64| >= 64 && ValidKeys(subkeys)
    ensures |out| == 64
  {
    var (l, r) := SplitBits(InitialPermutation(block64), 32);
    var keys := if encrypt then subkeys else Reversed(subkeys);
    var h := Rounds(Halves(l, r), keys);
    FinalPermutation(h.right + h.left)
  }

  /** des_encrypt_block: the same transform with the 16-step loop of the source. */
  method DesEncryptBlock(block64: Bits, subkeys: seq<Bits>, encrypt: bool) returns (out: Bits)
    requires |block64| >= 64 && ValidKeys(subkeys)
    ensures out == DesBlock(block64, subkeys, encrypt)
  {
    var ip := InitialPermutation(block64);
    var (l0, r0) := SplitBits(ip, 32);
    var keys := if encrypt then subkeys else Reversed(subkeys);
    assert ValidKeys(keys) by {
      ReversedKeys(subkeys);
    }
    var l, r := l0, r0;
    for i := 0 to |keys|
      invariant Halves(l, r) == Rounds(Halves(l0, r0), keys[..i])
    {
      var k := keys[i];
      RoundsSnoc(Halves(l0, r0), keys, i);
      l, r := r, XorBits(l, Feistel(r, k));
    }
    assert keys[..|keys|] == keys;
    out := FinalPermutation(r + l);
  }

  /** Deciphering with the same subkeys undoes enciphering. */
  lemma DecryptUndoesEncrypt(block64: Bits, subkeys: seq<Bits>)
    requires |block64| >= 64 && ValidKeys(subkeys)
    ensures DesBlock(DesBlock(block64, subkeys, true), subkeys, false) == block64[..64]
  {
    var ip := InitialPermutation(block64);
    var (l, r) := SplitBits(ip, 32);
    var h := Rounds(Halves(l, r), subkeys);
    var cipher := DesBlock(block64, subkeys, true);
    assert cipher == FinalPermutation(h.right + h.left);
    InitialUndoesFinal(h.right + h.left);
    assert (h.right + h.left)[..64] == h.right + h.left;
    assert SplitBits(InitialPermutation(cipher), 32) == (h.right, h.left);
    RoundsUndo(Halves(l, r), subkeys);
    assert DesBlock(cipher, subkeys, false) == FinalPermutation(l + r);
    FinalUndoesInitial(block64);
  }

  /** Enciphering with the same subkeys undoes deciphering. */
  lemma EncryptUndoesDecrypt(block64: Bits, subkeys: seq<Bits>)
    requires |block64| >= 64 && ValidKeys(subkeys)
    ensures DesBlock(DesBlock(block64, subkeys, false), subkeys, true) == block64[..64]
  {
    var ip := InitialPermutation(block64);
    var (l, r) := SplitBits(ip, 32);
    RoundsUndo(Halves(l, r), Reversed(subkeys));
    assert Reversed(Reversed(subkeys)) == subkeys;
    var h := Rounds(Halves(l, r), Reversed(subkeys));
    var plain := DesBlock(block64, subkeys, false);
    assert plain == FinalPermutation(h.right + h.left);
    InitialUndoesFinal(h.right + h.left);
    assert (h.right + h.left)[..64] == h.right + h.left;
    assert SplitBits(InitialPermutation(plain), 32) == (h.right, h.left);
    assert DesBlock(plain, subkeys, true) == FinalPermutation(l + r);
    FinalUndoesInitial(block64);
  }

  /** The whole pipeline of the program: subkeys from the key, encipher, then
      decipher with the same subkeys. */
  lemma RoundTrip(key64: Bits, block64: Bits)
    requires |key64| >= 63 && |block64| >= 64
    ensures ValidKeys(KeySchedule(key64))
    ensures DesBlock(DesBlock(block64, KeySchedule(key64), true), KeySchedule(key64), false) == block64[..64]
  {
    DecryptUndoesEncrypt(block64, KeySchedule(key64));
  }
}
