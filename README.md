# Verified models of the course cryptography and networking programs

This project models, in Dafny, the computational core of five programs
from a networking and security course repository, and proves what each
one promises:

- **DES** (`Assignment_7/DES.py`). It covers:
  - the permutation tables and the key schedule (PC-1, the rotations of
    the 28-bit halves, PC-2);
  - the initial and final permutations, the Feistel function with its
    S-boxes, and the 16 rounds;
  - the hex/binary conversions of the main program.

  Bits are characters `'0'`/`'1'`, as in the Python strings. The proved
  properties are:
  - IP⁻¹ inverts IP;
  - the shift schedule returns both halves to their start;
  - a Feistel network run with reversed subkeys undoes itself, so
    decryption undoes encryption for every key and block;
  - hex → binary → hex gives back the upper-cased input.
- **Playfair** (`Assignment_6/Playfair.py`). The proved properties are:
  - the key square holds 25 distinct letters, namely the alphabet without J;
  - `find_position` finds exactly the letters of the square;
  - `prepare_text` yields an even-length text of square letters with no
    doubled pair except `XX`;
  - `decrypt_pair` undoes `encrypt_pair`;
  - `decrypt(encrypt(text, key), key)` is the prepared text.
- **CRC** (`Assignment_2/Java_code/Sender.java`, `Receiver.java` and
  `Assignment_2/C++_code/CRC_sender.cpp`). The array algorithm of
  `crcDivision` is proved equal to a functional remainder. That remainder
  is proved XOR-linear, and for a divisor with leading bit 1 it is the
  remainder of GF(2) polynomial division: a word written as q·g ⊕ r, with
  r shorter than g, has remainder r. From this the model shows that the
  receiver accepts every codeword the Java sender builds, for any divisor.
  The C++ sender is modelled as written, down to its `main`, and its wrong
  remainder is recorded under Findings.
- **RSA** (`Assignment_8/RSA.py`). It covers:
  - `egcd` with Python's floored `%` and `//`;
  - `mod_inverse` and its two exceptions;
  - the choice of the smallest `e`, and key generation with its exits;
  - `pow` encryption and decryption.

  The proved properties are:
  - Bezout's identity, and that `egcd` computes `math.gcd`;
  - `e * d ≡ 1 (mod phi)` for the generated keys;
  - for distinct primes `p` and `q`, decryption returns the message.
    This goes through the binomial theorem, Fermat's little theorem and
    the Chinese remainder step.
- **Wallet servers** (`Industry_Assignment/sayali/server.py`, the FASTag
  toll server, and `Industry_Assignment/server.py`, the game-coin
  server). Their `process_instruction` functions are identical. Both are
  modelled by one `Ledger` class holding the balance dictionary, together
  with the registration step and the `'>2sH'` wire format. The proved
  properties are:
  - recharge and deduction behave as the branches say;
  - a refused request changes nothing, and other accounts never change;
  - balances stay in `0 .. 65535`;
  - a deduction undoes a recharge;
  - `unpack(pack(x)) == x`.

The DES model follows `DES.py` as written:
- `left_shift` slices (`bits[n:] + bits[:n]`), so a shift is defined only
  up to the length of the half.
- `xor_bits` reads `len(a)` bits and fails only if `b` is shorter.
- `permute` reads only the positions its table names, so longer inputs are
  accepted and the extra bits ignored. The preconditions ask for the bits
  the tables reach: 63 for a key (PC-1 never names bit 64) and 64 for a
  block.
- The main program's hex parsing is modelled (`DesHex`).

Files: `wrappers.dfy` (Option, Result), `ascii.dfy`, `des_tables.dfy`,
`des.dfy`, `des_hex.dfy`, `playfair.dfy`, `crc.dfy`, `crc_cpp.dfy`,
`rsa.dfy`, `rsa_roundtrip.dfy`, `wallet.dfy`.

## Model

| member | source | states |
|---|---|---|
| DesTables.Pc1Fits | Assignment_7/DES.py:3-12 | PC-1 has 56 entries, each naming one of the key's first 63 bits (bit 64 is never read) |
| DesTables.Pc2Fits | Assignment_7/DES.py:15-24 | PC-2 has 48 entries, each naming one of the 56 bits of C‖D |
| DesTables.IpFits | Assignment_7/DES.py:30-51 | IP and IP⁻¹ have 64 entries each |
| DesTables.EFits | Assignment_7/DES.py:54-63 | E has 48 entries, each naming one of 32 bits |
| DesTables.PFits | Assignment_7/DES.py:66-75 | P has 32 entries, each naming one of 32 bits |
| DesTables.IpInvAt | Assignment_7/DES.py:30-51 | IP⁻¹ maps every position back to where IP took it from |
| DesTables.IpAt | Assignment_7/DES.py:30-51 | IP maps every position back to where IP⁻¹ took it from |
| DesTables.SBoxShape | Assignment_7/DES.py:78-135 | there are 8 S-boxes of 4 rows of 16 entries |
| DesTables.ShiftsTotal | Assignment_7/DES.py:27 | the 16 shifts sum to 28, one full turn of a half |
| DesTables.ShiftedBound | Assignment_7/DES.py:27 | the cumulative shift never exceeds 28 |
| Des.Permute | Assignment_7/DES.py:139 | the output has one bit per table entry |
| Des.LeftShift | Assignment_7/DES.py:140 | the length is kept; a shift past the length leaves the bits unchanged (slicing) |
| Des.LeftShiftRotates | Assignment_7/DES.py:140 | for n <= length, bit i of the result is bit (i + n) mod length of the input |
| Des.LeftShiftAdd | Assignment_7/DES.py:140 | shifting by a then b is shifting by a + b |
| Des.LeftShiftFull | Assignment_7/DES.py:140 | shifting by the full length is the identity |
| Des.XorBits | Assignment_7/DES.py:141 | as long as `a`; bit i is 1 exactly when a[i] and b[i] differ |
| Des.XorTwice | Assignment_7/DES.py:141 | XOR with the same key twice gives the input back |
| Des.SplitBits | Assignment_7/DES.py:144 | the halves concatenate to the input; the first has n bits (or all) |
| Des.BitsValue | Assignment_7/DES.py:143 | `int(b, 2)`, most significant bit first: definition, below 2^len; characterised by Des.FixedBitsValue and DesHex.FixedBitsOfValue |
| Des.FixedBits | Assignment_7/DES.py:142 | `format(v, '0<w>b')`, the w low bits of v: definition, w bits long; characterised by Des.FixedBitsValue and DesHex.ZFillBinary |
| Des.FixedBitsValue | Assignment_7/DES.py:142-143 | n-bit zero-filled binary of v reads back as v |
| Des.PermutedChoice1 | Assignment_7/DES.py:152 | PC-1 yields 56 bits |
| Des.PermutedChoice2 | Assignment_7/DES.py:158 | PC-2 yields 48 bits |
| Des.RoundKey | Assignment_7/DES.py:155-158 | each round key has 48 bits |
| Des.SubkeysFrom | Assignment_7/DES.py:154-158 | n rounds give n keys of 48 bits |
| Des.KeySchedule | Assignment_7/DES.py:151-159 | 16 subkeys of 48 bits |
| Des.HalvesRestored | Assignment_7/DES.py:27 | after all 16 shifts a 28-bit half is back where it started |
| Des.SubkeysFromAt | Assignment_7/DES.py:155-158 | subkey i is PC-2 of both halves rotated by the shifts of rounds 1..i+1 |
| Des.LastSubkey | Assignment_7/DES.py:151-159 | the 16th subkey is PC-2 of the unrotated PC-1 output |
| Des.ShiftStep | Assignment_7/DES.py:155-157 | shifting the half by each round's amount accumulates the schedule |
| Des.GenerateSubkeys | Assignment_7/DES.py:151-159 | the loop builds exactly the key schedule |
| Des.InitialPermutation | Assignment_7/DES.py:163 | IP yields 64 bits |
| Des.FinalPermutation | Assignment_7/DES.py:164 | IP⁻¹ yields 64 bits |
| Des.FinalUndoesInitial | Assignment_7/DES.py:163-164 | IP⁻¹(IP(x)) is the 64-bit block x |
| Des.InitialUndoesFinal | Assignment_7/DES.py:163-164 | IP(IP⁻¹(x)) is the 64-bit block x |
| Des.Expansion | Assignment_7/DES.py:165 | E yields 48 bits |
| Des.PPermutation | Assignment_7/DES.py:166 | P yields 32 bits |
| Des.Row | Assignment_7/DES.py:172 | the outer bits give a row below 4 |
| Des.Column | Assignment_7/DES.py:173 | the middle bits give a column below 16 |
| Des.SBoxNibble | Assignment_7/DES.py:171-175 | each S-box lookup is written as 4 bits |
| Des.Substituted | Assignment_7/DES.py:168-176 | the substitution yields 32 bits |
| Des.SubstitutedChunk | Assignment_7/DES.py:168-176 | output nibble i is S-box i applied to 6-bit chunk i |
| Des.SboxSubstitution | Assignment_7/DES.py:168-176 | the loop computes the substitution |
| Des.Feistel | Assignment_7/DES.py:178-182 | the round function yields 32 bits |
| Des.Round | Assignment_7/DES.py:190 | one round keeps two 32-bit halves |
| Des.Rounds | Assignment_7/DES.py:189-190 | any number of rounds keeps two 32-bit halves |
| Des.RoundsFirst | Assignment_7/DES.py:189-190 | the rounds run the first key first |
| Des.Reversed | Assignment_7/DES.py:187 | `reversed(subkeys)`: same length, element i is element n-1-i |
| Des.RoundsUndo | Assignment_7/DES.py:186-192 | running the rounds on the swapped output with the keys reversed gives the swapped input |
| Des.DesBlock | Assignment_7/DES.py:184-193 | a block is 64 bits |
| Des.DesEncryptBlock | Assignment_7/DES.py:184-193 | the loop computes the block function for both directions |
| Des.DecryptUndoesEncrypt | Assignment_7/DES.py:184-193 | decrypting with the same subkeys returns the plaintext block |
| Des.EncryptUndoesDecrypt | Assignment_7/DES.py:184-193 | encrypting undoes decrypting |
| Des.RoundTrip | Assignment_7/DES.py:206-219 | with the schedule of any key, the main program's decryption returns the plaintext block |
| DesHex.DigitValue | Assignment_7/DES.py:142 | a hex digit is worth less than 16 |
| DesHex.LowerDigit | Assignment_7/DES.py:143 | `hex()` writes each value below 16 as a digit that reads back as it |
| DesHex.ZFill | Assignment_7/DES.py:142-143 | `zfill`: the result is as long as the width, or as the text when that is longer |
| DesHex.ZFillAt | Assignment_7/DES.py:142-143 | `zfill` pads on the left: each cell is a pad zero or, past the padding, the matching cell of the text |
| DesHex.HexValue | Assignment_7/DES.py:142 | n hex digits are worth less than 16^n |
| DesHex.ToBinary | Assignment_7/DES.py:142 | `bin(v)[2:]`: definition, at least one digit; characterised by DesHex.ZFillBinary |
| DesHex.ToHex | Assignment_7/DES.py:143 | `hex(v)[2:]`: definition, at least one digit; characterised by DesHex.ZFillHex |
| DesHex.FixedHex | Assignment_7/DES.py:143 | n-digit hex of a value has n hex digits |
| DesHex.HexToBin | Assignment_7/DES.py:142 | succeeds exactly on non-empty hex strings (`int(s, 16)` raises otherwise) |
| DesHex.BinToHex | Assignment_7/DES.py:143 | succeeds exactly on non-empty bit strings (`int('', 2)` raises) |
| DesHex.ZFillBinary | Assignment_7/DES.py:142 | `bin(v)[2:].zfill(w)` is the w-bit binary of v when v fits |
| DesHex.ZFillHex | Assignment_7/DES.py:143 | `hex(v)[2:].zfill(n)` is the n-digit hex of v when v fits |
| DesHex.FixedHexOfValue | Assignment_7/DES.py:142-143 | writing a hex string's value back with as many digits gives the string, up to case |
| DesHex.HexValueOfFixed | Assignment_7/DES.py:142-143 | the upper-case n-digit hex of v reads back as v |
| DesHex.FixedBitsOfValue | Assignment_7/DES.py:142-143 | a bit string's value written back at its width gives the bit string |
| DesHex.HexToBinMeaning | Assignment_7/DES.py:142 | four bits per digit, and the bits have the string's value |
| DesHex.BinToHexMeaning | Assignment_7/DES.py:143 | for whole nibbles: one upper-case digit per four bits, with the same value |
| DesHex.HexRoundTrip | Assignment_7/DES.py:142-143 | hex → binary → hex gives the upper-cased string |
| DesHex.BinRoundTrip | Assignment_7/DES.py:142-143 | binary → hex → binary gives the bits back |
| DesHex.ReadBlocks | Assignment_7/DES.py:202-203 | fails exactly where `hex_to_bin` raises or a block has fewer than 64 bits; otherwise each input gives its `hex_to_bin` bits, 4 per digit |
| DesHex.HexToBinPrefix | Assignment_7/DES.py:142 | the first 4k bits of `hex_to_bin(s)` are `hex_to_bin` of the first k digits |
| DesHex.DecryptedHex | Assignment_7/DES.py:219-221 | the decrypted first block, printed in hex, is the first 16 plaintext digits upper-cased |
| DesHex.RunDes | Assignment_7/DES.py:199-221 | fails exactly on non-hex or short input; otherwise the ciphertext is the encrypted block in hex, and the decrypted text is the plaintext's first 16 digits upper-cased (all of it for 16 digits) |
| Ascii.UpperChar | Assignment_6/Playfair.py:4 | `upper()` on ASCII: lower-case letters move down 32, everything else stays |
| Ascii.Upper | Assignment_7/DES.py:143 | upper-cases character by character, same length |
| Playfair.AlphabetLetters | Assignment_6/Playfair.py:13 | the fill alphabet is exactly the letters A-Z without J |
| Playfair.AlphabetNoDuplicates | Assignment_6/Playfair.py:13 | the fill alphabet has 25 distinct letters |
| Playfair.Normalize | Assignment_6/Playfair.py:4 | `upper().replace("J", "I")` on one character: definition; characterised by Playfair.LettersInSquare |
| Playfair.Letters | Assignment_6/Playfair.py:4-9 | the key's (or text's) alphabetic characters, normalized: definition; characterised by Playfair.LettersInSquare |
| Playfair.Distinct | Assignment_6/Playfair.py:8-11 | the key loop with its `used` set: definition; characterised by Playfair.DistinctSpec and Playfair.DistinctOrder |
| Playfair.Missing | Assignment_6/Playfair.py:13-15 | the alphabet fill loop: definition; characterised by Playfair.MissingSpec |
| Playfair.KeyLetters | Assignment_6/Playfair.py:8-15 | the flat matrix list: definition; characterised by Playfair.KeyLettersFirst and Playfair.KeyLettersArePermutation |
| Playfair.LettersInSquare | Assignment_6/Playfair.py:4-9 | upper-cased, J→I, alphabetic characters are all letters of the square |
| Playfair.DistinctSpec | Assignment_6/Playfair.py:8-11 | the key loop keeps each letter once, and exactly the letters of the key |
| Playfair.MissingSpec | Assignment_6/Playfair.py:13-15 | the fill loop adds exactly the alphabet letters not yet used |
| Playfair.FirstIndex | Assignment_6/Playfair.py:8-11 | the index of the first occurrence of a letter, or the length when it does not occur |
| Playfair.DistinctOrder | Assignment_6/Playfair.py:8-11 | the key loop appends letters in the order of their first occurrence in the key |
| Playfair.KeyLettersFirst | Assignment_6/Playfair.py:8-15 | the key's distinct letters open the square, each once, in the order of their first occurrence in the key |
| Playfair.KeyLettersArePermutation | Assignment_6/Playfair.py:3-17 | the flattened square is a permutation of the 25-letter alphabet |
| Playfair.Rows | Assignment_6/Playfair.py:17 | the 5×5 rows: cell (i, j) is letter 5i + j |
| Playfair.KeySquare | Assignment_6/Playfair.py:3-17 | a 5×5 square of distinct letters holding exactly the alphabet without J |
| Playfair.GenerateKeyMatrix | Assignment_6/Playfair.py:3-17 | the loops build exactly that square |
| Playfair.CellInSquare | Assignment_6/Playfair.py:20-25 | every cell's letter is found |
| Playfair.FindInRow | Assignment_6/Playfair.py:22-24 | the first column from j holding the letter, or None if no such column |
| Playfair.FindFrom | Assignment_6/Playfair.py:21-25 | the first cell, row by row from row i on, holding the letter, or None if none does |
| Playfair.FindPosition | Assignment_6/Playfair.py:20-25 | a cell holding the letter, or None exactly when no cell does |
| Playfair.FindPositionFirst | Assignment_6/Playfair.py:20-25 | the cell found is the first one, row by row, holding the letter |
| Playfair.FindPositionOfCell | Assignment_6/Playfair.py:20-25 | in a key square the letter of a cell is found at that cell |
| Playfair.Moved | Assignment_6/Playfair.py:59-64 | the three Playfair rules keep both cells inside the square |
| Playfair.Step | Assignment_6/Playfair.py:60-74 | `(x + 1) % 5` and `(x - 1) % 5` undo each other and are injective |
| Playfair.MovedBack | Assignment_6/Playfair.py:59-76 | the decryption rules undo the encryption rules on cells |
| Playfair.MovePair | Assignment_6/Playfair.py:55-76 | two letters when both are in the square, None otherwise (the source raises) |
| Playfair.EncryptPair | Assignment_6/Playfair.py:55-64 | succeeds exactly for two letters of the square, giving two letters |
| Playfair.DecryptPair | Assignment_6/Playfair.py:67-76 | succeeds exactly for two letters of the square, giving two letters |
| Playfair.MovePairInSquare | Assignment_6/Playfair.py:55-76 | the output letters are in the square |
| Playfair.MovePairBack | Assignment_6/Playfair.py:55-76 | moving back undoes moving forward |
| Playfair.DecryptPairUndoesEncrypt | Assignment_6/Playfair.py:55-76 | `decrypt_pair(encrypt_pair(a, b))` is `ab` |
| Playfair.EncryptPairUndoesDecrypt | Assignment_6/Playfair.py:55-76 | `encrypt_pair(decrypt_pair(a, b))` is `ab` |
| Playfair.Digraphs | Assignment_6/Playfair.py:32-48 | the while loop's pairs, an X splitting doubled letters and completing a lone last one: definition; characterised by Playfair.DigraphsShape |
| Playfair.Prepare | Assignment_6/Playfair.py:28-52 | `prepare_text`: definition; characterised by Playfair.PrepareShape and Playfair.PrepareText |
| Playfair.PrepareText | Assignment_6/Playfair.py:28-52 | the loop computes the prepared text |
| Playfair.DigraphsShape | Assignment_6/Playfair.py:32-48 | pairing yields an even length, letters of the square, and no pair of equal letters except `XX` |
| Playfair.PrepareShape | Assignment_6/Playfair.py:28-52 | the same for the whole preparation, so the odd-length pad never fires |
| Playfair.Crypt | Assignment_6/Playfair.py:83-84 | the pairwise map keeps the length when it succeeds |
| Playfair.CryptStep | Assignment_6/Playfair.py:83-84 | mapping from position i is the pair at i followed by the rest |
| Playfair.CryptTotal | Assignment_6/Playfair.py:83-84 | an even text over the square maps successfully onto letters of the square |
| Playfair.CryptPrefix | Assignment_6/Playfair.py:91-92 | mapping a pair followed by a rest is pair then rest |
| Playfair.CryptRoundTrip | Assignment_6/Playfair.py:79-93 | decrypting the encryption of an even text over a key square gives it back |
| Playfair.EncryptDigraphs | Assignment_6/Playfair.py:82-85 | the encryption loop computes the pairwise map |
| Playfair.Encrypt | Assignment_6/Playfair.py:79-85 | `encrypt` is the pairwise map of the prepared text under the key square |
| Playfair.DecryptDigraphs | Assignment_6/Playfair.py:90-93 | the decryption loop computes the pairwise map, None where the source raises |
| Playfair.Decrypt | Assignment_6/Playfair.py:88-93 | `decrypt` is the inverse pairwise map under the key square |
| Playfair.RoundTrip | Assignment_6/Playfair.py:101-102 | for every text and key, decrypting the ciphertext gives the prepared text |
| Crc.Xor | Assignment_2/Java_code/Sender.java:16 | `^` on bits is 1 exactly when they differ |
| Crc.XorBits | Assignment_2/Java_code/Sender.java:15-17 | bitwise XOR of equal-length words |
| Crc.Zeros | Assignment_2/Java_code/Sender.java:52 | k zero bits |
| Crc.Step | Assignment_2/Java_code/Sender.java:14-22 | one division step leaves one bit fewer than the divisor |
| Crc.Reduced | Assignment_2/Java_code/Sender.java:13-30 | the `curr` loop pulling in the remaining dividend bits: definition, divisor-sized; characterised by Crc.ReducedLinear and Crc.ReducedZeros |
| Crc.Window | Assignment_2/Java_code/Sender.java:10-25 | the window after reading the dividend is divisor-sized |
| Crc.Remainder | Assignment_2/Java_code/Sender.java:6-32 | the remainder has one bit fewer than the divisor |
| Crc.StepLinear | Assignment_2/Java_code/Sender.java:14-22 | a division step distributes over XOR |
| Crc.ReducedLinear | Assignment_2/Java_code/Sender.java:13-30 | the whole reduction distributes over XOR |
| Crc.RemainderLinear | Assignment_2/Java_code/Sender.java:6-32 | the remainder of an XOR is the XOR of the remainders |
| Crc.LeadingZero | Assignment_2/Java_code/Sender.java:13-30 | a leading zero bit does not change the remainder |
| Crc.ShiftedRemainder | Assignment_2/Java_code/Sender.java:13-30 | any number of leading zeros does not change the remainder |
| Crc.RemainderOfShort | Assignment_2/Java_code/Sender.java:6-32 | a word shorter than the divisor, after leading zeros, is its own remainder |
| Crc.ReducedZeros | Assignment_2/Java_code/Sender.java:13-30 | a zero window fed zeros stays zero |
| Crc.RemainderOfDivisor | Assignment_2/Java_code/Sender.java:6-32 | a divisor with a leading 1, shifted left, leaves remainder zero |
| Crc.AddMultiple | Assignment_2/Java_code/Sender.java:6-32 | adding a shifted divisor does not change the remainder |
| Crc.XorSelf | Assignment_2/Java_code/Sender.java:16 | a word XORed with itself is zero |
| Crc.Multiple | Assignment_2/Java_code/Sender.java:6-32 | the GF(2) product of a quotient and the divisor has their combined degree |
| Crc.RemainderOfMultiple | Assignment_2/Java_code/Sender.java:6-32 | for a divisor with leading bit 1, any word q·g ⊕ r with r shorter than g has remainder r: the division computes the polynomial remainder |
| Crc.Dividend | Assignment_2/Java_code/Sender.java:51-53 | the dataword followed by divisor-length − 1 zeros |
| Crc.Codeword | Assignment_2/Java_code/Sender.java:58-61 | the dataword followed by its remainder |
| Crc.AppendAsXor | Assignment_2/Java_code/Sender.java:58-61 | appending the remainder is XOR with the zero-padded remainder |
| Crc.CodewordAccepted | Assignment_2/Java_code/Receiver.java:52-60 | every codeword the sender builds leaves remainder zero at the receiver, for any divisor |
| Crc.ShiftWindow | Assignment_2/Java_code/Sender.java:14-22 | the inner loops shift the window by one division step and leave the last cell |
| Crc.CrcDivision | Assignment_2/Java_code/Sender.java:6-32 | the array algorithm returns exactly the remainder |
| Crc.CopyOf | Assignment_2/Java_code/Sender.java:27 | `Arrays.copyOf` keeps the first len cells |
| Crc.CheckCodeword | Assignment_2/Java_code/Receiver.java:52-60 | the error flag is set exactly when the remainder is not zero, that is, when some bit is 1 |
| CrcCpp.ReadDividend | Assignment_2/C++_code/CRC_sender.cpp:10-24 | the while loop leaves the same window as the Java loop |
| CrcCpp.CrcDivision | Assignment_2/C++_code/CRC_sender.cpp:6-41 | as written: the true remainder without its first bit, followed by 0 |
| CrcCpp.AsWrittenRejected | Assignment_2/C++_code/CRC_sender.cpp:26-39 | for the dataword 1001 and divisor 1011 the remainder is 110, the C++ result is 100, and the codeword 1001100 that `main` builds is rejected |
| CrcCpp.CrcDivisionFixed | Assignment_2/C++_code/CRC_sender.cpp:6-41 | corrected: returns exactly the remainder |
| CrcCpp.PadZeros | Assignment_2/C++_code/CRC_sender.cpp:61-62 | the dividend is the dataword followed by the requested number of zeros |
| CrcCpp.AppendBits | Assignment_2/C++_code/CRC_sender.cpp:68-71 | the codeword is the dataword followed by the remainder's bits |
| CrcCpp.BuildCodeword | Assignment_2/C++_code/CRC_sender.cpp:60-71 | as written: the remainder is the shifted one `crcDivision` returns, and the codeword is the dataword followed by it |
| CrcCpp.BuildCodewordFixed | Assignment_2/C++_code/CRC_sender.cpp:60-71 | with the corrected division: the codeword is the Java sender's, and the receiver accepts it |
| Rsa.PyMod | Assignment_8/RSA.py:11-12 | Python's `%` and `//`: a = b·q + r with r taking the sign of b |
| Rsa.PyModPositive | Assignment_8/RSA.py:11-12 | for a positive modulus Python's and Dafny's division agree |
| Rsa.Egcd | Assignment_8/RSA.py:7-12 | `egcd` with Python's floored `%` and `//`: definition; characterised by Rsa.EgcdBezout and Rsa.EgcdGcd |
| Rsa.Gcd | Assignment_8/RSA.py:43 | `math.gcd` on naturals: definition; characterised by Rsa.GcdDivides and Rsa.GcdGreatest |
| Rsa.EgcdBezout | Assignment_8/RSA.py:7-12 | `egcd(a, b)` returns g, x, y with a·x + b·y = g |
| Rsa.EgcdGcd | Assignment_8/RSA.py:7-12 | on naturals the g of `egcd` is `math.gcd` |
| Rsa.GcdDivides | Assignment_8/RSA.py:43 | the gcd divides both numbers and is 0 only for two zeros |
| Rsa.GcdGreatest | Assignment_8/RSA.py:43 | every common divisor divides the gcd |
| Rsa.ModInverse | Assignment_8/RSA.py:5-18 | raises exactly when g ≠ 1, divides by zero exactly when g = 1 and phi = 0, and otherwise the result takes phi's sign range |
| Rsa.ModInverseInverts | Assignment_8/RSA.py:14-18 | e · mod_inverse(e, phi) ≡ 1 (mod phi), and the remainder is exactly 1 once phi > 1 |
| Rsa.ModInverseExists | Assignment_8/RSA.py:14-16 | for phi > 0 the inverse exists exactly when gcd(e, phi) = 1 |
| Rsa.GcdPredecessor | Assignment_8/RSA.py:41-45 | phi − 1 is coprime to phi, so the search finds some e when phi > 2 |
| Rsa.ChooseExponent | Assignment_8/RSA.py:40-49 | the loop finds the smallest e ≥ 2 coprime to phi, and fails exactly when phi = 2 |
| Rsa.KeysFor | Assignment_8/RSA.py:40-56 | the chosen e and its inverse d, with 0 ≤ d < phi and e·d ≡ 1 (mod phi), or NoExponent when phi = 2 |
| Rsa.GenerateKeys | Assignment_8/RSA.py:29-56 | exits exactly when p ≤ 1 or q ≤ 1 and exactly when phi = 2; otherwise n = pq, e is least, d < phi (so d = 0 for p = q = 2) and e·d ≡ 1 (mod phi) |
| Rsa.PowMod | Assignment_8/RSA.py:70 | `pow(b, k, n)` lies in 0 .. n−1 |
| Rsa.Encrypt | Assignment_8/RSA.py:64-70 | a ciphertext exactly for 0 < m < n, below n |
| Rsa.Decrypt | Assignment_8/RSA.py:74 | the plaintext lies below n |
| RsaRoundTrip.Fermat | Assignment_8/RSA.py:70-74 | a^p ≡ a (mod p) for a prime p |
| RsaRoundTrip.FermatUnit | Assignment_8/RSA.py:70-74 | a^(p−1) ≡ 1 (mod p) when p does not divide a |
| RsaRoundTrip.ExponentModN | Assignment_8/RSA.py:34-35 | with e·d ≡ 1 (mod (p−1)(q−1)), m^(e·d) ≡ m (mod pq) for m < pq |
| RsaRoundTrip.PhiOfDistinctPrimes | Assignment_8/RSA.py:34-35 | distinct primes give phi ≥ 2 and n ≥ 6 |
| RsaRoundTrip.EqualPrimes | Assignment_8/RSA.py:26-35 | with p = q = 3 the script's search picks e = 3 (the least exponent coprime to phi = 4) and `mod_inverse` gives d = 3; these keys send m = 3 to 0 and back to 0, so distinct primes are needed |
| RsaRoundTrip.PowModRoundTrip | Assignment_8/RSA.py:70-74 | `pow(pow(m, e, n), d, n) == m` for distinct primes and inverse exponents |
| RsaRoundTrip.KeyRoundTrip | Assignment_8/RSA.py:64-74 | for keys as generated from distinct primes, decrypting the ciphertext of any accepted message gives the message |
| Wallet.CreditWithinCap | Industry_Assignment/sayali/server.py:46-50 | a recharge within 65535 adds the amount and replies BA with the new balance |
| Wallet.CreditOverCap | Industry_Assignment/sayali/server.py:46-52 | a recharge past 65535 replies ER 0 and changes nothing |
| Wallet.DebitCovered | Industry_Assignment/sayali/server.py:53-57 | a covered deduction subtracts and replies BA with the new balance |
| Wallet.DebitUncovered | Industry_Assignment/sayali/server.py:53-59 | an uncovered deduction replies ER 0 and changes nothing |
| Wallet.OtherInstruction | Industry_Assignment/server.py:45-46 | any other instruction (the game client's CP) replies ER 0 and changes nothing |
| Wallet.Apply | Industry_Assignment/server.py:29-46 | `process_instruction` on a snapshot of the store: definition; characterised by the CreditWithinCap … OtherInstruction rows and Wallet.ApplyFrame |
| Wallet.ApplyFrame | Industry_Assignment/server.py:29-46 | the accounts stay the same, only the named one may change, ER changes nothing, BA reports the stored balance |
| Wallet.ApplyInRange | Industry_Assignment/sayali/server.py:43-61 | balances stay within 0 .. 65535 and every reply value fits the 16-bit field |
| Wallet.DebitUndoesCredit | Industry_Assignment/server.py:31-42 | deducting what was just recharged restores every balance |
| Wallet.CreditUndoesDebit | Industry_Assignment/server.py:31-42 | recharging what was just deducted restores every balance |
| Wallet.Pack | Industry_Assignment/sayali/server.py:127 | `'>2sH'` packing: 4 bytes, the code first |
| Wallet.Unpack | Industry_Assignment/sayali/server.py:117 | `'>2sH'` unpacking: a 2-byte code and a big-endian amount |
| Wallet.UnpackPack | Industry_Assignment/sayali/server.py:117-127 | unpacking a packed reply gives the code and value back |
| Wallet.PackUnpack | Industry_Assignment/server.py:97-102 | packing an unpacked packet gives the 4 bytes back |
| Wallet.Ledger.constructor | Industry_Assignment/sayali/server.py:36 | no save file: the store starts empty |
| Wallet.Ledger.ProcessInstruction | Industry_Assignment/sayali/server.py:43-61 | the in-place update gives the reply and new store of the branch table, and keeps balances in range |
| Wallet.Ledger.Register | Industry_Assignment/server.py:84-90 | an account is created at 1000 exactly when the name is new; an existing one is never overwritten |

## Left out

- Console and socket I/O, the menus, the JSON save files (`users.json`, `players.json`), toll rates and shop items: these are I/O or client-side data. Balances loaded from a file are taken to be integers.
- `.strip()` on the console input of the DES program, which happens before the modelled code.
- DesHex.HexToBin: Python's `int(s, 16)` also accepts surrounding whitespace, underscores between digits, a `0x` prefix and a sign. The model rejects these inputs (None).
- Ascii.UpperChar: only ASCII case mapping is modelled. `str.upper()` and `str.isalpha()` on non-ASCII letters (such as `ß` → `SS`) are not.
- Crc.CrcDivision: inputs are bits 0/1. The Java and C++ code reads arbitrary integers, and XOR of other values is not modelled.
- `Assignment_2/C++_code/CRC_receiver.cpp` is not part of this model.
- Rsa.GenerateKeys: the script never checks that p and q are prime. The round trip is proved only for distinct primes (`RsaRoundTrip.KeyRoundTrip`); with p = q = 3 and m = 3 the keys do not invert (`RsaRoundTrip.EqualPrimes`).
- The printed key matrix of the Playfair program is not modelled. It is output only.
- Wallet.Ledger.ProcessInstruction: the `LO` logout and the length check of the 4-byte packet happen in the transport loop, outside the function, and are not modelled.

## Findings

| source | as written | input that shows it | evidently intended | confidence | as-written member | corrected member |
|---|---|---|---|---|---|---|
| Assignment_2/C++_code/CRC_sender.cpp:26-39 | after the last division step the window's last cell is set to 0 and the first cell is erased, so the result is the remainder without its first bit, followed by 0 | dataword 1001, divisor 1011: the remainder is 110, the function returns 100, and the receiver rejects the codeword 1001100 | return the n − 1 cells of the window after the last step (the true remainder), as the Java sender does | not executed | CrcCpp.AsWrittenRejected | CrcCpp.CrcDivisionFixed |
