/** Constant tables of the Data Encryption Algorithm (FIPS PUB 46-3), as
    Assignment_7/DES.py lists them: the permutation tables are 1-based bit
    positions, the S-boxes are 8 tables of 4 rows by 16 columns of 4-bit values.
    Each table is written row by row, as in the source. */
module DesTables {

  /** A 1-based bit position inside a block of at most 64 bits. */
  type Position = i: int | 1 <= i <= 64 witness 1

  /** A 1-based position inside the 56 bits of C || D. */
  type Position56 = i: int | 1 <= i <= 56 witness 1

  /** A 1-based position inside a 32-bit half block. */
  type Position32 = i: int | 1 <= i <= 32 witness 1

  /** A 4-bit S-box entry. */
  type Nibble = v: int | 0 <= v < 16

  /** Permuted choice 1: selects 56 of the 64 key bits (the parity bits are dropped). */
  const PC_1: seq<Position> :=
    [57, 49, 41, 33, 25, 17, 9] +
    [1, 58, 50, 42, 34, 26, 18] +
    [10, 2, 59, 51, 43, 35, 27] +
    [19, 11, 3, 60, 52, 44, 36] +
    [63, 55, 47, 39, 31, 23, 15] +
    [7, 62, 54, 46, 38, 30, 22] +
    [14, 6, 61, 53, 45, 37, 29] +
    [21, 13, 5, 28, 20, 12, 4]

  /** Permuted choice 2: selects 48 of the 56 bits of C || D. */
  const PC_2: seq<Position56> :=
    [14, 17, 11, 24, 1, 5] +
    [3, 28, 15, 6, 21, 10] +
    [23, 19, 12, 4, 26, 8] +
    [16, 7, 27, 20, 13, 2] +
    [41, 52, 31, 37, 47, 55] +
    [30, 40, 51, 45, 33, 48] +
    [44, 49, 39, 56, 34, 53] +
    [46, 42, 50, 36, 29, 32]

  /** Initial permutation. */
  const IP: seq<Position> :=
    [58, 50, 42, 34, 26, 18, 10, 2] +
    [60, 52, 44, 36, 28, 20, 12, 4] +
    [62, 54, 46, 38, 30, 22, 14, 6] +
    [64, 56, 48, 40, 32, 24, 16, 8] +
    [57, 49, 41, 33, 25, 17, 9, 1] +
    [59, 51, 43, 35, 27, 19, 11, 3] +
    [61, 53, 45, 37, 29, 21, 13, 5] +
    [63, 55, 47, 39, 31, 23, 15, 7]

  /** Final permutation, the inverse of IP. */
  const IP_INV: seq<Position> :=
    [40, 8, 48, 16, 56, 24, 64, 32] +
    [39, 7, 47, 15, 55, 23, 63, 31] +
    [38, 6, 46, 14, 54, 22, 62, 30] +
    [37, 5, 45, 13, 53, 21, 61, 29] +
    [36, 4, 44, 12, 52, 20, 60, 28] +
    [35, 3, 43, 11, 51, 19, 59, 27] +
    [34, 2, 42, 10, 50, 18, 58, 26] +
    [33, 1, 41, 9, 49, 17, 57, 25]

  /** Expansion of a 32-bit half block to 48 bits. */
  const E: seq<Position32> :=
    [32, 1, 2, 3, 4, 5] +
    [4, 5, 6, 7, 8, 9] +
    [8, 9, 10, 11, 12, 13] +
    [12, 13, 14, 15, 16, 17] +
    [16, 17, 18, 19, 20, 21] +
    [20, 21, 22, 23, 24, 25] +
    [24, 25, 26, 27, 28, 29] +
    [28, 29, 30, 31, 32, 1]

  /** Permutation of the 32 S-box output bits. */
  const P: seq<Position32> :=
    [16, 7, 20, 21] +
    [29, 12, 28, 17] +
    [1, 15, 23, 26] +
    [5, 18, 31, 10] +
    [2, 8, 24, 14] +
    [32, 27, 3, 9] +
    [19, 13, 30, 6] +
    [22, 11, 4, 25]

  /** Number of left rotations of C and D before each of the 16 rounds. */
  const SHIFT_SCHEDULE: seq<nat> := [1, 1, 2, 2, 2, 2, 2, 2, 1, 2, 2, 2, 2, 2, 2, 1]

  /** The eight S-boxes S1..S8. */
  const S_BOXES: seq<seq<seq<Nibble>>> := [
    // S1
    [
      [14, 4, 13, 1, 2, 15, 11, 8, 3, 10, 6, 12, 5, 9, 0, 7],
      [0, 15, 7, 4, 14, 2, 13, 1, 10, 6, 12, 11, 9, 5, 3, 8],
      [4, 1, 14, 8, 13, 6, 2, 11, 15, 12, 9, 7, 3, 10, 5, 0],
      [15, 12, 8, 2, 4, 9, 1, 7, 5, 11, 3, 14, 10, 0, 6, 13]
    ],
    // S2
    [
      [15, 1, 8, 14, 6, 11, 3, 4, 9, 7, 2, 13, 12, 0, 5, 10],
      [3, 13, 4, 7, 15, 2, 8, 14, 12, 0, 1, 10, 6, 9, 11, 5],
      [0, 14, 7, 11, 10, 4, 13, 1, 5, 8, 12, 6, 9, 3, 2, 15],
      [13, 8, 10, 1, 3, 15, 4, 2, 11, 6, 7, 12, 0, 5, 14, 9]
    ],
    // S3
    [
      [10, 0, 9, 14, 6, 3, 15, 5, 1, 13, 12, 7, 11, 4, 2, 8],
      [13, 7, 0, 9, 3, 4, 6, 10, 2, 8, 5, 14, 12, 11, 15, 1],
      [13, 6, 4, 9, 8, 15, 3, 0, 11, 1, 2, 12, 5, 10, 14, 7],
      [1, 10, 13, 0, 6, 9, 8, 7, 4, 15, 14, 3, 11, 5, 2, 12]
    ],
    // S4
    [
      [7, 13, 14, 3, 0, 6, 9, 10, 1, 2, 8, 5, 11, 12, 4, 15],
      [13, 8, 11, 5, 6, 15, 0, 3, 4, 7, 2, 12, 1, 10, 14, 9],
      [10, 6, 9, 0, 12, 11, 7, 13, 15, 1, 3, 14, 5, 2, 8, 4],
      [3, 15, 0, 6, 10, 1, 13, 8, 9, 4, 5, 11, 12, 7, 2, 14]
    ],
    // S5
    [
      [2, 12, 4, 1, 7, 10, 11, 6, 8, 5, 3, 15, 13, 0, 14, 9],
      [14, 11, 2, 12, 4, 7, 13, 1, 5, 0, 15, 10, 3, 9, 8, 6],
      [4, 2, 1, 11, 10, 13, 7, 8, 15, 9, 12, 5, 6, 3, 0, 14],
      [11, 8, 12, 7, 1, 14, 2, 13, 6, 15, 0, 9, 10, 4, 5, 3]
    ],
    // S6
    [
      [12, 1, 10, 15, 9, 2, 6, 8, 0, 13, 3, 4, 14, 7, 5, 11],
      [10, 15, 4, 2, 7, 12, 9, 5, 6, 1, 13, 14, 0, 11, 3, 8],
      [9, 14, 15, 5, 2, 8, 12, 3, 7, 0, 4, 10, 1, 13, 11, 6],
      [4, 3, 2, 12, 9, 5, 15, 10, 11, 14, 1, 7, 6, 0, 8, 13]
    ],
    // S7
    [
      [4, 11, 2, 14, 15, 0, 8, 13, 3, 12, 9, 7, 5, 10, 6, 1],
      [13, 0, 11, 7, 4, 9, 1, 10, 14, 3, 5, 12, 2, 15, 8, 6],
      [1, 4, 11, 13, 12, 3, 7, 14, 10, 15, 6, 8, 0, 5, 9, 2],
      [6, 11, 13, 8, 1, 4, 10, 7, 9, 5, 0, 15, 14, 2, 3, 12]
    ],
    // S8
    [
      [13, 2, 8, 4, 6, 15, 11, 1, 10, 9, 3, 14, 5, 0, 12, 7],
      [1, 15, 13, 8, 10, 3, 7, 4, 12, 5, 6, 11, 0, 14, 9, 2],
      [7, 11, 4, 1, 9, 12, 14, 2, 0, 6, 10, 13, 15, 3, 5, 8],
      [2, 1, 14, 7, 4, 10, 8, 13, 15, 12, 9, 0, 3, 5, 6, 11]
    ]
  ]

  /** Every entry of `table` names one of the first `width` bits. */
  predicate Fits(table: seq<Position>, width: nat) {
    forall i :: 0 <= i < |table| ==> table[i] <= width
  }

  lemma FitsAppend(a: seq<Position>, b: seq<Position>, width: nat)
    requires Fits(a, width) && Fits(b, width)
    ensures Fits(a + b, width)
  {
    forall i | 0 <= i < |a + b|
      ensures (a + b)[i] <= width
    {
      if i >= |a| {
        assert (a + b)[i] == b[i - |a|];
      }
    }
  }

  /** PC-1 skips every eighth bit, so it never reads bit 64. */
  lemma Pc1Fits() ensures |PC_1| == 56 && Fits(PC_1, 63) {
    var r0: seq<Position> := [57, 49, 41, 33, 25, 17, 9];
    var r1: seq<Position> := [1, 58, 50, 42, 34, 26, 18];
    var r2: seq<Position> := [10, 2, 59, 51, 43, 35, 27];
    var r3: seq<Position> := [19, 11, 3, 60, 52, 44, 36];
    var r4: seq<Position> := [63, 55, 47, 39, 31, 23, 15];
    var r5: seq<Position> := [7, 62, 54, 46, 38, 30, 22];
    var r6: seq<Position> := [14, 6, 61, 53, 45, 37, 29];
    var r7: seq<Position> := [21, 13, 5, 28, 20, 12, 4];
    FitsAppend(r0, r1, 63);
    FitsAppend(r0 + r1, r2, 63);
    FitsAppend(r0 + r1 + r2, r3, 63);
    FitsAppend(r0 + r1 + r2 + r3, r4, 63);
    FitsAppend(r0 + r1 + r2 + r3 + r4, r5, 63);
    FitsAppend(r0 + r1 + r2 + r3 + r4 + r5, r6, 63);
    FitsAppend(r0 + r1 + r2 + r3 + r4 + r5 + r6, r7, 63);
  }
  lemma Pc2Fits() ensures |PC_2| == 48 && Fits(PC_2, 56) {
  }
  lemma IpFits() ensures |IP| == 64 && |IP_INV| == 64 { }
  lemma EFits() ensures |E| == 48 && Fits(E, 32) {
  }
  lemma PFits() ensures |P| == 32 && Fits(P, 32) {
  }

  /** IP_INV undoes IP, position by position. */
  lemma IpInvAt(i: int)
    requires 0 <= i < 64
    ensures IP_INV[IP[i] - 1] == i + 1
  {
    if i < 32 {
      IpInvAtLow(i);
    } else {
      IpInvAtHigh(i);
    }
  }

  lemma IpInvAtLow(i: int)
    requires 0 <= i < 32
    ensures IP_INV[IP[i] - 1] == i + 1
  {
    if i < 16 {
      if i < 8 {
        if i < 4 {
          assert i in {0, 1, 2, 3};
        } else {
          assert i in {4, 5, 6, 7};
        }
      } else {
        if i < 12 {
          assert i in {8, 9, 10, 11};
        } else {
          assert i in {12, 13, 14, 15};
        }
      }
    } else {
      if i < 24 {
        if i < 20 {
          assert i in {16, 17, 18, 19};
        } else {
          assert i in {20, 21, 22, 23};
        }
      } else {
        if i < 28 {
          assert i in {24, 25, 26, 27};
        } else {
          assert i in {28, 29, 30, 31};
        }
      }
    }
  }

  lemma IpInvAtHigh(i: int)
    requires 32 <= i < 64
    ensures IP_INV[IP[i] - 1] == i + 1
  {
    if i < 48 {
      if i < 40 {
        if i < 36 {
          assert i in {32, 33, 34, 35};
        } else {
          assert i in {36, 37, 38, 39};
        }
      } else {
        if i < 44 {
          assert i in {40, 41, 42, 43};
        } else {
          assert i in {44, 45, 46, 47};
        }
      }
    } else {
      if i < 56 {
        if i < 52 {
          assert i in {48, 49, 50, 51};
        } else {
          assert i in {52, 53, 54, 55};
        }
      } else {
        if i < 60 {
          assert i in {56, 57, 58, 59};
        } else {
          assert i in {60, 61, 62, 63};
        }
      }
    }
  }

  /** IP undoes IP_INV, position by position. */
  lemma IpAt(i: int)
    requires 0 <= i < 64
    ensures IP[IP_INV[i] - 1] == i + 1
  {
    if i < 32 {
      IpAtLow(i);
    } else {
      IpAtHigh(i);
    }
  }

  lemma IpAtLow(i: int)
    requires 0 <= i < 32
    ensures IP[IP_INV[i] - 1] == i + 1
  {
    if i < 16 {
      if i < 8 {
        if i < 4 {
          assert i in {0, 1, 2, 3};
        } else {
          assert i in {4, 5, 6, 7};
        }
      } else {
        if i < 12 {
          assert i in {8, 9, 10, 11};
        } else {
          assert i in {12, 13, 14, 15};
        }
      }
    } else {
      if i < 24 {
        if i < 20 {
          assert i in {16, 17, 18, 19};
        } else {
          assert i in {20, 21, 22, 23};
        }
      } else {
        if i < 28 {
          assert i in {24, 25, 26, 27};
        } else {
          assert i in {28, 29, 30, 31};
        }
      }
    }
  }

  lemma IpAtHigh(i: int)
    requires 32 <= i < 64
    ensures IP[IP_INV[i] - 1] == i + 1
  {
    if i < 48 {
      if i < 40 {
        if i < 36 {
          assert i in {32, 33, 34, 35};
        } else {
          assert i in {36, 37, 38, 39};
        }
      } else {
        if i < 44 {
          assert i in {40, 41, 42, 43};
        } else {
          assert i in {44, 45, 46, 47};
        }
      }
    } else {
      if i < 56 {
        if i < 52 {
          assert i in {48, 49, 50, 51};
        } else {
          assert i in {52, 53, 54, 55};
        }
      } else {
        if i < 60 {
          assert i in {56, 57, 58, 59};
        } else {
          assert i in {60, 61, 62, 63};
        }
      }
    }
  }

  /** Each S-box has 4 rows of 16 entries. */
  lemma SBoxShape(box: int, row: int)
    requires 0 <= box < 8 && 0 <= row < 4
    ensures |S_BOXES| == 8 && |S_BOXES[box]| == 4 && |S_BOXES[box][row]| == 16
  {
    assert box in {0, 1, 2, 3, 4, 5, 6, 7};
    assert row in {0, 1, 2, 3};
  }

  /** Total rotation of C and D after the first `rounds` rounds. */
  function Shifted(rounds: nat): nat
    requires rounds <= 16
  {
    if rounds == 0 then 0 else Shifted(rounds - 1) + SHIFT_SCHEDULE[rounds - 1]
  }

  /** The schedule rotates each half by 28 positions in all, so that C and D
      are back where PC-1 left them after round 16. */
  lemma ShiftsTotal()
    ensures Shifted(16) == 28
  {
    assert Shifted(1) == 1;
    assert Shifted(2) == 2;
    assert Shifted(3) == 4;
    assert Shifted(4) == 6;
    assert Shifted(5) == 8;
    assert Shifted(6) == 10;
    assert Shifted(7) == 12;
    assert Shifted(8) == 14;
    assert Shifted(9) == 15;
    assert Shifted(10) == 17;
    assert Shifted(11) == 19;
    assert Shifted(12) == 21;
    assert Shifted(13) == 23;
    assert Shifted(14) == 25;
    assert Shifted(15) == 27;
  }

  /** No round rotates a half by more than its 28 bits in all. */
  lemma {:induction false} ShiftedBound(rounds: nat)
    requires rounds <= 16
    ensures Shifted(rounds) <= 28
    decreases 16 - rounds
  {
    if rounds < 16 {
      ShiftedBound(rounds + 1);
    } else {
      ShiftsTotal();
    }
  }
}
