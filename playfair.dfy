/** The Playfair cipher of Assignment_6/Playfair.py: a 5x5 key square over
    the alphabet without J, text split into digraphs with X fillers, and the
    row, column and rectangle rules for each digraph. Letters are ASCII. */
module Playfair {
  import opened Wrappers
  import opened Ascii

  /** The 25 letters of the square, J left out. */
  const ALPHABET: string := "ABCDEFGHIKLMNOPQRSTUVWXYZ"

  /** The key square, as the list of five rows the source builds. */
  type Matrix = seq<seq<char>>

  // ---------------------------------------------------------------------------
  // Letters and sequences

  /** Upper case with J merged into I: `upper().replace("J", "I")`. */
  function Normalize(c: char): char {
    var u := UpperChar(c);
    if u == 'J' then 'I' else u
  }

  /** The letters the square holds: upper case, and no J. */
  predicate IsSquareLetter(c: char) {
    'A' <= c <= 'Z' && c != 'J'
  }

  /** The i-th letter of ALPHABET: the i-th of the alphabet, one further
      from J on. */
  lemma AlphabetAt(i: int)
    requires 0 <= i < 25
    ensures ALPHABET[i] as int == 'A' as int + (if i < 9 then i else i + 1)
  {
    if i < 12 {
      if i < 6 {
        assert i in {0, 1, 2, 3, 4, 5};
      } else {
        assert i in {6, 7, 8, 9, 10, 11};
      }
    } else if i < 18 {
      assert i in {12, 13, 14, 15, 16, 17};
    } else {
      assert i in {18, 19, 20, 21, 22, 23, 24};
    }
  }

  /** ALPHABET lists exactly the square's letters. */
  lemma AlphabetLetters()
    ensures forall c :: c in ALPHABET <==> IsSquareLetter(c)
  {
    forall i | 0 <= i < 25
      ensures IsSquareLetter(ALPHABET[i])
    {
      AlphabetAt(i);
    }
    forall c | IsSquareLetter(c)
      ensures c in ALPHABET
    {
      var k := c as int - 'A' as int;
      if k < 9 {
        AlphabetAt(k);
        assert ALPHABET[k] == c;
      } else {
        AlphabetAt(k - 1);
        assert ALPHABET[k - 1] == c;
      }
    }
  }

  /** The letters of a text, normalized, everything else dropped. */
  function Letters(text: string): string {
    if text == [] then []
    else
      var last := text[|text| - 1];
      Letters(text[..|text| - 1]) + (if IsAlpha(last) then [Normalize(last)] else [])
  }

  /** Every letter kept is one of the square's. */
  lemma {:induction false} LettersInSquare(text: string)
    ensures forall i :: 0 <= i < |Letters(text)| ==> IsSquareLetter(Letters(text)[i])
  {
    if text != [] {
      LettersInSquare(text[..|text| - 1]);
    }
  }

  predicate NoDuplicates<T(==)>(s: seq<T>) {
    forall i, j :: 0 <= i < j < |s| ==> s[i] != s[j]
  }

  /** The first occurrence of each element, in order. */
  function Distinct(s: string): string {
    if s == [] then []
    else
      var d := Distinct(s[..|s| - 1]);
      var last := s[|s| - 1];
      if last in d then d else d + [last]
  }

  /** Distinct keeps each element once and loses none. */
  lemma {:induction false} DistinctSpec(s: string)
    ensures NoDuplicates(Distinct(s))
    ensures forall x :: x in Distinct(s) <==> x in s
  {
    if s != [] {
      var front, last := s[..|s| - 1], s[|s| - 1];
      DistinctSpec(front);
      assert forall x :: x in s <==> x in front || x == last by {
        assert s == front + [last];
      }
    }
  }

  /** The index of the first x in s, or |s| when s has none. */
  function FirstIndex(s: string, x: char): (k: nat)
    ensures k <= |s|
    ensures k < |s| ==> s[k] == x
    ensures forall k' :: 0 <= k' < k ==> s[k'] != x
  {
    if s == [] then 0
    else
      var front := s[..|s| - 1];
      var k := FirstIndex(front, x);
      if k < |front| then k else if s[|s| - 1] == x then |front| else |s|
  }

  /** Distinct lists the elements in the order of their first occurrence. */
  lemma {:induction false} DistinctOrder(s: string)
    ensures forall i, j :: 0 <= i < j < |Distinct(s)| ==> FirstIndex(s, Distinct(s)[i]) < FirstIndex(s, Distinct(s)[j])
  {
    if s != [] {
      var front, last := s[..|s| - 1], s[|s| - 1];
      var d := Distinct(front);
      DistinctSpec(front);
      DistinctOrder(front);
      forall i | 0 <= i < |d|
        ensures FirstIndex(s, d[i]) == FirstIndex(front, d[i]) < |front|
      {
        assert d[i] in front;
      }
      if last !in d {
        assert FirstIndex(front, last) == |front|;
        assert Distinct(s) == d + [last];
      }
    }
  }

  /** The elements of `s` that are not in `used`, in order. */
  function Missing(s: string, used: string): string {
    if s == [] then []
    else
      var last := s[|s| - 1];
      Missing(s[..|s| - 1], used) + (if last in used then [] else [last])
  }

  /** Missing keeps exactly the elements outside `used`. */
  lemma {:induction false} MissingSpec(s: string, used: string)
    ensures forall x :: x in Missing(s, used) <==> x in s && x !in used
  {
    if s != [] {
      var front, last := s[..|s| - 1], s[|s| - 1];
      MissingSpec(front, used);
      assert forall x :: x in s <==> x in front || x == last by {
        assert s == front + [last];
      }
    }
  }

  // ---------------------------------------------------------------------------
  // The key square

  /** The letters of the square row by row: the key's letters in order of
      first occurrence, then the rest of the alphabet in alphabet order. */
  function KeyLetters(key: string): (r: string)
  {
    var d := Distinct(Letters(key));
    d + Missing(ALPHABET, d)
  }

  /** Five rows of five from the first 25 letters: `matrix[i:i+5]`. */
  function Rows(flat: string): (m: Matrix)
    requires |flat| >= 25
    ensures IsSquare(m)
    ensures forall i, j :: 0 <= i < 5 && 0 <= j < 5 ==> m[i][j] == flat[5 * i + j]
  {
    seq(5, i requires 0 <= i < 5 => flat[5 * i .. 5 * i + 5])
  }

  predicate IsSquare(m: Matrix) {
    |m| == 5 && forall i :: 0 <= i < 5 ==> |m[i]| == 5
  }

  /** The cell of a letter: row, then column. */
  datatype Cell = Cell(row: nat, col: nat)
  {
    predicate Valid() { row < 5 && col < 5 }
  }

  /** The letter in a cell. */
  function At(m: Matrix, c: Cell): char
    requires IsSquare(m) && c.Valid()
  {
    m[c.row][c.col]
  }

  /** A square in which every letter has one cell. */
  ghost predicate IsKeySquare(m: Matrix) {
    IsSquare(m) &&
    forall p: Cell, q: Cell :: p.Valid() && q.Valid() && At(m, p) == At(m, q) ==> p == q
  }

  /** The letter has a cell in the square: find_position does not give None. */
  predicate InSquare(m: Matrix, c: char)
    requires IsSquare(m)
  {
    FindPosition(m, c).Some?
  }

  /** The letter of any cell is in the square. */
  lemma CellInSquare(m: Matrix, c: Cell)
    requires IsSquare(m) && c.Valid()
    ensures InSquare(m, At(m, c))
  {
  }

  lemma AlphabetNoDuplicates()
    ensures |ALPHABET| == 25 && NoDuplicates(ALPHABET)
  {
    forall i | 0 <= i < 24
      ensures ALPHABET[i] < ALPHABET[i + 1]
    {
      AlphabetAt(i);
      AlphabetAt(i + 1);
    }
    IncreasingNoDuplicates(ALPHABET);
  }

  lemma {:induction false} IncreasingNoDuplicates(s: string)
    requires forall i :: 0 <= i < |s| - 1 ==> s[i] < s[i + 1]
    ensures forall i, j :: 0 <= i < j < |s| ==> s[i] < s[j]
    decreases |s|
  {
    if |s| > 1 {
      var tail := s[1..];
      IncreasingNoDuplicates(tail);
      forall i, j | 0 <= i < j < |s|
        ensures s[i] < s[j]
      {
        if i == 0 {
          if j > 1 {
            assert s[1] == tail[0] && s[j] == tail[j - 1];
          }
        } else {
          assert s[i] == tail[i - 1] && s[j] == tail[j - 1];
        }
      }
    }
  }

  /** A sequence without duplicates that holds exactly the elements of
      another one without duplicates is as long as it. */
  lemma {:induction false} SameElementsSameLength(s: string, t: string)
    requires NoDuplicates(s) && NoDuplicates(t)
    requires forall x :: x in s <==> x in t
    ensures |s| == |t|
  {
    CardOfNoDuplicates(s);
    CardOfNoDuplicates(t);
    assert (set x | x in s) == (set x | x in t);
  }

  lemma {:induction false} CardOfNoDuplicates(s: string)
    requires NoDuplicates(s)
    ensures |set x | x in s| == |s|
  {
    if s != [] {
      var front := s[..|s| - 1];
      CardOfNoDuplicates(front);
      assert (set x | x in s) == (set x | x in front) + {s[|s| - 1]};
    }
  }

  /** The square's letters are the 25 letters of the alphabet, each once. */
  lemma KeyLettersArePermutation(key: string)
    ensures |KeyLetters(key)| == 25
    ensures NoDuplicates(KeyLetters(key))
    ensures forall c :: c in KeyLetters(key) <==> c in ALPHABET
  {
    var d := Distinct(Letters(key));
    var r := KeyLetters(key);
    var rest := Missing(ALPHABET, d);
    AlphabetNoDuplicates();
    DistinctSpec(Letters(key));
    MissingSpec(ALPHABET, d);
    LettersInSquare(key);
    AlphabetLetters();
    assert NoDuplicates(rest) by {
      MissingNoDuplicates(ALPHABET, d);
    }
    forall i, j | 0 <= i < j < |r|
      ensures r[i] != r[j]
    {
      if j < |d| {
        assert r[i] == d[i] && r[j] == d[j];
      } else if i < |d| {
        assert r[j] == rest[j - |d|] && r[i] == d[i];
        assert r[j] in rest && r[i] in d;
      } else {
        assert r[i] == rest[i - |d|] && r[j] == rest[j - |d|];
      }
    }
    SameElementsSameLength(r, ALPHABET);
  }

  lemma {:induction false} MissingNoDuplicates(s: string, used: string)
    requires NoDuplicates(s)
    ensures NoDuplicates(Missing(s, used))
  {
    if s != [] {
      var front, last := s[..|s| - 1], s[|s| - 1];
      MissingNoDuplicates(front, used);
      MissingSpec(front, used);
      assert last !in front by {
        assert forall i :: 0 <= i < |front| ==> front[i] == s[i];
      }
    }
  }

  /** The square of a key: 5 rows of 5 distinct letters, all of A-Z but J. */
  function KeySquare(key: string): (m: Matrix)
    ensures IsKeySquare(m)
    ensures forall c :: InSquare(m, c) <==> IsSquareLetter(c)
  {
    KeyLettersArePermutation(key);
    var flat := KeyLetters(key);
    var m := Rows(flat);
    forall p: Cell, q: Cell | p.Valid() && q.Valid() && At(m, p) == At(m, q)
      ensures p == q
    {
      CellIndex(p.row, p.col, q.row, q.col);
    }
    AlphabetLetters();
    forall c | c in ALPHABET
      ensures InSquare(m, c)
    {
      var k :| 0 <= k < 25 && flat[k] == c;
      assert At(m, Cell(k / 5, k % 5)) == c;
      CellInSquare(m, Cell(k / 5, k % 5));
    }
    forall c | InSquare(m, c)
      ensures c in ALPHABET
    {
      var (i, j) := FindPosition(m, c).value;
      assert flat[5 * i + j] == c;
    }
    m
  }

  /** Distinct cells have distinct row-major indices. */
  lemma CellIndex(i: int, j: int, i': int, j': int)
    requires 0 <= i < 5 && 0 <= j < 5 && 0 <= i' < 5 && 0 <= j' < 5
    requires 5 * i + j == 5 * i' + j'
    ensures i == i' && j == j'
  {
  }

  lemma LettersStep(text: string, k: nat)
    requires k < |text|
    ensures Letters(text[..k + 1]) ==
      Letters(text[..k]) + (if IsAlpha(text[k]) then [Normalize(text[k])] else [])
  {
    assert text[..k + 1][..k] == text[..k];
  }

  lemma DistinctStep(s: string, x: char)
    ensures Distinct(s + [x]) == if x in Distinct(s) then Distinct(s) else Distinct(s) + [x]
  {
    assert (s + [x])[..|s|] == s;
  }

  lemma MissingStep(s: string, k: nat, used: string)
    requires k < |s|
    ensures Missing(s[..k + 1], used) ==
      Missing(s[..k], used) + (if s[k] in used then [] else [s[k]])
  {
    assert s[..k + 1][..k] == s[..k];
  }

  /** generate_key_matrix: appends each new key letter, then each unused
      alphabet letter, to a list, and cuts the list into rows. */
  method GenerateKeyMatrix(key: string) returns (matrix: Matrix)
    ensures matrix == KeySquare(key)
  {
    var flat: string := [];
    var used: set<char> := {};
    for k := 0 to |key|
      invariant flat == Distinct(Letters(key[..k]))
      invariant forall c :: c in used <==> c in flat
    {
      var c := Normalize(key[k]);
      LettersStep(key, k);
      DistinctStep(Letters(key[..k]), c);
      assert Letters(key[..k]) + [] == Letters(key[..k]);
      if IsAlpha(key[k]) && c !in used {
        flat := flat + [c];
        used := used + {c};
      }
    }
    assert key[..|key|] == key;
    ghost var d := flat;
    for k := 0 to |ALPHABET|
      invariant flat == d + Missing(ALPHABET[..k], d)
      invariant forall c :: c in used <==> c in d
    {
      MissingStep(ALPHABET, k, d);
      if ALPHABET[k] !in used {
        flat := flat + [ALPHABET[k]];
      }
    }
    assert ALPHABET[..|ALPHABET|] == ALPHABET;
    KeyLettersArePermutation(key);
    matrix := Rows(flat);
  }

  /** The key's letters open the square, each once, in order of first
      occurrence in the key. */
  lemma KeyLettersFirst(key: string)
    ensures KeyLetters(key)[..|Distinct(Letters(key))|] == Distinct(Letters(key))
    ensures forall i, j :: 0 <= i < j < |Distinct(Letters(key))| ==>
      FirstIndex(Letters(key), KeyLetters(key)[i]) < FirstIndex(Letters(key), KeyLetters(key)[j])
  {
    DistinctOrder(Letters(key));
  }

  // ---------------------------------------------------------------------------
  // find_position

  function FindInRow(row: seq<char>, c: char, j: nat): (r: Option<nat>)
    requires |row| == 5 && j <= 5
    ensures r.Some? ==> j <= r.value < 5 && row[r.value] == c
    ensures r.Some? ==> forall j' :: j <= j' < r.value ==> row[j'] != c
    ensures r.None? ==> forall j' :: j <= j' < 5 ==> row[j'] != c
    decreases 5 - j
  {
    if j == 5 then None else if row[j] == c then Some(j) else FindInRow(row, c, j + 1)
  }

  function FindFrom(m: Matrix, c: char, i: nat): (r: Option<(nat, nat)>)
    requires IsSquare(m) && i <= 5
    ensures r.Some? ==> i <= r.value.0 < 5 && r.value.1 < 5 && m[r.value.0][r.value.1] == c
    ensures r.Some? ==> forall i', j :: i <= i' < 5 && 0 <= j < 5 && (i' < r.value.0 || (i' == r.value.0 && j < r.value.1)) ==> m[i'][j] != c
    ensures r.None? ==> forall i', j :: i <= i' < 5 && 0 <= j < 5 ==> m[i'][j] != c
    decreases 5 - i
  {
    if i == 5 then None
    else match FindInRow(m[i], c, 0)
      case Some(j) => Some((i, j))
      case None => FindFrom(m, c, i + 1)
  }

  /** find_position: the first cell, row by row, that holds the letter. */
  function FindPosition(m: Matrix, c: char): (r: Option<(nat, nat)>)
    requires IsSquare(m)
    ensures r.Some? ==> r.value.0 < 5 && r.value.1 < 5 && m[r.value.0][r.value.1] == c
    ensures r.None? ==> forall i, j :: 0 <= i < 5 && 0 <= j < 5 ==> m[i][j] != c
  {
    FindFrom(m, c, 0)
  }

  /** The position found is the first cell, row by row, holding the letter. */
  lemma FindPositionFirst(m: Matrix, c: char)
    requires IsSquare(m) && FindPosition(m, c).Some?
    ensures forall i, j :: 0 <= i < 5 && 0 <= j < 5 && (i < FindPosition(m, c).value.0 || (i == FindPosition(m, c).value.0 && j < FindPosition(m, c).value.1)) ==> m[i][j] != c
  {
  }

  /** In a key square the position found is the letter's only cell. */
  lemma FindPositionOfCell(m: Matrix, c: Cell)
    requires IsKeySquare(m) && c.Valid()
    ensures FindPosition(m, At(m, c)) == Some((c.row, c.col))
  {
    var (i, j) := FindPosition(m, At(m, c)).value;
    assert At(m, Cell(i, j)) == At(m, c);
  }

  // ---------------------------------------------------------------------------
  // Digraphs

  /** The cells a digraph moves to: along the row when both letters share
      one, down (or up) the column when they share that, and otherwise to
      the other corners of their rectangle. `step` is 1 for encrypt_pair
      and -1 for decrypt_pair; Python's `%` takes the sign of the divisor,
      as Dafny's does, so `(0 - 1) % 5 == 4`. */
  function Moved(p: Cell, q: Cell, step: int): (r: (Cell, Cell))
    requires p.Valid() && q.Valid()
    ensures r.0.Valid() && r.1.Valid()
  {
    if p.row == q.row then (Cell(p.row, (p.col + step) % 5), Cell(q.row, (q.col + step) % 5))
    else if p.col == q.col then (Cell((p.row + step) % 5, p.col), Cell((q.row + step) % 5, q.col))
    else (Cell(p.row, q.col), Cell(q.row, p.col))
  }

  /** One step along a row or column of five, and its undoing. */
  lemma Step(x: nat, y: nat, step: int)
    requires x < 5 && y < 5 && (step == 1 || step == -1)
    ensures ((x + step) % 5 - step) % 5 == x
    ensures x != y ==> (x + step) % 5 != (y + step) % 5
  {
    assert x in {0, 1, 2, 3, 4} && y in {0, 1, 2, 3, 4};
  }

  /** Moving back undoes moving forward: each rule maps the pair to a pair
      the same rule applies to. */
  lemma MovedBack(p: Cell, q: Cell, step: int)
    requires p.Valid() && q.Valid() && (step == 1 || step == -1)
    ensures var (p', q') := Moved(p, q, step); Moved(p', q', -step) == (p, q)
  {
    var (p', q') := Moved(p, q, step);
    if p.row == q.row {
      assert p' == Cell(p.row, (p.col + step) % 5) && q' == Cell(p.row, (q.col + step) % 5);
      Step(p.col, q.col, step);
      Step(q.col, p.col, step);
    } else if p.col == q.col {
      assert p' == Cell((p.row + step) % 5, p.col) && q' == Cell((q.row + step) % 5, p.col);
      Step(p.row, q.row, step);
      Step(q.row, p.row, step);
      assert p'.row != q'.row;
    } else {
      assert p' == Cell(p.row, q.col) && q' == Cell(q.row, p.col);
    }
  }

  /** The two letters of a digraph moved by `step`, or None when one of them
      is not in the square (where the source fails to unpack None). */
  function MovePair(a: char, b: char, m: Matrix, step: int): (r: Option<string>)
    requires IsSquare(m)
    ensures r.Some? <==> InSquare(m, a) && InSquare(m, b)
    ensures r.Some? ==> |r.value| == 2
  {
    match (FindPosition(m, a), FindPosition(m, b))
    case (Some((r1, c1)), Some((r2, c2))) =>
      var (p, q) := Moved(Cell(r1, c1), Cell(r2, c2), step);
      Some([At(m, p), At(m, q)])
    case _ => None
  }

  /** encrypt_pair: right along a row, down a column, or across the
      rectangle. */
  function EncryptPair(a: char, b: char, m: Matrix): (r: Option<string>)
    requires IsSquare(m)
    ensures r.Some? <==> InSquare(m, a) && InSquare(m, b)
    ensures r.Some? ==> |r.value| == 2
  {
    MovePair(a, b, m, 1)
  }

  /** decrypt_pair: left along a row, up a column, or across the
      rectangle. */
  function DecryptPair(a: char, b: char, m: Matrix): (r: Option<string>)
    requires IsSquare(m)
    ensures r.Some? <==> InSquare(m, a) && InSquare(m, b)
    ensures r.Some? ==> |r.value| == 2
  {
    MovePair(a, b, m, -1)
  }

  /** The letters a pair moves to are in the square again. */
  lemma MovePairInSquare(a: char, b: char, m: Matrix, step: int)
    requires IsSquare(m) && InSquare(m, a) && InSquare(m, b)
    ensures InSquare(m, MovePair(a, b, m, step).value[0])
    ensures InSquare(m, MovePair(a, b, m, step).value[1])
  {
    var (r1, c1) := FindPosition(m, a).value;
    var (r2, c2) := FindPosition(m, b).value;
    var (p, q) := Moved(Cell(r1, c1), Cell(r2, c2), step);
    CellInSquare(m, p);
    CellInSquare(m, q);
  }

  /** Moving a pair back undoes moving it, in a square where every letter
      has one cell. */
  lemma MovePairBack(a: char, b: char, m: Matrix, step: int)
    requires IsKeySquare(m) && InSquare(m, a) && InSquare(m, b) && (step == 1 || step == -1)
    ensures MovePair(a, b, m, step).Some?
    ensures var e := MovePair(a, b, m, step).value; MovePair(e[0], e[1], m, -step) == Some([a, b])
  {
    var (r1, c1) := FindPosition(m, a).value;
    var (r2, c2) := FindPosition(m, b).value;
    var (p, q) := Moved(Cell(r1, c1), Cell(r2, c2), step);
    MovedBack(Cell(r1, c1), Cell(r2, c2), step);
    FindPositionOfCell(m, p);
    FindPositionOfCell(m, q);
  }

  /** decrypt_pair undoes encrypt_pair for any two letters of the square. */
  lemma DecryptPairUndoesEncrypt(m: Matrix, a: char, b: char)
    requires IsKeySquare(m) && InSquare(m, a) && InSquare(m, b)
    ensures EncryptPair(a, b, m).Some?
    ensures var e := EncryptPair(a, b, m).value; DecryptPair(e[0], e[1], m) == Some([a, b])
  {
    MovePairBack(a, b, m, 1);
  }

  /** encrypt_pair undoes decrypt_pair for any two letters of the square. */
  lemma EncryptPairUndoesDecrypt(m: Matrix, a: char, b: char)
    requires IsKeySquare(m) && InSquare(m, a) && InSquare(m, b)
    ensures DecryptPair(a, b, m).Some?
    ensures var p := DecryptPair(a, b, m).value; EncryptPair(p[0], p[1], m) == Some([a, b])
  {
    MovePairBack(a, b, m, -1);
  }

  // ---------------------------------------------------------------------------
  // prepare_text

  /** The digraphs of a cleaned text: a pair of equal letters is split by an
      X, and a lone last letter is completed by an X. */
  function Digraphs(t: string): (r: string)
    decreases |t|
  {
    if t == [] then []
    else
      var a := t[0];
      var b := if |t| > 1 then t[1] else 'X';
      if a == b then [a, 'X'] + Digraphs(t[1..])
      else [a, b] + Digraphs(if |t| > 1 then t[2..] else [])
  }

  /** prepare_text as a function. */
  function Prepare(text: string): string {
    Digraphs(Letters(text))
  }

  /** prepare_text: a while loop that takes one or two letters per step. */
  method PrepareText(text: string) returns (prepared: string)
    ensures prepared == Prepare(text)
  {
    var t := Letters(text);
    prepared := [];
    var i := 0;
    while i < |t|
      invariant 0 <= i <= |t| + 1
      invariant prepared + Digraphs(if i <= |t| then t[i..] else []) == Digraphs(t)
      decreases |t| - i
    {
      var a := t[i];
      var b := if i + 1 < |t| then t[i + 1] else 'X';
      if a == b {
        prepared := prepared + [a, 'X'];
        i := i + 1;
      } else {
        prepared := prepared + [a, b];
        i := i + 2;
      }
    }
    assert t[|t|..] == [];
    LettersInSquare(text);
    DigraphsShape(t);
    if |prepared| % 2 != 0 {
      prepared := prepared + "X";
    }
  }

  /** What prepare_text promises: an even number of letters, all in the
      square, and no digraph of two equal letters other than XX. */
  lemma {:induction false} DigraphsShape(t: string)
    requires forall i :: 0 <= i < |t| ==> IsSquareLetter(t[i])
    ensures |Digraphs(t)| % 2 == 0
    ensures forall i :: 0 <= i < |Digraphs(t)| ==> IsSquareLetter(Digraphs(t)[i])
    ensures forall k :: 0 <= k < |Digraphs(t)| / 2 ==>
      Digraphs(t)[2 * k] != Digraphs(t)[2 * k + 1] || Digraphs(t)[2 * k] == 'X'
    decreases |t|
  {
    if t != [] {
      var rest := if t[0] == (if |t| > 1 then t[1] else 'X') then t[1..]
                  else if |t| > 1 then t[2..] else [];
      DigraphsShape(rest);
      var r := Digraphs(t);
      assert r == r[..2] + Digraphs(rest);
      forall k | 0 <= k < |r| / 2
        ensures r[2 * k] != r[2 * k + 1] || r[2 * k] == 'X'
      {
        if k > 0 {
          assert r[2 * k] == Digraphs(rest)[2 * (k - 1)];
          assert r[2 * k + 1] == Digraphs(rest)[2 * (k - 1) + 1];
        }
      }
    }
  }

  lemma PrepareShape(text: string)
    ensures |Prepare(text)| % 2 == 0
    ensures forall i :: 0 <= i < |Prepare(text)| ==> IsSquareLetter(Prepare(text)[i])
    ensures forall k :: 0 <= k < |Prepare(text)| / 2 ==>
      Prepare(text)[2 * k] != Prepare(text)[2 * k + 1] || Prepare(text)[2 * k] == 'X'
  {
    LettersInSquare(text);
    DigraphsShape(Letters(text));
  }

  // ---------------------------------------------------------------------------
  // encrypt and decrypt

  /** The text run through the pair map two letters at a time. An odd
      length makes the source index past the end, and a letter outside the
      square makes it raise: both are None. */
  function Crypt(m: Matrix, s: string, encrypt: bool): (r: Option<string>)
    requires IsSquare(m)
    ensures r.Some? ==> |r.value| == |s|
    decreases |s|
  {
    if s == [] then Some([])
    else if |s| == 1 then None
    else
      var pair := if encrypt then EncryptPair(s[0], s[1], m) else DecryptPair(s[0], s[1], m);
      var rest := Crypt(m, s[2..], encrypt);
      if pair.None? || rest.None? then None else Some(pair.value + rest.value)
  }

  /** Crypt two letters further on. */
  lemma {:induction false} CryptStep(m: Matrix, s: string, i: nat, encrypt: bool)
    requires IsSquare(m) && i + 2 <= |s|
    ensures Crypt(m, s[i..], encrypt) ==
      var pair := if encrypt then EncryptPair(s[i], s[i + 1], m) else DecryptPair(s[i], s[i + 1], m);
      var rest := Crypt(m, s[i + 2..], encrypt);
      if pair.None? || rest.None? then None else Some(pair.value + rest.value)
  {
    assert s[i..][2..] == s[i + 2..];
  }

  /** A text of even length over the square's letters always goes through,
      and the result is again over the square's letters. */
  lemma {:induction false} CryptTotal(m: Matrix, s: string, encrypt: bool)
    requires IsSquare(m) && |s| % 2 == 0
    requires forall i :: 0 <= i < |s| ==> InSquare(m, s[i])
    ensures Crypt(m, s, encrypt).Some?
    ensures forall i :: 0 <= i < |s| ==> InSquare(m, Crypt(m, s, encrypt).value[i])
    decreases |s|
  {
    if s != [] {
      CryptTotal(m, s[2..], encrypt);
      CryptTotalFirstPair(m, s, encrypt);
    }
  }

  /** The inductive step of CryptTotal: the first digraph goes through,
      given that the rest does. */
  lemma CryptTotalFirstPair(m: Matrix, s: string, encrypt: bool)
    requires IsSquare(m) && |s| >= 2 && InSquare(m, s[0]) && InSquare(m, s[1])
    requires Crypt(m, s[2..], encrypt).Some?
    requires forall i :: 0 <= i < |s| - 2 ==> InSquare(m, Crypt(m, s[2..], encrypt).value[i])
    ensures Crypt(m, s, encrypt).Some?
    ensures forall i :: 0 <= i < |s| ==> InSquare(m, Crypt(m, s, encrypt).value[i])
  {
    MovePairInSquare(s[0], s[1], m, if encrypt then 1 else -1);
    var r := Crypt(m, s, encrypt).value;
    var rest := Crypt(m, s[2..], encrypt).value;
    assert r[2..] == rest;
    forall i | 2 <= i < |s|
      ensures InSquare(m, r[i])
    {
      assert r[i] == rest[i - 2];
    }
  }

  /** Crypt of a text that starts with a given digraph. */
  lemma CryptPrefix(m: Matrix, p: string, rest: string, encrypt: bool)
    requires IsSquare(m) && |p| == 2
    ensures Crypt(m, p + rest, encrypt) ==
      var pair := if encrypt then EncryptPair(p[0], p[1], m) else DecryptPair(p[0], p[1], m);
      var r := Crypt(m, rest, encrypt);
      if pair.None? || r.None? then None else Some(pair.value + r.value)
  {
    assert (p + rest)[2..] == rest;
  }

  /** Deciphering undoes enciphering on any even text over the square. */
  lemma {:induction false} CryptRoundTrip(m: Matrix, s: string)
    requires IsKeySquare(m) && |s| % 2 == 0
    requires forall i :: 0 <= i < |s| ==> InSquare(m, s[i])
    ensures Crypt(m, s, true).Some?
    ensures Crypt(m, Crypt(m, s, true).value, false) == Some(s)
    decreases |s|
  {
    if s != [] {
      var rest := s[2..];
      assert forall i :: 0 <= i < |rest| ==> InSquare(m, rest[i]) by {
        assert forall i :: 0 <= i < |rest| ==> rest[i] == s[i + 2];
      }
      CryptRoundTrip(m, rest);
      DecryptPairUndoesEncrypt(m, s[0], s[1]);
      RoundTripFirstPair(m, s);
    }
  }

  /** The inductive step of CryptRoundTrip: the text comes back, given that
      its first digraph and the rest do. */
  lemma RoundTripFirstPair(m: Matrix, s: string)
    requires IsSquare(m) && |s| >= 2
    requires EncryptPair(s[0], s[1], m).Some?
    requires var e := EncryptPair(s[0], s[1], m).value; DecryptPair(e[0], e[1], m) == Some([s[0], s[1]])
    requires Crypt(m, s[2..], true).Some?
    requires Crypt(m, Crypt(m, s[2..], true).value, false) == Some(s[2..])
    ensures Crypt(m, s, true).Some?
    ensures Crypt(m, Crypt(m, s, true).value, false) == Some(s)
  {
    var rest := s[2..];
    var pair := EncryptPair(s[0], s[1], m).value;
    var crest := Crypt(m, rest, true).value;
    assert Crypt(m, s, true) == Some(pair + crest) by {
      CryptStep(m, s, 0, true);
      assert s[0..] == s;
    }
    assert Crypt(m, pair + crest, false) == Some([s[0], s[1]] + rest) by {
      assert [pair[0], pair[1]] == pair;
      CryptPrefix(m, pair, crest, false);
    }
    FirstTwo(s);
  }

  /** A text is its first two letters followed by the rest. */
  lemma FirstTwo(s: string)
    requires |s| >= 2
    ensures [s[0], s[1]] + s[2..] == s
  {
    assert s == s[..2] + s[2..];
  }

  /** Where the rest of the text goes through, it has a first digraph,
      and its result is that digraph's followed by the rest's. */
  lemma CryptAdvance(m: Matrix, t: string, i: nat, encrypt: bool)
    requires IsSquare(m) && i < |t| && Crypt(m, t[i..], encrypt).Some?
    ensures i + 2 <= |t|
    ensures var pair := if encrypt then EncryptPair(t[i], t[i + 1], m) else DecryptPair(t[i], t[i + 1], m);
      pair.Some? && Crypt(m, t[i + 2..], encrypt).Some? &&
      Crypt(m, t[i..], encrypt).value == pair.value + Crypt(m, t[i + 2..], encrypt).value
  {
    assert |t[i..]| != 1;
    CryptStep(m, t, i, encrypt);
  }

  /** One step of the loop of decrypt, which may fail. */
  lemma DecryptAdvance(m: Matrix, t: string, i: nat, acc: string)
    requires IsSquare(m) && i + 2 <= |t|
    ensures DecryptPair(t[i], t[i + 1], m).None? ==> Crypt(m, t[i..], false).None?
    ensures DecryptPair(t[i], t[i + 1], m).Some? ==>
      (var rest := Crypt(m, t[i..], false); if rest.None? then None else Some(acc + rest.value))
      == (var rest := Crypt(m, t[i + 2..], false);
          if rest.None? then None else Some((acc + DecryptPair(t[i], t[i + 1], m).value) + rest.value))
  {
    CryptStep(m, t, i, false);
    var pair := DecryptPair(t[i], t[i + 1], m);
    var rest := Crypt(m, t[i + 2..], false);
    if pair.Some? && rest.Some? {
      assert (acc + pair.value) + rest.value == acc + (pair.value + rest.value);
    }
  }

  /** The loop of encrypt: one encrypt_pair per digraph. */
  method EncryptDigraphs(matrix: Matrix, t: string) returns (cipher: string)
    requires IsSquare(matrix) && Crypt(matrix, t, true).Some?
    ensures Crypt(matrix, t, true) == Some(cipher)
  {
    cipher := [];
    var i := 0;
    assert t[0..] == t;
    assert cipher + Crypt(matrix, t, true).value == Crypt(matrix, t, true).value;
    while i < |t|
      invariant 0 <= i <= |t|
      invariant Crypt(matrix, t[i..], true).Some?
      invariant Crypt(matrix, t, true) == Some(cipher + Crypt(matrix, t[i..], true).value)
      decreases |t| - i
    {
      CryptAdvance(matrix, t, i, true);
      var pair := EncryptPair(t[i], t[i + 1], matrix);
      var rest := Crypt(matrix, t[i + 2..], true).value;
      assert (cipher + pair.value) + rest == cipher + (pair.value + rest);
      cipher := cipher + pair.value;
      i := i + 2;
    }
    assert t[i..] == [];
    assert cipher + [] == cipher;
  }

  /** encrypt: the key square, the prepared text, then its digraphs. */
  method Encrypt(text: string, key: string) returns (cipher: string)
    ensures Crypt(KeySquare(key), Prepare(text), true) == Some(cipher)
  {
    var matrix := GenerateKeyMatrix(key);
    var t := PrepareText(text);
    PrepareShape(text);
    CryptTotal(matrix, t, true);
    cipher := EncryptDigraphs(matrix, t);
  }

  /** The loop of decrypt: one decrypt_pair per two letters, failing on an
      odd length or a letter outside the square. */
  method DecryptDigraphs(matrix: Matrix, cipher: string) returns (text: Option<string>)
    requires IsSquare(matrix)
    ensures text == Crypt(matrix, cipher, false)
  {
    var acc: string := [];
    var i := 0;
    assert cipher[0..] == cipher;
    assert Crypt(matrix, cipher, false).Some? ==>
      acc + Crypt(matrix, cipher, false).value == Crypt(matrix, cipher, false).value;
    while i < |cipher|
      invariant 0 <= i <= |cipher|
      invariant Crypt(matrix, cipher, false) ==
        var rest := Crypt(matrix, cipher[i..], false);
        if rest.None? then None else Some(acc + rest.value)
      decreases |cipher| - i
    {
      if i + 1 >= |cipher| {
        assert |cipher[i..]| == 1;
        return None;
      }
      var pair := DecryptPair(cipher[i], cipher[i + 1], matrix);
      DecryptAdvance(matrix, cipher, i, acc);
      if pair.None? {
        return None;
      }
      acc := acc + pair.value;
      i := i + 2;
    }
    assert cipher[i..] == [];
    assert acc + [] == acc;
    return Some(acc);
  }

  /** decrypt: the key square, then the digraphs of the ciphertext. */
  method Decrypt(cipher: string, key: string) returns (text: Option<string>)
    ensures text == Crypt(KeySquare(key), cipher, false)
  {
    var matrix := GenerateKeyMatrix(key);
    text := DecryptDigraphs(matrix, cipher);
  }

  /** The program's round trip: decrypt(encrypt(t, k), k) is the prepared
      text, and the ciphertext is as long as it and over the square. */
  lemma RoundTrip(text: string, key: string)
    ensures Crypt(KeySquare(key), Prepare(text), true).Some?
    ensures var c := Crypt(KeySquare(key), Prepare(text), true).value;
      |c| == |Prepare(text)| &&
      (forall i :: 0 <= i < |c| ==> IsSquareLetter(c[i])) &&
      Crypt(KeySquare(key), c, false) == Some(Prepare(text))
  {
    var m := KeySquare(key);
    var p := Prepare(text);
    PrepareShape(text);
    CryptTotal(m, p, true);
    CryptRoundTrip(m, p);
  }
}
