/** The Playfair cipher proper. Each digraph is looked up in the key square
    by the lower-case form of its letters and replaced by two letters of
    the square, each put back in the case of the letter it replaces: both
    letters in one column move down (up to decrypt) one row, both in one row
    move right (left) one column, otherwise each takes the column of the
    other. The column rule is tried first, so a digraph whose two letters
    share a cell moves down. Non-letters are dropped from the result. */
module Playfair {
  import opened Text
  import opened Keys
  import opened PlayfairGrid
  import opened PlayfairDigraphs

  /** A cell of the square: row and column, each 0..4. */
  datatype Pos = Pos(row: int, col: int)

  predicate InSquare(p: Pos)
  {
    0 <= p.row < 5 && 0 <= p.col < 5
  }

  /** One step along a row or column of the square: `(x + 1) % 5` to
      encrypt, `mod(x - 1, 5)` to decrypt. */
  function Step(x: int, decrypt: bool): (r: int)
    requires 0 <= x < 5
    ensures !decrypt ==> r == if x == 4 then 0 else x + 1
    ensures decrypt ==> r == if x == 0 then 4 else x - 1
  {
    ModIsModulus(x - 1, 5);
    if decrypt then Mod(x - 1, 5) else (x + 1) % 5
  }

  /** Where the two letters of a digraph at cells `a` and `b` go: the
      column rule first, then the row rule, then the rectangle rule. */
  function Target(a: Pos, b: Pos, decrypt: bool): (q: (Pos, Pos))
    requires InSquare(a) && InSquare(b)
    ensures InSquare(q.0) && InSquare(q.1)
  {
    if a.col == b.col then
      (Pos(Step(a.row, decrypt), a.col), Pos(Step(b.row, decrypt), b.col))
    else if a.row == b.row then
      (Pos(a.row, Step(a.col, decrypt)), Pos(b.row, Step(b.col, decrypt)))
    else
      (Pos(a.row, b.col), Pos(b.row, a.col))
  }

  /** Moving both cells and moving them back restores them: a column pair
      stays a column pair, a row pair a row pair, and the corners of a
      rectangle are the corners of the same rectangle. */
  lemma TargetRoundTrip(a: Pos, b: Pos)
    requires InSquare(a) && InSquare(b)
    ensures Target(Target(a, b, false).0, Target(a, b, false).1, true) == (a, b)
  {
  }

  /** Different cells go to different cells. */
  lemma TargetDistinct(a: Pos, b: Pos, decrypt: bool)
    requires InSquare(a) && InSquare(b) && a != b
    ensures Target(a, b, decrypt).0 != Target(a, b, decrypt).1
  {
  }

  /** `c.toUpperCase()` when `upper` holds, `c` itself otherwise. */
  function InCase(c: char, upper: bool): char
  {
    if upper then ToUpper(c) else c
  }

  /** A square letter in its lower-case form is a letter of the square. */
  lemma SquareLetterInGrid(c: char)
    requires SquareLetter(c)
    ensures GridLetter(ToLower(c))
  {
  }

  /** The cell of a square letter: what `search2dArray(grid,
      c.toLowerCase())` finds in a grid laid out from `order`. */
  function Position(order: seq<char>, c: char): (p: Pos)
    requires ValidOrder(order) && SquareLetter(c)
    ensures InSquare(p) && order[5 * p.row + p.col] == ToLower(c)
  {
    SquareLetterInGrid(c);
    var k := IndexOf(order, ToLower(c));
    Pos(k / 5, k % 5)
  }

  /** The letter in cell `p` of the square laid out from `order`. */
  function At(order: seq<char>, p: Pos): char
    requires |order| == 25 && InSquare(p)
  {
    order[5 * p.row + p.col]
  }

  /** A digraph the square can encode. */
  predicate SquarePair(d: String)
  {
    |d| == 2 && SquareLetter(d[0]) && SquareLetter(d[1])
  }

  /** One digraph through the square. The result is two square letters in
      the cases of the two letters of the digraph. */
  function PairRule(order: seq<char>, d: String, decrypt: bool): (r: String)
    requires ValidOrder(order) && SquarePair(d)
    ensures SquarePair(r)
    ensures IsUpper(r[0]) <==> IsUpper(d[0])
    ensures IsUpper(r[1]) <==> IsUpper(d[1])
  {
    CaseOfLetters(d[0]);
    CaseOfLetters(d[1]);
    var q := Target(Position(order, d[0]), Position(order, d[1]), decrypt);
    [InCase(At(order, q.0), CheckUpperCase(d[0])), InCase(At(order, q.1), CheckUpperCase(d[1]))]
  }

  /** A letter of the square put in some case and looked up again. */
  lemma InCaseBack(order: seq<char>, p: Pos, upper: bool)
    requires ValidOrder(order) && InSquare(p)
    ensures SquareLetter(InCase(At(order, p), upper))
    ensures Position(order, InCase(At(order, p), upper)) == p
    ensures CheckUpperCase(InCase(At(order, p), upper)) == upper
  {
    var g := At(order, p);
    CaseOfLetters(g);
    CaseOfLetters(InCase(g, upper));
    IndexOfDistinct(order, 5 * p.row + p.col);
  }

  /** A square letter is its lower-case form put back in its case. */
  lemma Recased(c: char)
    requires SquareLetter(c)
    ensures InCase(ToLower(c), CheckUpperCase(c)) == c
  {
    CaseOfLetters(c);
  }

  /** Decryption undoes encryption for every digraph of square letters,
      a digraph whose letters share a cell included. */
  lemma PairRoundTrip(order: seq<char>, d: String)
    requires ValidOrder(order) && SquarePair(d)
    ensures PairRule(order, PairRule(order, d, false), true) == d
  {
    var p1, p2 := Position(order, d[0]), Position(order, d[1]);
    var u1, u2 := CheckUpperCase(d[0]), CheckUpperCase(d[1]);
    var q := Target(p1, p2, false);
    var e := PairRule(order, d, false);
    assert e == [InCase(At(order, q.0), u1), InCase(At(order, q.1), u2)];
    assert Position(order, e[0]) == q.0 && CheckUpperCase(e[0]) == u1 by {
      InCaseBack(order, q.0, u1);
    }
    assert Position(order, e[1]) == q.1 && CheckUpperCase(e[1]) == u2 by {
      InCaseBack(order, q.1, u2);
    }
    assert Target(q.0, q.1, true) == (p1, p2) by {
      TargetRoundTrip(p1, p2);
    }
    var back := PairRule(order, e, true);
    assert back == [InCase(At(order, p1), u1), InCase(At(order, p2), u2)];
    assert InCase(At(order, p1), u1) == d[0] by {
      Recased(d[0]);
    }
    assert InCase(At(order, p2), u2) == d[1] by {
      Recased(d[1]);
    }
  }

  /** Two different characters of a digraph become two different
      characters: different cells go to different cells, and two letters
      sharing a cell differ in case and keep that case. */
  lemma PairRuleDistinct(order: seq<char>, d: String, decrypt: bool)
    requires ValidOrder(order) && SquarePair(d) && d[0] != d[1]
    ensures PairRule(order, d, decrypt)[0] != PairRule(order, d, decrypt)[1]
  {
    var p1, p2 := Position(order, d[0]), Position(order, d[1]);
    var q := Target(p1, p2, decrypt);
    CaseOfLetters(d[0]);
    CaseOfLetters(d[1]);
    InCaseBack(order, q.0, CheckUpperCase(d[0]));
    InCaseBack(order, q.1, CheckUpperCase(d[1]));
    if p1 != p2 {
      TargetDistinct(p1, p2, decrypt);
    } else {
      Recased(d[0]);
      Recased(d[1]);
    }
  }

  /** Every digraph of a text of square letters is a pair of square
      letters. */
  lemma {:induction false} PairingSquare(m: String)
    requires forall k :: 0 <= k < |m| ==> SquareLetter(m[k])
    ensures forall t :: 0 <= t < |Pairing(m).digraphs| ==> SquarePair(Pairing(m).digraphs[t])
    decreases |m|
  {
    if |m| >= 2 && m[0] == m[1] {
      PairingSquare(m[1..]);
      SquareStep([m[0], Filler(m[0])], Pairing(m[1..]).digraphs);
    } else if |m| >= 2 {
      PairingSquare(m[2..]);
      SquareStep(m[..2], Pairing(m[2..]).digraphs);
    } else if |m| == 1 {
      SquareStep([m[0], Filler(m[0])], []);
    }
  }

  lemma SquareStep(d: String, ds: seq<String>)
    requires SquarePair(d)
    requires forall t :: 0 <= t < |ds| ==> SquarePair(ds[t])
    ensures forall t :: 0 <= t < |[d] + ds| ==> SquarePair(([d] + ds)[t])
  {
  }

  /** Every digraph through the square, in order. */
  function MapRule(order: seq<char>, ds: seq<String>, decrypt: bool): (r: seq<String>)
    requires ValidOrder(order)
    requires forall t :: 0 <= t < |ds| ==> SquarePair(ds[t])
    ensures |r| == |ds|
    ensures forall t :: 0 <= t < |ds| ==> SquarePair(r[t])
  {
    seq(|ds|, t requires 0 <= t < |ds| => PairRule(order, ds[t], decrypt))
  }

  /** The text the Playfair loop returns for the letters `letters`: the
      digraphs through the square, joined. Its length is twice the number of
      digraphs, it is made of square letters only, and each of its letters
      has the case of the digraph letter it replaces. */
  function PlayfairText(order: seq<char>, letters: String, decrypt: bool): (r: String)
    requires ValidOrder(order)
    requires forall k :: 0 <= k < |letters| ==> SquareLetter(letters[k])
    ensures |r| == 2 * |Pairing(letters).digraphs| == |Concat(Pairing(letters).digraphs)|
    ensures forall k :: 0 <= k < |r| ==> SquareLetter(r[k])
    ensures forall k :: 0 <= k < |r| ==>
      (IsUpper(r[k]) <==> IsUpper(Concat(Pairing(letters).digraphs)[k]))
  {
    var ds := Pairing(letters).digraphs;
    PairingSquare(letters);
    var blocks := MapRule(order, ds, decrypt);
    BlocksShape(ds, blocks);
    Concat(blocks)
  }

  /** Character k of joined two-character blocks is character k % 2 of
      block k / 2. */
  lemma ConcatAt(ds: seq<String>, k: int)
    requires forall t :: 0 <= t < |ds| ==> |ds[t]| == 2
    requires 0 <= k < 2 * |ds|
    ensures |Concat(ds)| == 2 * |ds| && 0 <= k / 2 < |ds| && 0 <= k % 2 < 2
    ensures Concat(ds)[k] == ds[k / 2][k % 2]
  {
    var t, i := k / 2, k % 2;
    assert k == t * 2 + i;
    ConcatUniformAt(ds, 2, t, i);
  }

  /** Joined blocks of two square letters, each letter in the case of the
      letter at the same place of `ds`. */
  lemma BlocksShape(ds: seq<String>, blocks: seq<String>)
    requires |blocks| == |ds|
    requires forall t :: 0 <= t < |ds| ==> (|ds[t]| == 2 && SquarePair(blocks[t]) &&
      (IsUpper(blocks[t][0]) <==> IsUpper(ds[t][0])) && (IsUpper(blocks[t][1]) <==> IsUpper(ds[t][1])))
    ensures |Concat(blocks)| == 2 * |ds| == |Concat(ds)|
    ensures forall k :: 0 <= k < |Concat(blocks)| ==> SquareLetter(Concat(blocks)[k])
    ensures forall k :: 0 <= k < |Concat(blocks)| ==> (IsUpper(Concat(blocks)[k]) <==> IsUpper(Concat(ds)[k]))
  {
    assert |Concat(blocks)| == 2 * |ds| == |Concat(ds)| by {
      ConcatLength(blocks, 2);
      ConcatLength(ds, 2);
    }
    forall k | 0 <= k < 2 * |ds|
      ensures SquareLetter(Concat(blocks)[k])
      ensures IsUpper(Concat(blocks)[k]) <==> IsUpper(Concat(ds)[k])
    {
      ConcatAt(blocks, k);
      ConcatAt(ds, k);
    }
  }

  /** The whole cipher for a key accepted by the key reader: the letters of
      the text (with 'j' read as 'i') through the key square. */
  function Encipher(key: String, text: String, decrypt: bool): (r: String)
    requires IsLetters(key)
    ensures var joined := Concat(Pairing(LettersOf(text)).digraphs);
      |r| == |joined| &&
      forall k :: 0 <= k < |r| ==> SquareLetter(r[k]) && (IsUpper(r[k]) <==> IsUpper(joined[k]))
  {
    GridOrderValid(key);
    PlayfairText(GridOrder(key), LettersOf(text), decrypt)
  }

  /** The body of the loop of `playfairEncrypt` and `playfairDecrypt`:
      find both letters of the digraph in the grid (in lower case), apply
      the column rule, the row rule or the rectangle rule, and restore each
      letter's case. */
  method TransformDigraph(charGrid: array2<char>, ghost order: seq<char>, digraph: String, decrypt: bool)
    returns (pair: String)
    requires charGrid.Length0 == 5 && charGrid.Length1 == 5 && ValidOrder(order)
    requires forall r, c :: 0 <= r < 5 && 0 <= c < 5 ==> charGrid[r, c] == order[5 * r + c]
    requires SquarePair(digraph)
    ensures pair == PairRule(order, digraph, decrypt)
  {
    var i1, j1 := Search2dArray(charGrid, ToLower(digraph[0]));
    var i2, j2 := Search2dArray(charGrid, ToLower(digraph[1]));
    Located(charGrid, order, digraph[0], i1, j1);
    Located(charGrid, order, digraph[1], i2, j2);
    var d0isUpper := CheckUpperCase(digraph[0]);
    var d1isUpper := CheckUpperCase(digraph[1]);
    ghost var q := Target(Pos(i1, j1), Pos(i2, j2), decrypt);
    var first, second;
    if j1 == j2 {
      first := charGrid[Step(i1, decrypt), j1];
      second := charGrid[Step(i2, decrypt), j2];
    } else if i1 == i2 {
      first := charGrid[i1, Step(j1, decrypt)];
      second := charGrid[i2, Step(j2, decrypt)];
    } else {
      first := charGrid[i1, j2];
      second := charGrid[i2, j1];
    }
    GridAt(charGrid, order, q.0);
    GridAt(charGrid, order, q.1);
    assert first == charGrid[q.0.row, q.0.col] && second == charGrid[q.1.row, q.1.col];
    pair := [InCase(first, d0isUpper), InCase(second, d1isUpper)];
  }

  /** The loop of `playfairEncrypt` and `playfairDecrypt` over the
      digraphs, appending two letters for each. */
  method TransformDigraphs(charGrid: array2<char>, ghost order: seq<char>, digraphs: seq<String>, decrypt: bool)
    returns (out: String)
    requires charGrid.Length0 == 5 && charGrid.Length1 == 5 && ValidOrder(order)
    requires forall r, c :: 0 <= r < 5 && 0 <= c < 5 ==> charGrid[r, c] == order[5 * r + c]
    requires forall t :: 0 <= t < |digraphs| ==> SquarePair(digraphs[t])
    ensures out == Concat(MapRule(order, digraphs, decrypt))
  {
    ghost var blocks := MapRule(order, digraphs, decrypt);
    out := "";
    for t := 0 to |digraphs|
      invariant out == Concat(blocks[..t])
    {
      var pair := TransformDigraph(charGrid, order, digraphs[t], decrypt);
      assert pair == blocks[t];
      ConcatStep(blocks, t);
      out := out + pair;
    }
    assert blocks[..|digraphs|] == blocks;
  }

  lemma GridAt(charGrid: array2<char>, order: seq<char>, p: Pos)
    requires charGrid.Length0 == 5 && charGrid.Length1 == 5 && |order| == 25 && InSquare(p)
    requires forall r, c :: 0 <= r < 5 && 0 <= c < 5 ==> charGrid[r, c] == order[5 * r + c]
    ensures charGrid[p.row, p.col] == At(order, p)
  {
  }

  /** The search for a square letter finds the row and column of its cell. */
  lemma Located(charGrid: array2<char>, order: seq<char>, c: char, i: int, j: int)
    requires charGrid.Length0 == 5 && charGrid.Length1 == 5 && ValidOrder(order)
    requires forall r, k :: 0 <= r < 5 && 0 <= k < 5 ==> charGrid[r, k] == order[5 * r + k]
    requires SquareLetter(c)
    requires i == -1 <==> forall r, k :: 0 <= r < 5 && 0 <= k < 5 ==> charGrid[r, k] != ToLower(c)
    requires i != -1 ==> 0 <= i < 5 && 0 <= j < 5 && charGrid[i, j] == ToLower(c)
    ensures Position(order, c) == Pos(i, j)
  {
    SquareLetterInGrid(c);
    GridHolds(charGrid, order, ToLower(c));
    SearchFindsPosition(charGrid, order, ToLower(c), i, j);
  }

  /** `playfairEncrypt`. The key is read as for the polyalphabetic cipher;
      a rejected key gives an error instead of the empty text. */
  method PlayfairEncrypt(message: String, keyText: String) returns (r: Result<String>)
    ensures GetPolyalphabeticKey(keyText).Err? ==> r == Err(NotAlphabetic)
    ensures GetPolyalphabeticKey(keyText).Ok? ==>
      r == Ok(Encipher(GetPolyalphabeticKey(keyText).value, message, false))
  {
    var key := GetPolyalphabeticKey(keyText);
    if key.Err? {
      return Err(key.error);
    }
    var letters, nonLetters := ExtractLetters(message);
    var charGrid := GetPlayfairGrid(key.value);
    var digraphs, addedFillers := GetPlayfairDigraphs(letters);
    PairingSquare(letters);
    var encrypted := TransformDigraphs(charGrid, GridOrder(key.value), digraphs, false);
    return Ok(encrypted);
  }

  /** `playfairDecrypt`: the same steps with the rules run backwards. */
  method PlayfairDecrypt(encrypted: String, keyText: String) returns (r: Result<String>)
    ensures GetPolyalphabeticKey(keyText).Err? ==> r == Err(NotAlphabetic)
    ensures GetPolyalphabeticKey(keyText).Ok? ==>
      r == Ok(Encipher(GetPolyalphabeticKey(keyText).value, encrypted, true))
  {
    var key := GetPolyalphabeticKey(keyText);
    if key.Err? {
      return Err(key.error);
    }
    var letters, nonLetters := ExtractLetters(encrypted);
    var charGrid := GetPlayfairGrid(key.value);
    var digraphs, addedFillers := GetPlayfairDigraphs(letters);
    PairingSquare(letters);
    var message := TransformDigraphs(charGrid, GridOrder(key.value), digraphs, true);
    return Ok(message);
  }

  /** Decrypting blocks that came out of encryption gives back the blocks. */
  lemma MapRuleRoundTrip(order: seq<char>, ds: seq<String>)
    requires ValidOrder(order)
    requires forall t :: 0 <= t < |ds| ==> SquarePair(ds[t])
    ensures MapRule(order, MapRule(order, ds, false), true) == ds
  {
    var back := MapRule(order, MapRule(order, ds, false), true);
    forall t | 0 <= t < |ds|
      ensures back[t] == ds[t]
    {
      PairRoundTrip(order, ds[t]);
    }
  }

  /** Decrypting the encryption gives back the digraphs of the letters,
      fillers included, provided no digraph holds two equal characters (a
      doubled filler such as "xx" does, and is lost). Deleting the recorded
      fillers from that text gives back the letters. */
  lemma PlayfairRoundTrip(order: seq<char>, letters: String)
    requires ValidOrder(order)
    requires forall k :: 0 <= k < |letters| ==> SquareLetter(letters[k])
    requires forall t :: 0 <= t < |Pairing(letters).digraphs| ==>
      Pairing(letters).digraphs[t][0] != Pairing(letters).digraphs[t][1]
    ensures PlayfairText(order, PlayfairText(order, letters, false), true) == Concat(Pairing(letters).digraphs)
    ensures Without(Concat(Pairing(letters).digraphs), Pairing(letters).fillers, 0) == letters
  {
    var ds := Pairing(letters).digraphs;
    PairingSquare(letters);
    var blocks := MapRule(order, ds, false);
    forall t | 0 <= t < |blocks|
      ensures |blocks[t]| == 2 && blocks[t][0] != blocks[t][1]
    {
      PairRuleDistinct(order, ds[t], false);
    }
    PairingOfBlocks(blocks);
    MapRuleRoundTrip(order, ds);
    PairingRestores(letters);
  }

  /** The same for whole texts under one key: decrypting the encryption of
      `m` gives the digraphs of the letters of `m`, which are the letters of
      `m` once the fillers are deleted. */
  lemma EncipherRoundTrip(key: String, m: String)
    requires IsLetters(key)
    requires forall t :: 0 <= t < |Pairing(LettersOf(m)).digraphs| ==>
      Pairing(LettersOf(m)).digraphs[t][0] != Pairing(LettersOf(m)).digraphs[t][1]
    ensures Encipher(key, Encipher(key, m, false), true) == Concat(Pairing(LettersOf(m)).digraphs)
    ensures Without(Encipher(key, Encipher(key, m, false), true), Pairing(LettersOf(m)).fillers, 0) == LettersOf(m)
  {
    GridOrderValid(key);
    var e := Encipher(key, m, false);
    LettersOfSquareLetters(e);
    PlayfairRoundTrip(GridOrder(key), LettersOf(m));
  }
}
