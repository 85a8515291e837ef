/** The Playfair key square. The key is lower-cased; its letters, then the
    whole alphabet, are added to an insertion-ordered set, skipping 'j' and
    anything already present; the 25 letters of the set are laid out row by
    row in a 5 x 5 grid. */
module PlayfairGrid {
  import opened Text

  /** The 25 letters a grid cell can hold: the lower-case letters but 'j'. */
  predicate GridLetter(c: char)
  {
    IsLower(c) && c != 'j'
  }

  /** `if (char == 'j') continue; if (!charSet.has(char)) charSet.add(char)` */
  function AddNew(chars: seq<char>, c: char): seq<char>
  {
    if c == 'j' || c in chars then chars else chars + [c]
  }

  /** The set after adding each character of `s` in turn. What was there is
      kept as a prefix; what is added is each character of `s` but 'j' that
      was not yet present; no character is ever stored twice. */
  function Collect(chars: seq<char>, s: String): (r: seq<char>)
    ensures |chars| <= |r| && r[..|chars|] == chars
    ensures forall c :: c in r <==> c in chars || (c in s && c != 'j')
    ensures Distinct(chars) ==> Distinct(r)
  {
    if s == [] then chars
    else
      var front := Collect(chars, s[..|s| - 1]);
      assert forall c :: c in s <==> c in s[..|s| - 1] || c == s[|s| - 1] by {
        assert s == s[..|s| - 1] + [s[|s| - 1]];
      }
      AddNew(front, s[|s| - 1])
  }

  /** The distinct letters of the lower-cased key, 'j' left out, in order
      of first occurrence. */
  function KeyLetters(key: String): seq<char>
  {
    Collect([], LowerText(key))
  }

  /** The 25 letters of the square in row-major order: key letters first,
      then the rest of the alphabet. */
  function GridOrder(key: String): seq<char>
  {
    Collect(KeyLetters(key), Alphabet)
  }

  /** A row-major arrangement of the 25 grid letters, each exactly once. */
  predicate ValidOrder(order: seq<char>)
  {
    && |order| == 25
    && Distinct(order)
    && (forall k :: 0 <= k < 25 ==> GridLetter(order[k]))
    && (forall c :: GridLetter(c) ==> c in order)
  }

  /** A list without repeats is as long as the set of its elements. */
  lemma {:induction false} DistinctCard(s: seq<char>)
    requires Distinct(s)
    ensures |set c | c in s| == |s|
  {
    if s != [] {
      var front := s[..|s| - 1];
      DistinctCard(front);
      assert (set c | c in s) == (set c | c in front) + {s[|s| - 1]};
    }
  }

  /** Adding distinct new characters, at most one of them 'j', grows the
      set by one for each character that is not 'j'. */
  lemma {:induction false} CollectLength(chars: seq<char>, s: String)
    requires Distinct(s)
    requires forall c :: c in s ==> c !in chars
    ensures |Collect(chars, s)| == |chars| + |s| - (if 'j' in s then 1 else 0)
  {
    if s != [] {
      var front := s[..|s| - 1];
      var last := s[|s| - 1];
      assert Distinct(front);
      assert s == front + [last];
      CollectLength(chars, front);
      assert last !in front;
    }
  }

  lemma AlphabetMembers()
    ensures Distinct(Alphabet) && |Alphabet| == 26 && 'j' in Alphabet
    ensures forall c :: c in Alphabet <==> IsLower(c)
  {
    AlphabetAt();
    assert Alphabet[9] == 'j';
    forall c | IsLower(c)
      ensures c in Alphabet
    {
      assert Alphabet[c as int - 97] == c;
    }
  }

  /** The grid letters in the order of the key square, when the key is
      letters only: 25 distinct grid letters, all of them present, and the
      key's own letters first. */
  lemma GridOrderValid(key: String)
    requires IsLetters(key)
    ensures ValidOrder(GridOrder(key))
    ensures GridOrder(key)[..|KeyLetters(key)|] == KeyLetters(key)
  {
    var order := GridOrder(key);
    var keyLetters := KeyLetters(key);
    AlphabetMembers();
    assert Distinct(keyLetters);
    assert forall c :: c in order <==> GridLetter(c);
    var noJ := Collect([], Alphabet);
    CollectLength([], Alphabet);
    assert forall c :: c in noJ <==> GridLetter(c);
    DistinctCard(noJ);
    DistinctCard(order);
    assert (set c | c in order) == (set c | c in noJ);
    forall k | 0 <= k < |order|
      ensures GridLetter(order[k])
    {
      assert order[k] in order;
    }
  }

  /** The key letters come in the order of their first occurrence in the
      lower-cased key. */
  lemma {:induction false} KeyLettersInOrder(s: String)
    ensures forall a, b :: 0 <= a < b < |Collect([], s)| ==>
      IndexOf(s, Collect([], s)[a]) < IndexOf(s, Collect([], s)[b])
  {
    if s != [] {
      var front := s[..|s| - 1];
      var last := s[|s| - 1];
      KeyLettersInOrder(front);
      var before := Collect([], front);
      var after := Collect([], s);
      assert s == front + [last];
      forall x | x in front
        ensures IndexOf(s, x) == IndexOf(front, x)
      {
        IndexOfPrefix(front, last, x);
      }
      if after != before {
        assert after == before + [last];
        assert last !in front;
        assert IndexOf(s, last) == |front|;
      }
    }
  }

  lemma {:induction false} IndexOfPrefix(s: seq<char>, c: char, x: char)
    requires x in s
    ensures IndexOf(s + [c], x) == IndexOf(s, x)
  {
    if s[0] != x {
      assert (s + [c])[1..] == s[1..] + [c];
      IndexOfPrefix(s[1..], c, x);
    }
  }

  /** Cell (index / 5, index % 5) is the one cell whose row-major number
      is `index`. */
  lemma CellOfIndex(index: int, r: int, c: int)
    requires 0 <= index < 25 && 0 <= r < 5 && 0 <= c < 5
    ensures 0 <= index / 5 < 5 && 0 <= index % 5 < 5
    ensures 5 * r + c == index <==> r == index / 5 && c == index % 5
  {
  }

  /** `getPlayfairGrid`: build the insertion-ordered set from the key and
      the alphabet, then write its letters into a 5 x 5 grid, cell
      `(index / 5, index % 5)` for the index-th letter. */
  method GetPlayfairGrid(key: String) returns (charGrid: array2<char>)
    requires IsLetters(key)
    ensures fresh(charGrid)
    ensures charGrid.Length0 == 5 && charGrid.Length1 == 5
    ensures ValidOrder(GridOrder(key))
    ensures forall r, c :: 0 <= r < 5 && 0 <= c < 5 ==> charGrid[r, c] == GridOrder(key)[5 * r + c]
  {
    var lower := LowerText(key);
    charGrid := new char[5, 5]((_, _) => ' ');
    var charSet: seq<char> := [];
    for i := 0 to |lower|
      invariant charSet == Collect([], lower[..i])
    {
      assert lower[..i + 1][..i] == lower[..i];
      if lower[i] == 'j' {
        continue;
      }
      if lower[i] !in charSet {
        charSet := charSet + [lower[i]];
      }
    }
    assert lower[..|lower|] == lower;
    for i := 0 to 26
      invariant charSet == Collect(KeyLetters(key), Alphabet[..i])
    {
      assert Alphabet[..i + 1][..i] == Alphabet[..i];
      if Alphabet[i] == 'j' {
        continue;
      }
      if Alphabet[i] !in charSet {
        charSet := charSet + [Alphabet[i]];
      }
    }
    assert Alphabet[..26] == Alphabet;
    GridOrderValid(key);
    FillGrid(charGrid, charSet);
  }

  /** The last loop of `getPlayfairGrid`: the index-th letter of the set
      goes to row `index / 5`, column `index % 5`. */
  method FillGrid(charGrid: array2<char>, charSet: seq<char>)
    requires charGrid.Length0 == 5 && charGrid.Length1 == 5 && |charSet| == 25
    modifies charGrid
    ensures forall r, c :: 0 <= r < 5 && 0 <= c < 5 ==> charGrid[r, c] == charSet[5 * r + c]
  {
    for index := 0 to 25
      invariant forall r, c :: 0 <= r < 5 && 0 <= c < 5 && 5 * r + c < index ==> charGrid[r, c] == charSet[5 * r + c]
    {
      var i := index / 5;
      var j := index % 5;
      CellOfIndex(index, 0, 0);
      charGrid[i, j] := charSet[index];
      forall r, c | 0 <= r < 5 && 0 <= c < 5 && 5 * r + c < index + 1
        ensures charGrid[r, c] == charSet[5 * r + c]
      {
        CellOfIndex(index, r, c);
      }
    }
  }

  /** `search2dArray`: scan the rows in order, each from left to right, and
      return the first cell holding `key`, or (-1, -1) when there is none. */
  method Search2dArray(grid: array2<char>, key: char) returns (i: int, j: int)
    ensures i == -1 <==> forall r, c :: 0 <= r < grid.Length0 && 0 <= c < grid.Length1 ==> grid[r, c] != key
    ensures i == -1 ==> j == -1
    ensures i != -1 ==> 0 <= i < grid.Length0 && 0 <= j < grid.Length1 && grid[i, j] == key
    ensures i != -1 ==> forall r, c :: 0 <= r < grid.Length0 && 0 <= c < grid.Length1 && (r < i || (r == i && c < j)) ==> grid[r, c] != key
  {
    i := 0;
    while i < grid.Length0
      invariant 0 <= i <= grid.Length0
      invariant forall r, c :: 0 <= r < i && 0 <= c < grid.Length1 ==> grid[r, c] != key
    {
      j := 0;
      while j < grid.Length1
        invariant 0 <= j <= grid.Length1
        invariant forall c :: 0 <= c < j ==> grid[i, c] != key
      {
        if grid[i, j] == key {
          return;
        }
        j := j + 1;
      }
      i := i + 1;
    }
    return -1, -1;
  }

  /** In a grid that holds a valid order, the search for a grid letter
      finds its row and column in that order. */
  lemma SearchFindsPosition(grid: array2<char>, order: seq<char>, c: char, i: int, j: int)
    requires grid.Length0 == 5 && grid.Length1 == 5 && ValidOrder(order)
    requires forall r, k :: 0 <= r < 5 && 0 <= k < 5 ==> grid[r, k] == order[5 * r + k]
    requires 0 <= i < 5 && 0 <= j < 5 && grid[i, j] == c
    ensures c in order && IndexOf(order, c) == 5 * i + j
    ensures i == IndexOf(order, c) / 5 && j == IndexOf(order, c) % 5
  {
    assert order[5 * i + j] == c;
    IndexOfDistinct(order, 5 * i + j);
  }

  /** Every grid letter is somewhere in a grid that holds a valid order. */
  lemma GridHolds(grid: array2<char>, order: seq<char>, c: char)
    requires grid.Length0 == 5 && grid.Length1 == 5 && ValidOrder(order)
    requires forall r, k :: 0 <= r < 5 && 0 <= k < 5 ==> grid[r, k] == order[5 * r + k]
    requires GridLetter(c)
    ensures exists r, k :: 0 <= r < 5 && 0 <= k < 5 && grid[r, k] == c
  {
    var p := IndexOf(order, c);
    assert grid[p / 5, p % 5] == c;
  }
}
