/** The columnar transposition. The text is written row by row into a
    matrix as wide as the key; encryption reads the columns in the order of
    the sorted lower-cased key, and decryption writes the cipher text back
    column by column in that order, reads the rows and trims the result. */
module Columnar {
  import opened Text
  import opened Keys
  import opened ColumnarOrder

  /** `Math.ceil(length / n)`: the fewest rows of width `n` that hold
      `length` characters. */
  function CeilDiv(length: nat, n: int): nat
    requires n >= 1
  {
    (length + n - 1) / n
  }

  /** The rows hold the text, and one row fewer would not. */
  lemma CeilDivBounds(length: nat, n: int)
    requires n >= 1
    ensures CeilDiv(length, n) * n >= length
    ensures CeilDiv(length, n) == 0 || (CeilDiv(length, n) - 1) * n < length
  {
    var q := CeilDiv(length, n);
    DivModUnique(length + n - 1, n, q, (length + n - 1) % n);
    assert (q - 1) * n == q * n - n;
  }

  /** A whole number of rows needs no partial one. */
  lemma CeilDivExact(rows: nat, n: int)
    requires n >= 1
    ensures CeilDiv(rows * n, n) == rows
  {
    var r := CeilDiv(rows * n, n);
    CeilDivBounds(rows * n, n);
    if r < rows {
      MulLess(r, rows, n);
    } else if rows < r - 1 {
      MulLess(rows, r - 1, n);
    }
  }

  lemma MulLess(a: nat, b: nat, n: int)
    requires n >= 1 && a < b
    ensures a * n < b * n
  {
    assert b * n - a * n == (b - a) * n;
    MulAtLeast(b - a, n);
  }

  /** A position before `length` lies in one of the rows. */
  lemma RowBelow(row: nat, col: nat, n: int, length: nat)
    requires n >= 1 && row * n + col < length
    ensures row < CeilDiv(length, n)
  {
    var rows := CeilDiv(length, n);
    CeilDivBounds(length, n);
    if rows <= row {
      if rows < row {
        MulLess(rows, row, n);
      }
      assert false;
    }
  }

  /** Cell (r, col) of a matrix `n` wide is position `r * n + col`, and no
      other cell is. */
  lemma CellUnique(r: int, c: int, row: int, col: int, n: int)
    requires n >= 1 && 0 <= c < n && 0 <= col < n
    ensures r * n + c == row * n + col ==> r == row && c == col
  {
    if r * n + c == row * n + col {
      DivModUnique(r * n + c, n, r, c);
      DivModUnique(row * n + col, n, row, col);
    }
  }

  /** Cell (r, col) of the encryption matrix: the character at position
      `r * n + col` of the text, or nothing past its end. */
  function TextCell(m: String, n: int, r: nat, col: nat): String
    requires n >= 0
  {
    if r * n + col < |m| then [m[r * n + col]] else ""
  }

  /** Column `col` of the encryption matrix, top to bottom. */
  function ColumnText(m: String, n: int, rows: nat, col: nat): String
    requires n >= 0
  {
    Concat(seq(rows, r requires 0 <= r < rows => TextCell(m, n, r, col)))
  }

  /** The column `encrypt` reads `t`-th: `key.indexOf(sorted[t])`, the
      first occurrence in the key of the `t`-th letter of the sorted key. */
  function ReadIndex(key: String, t: int): (col: int)
    requires 0 <= t < |key|
    ensures 0 <= col < |key| && key[col] == SortChars(key)[t]
    ensures forall x :: 0 <= x < col ==> key[x] != key[col]
  {
    var sorted := SortChars(key);
    assert key[ColumnOf(key, t)] == sorted[t];
    IndexOf(key, sorted[t])
  }

  /** A list naming, for each read, a column of a matrix `n` wide. */
  predicate ColumnList(order: seq<int>, n: int)
  {
    |order| == n && forall t :: 0 <= t < n ==> 0 <= order[t] < n
  }

  /** The columns of the matrix of `m`, `n` wide, read in `order`. */
  function ColumnsInOrder(m: String, n: int, order: seq<int>): (cols: seq<String>)
    requires n >= 1 && ColumnList(order, n)
    ensures |cols| == n
  {
    var rows := CeilDiv(|m|, n);
    seq(n, t requires 0 <= t < n => ColumnText(m, n, rows, order[t]))
  }

  /** The columns `encrypt` reads: `key.indexOf(sorted[t])` for each `t`. */
  function ReadOrder(key: String): (order: seq<int>)
    ensures ColumnList(order, |key|)
  {
    seq(|key|, t requires 0 <= t < |key| => ReadIndex(key, t))
  }

  /** The cipher text under a lower-cased key, as `columnarEncrypt` reads
      it. */
  function EncryptText(m: String, key: String): (r: String)
    requires key != []
    ensures Distinct(key) ==> r == StableEncryptText(m, key)
  {
    DistinctReadOrder(key);
    Concat(ColumnsInOrder(m, |key|, ReadOrder(key)))
  }

  /** Cell (r, col) of the decryption matrix: the column that comes `t`-th
      in the column order holds cipher characters `t * rows` onwards, as
      far as the cipher text goes. */
  function FillCell(e: String, rows: nat, t: nat, r: nat): String
  {
    if t * rows + r < |e| then [e[t * rows + r]] else ""
  }

  /** Row `r` of the decryption matrix, left to right. */
  function RowText(e: String, order: seq<int>, rows: nat, r: nat): String
    requires forall col :: 0 <= col < |order| ==> col in order
  {
    Concat(seq(|order|, col requires 0 <= col < |order| => FillCell(e, rows, IndexOf(order, col), r)))
  }

  /** The rows of a decryption matrix `rows` high filled in `order`. */
  function MatrixRows(e: String, order: seq<int>, rows: nat): seq<String>
    requires forall col :: 0 <= col < |order| ==> col in order
  {
    seq(rows, r requires 0 <= r < rows => RowText(e, order, rows, r))
  }

  /** The decryption matrix read row by row, before trimming. */
  function DecryptRows(e: String, key: String): (rs: seq<String>)
    requires key != []
  {
    ColOrderCovers(key);
    MatrixRows(e, ColOrder(key), CeilDiv(|e|, |key|))
  }

  /** The plain text under a lower-cased key. */
  function DecryptText(e: String, key: String): (r: String)
    requires key != []
    ensures r == [] || (!IsWhitespace(r[0]) && !IsWhitespace(r[|r| - 1]))
    ensures |e| % |key| == 0 ==> |r| <= |e|
  {
    DecryptRowsLength(e, key);
    Trim(Concat(DecryptRows(e, key)))
  }

  /** With whole rows every cell of the decryption matrix takes one cipher
      character, so the rows read back as many characters as there were. */
  lemma DecryptRowsLength(e: String, key: String)
    requires key != []
    ensures |e| % |key| == 0 ==> |Concat(DecryptRows(e, key))| == |e|
  {
    if |e| % |key| == 0 {
      var n := |key|;
      var rows := WholeRows(|e|, n);
      CeilDivExact(rows, n);
      ColOrderCovers(key);
      var order := ColOrder(key);
      var rowTexts := MatrixRows(e, order, rows);
      assert |e| == |order| * rows;
      forall r | 0 <= r < rows
        ensures |rowTexts[r]| == n
      {
        RowFull(e, order, rows, r);
      }
      ConcatLength(rowTexts, n);
    }
  }

  /** The first loop of `columnarEncrypt`: the text row by row into the
      matrix, the column index wrapping round at the key length. */
  method WriteRows(matrix: array2<String>, message: String, n: int)
    requires n >= 1 && matrix.Length1 == n && matrix.Length0 == CeilDiv(|message|, n)
    requires forall r, c :: 0 <= r < matrix.Length0 && 0 <= c < n ==> matrix[r, c] == ""
    modifies matrix
    ensures forall r, c :: 0 <= r < matrix.Length0 && 0 <= c < n ==> matrix[r, c] == TextCell(message, n, r, c)
  {
    var row, col := 0, 0;
    for i := 0 to |message|
      invariant 0 <= row && 0 <= col < n && row * n + col == i
      invariant forall r, c :: 0 <= r < matrix.Length0 && 0 <= c < n ==>
        matrix[r, c] == if r * n + c < i then [message[r * n + c]] else ""
    {
      WriteCell(matrix, message, n, i, row, col);
      CountOn(col, n);
      col := (col + 1) % n;
      if col == 0 {
        row := row + 1;
      }
    }
  }

  /** One step of the writing loop: character `i` goes to cell (row, col),
      the cell whose position is `i`. */
  method WriteCell(matrix: array2<String>, message: String, n: int, i: int, row: int, col: int)
    requires n >= 1 && matrix.Length1 == n && matrix.Length0 == CeilDiv(|message|, n)
    requires 0 <= row && 0 <= col < n && row * n + col == i && i < |message|
    requires forall r, c :: 0 <= r < matrix.Length0 && 0 <= c < n ==>
      matrix[r, c] == if r * n + c < i then [message[r * n + c]] else ""
    modifies matrix
    ensures forall r, c :: 0 <= r < matrix.Length0 && 0 <= c < n ==>
      matrix[r, c] == if r * n + c < i + 1 then [message[r * n + c]] else ""
  {
    RowBelow(row, col, n, |message|);
    matrix[row, col] := [message[i]];
    forall r, c | 0 <= r < matrix.Length0 && 0 <= c < n
      ensures matrix[r, c] == if r * n + c < i + 1 then [message[r * n + c]] else ""
    {
      CellUnique(r, c, row, col, n);
    }
  }

  /** `columnarEncrypt`: write the text into the matrix, then, for each
      letter of the sorted key, append the column `key.indexOf(letter)`
      top to bottom. */
  method ColumnarEncrypt(message: String, keyText: String) returns (r: Result<String>)
    ensures GetPolyalphabeticKey(keyText).Err? ==> r == Err(NotAlphabetic)
    ensures GetPolyalphabeticKey(keyText).Ok? ==>
      r == Ok(EncryptText(message, LowerText(GetPolyalphabeticKey(keyText).value)))
  {
    var keyResult := GetPolyalphabeticKey(keyText);
    if keyResult.Err? {
      return Err(keyResult.error);
    }
    var key := LowerText(keyResult.value);
    var n := |key|;
    var numRows := CeilDiv(|message|, n);
    var matrix := new String[numRows, n]((_, _) => "");
    WriteRows(matrix, message, n);
    var encrypted := ReadInOrder(matrix, message, key);
    return Ok(encrypted);
  }

  /** The reading loop of `columnarEncrypt`: for each letter of the sorted
      key, the column `key.indexOf(letter)`, top to bottom. */
  method ReadInOrder(matrix: array2<String>, message: String, key: String) returns (encrypted: String)
    requires key != [] && matrix.Length1 == |key| && matrix.Length0 == CeilDiv(|message|, |key|)
    requires forall r, c :: 0 <= r < matrix.Length0 && 0 <= c < |key| ==> matrix[r, c] == TextCell(message, |key|, r, c)
    ensures encrypted == EncryptText(message, key)
  {
    var n, numRows := |key|, matrix.Length0;
    var keyList := SortChars(key);
    ghost var cols := ColumnsInOrder(message, n, ReadOrder(key));
    encrypted := "";
    for t := 0 to n
      invariant encrypted == Concat(cols[..t])
    {
      assert key[ReadIndex(key, t)] == keyList[t];
      var currIndex := IndexOf(key, keyList[t]);
      assert currIndex == ReadIndex(key, t);
      ghost var cells := seq(numRows, r requires 0 <= r < numRows => TextCell(message, n, r, currIndex));
      assert cols[t] == Concat(cells);
      var column := ReadColumn(matrix, currIndex, cells);
      ConcatStep(cols, t);
      encrypted := encrypted + column;
    }
    assert cols[..n] == cols;
  }

  /** The filling loop of `columnarDecrypt`: the columns in column order,
      each top to bottom, take the next cipher character while any are
      left. */
  method FillColumns(matrix: array2<String>, e: String, order: seq<int>, rows: nat)
    requires matrix.Length0 == rows && matrix.Length1 == |order|
    requires Distinct(order) && forall t :: 0 <= t < |order| ==> 0 <= order[t] < |order|
    requires forall r, c :: 0 <= r < rows && 0 <= c < |order| ==> matrix[r, c] == ""
    modifies matrix
    ensures forall r, t :: 0 <= r < rows && 0 <= t < |order| ==> matrix[r, order[t]] == FillCell(e, rows, t, r)
  {
    var index := 0;
    for k := 0 to |order|
      invariant index == if k * rows < |e| then k * rows else |e|
      invariant forall r, t :: 0 <= r < rows && 0 <= t < |order| ==>
        matrix[r, order[t]] == if t < k then FillCell(e, rows, t, r) else ""
    {
      var col := order[k];
      for row := 0 to rows
        invariant index == if k * rows + row < |e| then k * rows + row else |e|
        invariant forall r, t :: 0 <= r < rows && 0 <= t < |order| ==>
          matrix[r, order[t]] == if t < k || (t == k && r < row) then FillCell(e, rows, t, r) else ""
      {
        if index < |e| {
          matrix[row, col] := [e[index]];
          index := index + 1;
        }
      }
      assert k * rows + rows == (k + 1) * rows;
    }
  }

  /** `columnarDecrypt`: work out the column order, fill the columns in
      that order, read the matrix row by row and trim the result. */
  method ColumnarDecrypt(encrypted: String, keyText: String) returns (r: Result<String>)
    ensures GetPolyalphabeticKey(keyText).Err? ==> r == Err(NotAlphabetic)
    ensures GetPolyalphabeticKey(keyText).Ok? ==>
      r == Ok(DecryptText(encrypted, LowerText(GetPolyalphabeticKey(keyText).value)))
  {
    var keyResult := GetPolyalphabeticKey(keyText);
    if keyResult.Err? {
      return Err(keyResult.error);
    }
    var key := LowerText(keyResult.value);
    var n := |key|;
    var numRows := CeilDiv(|encrypted|, n);
    var matrix := new String[numRows, n]((_, _) => "");
    var colOrder := ColumnOrder(key);
    ColOrderPermutation(key);
    FillColumns(matrix, encrypted, colOrder, numRows);
    var message := ReadMatrix(matrix, encrypted, colOrder);
    assert DecryptRows(encrypted, key) == seq(numRows, r requires 0 <= r < numRows => RowText(encrypted, colOrder, numRows, r));
    return Ok(Trim(message));
  }

  /** The reading loop of `columnarDecrypt`: the filled matrix row by
      row, each row left to right. */
  method ReadMatrix(matrix: array2<String>, e: String, order: seq<int>) returns (message: String)
    requires matrix.Length1 == |order|
    requires forall t :: 0 <= t < |order| ==> 0 <= order[t] < |order|
    requires forall col :: 0 <= col < |order| ==> col in order
    requires forall r, t :: 0 <= r < matrix.Length0 && 0 <= t < |order| ==>
      matrix[r, order[t]] == FillCell(e, matrix.Length0, t, r)
    ensures message == Concat(seq(matrix.Length0, r requires 0 <= r < matrix.Length0 => RowText(e, order, matrix.Length0, r)))
  {
    var rows, n := matrix.Length0, matrix.Length1;
    ghost var rowTexts := seq(rows, r requires 0 <= r < rows => RowText(e, order, rows, r));
    message := "";
    for row := 0 to rows
      invariant message == Concat(rowTexts[..row])
    {
      ghost var cells := seq(n, c requires 0 <= c < n => FillCell(e, rows, IndexOf(order, c), row));
      forall c | 0 <= c < n
        ensures matrix[row, c] == cells[c]
      {
        assert order[IndexOf(order, c)] == c;
      }
      var rowText := ReadRow(matrix, row, cells);
      ConcatStep(rowTexts, row);
      message := message + rowText;
    }
    assert rowTexts[..rows] == rowTexts;
  }

  /** `for (const row of matrix) encrypted += row[col]`: column `col` top to
      bottom. */
  method ReadColumn(matrix: array2<String>, col: int, ghost cells: seq<String>) returns (s: String)
    requires 0 <= col < matrix.Length1 && |cells| == matrix.Length0
    requires forall r :: 0 <= r < |cells| ==> matrix[r, col] == cells[r]
    ensures s == Concat(cells)
  {
    s := "";
    for row := 0 to matrix.Length0
      invariant s == Concat(cells[..row])
    {
      ConcatStep(cells, row);
      s := s + matrix[row, col];
    }
    assert cells[..matrix.Length0] == cells;
  }

  /** `for (let col = 0; col < n; col++) message += matrix[row][col]`: row
      `row` left to right. */
  method ReadRow(matrix: array2<String>, row: int, ghost cells: seq<String>) returns (s: String)
    requires 0 <= row < matrix.Length0 && |cells| == matrix.Length1
    requires forall c :: 0 <= c < |cells| ==> matrix[row, c] == cells[c]
    ensures s == Concat(cells)
  {
    s := "";
    for col := 0 to matrix.Length1
      invariant s == Concat(cells[..col])
    {
      ConcatStep(cells, col);
      s := s + matrix[row, col];
    }
    assert cells[..matrix.Length1] == cells;
  }

  /** With whole rows every cell of column `col` holds a character, so
      the column reads as many characters as there are rows. */
  lemma ColumnFull(m: String, n: int, rows: nat, col: int)
    requires n >= 1 && |m| == rows * n && 0 <= col < n
    ensures |ColumnText(m, n, rows, col)| == rows
    ensures forall r :: 0 <= r < rows ==> 0 <= r * n + col < |m|
    ensures forall r :: 0 <= r < rows ==> ColumnText(m, n, rows, col)[r] == m[r * n + col]
  {
    var cells := seq(rows, r requires 0 <= r < rows => TextCell(m, n, r, col));
    forall r | 0 <= r < rows
      ensures 0 <= r * n + col < |m|
      ensures |cells[r]| == 1 && cells[r][0] == m[r * n + col]
    {
      BlockInside(r, col, rows, n);
    }
    ConcatSingles(cells);
    assert ColumnText(m, n, rows, col) == Concat(cells);
  }

  /** With whole rows the columns read in `order` are the text again,
      column after column: character `p = t * rows + r`, row `r` of the
      `t`-th column read, is character `i = r * n + order[t]` of the text. */
  lemma EncryptGrid(m: String, n: int, order: seq<int>, rows: nat, t: int, r: int, p: int, i: int)
    requires n >= 1 && ColumnList(order, n) && |m| == rows * n
    requires 0 <= t < n && 0 <= r < rows
    requires p == t * rows + r
    requires i == r * n + order[t]
    ensures |Concat(ColumnsInOrder(m, n, order))| == |m|
    ensures 0 <= p < |m|
    ensures 0 <= i < |m|
    ensures Concat(ColumnsInOrder(m, n, order))[p] == m[i]
  {
    var cols := ColumnsInOrder(m, n, order);
    assert forall u :: 0 <= u < n ==> |cols[u]| == rows by {
      CeilDivExact(rows, n);
      forall u | 0 <= u < n
        ensures |cols[u]| == rows
      {
        ColumnFull(m, n, rows, order[u]);
      }
    }
    assert cols[t] == ColumnText(m, n, rows, order[t]) by {
      CeilDivExact(rows, n);
    }
    ColumnsAt(m, cols, n, rows, t, r, order[t], p, i);
  }

  /** Whole columns read one after the other: character `r` of the `t`-th
      column read, when that is column `col`, is row `r` of column `col`. */
  lemma ColumnsAt(m: String, cols: seq<String>, n: int, rows: nat, t: int, r: int, col: int, p: int, i: int)
    requires |cols| == n && |m| == rows * n
    requires forall u :: 0 <= u < n ==> |cols[u]| == rows
    requires 0 <= t < n && 0 <= r < rows && 0 <= col < n
    requires cols[t] == ColumnText(m, n, rows, col)
    requires p == t * rows + r && i == r * n + col
    ensures |Concat(cols)| == |m|
    ensures 0 <= p < |m| && 0 <= i < |m|
    ensures Concat(cols)[p] == m[i]
  {
    ColumnFull(m, n, rows, col);
    ConcatUniformAt(cols, rows, t, r);
    assert n * rows == rows * n;
  }

  /** With whole rows every cell of a decryption row holds a character. */
  lemma RowFull(e: String, order: seq<int>, rows: nat, r: int)
    requires forall col :: 0 <= col < |order| ==> col in order
    requires |e| == |order| * rows && 0 <= r < rows
    ensures |RowText(e, order, rows, r)| == |order|
    ensures forall c :: 0 <= c < |order| ==> 0 <= IndexOf(order, c) * rows + r < |e|
    ensures forall c :: 0 <= c < |order| ==> RowText(e, order, rows, r)[c] == e[IndexOf(order, c) * rows + r]
  {
    var n := |order|;
    var cells := seq(n, c requires 0 <= c < n => FillCell(e, rows, IndexOf(order, c), r));
    forall c | 0 <= c < n
      ensures 0 <= IndexOf(order, c) * rows + r < |e|
      ensures |cells[c]| == 1 && cells[c][0] == e[IndexOf(order, c) * rows + r]
    {
      BlockInside(IndexOf(order, c), r, n, rows);
    }
    ConcatSingles(cells);
    assert RowText(e, order, rows, r) == Concat(cells);
  }

  /** With whole rows the matrix read row by row puts, at position
      `r * n + c`, the cipher character of row `r` in the column that comes
      `IndexOf(order, c)`-th. */
  lemma MatrixAt(e: String, order: seq<int>, n: int, rows: nat, r: int, c: int, i: int, p: int)
    requires forall col :: 0 <= col < |order| ==> col in order
    requires |order| == n && |e| == rows * n
    requires 0 <= r < rows && 0 <= c < n
    requires i == r * n + c
    requires p == IndexOf(order, c) * rows + r
    ensures |Concat(MatrixRows(e, order, rows))| == |e|
    ensures 0 <= i < |e|
    ensures 0 <= p < |e|
    ensures Concat(MatrixRows(e, order, rows))[i] == e[p]
  {
    var rowTexts := MatrixRows(e, order, rows);
    forall u | 0 <= u < rows
      ensures |rowTexts[u]| == n
    {
      RowFull(e, order, rows, u);
    }
    RowFull(e, order, rows, r);
    ConcatUniformAt(rowTexts, n, r, c);
  }

  /** The same for the decryption matrix of a key: character
      `i = r * n + c` of the rows read is character
      `p = IndexOf(order, c) * rows + r` of the cipher text. */
  lemma DecryptGrid(e: String, key: String, rows: nat, r: int, c: int, i: int, p: int)
    requires key != [] && |e| == rows * |key|
    requires 0 <= r < rows && 0 <= c < |key|
    requires c in ColOrder(key)
    requires i == r * |key| + c
    requires p == IndexOf(ColOrder(key), c) * rows + r
    ensures |Concat(DecryptRows(e, key))| == |e|
    ensures 0 <= i < |e|
    ensures 0 <= p < |e|
    ensures Concat(DecryptRows(e, key))[i] == e[p]
  {
    ColOrderCovers(key);
    assert DecryptRows(e, key) == MatrixRows(e, ColOrder(key), rows) by {
      CeilDivExact(rows, |key|);
    }
    MatrixAt(e, ColOrder(key), |key|, rows, r, c, i, p);
  }

  /** The cipher text when each letter of the sorted key names its own
      column, equal letters from left to right: the order in which
      `columnarDecrypt` refills the columns. */
  function StableEncryptText(m: String, key: String): String
    requires key != []
  {
    Concat(ColumnsInOrder(m, |key|, ColOrder(key)))
  }

  /** `columnarEncrypt` with the columns read in the column order that
      `columnarDecrypt` builds, so that a repeated key letter names each of
      its columns once, from left to right. */
  method StableColumnarEncrypt(message: String, keyText: String) returns (r: Result<String>)
    ensures GetPolyalphabeticKey(keyText).Err? ==> r == Err(NotAlphabetic)
    ensures GetPolyalphabeticKey(keyText).Ok? ==>
      r == Ok(StableEncryptText(message, LowerText(GetPolyalphabeticKey(keyText).value)))
  {
    var keyResult := GetPolyalphabeticKey(keyText);
    if keyResult.Err? {
      return Err(keyResult.error);
    }
    var key := LowerText(keyResult.value);
    var n := |key|;
    var numRows := CeilDiv(|message|, n);
    var matrix := new String[numRows, n]((_, _) => "");
    WriteRows(matrix, message, n);
    var colOrder := ColumnOrder(key);
    var encrypted := ReadColumns(matrix, message, colOrder);
    return Ok(encrypted);
  }

  /** The columns of the written matrix, each top to bottom, in `order`. */
  method ReadColumns(matrix: array2<String>, message: String, order: seq<int>) returns (encrypted: String)
    requires |order| >= 1 && ColumnList(order, |order|)
    requires matrix.Length1 == |order| && matrix.Length0 == CeilDiv(|message|, |order|)
    requires forall r, c :: 0 <= r < matrix.Length0 && 0 <= c < |order| ==> matrix[r, c] == TextCell(message, |order|, r, c)
    ensures encrypted == Concat(ColumnsInOrder(message, |order|, order))
  {
    var n, numRows := |order|, matrix.Length0;
    ghost var cols := ColumnsInOrder(message, n, order);
    encrypted := "";
    for t := 0 to n
      invariant encrypted == Concat(cols[..t])
    {
      var col := order[t];
      ghost var cells := seq(numRows, r requires 0 <= r < numRows => TextCell(message, n, r, col));
      assert cols[t] == Concat(cells);
      var column := ReadColumn(matrix, col, cells);
      ConcatStep(cols, t);
      encrypted := encrypted + column;
    }
    assert cols[..n] == cols;
  }

  /** With whole rows, decryption puts back character `i` of the text, cell
      (r, c), after the stable encryption: column `c` was read at its place
      in the column order, and decryption writes that place back into
      column `c`. */
  lemma CellRoundTrip(m: String, key: String, rows: nat, r: int, c: int, i: int)
    requires key != [] && |m| == rows * |key|
    requires 0 <= r < rows && 0 <= c < |key| && i == r * |key| + c
    ensures |Concat(DecryptRows(StableEncryptText(m, key), key))| == |m|
    ensures 0 <= i < |m|
    ensures Concat(DecryptRows(StableEncryptText(m, key), key))[i] == m[i]
  {
    var e := StableEncryptText(m, key);
    ColOrderCovers(key);
    var t := IndexOf(ColOrder(key), c);
    var p := t * rows + r;
    EncryptGrid(m, |key|, ColOrder(key), rows, t, r, p, i);
    DecryptGrid(e, key, rows, r, c, i, p);
  }

  /** Decryption undoes the stable encryption for every key, repeated
      letters included, when the text fills whole rows and has no
      whitespace at either end for the final trim to remove. */
  lemma StableRoundTrip(m: String, key: String)
    requires key != []
    requires |m| % |key| == 0
    requires m == [] || (!IsWhitespace(m[0]) && !IsWhitespace(m[|m| - 1]))
    ensures DecryptText(StableEncryptText(m, key), key) == m
  {
    var n := |key|;
    var rows := WholeRows(|m|, n);
    var plain := Concat(DecryptRows(StableEncryptText(m, key), key));
    if m == [] {
      EmptyRoundTrip(key);
    } else {
      CellRoundTrip(m, key, rows, 0, 0, 0);
      forall i | 0 <= i < |m|
        ensures plain[i] == m[i]
      {
        var r, c := CellOf(i, n);
        assert r < rows by {
          RowBelow(r, c, n, |m|);
          CeilDivExact(rows, n);
        }
        CellRoundTrip(m, key, rows, r, c, i);
      }
    }
    assert plain == m;
    TrimNoop(m);
  }

  /** With distinct key letters `key.indexOf` finds the column the stable
      order names, so the two column orders agree. */
  lemma DistinctReadOrder(key: String)
    ensures Distinct(key) ==> ReadOrder(key) == ColOrder(key)
  {
    if Distinct(key) {
      forall t | 0 <= t < |key|
        ensures ReadOrder(key)[t] == ColOrder(key)[t]
      {
        DistinctColOrder(key, t);
      }
    }
  }

  /** Decryption undoes encryption as written when the (lower-cased) key
      letters are distinct, the text fills whole rows and the text has no
      whitespace at either end for the final trim to remove. */
  lemma ColumnarRoundTrip(m: String, key: String)
    requires key != [] && Distinct(key)
    requires |m| % |key| == 0
    requires m == [] || (!IsWhitespace(m[0]) && !IsWhitespace(m[|m| - 1]))
    ensures DecryptText(EncryptText(m, key), key) == m
  {
    StableRoundTrip(m, key);
  }

  /** The round trip through the two operations: for a key the reader
      accepts whose lower-cased letters are distinct, decryption gives back
      a text that fills whole rows and has no edge whitespace. */
  lemma ColumnarKeyRoundTrip(m: String, keyText: String)
    requires GetPolyalphabeticKey(keyText).Ok?
    requires Distinct(LowerText(GetPolyalphabeticKey(keyText).value))
    requires |m| % |GetPolyalphabeticKey(keyText).value| == 0
    requires m == [] || (!IsWhitespace(m[0]) && !IsWhitespace(m[|m| - 1]))
    ensures var key := LowerText(GetPolyalphabeticKey(keyText).value);
      DecryptText(EncryptText(m, key), key) == m
  {
    ColumnarRoundTrip(m, LowerText(GetPolyalphabeticKey(keyText).value));
  }

  /** A repeated key letter reads its first column twice: under the key
      "aa" the texts "ab" and "aa" both encrypt to "aa", so no decryption
      can give both back. */
  lemma RepeatedLetterExample()
    ensures EncryptText("ab", "aa") == "aa"
    ensures EncryptText("aa", "aa") == "aa"
  {
    FirstColumnTwice("ab");
    FirstColumnTwice("aa");
  }

  /** Under the key "aa" a two-character text is one row, and both reads
      take column 0. */
  lemma FirstColumnTwice(m: String)
    requires |m| == 2
    ensures EncryptText(m, "aa") == [m[0], m[0]]
  {
    var key := "aa";
    assert ReadIndex(key, 0) == 0 && ReadIndex(key, 1) == 0 by {
      assert key[0] == key[1];
    }
    assert ReadOrder(key) == [0, 0];
    var column := ColumnText(m, 2, 1, 0);
    assert column == [m[0]] by {
      assert seq(1, r requires 0 <= r < 1 => TextCell(m, 2, r, 0)) == [[m[0]]];
      assert Concat([[m[0]]]) == Concat([]) + [m[0]];
    }
    assert ColumnsInOrder(m, 2, [0, 0]) == [column, column] by {
      assert CeilDiv(|m|, 2) == 1;
    }
    assert Concat([column, column]) == Concat([column]) + column;
    assert Concat([column]) == Concat([]) + column;
  }

  /** A length that is a multiple of `n` fills whole rows. */
  lemma WholeRows(length: nat, n: int) returns (rows: nat)
    requires n >= 1 && length % n == 0
    ensures length == rows * n
    ensures length > 0 ==> rows > 0
  {
    rows := length / n;
  }

  /** Position `i` is cell (r, c) of a matrix `n` wide. */
  lemma CellOf(i: nat, n: int) returns (r: nat, c: int)
    requires n >= 1
    ensures 0 <= c < n && i == r * n + c
  {
    r, c := i / n, i % n;
  }

  /** The empty text encrypts and decrypts to nothing. */
  lemma EmptyRoundTrip(key: String)
    requires key != []
    ensures Concat(DecryptRows(StableEncryptText([], key), key)) == []
  {
    var n := |key|;
    var cols := ColumnsInOrder([], n, ColOrder(key));
    assert CeilDiv(0, n) == 0;
    assert cols == seq(n, t requires 0 <= t < n => "");
    ConcatLength(cols, 0);
    assert DecryptRows([], key) == [];
  }
}
