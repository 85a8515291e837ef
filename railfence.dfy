/** The rail fence cipher. The numeric key is the number of rails; the text
    is written along a zig-zag that runs from the top rail down to the
    bottom one and back up, and the cipher text is the rails read one after
    the other. One rail leaves the text as it is. A key that reduces to 0
    leaves no rails: encryption then writes "undefined" before every
    character, and decryption of a non-empty text throws. */
module RailFence {
  import opened Text
  import opened Keys

  /** The zig-zag walker: the rail it is on and the way it is moving. */
  datatype Walker = Walker(row: int, direction: int)

  /** `row += direction; if (row == 0 || row == key - 1) direction *= -1`. */
  function Next(w: Walker, key: int): Walker
  {
    var row := w.row + w.direction;
    Walker(row, if row == 0 || row == key - 1 then w.direction * -1 else w.direction)
  }

  /** The walker before character `i`, starting on the top rail moving
      down. With two rails or more it never leaves the fence, and it turns
      before it would step off either end. */
  function Walk(i: nat, key: int): (w: Walker)
    requires key >= 2
    ensures 0 <= w.row < key
    ensures (w.direction == 1 && w.row < key - 1) || (w.direction == -1 && w.row > 0)
  {
    if i == 0 then Walker(0, 1) else Next(Walk(i - 1, key), key)
  }

  /** The rail character `i` is written on. */
  function Row(i: nat, key: int): (r: int)
    requires key >= 2
    ensures 0 <= r < key
  {
    Walk(i, key).row
  }

  /** The zig-zag by formula: with period 2 * (key - 1), the walker goes
      down over the first key - 1 steps of a period and up over the rest. */
  function ZigZag(i: nat, key: int): (r: int)
    requires key >= 2
  {
    var p := i % (2 * key - 2);
    if p < key then p else 2 * key - 2 - p
  }

  /** The walker agrees with the formula at every position, so the rail of
      a character depends on its position alone. */
  lemma {:induction false} WalkIsZigZag(i: nat, key: int)
    requires key >= 2
    ensures Row(i, key) == ZigZag(i, key)
    ensures Walk(i, key).direction == if i % (2 * key - 2) < key - 1 then 1 else -1
  {
    if i > 0 {
      var period := 2 * key - 2;
      WalkIsZigZag(i - 1, key);
      ModStep(i - 1, period);
      var p := (i - 1) % period;
      assert 0 <= p < period;
      CountOn(p, period);
      assert i % period == if p + 1 == period then 0 else p + 1;
    }
  }

  /** The characters of `m` on rail `r`, in order. */
  function RailText(m: String, key: int, r: int): (s: String)
    requires key >= 2
    ensures |s| == RowCount(|m|, key, r)
  {
    if m == [] then []
    else RailText(m[..|m| - 1], key, r) + (if Row(|m| - 1, key) == r then [m[|m| - 1]] else [])
  }

  /** How many of the first `n` positions lie on rail `r`. */
  function RowCount(n: nat, key: int, r: int): nat
    requires key >= 2
  {
    if n == 0 then 0 else RowCount(n - 1, key, r) + (if Row(n - 1, key) == r then 1 else 0)
  }

  /** How many of the first `n` positions lie on the rails above `r`: where
      rail `r` starts in the cipher text. */
  function Before(n: nat, key: int, r: nat): nat
    requires key >= 2
  {
    if r == 0 then 0 else Before(n, key, r - 1) + RowCount(n, key, r - 1)
  }

  /** One more position adds one to the rails below its own. */
  lemma {:induction false} BeforeStep(n: nat, key: int, r: nat)
    requires key >= 2
    ensures Before(n + 1, key, r) == Before(n, key, r) + (if Row(n, key) < r then 1 else 0)
  {
    if r > 0 {
      BeforeStep(n, key, r - 1);
    }
  }

  lemma {:induction false} NoneBefore(key: int, r: nat)
    requires key >= 2
    ensures Before(0, key, r) == 0
  {
    if r > 0 {
      NoneBefore(key, r - 1);
    }
  }

  /** All the rails together hold every position. */
  lemma {:induction false} BeforeAll(n: nat, key: int)
    requires key >= 2
    ensures Before(n, key, key) == n
  {
    if n > 0 {
      BeforeAll(n - 1, key);
      BeforeStep(n - 1, key, key);
      assert Before(n, key, key) == Before(n - 1, key, key) + 1;
    } else {
      NoneBefore(key, key);
    }
  }

  /** Rails further down start further on. */
  lemma {:induction false} BeforeGrows(n: nat, key: int, r: nat, s: nat)
    requires key >= 2 && r <= s
    ensures Before(n, key, r) <= Before(n, key, s)
  {
    if r < s {
      BeforeGrows(n, key, r, s - 1);
    }
  }

  /** A position on rail `r` comes after every earlier position on it. */
  lemma {:induction false} RowCountGrows(c: nat, n: nat, key: int)
    requires key >= 2 && c < n
    ensures RowCount(c, key, Row(c, key)) < RowCount(n, key, Row(c, key))
  {
    if c < n - 1 {
      RowCountGrows(c, n - 1, key);
    }
  }

  /** Where the character at position `c` of an `n`-character text goes in
      the cipher text: the start of its rail plus the number of earlier
      characters on the same rail. */
  function Rank(c: nat, n: nat, key: int): (rank: nat)
    requires key >= 2 && c < n
    ensures rank < n
  {
    var r := Row(c, key);
    RowCountGrows(c, n, key);
    BeforeGrows(n, key, r + 1, key);
    BeforeAll(n, key);
    Before(n, key, r) + RowCount(c, key, r)
  }

  /** The rails of `m`, top to bottom. */
  function Rails(m: String, key: int): (rails: seq<String>)
    requires key >= 2
    ensures |rails| == key
  {
    seq(key, r requires 0 <= r < key => RailText(m, key, r))
  }

  /** What encryption writes for a key that reduces to 0: the array of
      rails starts empty, so each character is appended to a rail that does
      not exist yet and reads as "undefined"; the walker moves down and
      never turns, so every character gets a rail of its own. */
  function ZeroRailsText(m: String): (r: String)
    ensures |r| == 10 * |m|
  {
    if m == [] then [] else ZeroRailsText(m[..|m| - 1]) + ("undefined" + [m[|m| - 1]])
  }

  /** With zero rails character `i` of the text is the tenth character of
      the `i`-th block, after "undefined". */
  lemma {:induction false} ZeroRailsAt(m: String, i: int)
    requires 0 <= i < |m|
    ensures 10 * i + 9 < |ZeroRailsText(m)|
    ensures ZeroRailsText(m)[10 * i + 9] == m[i]
    ensures ZeroRailsText(m)[10 * i .. 10 * i + 9] == "undefined"
  {
    var front := m[..|m| - 1];
    if i < |m| - 1 {
      ZeroRailsAt(front, i);
      assert ZeroRailsText(m)[..10 * |front|] == ZeroRailsText(front);
    } else {
      assert |ZeroRailsText(front)| == 10 * i;
    }
  }

  /** The key "26" reduces to 0 rails, and "AB" becomes
      "undefinedAundefinedB". */
  lemma ZeroRailsExample()
    ensures EncryptText("AB", 0) == "undefinedAundefinedB"
  {
    assert "AB"[..1] == "A";
  }

  /** The cipher text: the "undefined" blocks for zero rails, `m` itself
      for one rail, the rails joined otherwise. */
  function EncryptText(m: String, key: int): (r: String)
    requires key >= 0
    ensures key >= 1 ==> |r| == |m|
    ensures key == 0 ==> |r| == 10 * |m|
  {
    if key == 0 then ZeroRailsText(m)
    else if key == 1 then m
    else
      var rails := Rails(m, key);
      RailOffsets(m, key, key);
      assert rails[..key] == rails;
      BeforeAll(|m|, key);
      Concat(rails)
  }

  /** The plain text: position `c` takes the cipher character at its rank. */
  function DecryptText(e: String, key: int): (r: String)
    requires key >= 1
    ensures |r| == |e|
  {
    if key == 1 then e else seq(|e|, c requires 0 <= c < |e| => e[Rank(c, |e|, key)])
  }

  /** Character `c` of `m` is on its rail at the place the count of earlier
      characters on that rail gives. */
  lemma {:induction false} RailTextAt(m: String, key: int, c: nat)
    requires key >= 2 && c < |m|
    ensures RowCount(c, key, Row(c, key)) < |RailText(m, key, Row(c, key))|
    ensures RailText(m, key, Row(c, key))[RowCount(c, key, Row(c, key))] == m[c]
  {
    RowCountGrows(c, |m|, key);
    if c < |m| - 1 {
      RailTextAt(m[..|m| - 1], key, c);
    }
  }

  /** Joined blocks: block `t` starts where the blocks before it end. */
  lemma ConcatPiece(ss: seq<String>, t: int, j: int)
    requires 0 <= t < |ss| && 0 <= j < |ss[t]|
    ensures |Concat(ss[..t])| + j < |Concat(ss)|
    ensures Concat(ss)[|Concat(ss[..t])| + j] == ss[t][j]
  {
    assert ss == ss[..t + 1] + ss[t + 1..];
    ConcatAppend(ss[..t + 1], ss[t + 1..]);
    assert ss[..t + 1][..t] == ss[..t];
  }

  /** In the joined rails, rail `r` starts at `Before(|m|, key, r)`. */
  lemma {:induction false} RailOffsets(m: String, key: int, r: nat)
    requires key >= 2 && r <= key
    ensures |Concat(Rails(m, key)[..r])| == Before(|m|, key, r)
  {
    if r > 0 {
      RailOffsets(m, key, r - 1);
      assert Rails(m, key)[..r][..r - 1] == Rails(m, key)[..r - 1];
    }
  }

  /** The cipher text is as long as the text, and the character at
      position `c` of the text sits at `Rank(c)` of the cipher text. */
  lemma EncryptAt(m: String, key: int, c: nat)
    requires key >= 2 && c < |m|
    ensures |EncryptText(m, key)| == |m|
    ensures EncryptText(m, key)[Rank(c, |m|, key)] == m[c]
  {
    var rails := Rails(m, key);
    var r := Row(c, key);
    RailTextAt(m, key, c);
    RailOffsets(m, key, r);
    ConcatPiece(rails, r, RowCount(c, key, r));
  }

  /** Decryption undoes encryption, for every number of rails. */
  lemma RailFenceRoundTrip(m: String, key: int)
    requires key >= 1
    ensures DecryptText(EncryptText(m, key), key) == m
  {
    if key >= 2 {
      var e := EncryptText(m, key);
      var back := DecryptText(e, key);
      forall c | 0 <= c < |m|
        ensures back[c] == m[c]
      {
        EncryptAt(m, key, c);
        assert back[c] == e[Rank(c, |m|, key)];
      }
    }
  }

  /** Two rails take alternate characters: "ABC" becomes "AC" + "B". */
  lemma TwoRailsExample()
    ensures EncryptText("ABC", 2) == "ACB"
  {
    assert Rails("ABC", 2) == ["AC", "B"] by {
      assert Row(0, 2) == 0 && Row(1, 2) == 1 && Row(2, 2) == 0 by {
        assert Walk(1, 2) == Walker(1, -1);
      }
      assert "ABC"[..2] == "AB" && "AB"[..1] == "A";
      assert RailText("ABC", 2, 0) == "AC" by {
        assert RailText("AB", 2, 0) == "A";
      }
      assert RailText("ABC", 2, 1) == "B" by {
        assert RailText("AB", 2, 1) == "B";
      }
    }
    assert Concat(["AC", "B"]) == "ACB" by {
      assert ["AC", "B"][..1] == ["AC"] && ["AC"][..0] == [];
      assert Concat(["AC"]) == "AC";
    }
  }

  /** Adding a character to one block adds it to the join. */
  lemma {:induction false} ConcatUpdate(ss: seq<String>, r: int, x: char)
    requires 0 <= r < |ss|
    ensures multiset(Concat(ss[r := ss[r] + [x]])) == multiset(Concat(ss)) + multiset{x}
  {
    var tt := ss[r := ss[r] + [x]];
    var n := |ss|;
    assert tt[..n - 1] == if r == n - 1 then ss[..n - 1] else ss[..n - 1][r := ss[r] + [x]];
    if r < n - 1 {
      ConcatUpdate(ss[..n - 1], r, x);
    }
  }

  /** Appending a character to the text appends it to the rail it falls
      on, so the joined rails gain exactly that character. */
  lemma RailsStep(m: String, key: int)
    requires key >= 2 && m != []
    ensures multiset(Concat(Rails(m, key))) ==
      multiset(Concat(Rails(m[..|m| - 1], key))) + multiset{m[|m| - 1]}
  {
    var front := m[..|m| - 1];
    var x := m[|m| - 1];
    var rails := Rails(front, key);
    var r := Row(|m| - 1, key);
    assert Rails(m, key) == rails[r := rails[r] + [x]] by {
      forall t | 0 <= t < key
        ensures Rails(m, key)[t] == rails[r := rails[r] + [x]][t]
      {
        assert RailText(m, key, t) == RailText(front, key, t) + (if r == t then [x] else []);
      }
    }
    ConcatUpdate(rails, r, x);
  }

  /** The cipher text holds the characters of the text, each as often. */
  lemma {:induction false} RailFencePermutation(m: String, key: int)
    requires key >= 1
    ensures multiset(EncryptText(m, key)) == multiset(m)
  {
    if key >= 2 && m != [] {
      var front, x := m[..|m| - 1], m[|m| - 1];
      assert multiset(EncryptText(front, key)) == multiset(front) by {
        RailFencePermutation(front, key);
      }
      assert multiset(EncryptText(m, key)) == multiset(EncryptText(front, key)) + multiset{x} by {
        RailsStep(m, key);
      }
      assert multiset(m) == multiset(front) + multiset{x} by {
        assert m == front + [x];
      }
    }
  }

  /** `railFenceEncrypt`: one rail gives the text back; otherwise each
      character is appended to the rail the walker is on, and the rails
      are joined. */
  method RailFenceEncrypt(message: String, keyText: String) returns (r: Result<String>)
    ensures GetCaesarKey(keyText).Err? ==> r == Err(NotNumeric)
    ensures GetCaesarKey(keyText).Ok? ==> r == Ok(EncryptText(message, GetCaesarKey(keyText).value))
  {
    var keyResult := GetCaesarKey(keyText);
    if keyResult.Err? {
      return Err(keyResult.error);
    }
    var key := keyResult.value;
    if key == 1 {
      return Ok(message);
    }
    if key == 0 {
      var out := ZeroRails(message);
      return Ok(out);
    }
    var out := WriteRails(message, key);
    return Ok(out);
  }

  /** The loop of `railFenceEncrypt` for two rails or more: each character
      goes to the end of the rail the walker is on, then the walker moves
      and turns at either end; the rails are joined at the end. */
  method WriteRails(message: String, key: int) returns (out: String)
    requires key >= 2
    ensures out == Concat(Rails(message, key))
  {
    var rails := new String[key](_ => "");
    var row, direction := 0, 1;
    for i := 0 to |message|
      invariant Walker(row, direction) == Walk(i, key)
      invariant forall t :: 0 <= t < key ==> rails[t] == RailText(message[..i], key, t)
    {
      assert message[..i + 1][..i] == message[..i];
      rails[row] := rails[row] + [message[i]];
      row := row + direction;
      if row == 0 || row == key - 1 {
        direction := direction * -1;
      }
    }
    assert message[..|message|] == message;
    assert rails[..] == Rails(message, key);
    return Concat(rails[..]);
  }

  /** The loop of `railFenceEncrypt` when the key reduces to 0: the rail
      array starts empty and grows by one rail per character, each rail
      "undefined" followed by its character. */
  method ZeroRails(message: String) returns (out: String)
    ensures out == ZeroRailsText(message)
  {
    var key := 0;
    var rails: seq<String> := [];
    var row, direction := 0, 1;
    for i := 0 to |message|
      invariant row == i == |rails| && direction == 1
      invariant Concat(rails) == ZeroRailsText(message[..i])
    {
      assert message[..i + 1][..i] == message[..i];
      assert (rails + ["undefined" + [message[i]]])[..|rails|] == rails;
      rails := rails + ["undefined" + [message[i]]];
      row := row + direction;
      if row == 0 || row == key - 1 {
        direction := direction * -1;
      }
    }
    assert message[..|message|] == message;
    return Concat(rails);
  }

  /** A cell of the decryption matrix once the zig-zag is marked. */
  function Marked(key: int, r: int, c: nat): String
    requires key >= 2
  {
    if Row(c, key) == r then "*" else ""
  }

  /** A cell of the decryption matrix once the marks are filled: the cipher
      character at the rank of the column's position. */
  function Filled(e: String, key: int, r: int, c: nat): String
    requires key >= 2 && c < |e|
  {
    if Row(c, key) == r then [e[Rank(c, |e|, key)]] else ""
  }

  /** The marking loop of `railFenceDecrypt`: walk the zig-zag over the
      columns, putting "*" in the cell of each. */
  method MarkZigZag(matrix: array2<String>, key: int)
    requires key >= 2 && matrix.Length0 == key
    requires forall r, c :: 0 <= r < key && 0 <= c < matrix.Length1 ==> matrix[r, c] == ""
    modifies matrix
    ensures forall r, c :: 0 <= r < key && 0 <= c < matrix.Length1 ==> matrix[r, c] == Marked(key, r, c)
  {
    var row, direction := 0, 1;
    for col := 0 to matrix.Length1
      invariant Walker(row, direction) == Walk(col, key)
      invariant forall r, c :: 0 <= r < key && 0 <= c < matrix.Length1 ==>
        matrix[r, c] == if c < col then Marked(key, r, c) else ""
    {
      matrix[row, col] := "*";
      row := row + direction;
      if row == 0 || row == key - 1 {
        direction := direction * -1;
      }
    }
  }

  /** One pass of the filling loop of `railFenceDecrypt`: along rail `r`,
      every marked cell takes the next cipher character while any are left. */
  method FillRail(matrix: array2<String>, e: String, key: int, r: int, index0: int) returns (index: int)
    requires key >= 2 && matrix.Length0 == key && matrix.Length1 == |e| && 0 <= r < key
    requires index0 == Before(|e|, key, r)
    requires forall c :: 0 <= c < |e| ==> matrix[r, c] == Marked(key, r, c)
    modifies matrix
    ensures index == Before(|e|, key, r + 1)
    ensures forall c :: 0 <= c < |e| ==> matrix[r, c] == Filled(e, key, r, c)
    ensures forall t, c :: 0 <= t < key && t != r && 0 <= c < |e| ==> matrix[t, c] == old(matrix[t, c])
  {
    index := index0;
    var n := |e|;
    for c := 0 to n
      invariant index == Before(n, key, r) + RowCount(c, key, r)
      invariant forall c' :: 0 <= c' < n ==> matrix[r, c'] == if c' < c then Filled(e, key, r, c') else Marked(key, r, c')
      invariant forall t, c' :: 0 <= t < key && t != r && 0 <= c' < n ==> matrix[t, c'] == old(matrix[t, c'])
    {
      if Row(c, key) == r {
        assert index == Rank(c, n, key);
      }
      if matrix[r, c] == "*" && index < n {
        matrix[r, c] := [e[index]];
        index := index + 1;
      }
    }
  }

  /** The filling loop of `railFenceDecrypt`: the rails in order, top to
      bottom. */
  method FillRails(matrix: array2<String>, e: String, key: int)
    requires key >= 2 && matrix.Length0 == key && matrix.Length1 == |e|
    requires forall r, c :: 0 <= r < key && 0 <= c < |e| ==> matrix[r, c] == Marked(key, r, c)
    modifies matrix
    ensures forall r, c :: 0 <= r < key && 0 <= c < |e| ==> matrix[r, c] == Filled(e, key, r, c)
  {
    var index := 0;
    for r := 0 to key
      invariant index == Before(|e|, key, r)
      invariant forall t, c :: 0 <= t < key && 0 <= c < |e| ==>
        matrix[t, c] == if t < r then Filled(e, key, t, c) else Marked(key, t, c)
    {
      index := FillRail(matrix, e, key, r, index);
    }
  }

  /** `railFenceDecrypt`: one rail gives the text back; zero rails throw
      on the first column, so only the empty text comes back (as the empty
      text); otherwise mark the zig-zag in a rails-by-length matrix, fill
      the marks rail by rail with the cipher text, and read the matrix back
      along the zig-zag. */
  method RailFenceDecrypt(encrypted: String, keyText: String) returns (r: Result<String>)
    ensures GetCaesarKey(keyText).Err? ==> r == Err(NotNumeric)
    ensures GetCaesarKey(keyText) == Ok(0) ==> r == if encrypted == [] then Ok([]) else Err(NoRails)
    ensures GetCaesarKey(keyText).Ok? && GetCaesarKey(keyText).value >= 1 ==>
      r == Ok(DecryptText(encrypted, GetCaesarKey(keyText).value))
  {
    var keyResult := GetCaesarKey(keyText);
    if keyResult.Err? {
      return Err(keyResult.error);
    }
    var key := keyResult.value;
    if key == 1 {
      return Ok(encrypted);
    }
    var n := |encrypted|;
    if key == 0 {
      // An empty matrix: the marking loop writes into row 0, which does
      // not exist, as soon as there is a column; with none, every loop is
      // empty and the message stays empty.
      if n == 0 {
        return Ok([]);
      }
      return Err(NoRails);
    }
    var matrix := new String[key, n]((_, _) => "");
    MarkZigZag(matrix, key);
    FillRails(matrix, encrypted, key);
    var message := "";
    var row, direction := 0, 1;
    for col := 0 to n
      invariant Walker(row, direction) == Walk(col, key)
      invariant message == DecryptText(encrypted, key)[..col]
    {
      assert matrix[row, col] == [encrypted[Rank(col, n, key)]];
      message := message + matrix[row, col];
      row := row + direction;
      if row == 0 || row == key - 1 {
        direction := direction * -1;
      }
    }
    assert DecryptText(encrypted, key)[..n] == DecryptText(encrypted, key);
    return Ok(message);
  }
}
