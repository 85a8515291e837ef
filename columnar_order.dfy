/** The column order of the columnar transposition. The lower-cased key is
    sorted; the k-th letter of the sorted key names the k-th column to read,
    and equal letters name their columns from left to right. */
module ColumnarOrder {
  import opened Text

  predicate SortedChars(s: String)
  {
    forall i, j :: 0 <= i < j < |s| ==> s[i] <= s[j]
  }

  /** `c` put in its place in a sorted string. */
  function Insert(c: char, s: String): (r: String)
    requires SortedChars(s)
    ensures |r| == |s| + 1
    ensures SortedChars(r)
    ensures multiset(r) == multiset(s) + multiset{c}
  {
    if s == [] then [c]
    else if c <= s[0] then
      ConsSorted(c, s);
      [c] + s
    else
      var rest := Insert(c, s[1..]);
      InsertBehind(c, s, rest);
      [s[0]] + rest
  }

  /** A character no greater than any of a sorted string goes in front. */
  lemma ConsSorted(x: char, s: String)
    requires SortedChars(s) && (s == [] || x <= s[0])
    ensures SortedChars([x] + s)
  {
    var r := [x] + s;
    forall i, j | 0 <= i < j < |r|
      ensures r[i] <= r[j]
    {
      assert r[j] == s[j - 1];
      if 0 < i {
        assert r[i] == s[i - 1];
      }
    }
  }

  /** A character greater than the head is inserted behind it, and the
      head stays in front. */
  lemma InsertBehind(c: char, s: String, rest: String)
    requires s != [] && SortedChars(s) && s[0] < c
    requires SortedChars(rest) && multiset(rest) == multiset(s[1..]) + multiset{c}
    ensures multiset([s[0]] + rest) == multiset(s) + multiset{c}
    ensures SortedChars([s[0]] + rest)
  {
    assert s == [s[0]] + s[1..];
    if rest != [] {
      assert rest[0] in multiset(rest);
      if rest[0] != c {
        assert rest[0] in s[1..];
      }
    }
    ConsSorted(s[0], rest);
  }

  /** `Array.from(key).sort()`: the characters in code-unit order. */
  function SortChars(s: String): (r: String)
    ensures SortedChars(r)
    ensures multiset(r) == multiset(s)
    ensures |r| == |s|
  {
    if s == [] then []
    else
      assert s == s[..|s| - 1] + [s[|s| - 1]];
      Insert(s[|s| - 1], SortChars(s[..|s| - 1]))
  }

  /** A sorted arrangement of a multiset is unique, so any correct sort of
      the key gives the string above. */
  lemma {:induction false} SortedUnique(a: String, b: String)
    requires SortedChars(a) && SortedChars(b) && multiset(a) == multiset(b)
    ensures a == b
  {
    assert |a| == |b| by {
      assert |a| == |multiset(a)| && |b| == |multiset(b)|;
    }
    if a != [] {
      assert a[0] == b[0] by {
        assert a[0] in multiset(b) && b[0] in multiset(a);
        SortedFirst(b, a[0]);
        SortedFirst(a, b[0]);
      }
      assert multiset(a[1..]) == multiset(b[1..]) by {
        MultisetTail(a);
        MultisetTail(b);
      }
      SortedTail(a);
      SortedTail(b);
      SortedUnique(a[1..], b[1..]);
      assert a == [a[0]] + a[1..] && b == [b[0]] + b[1..];
    }
  }

  lemma MultisetTail(s: String)
    requires s != []
    ensures multiset(s[1..]) == multiset(s) - multiset{s[0]}
  {
    assert s == [s[0]] + s[1..];
  }

  lemma SortedTail(s: String)
    requires s != [] && SortedChars(s)
    ensures SortedChars(s[1..])
  {
    forall i, j | 0 <= i < j < |s| - 1
      ensures s[1..][i] <= s[1..][j]
    {
      assert s[1..][i] == s[i + 1] && s[1..][j] == s[j + 1];
    }
  }

  /** The first character of a sorted string is its least. */
  lemma SortedFirst(s: String, x: char)
    requires SortedChars(s) && x in s
    ensures s[0] <= x
  {
  }

  /** How many times `c` occurs in `s`. */
  function Count(s: String, c: char): nat
  {
    if s == [] then 0 else Count(s[..|s| - 1], c) + (if s[|s| - 1] == c then 1 else 0)
  }

  lemma {:induction false} CountMultiset(s: String, c: char)
    ensures Count(s, c) == multiset(s)[c]
  {
    if s != [] {
      CountMultiset(s[..|s| - 1], c);
      assert s == s[..|s| - 1] + [s[|s| - 1]];
    }
  }

  lemma CountStep(s: String, c: char, i: int)
    requires 0 <= i < |s|
    ensures Count(s[..i + 1], c) == Count(s[..i], c) + (if s[i] == c then 1 else 0)
  {
    assert s[..i + 1][..i] == s[..i];
  }

  /** Counting further on never counts less, and passing an occurrence
      counts it. */
  lemma {:induction false} CountGrows(s: String, c: char, i: int, k: int)
    requires 0 <= i < k <= |s|
    ensures Count(s[..i], c) + (if s[i] == c then 1 else 0) <= Count(s[..k], c)
  {
    CountStep(s, c, k - 1);
    if i < k - 1 {
      CountGrows(s, c, i, k - 1);
    }
  }

  /** Counting further on never counts less. */
  lemma CountMono(s: String, c: char, i: int, k: int)
    requires 0 <= i <= k <= |s|
    ensures Count(s[..i], c) <= Count(s[..k], c)
  {
    if i < k {
      CountGrows(s, c, i, k);
    }
  }

  /** The position of the occurrence of `c` in `s` preceded by exactly `j`
      others. */
  function Nth(s: String, c: char, j: nat): (i: int)
    requires j < Count(s, c)
    ensures 0 <= i < |s| && s[i] == c && Count(s[..i], c) == j
  {
    var front := s[..|s| - 1];
    if j < Count(front, c) then
      var i := Nth(front, c, j);
      assert s[..i] == front[..i];
      i
    else
      assert s[..|s| - 1] == front;
      |s| - 1
  }

  /** Different occurrences are preceded by different numbers of the same
      letter. */
  lemma OccurrenceUnique(s: String, c: char, i: int, k: int)
    requires 0 <= i < |s| && 0 <= k < |s| && s[i] == c && s[k] == c
    requires Count(s[..i], c) == Count(s[..k], c)
    ensures i == k
  {
    if i < k {
      CountGrows(s, c, i, k);
    } else if k < i {
      CountGrows(s, c, k, i);
    }
  }

  /** An occurrence of `c` at `t` is preceded by fewer than all of them. */
  lemma CountBelow(s: String, t: int)
    requires 0 <= t < |s|
    ensures Count(s[..t], s[t]) < Count(s, s[t])
  {
    CountGrows(s, s[t], t, |s|);
    assert s[..|s|] == s;
  }

  /** The column the `t`-th sorted letter names: the occurrence of that
      letter in the key with as many equal letters before it as the sorted
      key has before position `t`. */
  function ColumnOf(key: String, t: int): (col: int)
    requires 0 <= t < |key|
    ensures 0 <= col < |key| && key[col] == SortChars(key)[t]
  {
    var sorted := SortChars(key);
    var c := sorted[t];
    CountBelow(sorted, t);
    CountMultiset(sorted, c);
    CountMultiset(key, c);
    Nth(key, c, Count(sorted[..t], c))
  }

  /** `colOrder` after the repeated-letter pass. */
  function ColOrder(key: String): (order: seq<int>)
    ensures |order| == |key|
  {
    seq(|key|, t requires 0 <= t < |key| => ColumnOf(key, t))
  }

  /** The column order is a permutation of the columns that reads, for
      each position of the sorted key, a column holding that letter, and
      takes the columns of equal letters from left to right. */
  lemma ColOrderPermutation(key: String)
    ensures forall t :: 0 <= t < |key| ==> 0 <= ColOrder(key)[t] < |key|
    ensures forall t :: 0 <= t < |key| ==> key[ColOrder(key)[t]] == SortChars(key)[t]
    ensures Distinct(ColOrder(key))
    ensures forall t, u :: 0 <= t < u < |key| && SortChars(key)[t] == SortChars(key)[u] ==>
      ColOrder(key)[t] < ColOrder(key)[u]
    ensures forall col :: 0 <= col < |key| ==> col in ColOrder(key)
  {
    var order := ColOrder(key);
    var sorted := SortChars(key);
    forall t, u | 0 <= t < u < |key| && sorted[t] == sorted[u]
      ensures order[t] < order[u]
    {
      StableTie(key, t, u);
    }
    forall t, u | 0 <= t < u < |key|
      ensures order[t] != order[u]
    {
      if sorted[t] == sorted[u] {
        StableTie(key, t, u);
      }
    }
    forall col | 0 <= col < |key|
      ensures col in order
    {
      var t := SlotOf(key, col);
      assert order[t] == col;
    }
  }

  /** Every column appears in the column order. */
  lemma ColOrderCovers(key: String)
    ensures forall col :: 0 <= col < |key| ==> col in ColOrder(key)
  {
    ColOrderPermutation(key);
  }

  /** Equal sorted letters name columns from left to right. */
  lemma StableTie(key: String, t: int, u: int)
    requires 0 <= t < u < |key| && SortChars(key)[t] == SortChars(key)[u]
    ensures ColumnOf(key, t) < ColumnOf(key, u)
  {
    var sorted := SortChars(key);
    var c := sorted[t];
    var i, k := ColumnOf(key, t), ColumnOf(key, u);
    var before, after := Count(key[..i], c), Count(key[..k], c);
    assert before < after by {
      CountGrows(sorted, c, t, u);
    }
    if k <= i {
      CountMono(key, c, k, i);
    }
  }

  /** Every column is read: the column `col` is named at the position of
      the sorted key whose letter is `key[col]` with as many equal letters
      before it as the key has before `col`. */
  lemma SlotOf(key: String, col: int) returns (t: int)
    requires 0 <= col < |key|
    ensures 0 <= t < |key| && ColumnOf(key, t) == col
  {
    var sorted := SortChars(key);
    var c := key[col];
    var j := Count(key[..col], c);
    CountBelow(key, col);
    CountMultiset(sorted, c);
    CountMultiset(key, c);
    t := Nth(sorted, c, j);
    OccurrenceUnique(key, c, ColumnOf(key, t), col);
  }

  /** With distinct letters each column is the first, and only, column of
      its letter: the repeated-letter pass changes nothing. */
  lemma DistinctColOrder(key: String, t: int)
    requires Distinct(key) && 0 <= t < |key|
    ensures SortChars(key)[t] in key
    ensures ColOrder(key)[t] == IndexOf(key, SortChars(key)[t])
  {
    var col := ColOrder(key)[t];
    IndexOfDistinct(key, col);
  }

  /** The search inside the repeated-letter pass: the first column holding
      `k` that is not used yet, or -1 (`undefined`) when there is none. */
  method FirstUnused(key: String, k: char, used: array<bool>) returns (i: int)
    requires used.Length == |key|
    ensures -1 <= i < |key|
    ensures i == -1 ==> forall x :: 0 <= x < |key| ==> key[x] != k || used[x]
    ensures i >= 0 ==> key[i] == k && !used[i]
    ensures i >= 0 ==> forall x :: 0 <= x < i ==> key[x] != k || used[x]
  {
    for x := 0 to |key|
      invariant forall y :: 0 <= y < x ==> key[y] != k || used[y]
    {
      if key[x] == k && !used[x] {
        return x;
      }
    }
    return -1;
  }

  /** The repeated-letter pass of `columnarDecrypt`: for each letter of
      the sorted key, take the first column with that letter not used yet
      and mark it used. The search always succeeds, since the sorted key
      holds each letter as often as the key does. */
  method ColumnOrder(key: String) returns (colOrder: seq<int>)
    ensures colOrder == ColOrder(key)
  {
    var n := |key|;
    var keyList := SortChars(key);
    var used := new bool[n](_ => false);
    colOrder := [];
    for t := 0 to n
      invariant colOrder == ColOrder(key)[..t]
      invariant forall x :: 0 <= x < n ==> (used[x] <==> Count(key[..x], key[x]) < Count(keyList[..t], key[x]))
    {
      var k := keyList[t];
      ghost var col := ColumnOf(key, t);
      ghost var j := Count(keyList[..t], k);
      assert Count(key[..col], k) == j;
      forall x | 0 <= x < col && key[x] == k
        ensures used[x]
      {
        CountGrows(key, k, x, col);
      }
      var i := FirstUnused(key, k, used);
      assert i == col;
      used[i] := true;
      colOrder := colOrder + [i];
      CountStep(keyList, k, t);
      forall x | 0 <= x < n
        ensures used[x] <==> Count(key[..x], key[x]) < Count(keyList[..t + 1], key[x])
      {
        CountStep(keyList, key[x], t);
        if key[x] == k && Count(key[..x], k) == j {
          OccurrenceUnique(key, k, x, col);
        }
      }
      assert ColOrder(key)[..t + 1] == ColOrder(key)[..t] + [col];
    }
    assert ColOrder(key)[..n] == ColOrder(key);
  }
}
