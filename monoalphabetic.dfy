/** The monoalphabetic substitution cipher. A 26-letter key gives, for the
    i-th letter of the alphabet, the letter to write instead, in the case of
    the letter it replaces. The substitution table is an object whose keys
    are inserted in the order a, A, b, B, ..., z, Z; decryption searches
    that table for the first key whose value is the cipher letter. */
module Monoalphabetic {
  import opened Text
  import opened Keys

  datatype Option<T> = None | Some(value: T)

  /** One entry of the table: a plain letter and the letter it becomes. */
  type Entry = (char, char)

  /** The letter that replaces the plain letter `c`: the key letter at
      `c`'s alphabet position, put in `c`'s case. */
  function Substitute(key: String, c: char): char
    requires |key| == 26 && IsLetter(c)
  {
    if IsUpper(c) then ToUpper(key[LetterIndex(c)]) else ToLower(key[LetterIndex(c)])
  }

  /** The plain letter at insertion position `j` of the table. */
  function TableKey(j: int): char
    requires 0 <= j < 52
  {
    if j % 2 == 0 then Alphabet[j / 2] else CapitalAlphabet[j / 2]
  }

  /** The table `monoalphabeticCreateMap` builds, in insertion order. Every
      letter occurs once as a key, and maps to its substitute. */
  function SubstitutionTable(key: String): (table: seq<Entry>)
    requires |key| == 26
    ensures |table| == 52
    ensures forall j :: 0 <= j < 52 ==> table[j].0 == TableKey(j) && IsLetter(table[j].0)
    ensures forall j :: 0 <= j < 52 ==> table[j].1 == Substitute(key, table[j].0)
  {
    AlphabetAt();
    seq(52, j requires 0 <= j < 52 =>
      if j % 2 == 0 then (Alphabet[j / 2], ToLower(key[j / 2]))
      else (CapitalAlphabet[j / 2], ToUpper(key[j / 2])))
  }

  /** Where the letter `c` sits in the table. */
  lemma TablePosition(c: char)
    requires IsLetter(c)
    ensures var j := 2 * LetterIndex(c) + (if IsUpper(c) then 1 else 0);
      0 <= j < 52 && TableKey(j) == c
  {
    var li := LetterIndex(c);
    var j := 2 * li + (if IsUpper(c) then 1 else 0);
    assert j % 2 == (if IsUpper(c) then 1 else 0) && j / 2 == li;
    assert TableKey(j) == c by {
      AlphabetAt();
      assert (if IsUpper(c) then CapitalAlphabet[li] else Alphabet[li]) as int == c as int;
    }
  }

  /** Looking up a letter's own entry (`map[c]`) finds its substitute. */
  lemma LookupSubstitute(key: String, c: char)
    requires |key| == 26 && IsLetter(c)
    ensures var j := IndexOfKey(SubstitutionTable(key), c);
      j >= 0 && SubstitutionTable(key)[j].1 == Substitute(key, c)
  {
    var table := SubstitutionTable(key);
    TablePosition(c);
    var jc := 2 * LetterIndex(c) + (if IsUpper(c) then 1 else 0);
    assert table[jc].0 == c;
  }

  /** Positions 2i and 2i+1 of the table hold the i-th lower- and
      upper-case letter. */
  lemma TableEntriesAt(key: String, i: int)
    requires |key| == 26 && 0 <= i < 26
    ensures SubstitutionTable(key)[2 * i] == (Alphabet[i], ToLower(key[i]))
    ensures SubstitutionTable(key)[2 * i + 1] == (CapitalAlphabet[i], ToUpper(key[i]))
  {
    assert (2 * i) / 2 == i && (2 * i) % 2 == 0;
    assert (2 * i + 1) / 2 == i && (2 * i + 1) % 2 == 1;
  }

  lemma UpperOfAlphabet(i: int)
    requires 0 <= i < 26
    ensures ToUpper(Alphabet[i]) == CapitalAlphabet[i]
  {
    AlphabetAt();
  }

  /** `monoalphabeticCreateMap`: for i in 0..25, set the lower-case and then
      the upper-case letter. All 52 keys are distinct, so each assignment
      adds a new entry at the end of the object's key order. */
  method CreateMap(key: String) returns (table: seq<Entry>)
    requires |key| == 26
    ensures table == SubstitutionTable(key)
  {
    table := [];
    for i := 0 to 26
      invariant table == SubstitutionTable(key)[..2 * i]
    {
      TablePrefixStep(key, i);
      table := table + [(Alphabet[i], ToLower(key[i]))];
      table := table + [(ToUpper(Alphabet[i]), ToUpper(key[i]))];
    }
    assert SubstitutionTable(key)[..52] == SubstitutionTable(key);
  }

  /** One round of the loop in `monoalphabeticCreateMap` adds the next two
      entries of the table. */
  lemma TablePrefixStep(key: String, i: int)
    requires |key| == 26 && 0 <= i < 26
    ensures SubstitutionTable(key)[..2 * i + 2] ==
      SubstitutionTable(key)[..2 * i] + [(Alphabet[i], ToLower(key[i])), (ToUpper(Alphabet[i]), ToUpper(key[i]))]
  {
    var spec := SubstitutionTable(key);
    TableEntriesAt(key, i);
    UpperOfAlphabet(i);
    PrefixByTwo(spec, 2 * i);
  }

  lemma PrefixByTwo<T>(s: seq<T>, k: int)
    requires 0 <= k && k + 2 <= |s|
    ensures s[..k + 2] == s[..k] + [s[k], s[k + 1]]
  {
  }

  /** The position of the entry whose key is `c` (`map[c]`), or -1. */
  function IndexOfKey(table: seq<Entry>, c: char): (j: int)
    ensures -1 <= j < |table|
    ensures j == -1 ==> forall k :: 0 <= k < |table| ==> table[k].0 != c
    ensures j >= 0 ==> table[j].0 == c
  {
    if table == [] then -1
    else if table[0].0 == c then 0
    else
      var j := IndexOfKey(table[1..], c);
      if j < 0 then -1 else j + 1
  }

  /** `getKeyByValue`: `Object.keys(obj).find(key => obj[key] === value)`,
      the first entry, in insertion order, whose value is `v`, or -1. */
  function IndexOfValue(table: seq<Entry>, v: char): (j: int)
    ensures -1 <= j < |table|
    ensures j == -1 <==> forall k :: 0 <= k < |table| ==> table[k].1 != v
    ensures j >= 0 ==> table[j].1 == v && forall k :: 0 <= k < j ==> table[k].1 != v
  {
    if table == [] then -1
    else if table[0].1 == v then 0
    else
      var j := IndexOfValue(table[1..], v);
      if j < 0 then -1 else j + 1
  }

  function GetKeyByValue(table: seq<Entry>, v: char): Option<char>
  {
    var j := IndexOfValue(table, v);
    if j < 0 then None else Some(table[j].0)
  }

  /** JavaScript's string concatenation of a looked-up value: the value
      itself, or the text "undefined" when there is none. */
  function AppendText(found: Option<char>): String
  {
    match found
    case Some(c) => [c]
    case None => "undefined"
  }

  /** The encrypted text: each letter replaced by its substitute, every
      other character copied; length, case and non-letters are kept. */
  function EncryptText(m: String, key: String): (r: String)
    requires |key| == 26
    ensures |r| == |m|
    ensures forall i :: 0 <= i < |m| && !IsLetter(m[i]) ==> r[i] == m[i]
    ensures forall i :: 0 <= i < |m| && IsLetter(m[i]) ==> r[i] == Substitute(key, m[i])
    ensures IsLetters(key) ==> forall i :: 0 <= i < |m| ==>
      (IsUpper(r[i]) <==> IsUpper(m[i])) && (IsLower(r[i]) <==> IsLower(m[i]))
  {
    seq(|m|, i requires 0 <= i < |m| => if IsLetter(m[i]) then Substitute(key, m[i]) else m[i])
  }

  /** What decrypting one character appends. */
  function DecryptChar(table: seq<Entry>, c: char): String
  {
    if IsLetter(c) then AppendText(GetKeyByValue(table, c)) else [c]
  }

  /** The decrypted text, built character by character. */
  function DecryptText(e: String, table: seq<Entry>): (r: String)
    ensures (forall k :: 0 <= k < |e| ==> |DecryptChar(table, e[k])| == 1) ==>
      |r| == |e| && forall k :: 0 <= k < |e| ==> r[k] == DecryptChar(table, e[k])[0]
  {
    if e == [] then []
    else
      var front := e[..|e| - 1];
      assert forall k :: 0 <= k < |front| ==> front[k] == e[k];
      DecryptText(front, table) + DecryptChar(table, e[|e| - 1])
  }

  /** A cipher letter that no table entry holds decrypts to the text
      "undefined": under a key of 26 'a's, "b" is not a value. */
  lemma MissingValueExample()
    ensures DecryptText("b", SubstitutionTable(seq(26, _ => 'a'))) == "undefined"
  {
    var key := seq(26, _ => 'a');
    var table := SubstitutionTable(key);
    forall k | 0 <= k < |table|
      ensures table[k].1 != 'b'
    {
      assert table[k].1 == Substitute(key, table[k].0);
    }
    assert "b"[..0] == [];
  }

  /** `monoalphabeticEncrypt`. */
  method MonoalphabeticEncrypt(message: String, keyText: String) returns (r: Result<String>)
    ensures GetMonoalphabeticKey(keyText).Err? ==> r == Err(GetMonoalphabeticKey(keyText).error)
    ensures GetMonoalphabeticKey(keyText).Ok? ==>
      r == Ok(EncryptText(message, GetMonoalphabeticKey(keyText).value))
  {
    var key := GetMonoalphabeticKey(keyText);
    if key.Err? {
      return Err(key.error);
    }
    var table := CreateMap(key.value);
    ghost var spec := EncryptText(message, key.value);
    var encrypted := "";
    for i := 0 to |message|
      invariant |encrypted| == i
      invariant forall j :: 0 <= j < i ==> encrypted[j] == spec[j]
    {
      var c := message[i];
      if IsLetter(c) {
        var j := IndexOfKey(table, c);
        LookupSubstitute(key.value, c);
        encrypted := encrypted + AppendText(if j < 0 then None else Some(table[j].1));
      } else {
        encrypted := encrypted + [c];
      }
    }
    assert encrypted == spec;
    return Ok(encrypted);
  }

  /** `monoalphabeticDecrypt`. */
  method MonoalphabeticDecrypt(encrypted: String, keyText: String) returns (r: Result<String>)
    ensures GetMonoalphabeticKey(keyText).Err? ==> r == Err(GetMonoalphabeticKey(keyText).error)
    ensures GetMonoalphabeticKey(keyText).Ok? ==>
      r == Ok(DecryptText(encrypted, SubstitutionTable(GetMonoalphabeticKey(keyText).value)))
  {
    var key := GetMonoalphabeticKey(keyText);
    if key.Err? {
      return Err(key.error);
    }
    var table := CreateMap(key.value);
    var message := "";
    for i := 0 to |encrypted|
      invariant message == DecryptText(encrypted[..i], table)
    {
      var c := encrypted[i];
      assert encrypted[..i + 1][..i] == encrypted[..i];
      if IsLetter(c) {
        message := message + AppendText(GetKeyByValue(table, c));
      } else {
        message := message + [c];
      }
    }
    assert encrypted[..|encrypted|] == encrypted;
    return Ok(message);
  }

  /** A key is a permutation when its 26 letters are distinct ignoring case. */
  predicate IsPermutationKey(key: String)
  {
    |key| == 26 && IsLetters(key) &&
    forall a, b :: 0 <= a < b < 26 ==> ToLower(key[a]) != ToLower(key[b])
  }

  /** With a permutation key no two table entries share a value. */
  lemma TableValuesDistinct(key: String, j: int, k: int)
    requires IsPermutationKey(key)
    requires 0 <= j < 52 && 0 <= k < 52 && j != k
    ensures SubstitutionTable(key)[j].1 != SubstitutionTable(key)[k].1
  {
    var table := SubstitutionTable(key);
    var a, b := j / 2, k / 2;
    CaseOfLetters(key[a]);
    CaseOfLetters(key[b]);
    if a == b {
      assert j % 2 != k % 2;
    } else {
      var lo, hi := if a < b then a else b, if a < b then b else a;
      assert ToLower(key[lo]) != ToLower(key[hi]);
    }
  }

  /** With a permutation key, looking up the substitute of a letter finds
      that letter. */
  lemma DecryptSubstitute(key: String, c: char)
    requires IsPermutationKey(key) && IsLetter(c)
    ensures GetKeyByValue(SubstitutionTable(key), Substitute(key, c)) == Some(c)
  {
    var table := SubstitutionTable(key);
    var jc := 2 * LetterIndex(c) + (if IsUpper(c) then 1 else 0);
    TablePosition(c);
    var j := IndexOfValue(table, Substitute(key, c));
    assert table[jc].1 == Substitute(key, c);
    if j != jc {
      TableValuesDistinct(key, j, jc);
    }
  }

  /** Encrypting a text is encrypting all but its last character, then that one. */
  lemma EncryptLast(m: String, key: String)
    requires |key| == 26 && m != []
    ensures EncryptText(m, key) == EncryptText(m[..|m| - 1], key) +
      [if IsLetter(m[|m| - 1]) then Substitute(key, m[|m| - 1]) else m[|m| - 1]]
  {
  }

  lemma DecryptAppendChar(e: String, x: char, table: seq<Entry>)
    ensures DecryptText(e + [x], table) == DecryptText(e, table) + DecryptChar(table, x)
  {
    assert (e + [x])[..|e|] == e;
  }

  /** With a permutation key, decrypting one encrypted character gives it back. */
  lemma DecryptEncryptedChar(key: String, c: char)
    requires IsPermutationKey(key)
    ensures DecryptChar(SubstitutionTable(key), if IsLetter(c) then Substitute(key, c) else c) == [c]
  {
    if IsLetter(c) {
      DecryptSubstitute(key, c);
      CaseOfLetters(key[LetterIndex(c)]);
    }
  }

  /** With a permutation key, decryption undoes encryption. */
  lemma {:induction false} MonoalphabeticRoundTrip(m: String, key: String)
    requires IsPermutationKey(key)
    ensures DecryptText(EncryptText(m, key), SubstitutionTable(key)) == m
  {
    if m != [] {
      var front := m[..|m| - 1];
      var last := m[|m| - 1];
      var x := if IsLetter(last) then Substitute(key, last) else last;
      EncryptLast(m, key);
      DecryptAppendChar(EncryptText(front, key), x, SubstitutionTable(key));
      MonoalphabeticRoundTrip(front, key);
      DecryptEncryptedChar(key, last);
      calc {
        DecryptText(EncryptText(m, key), SubstitutionTable(key));
        DecryptText(EncryptText(front, key) + [x], SubstitutionTable(key));
        DecryptText(EncryptText(front, key), SubstitutionTable(key)) + DecryptChar(SubstitutionTable(key), x);
        front + [last];
        m;
      }
    }
  }

  /** With a key that is not a permutation, decryption takes the first
      plain letter in the order a, A, b, B, ... whose substitute matches,
      and writes "undefined" for a cipher letter nothing maps to. */
  lemma DecryptFirstMatch(key: String, c: char)
    requires |key| == 26 && IsLetter(c)
    ensures var j := IndexOfValue(SubstitutionTable(key), c);
      (j == -1 ==> DecryptChar(SubstitutionTable(key), c) == "undefined") &&
      (j >= 0 ==> DecryptChar(SubstitutionTable(key), c) == [TableKey(j)] &&
                  Substitute(key, TableKey(j)) == c &&
                  forall k :: 0 <= k < j ==> Substitute(key, TableKey(k)) != c)
  {
  }

  /** The example key, the reversed alphabet, takes "abc" to "zyx". */
  lemma ReversedKeyExample()
    ensures EncryptText("abc", "zyxwvutsrqponmlkjihgfedcba") == "zyx"
  {
  }
}
