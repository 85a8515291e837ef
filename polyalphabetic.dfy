/** The polyalphabetic (Vigenere) cipher. The letter at position i of the
    text is shifted by the alphabet position of the key letter at position
    i modulo the key length. The key position advances on every character,
    letters or not, so a non-letter uses up a key letter too. */
module Polyalphabetic {
  import opened Text
  import opened Keys

  /** `keyChar.charCodeAt(0) - baseKey`, where the base is 65 when the key
      letter equals its upper-case form and 97 otherwise. */
  function KeyShift(kc: char): (s: int)
    requires IsLetter(kc)
    ensures s == LetterIndex(kc)
  {
    CaseOfLetters(kc);
    kc as int - (if CheckUpperCase(kc) then 65 else 97)
  }

  /** The shift applied at position i: the key letter's alphabet position,
      negated for decryption. */
  function ShiftAt(key: String, i: nat, decrypt: bool): int
    requires IsLetters(key)
  {
    var k := KeyShift(key[i % |key|]);
    if decrypt then -k else k
  }

  /** The text after the key is applied: same length, non-letters copied,
      the letter at position i shifted within its own case by the alphabet
      position of `key[i % |key|]` (forward to encrypt, backward to
      decrypt), whatever the case of that key letter. */
  function VigenereText(m: String, key: String, decrypt: bool): (r: String)
    requires IsLetters(key)
    ensures |r| == |m|
    ensures forall i :: 0 <= i < |m| && !IsLetter(m[i]) ==> r[i] == m[i]
    ensures forall i :: 0 <= i < |m| ==> (IsUpper(r[i]) <==> IsUpper(m[i])) && (IsLower(r[i]) <==> IsLower(m[i]))
    ensures forall i :: 0 <= i < |m| && IsLetter(m[i]) ==>
      LetterIndex(r[i]) == (LetterIndex(m[i]) + (if decrypt then -1 else 1) * LetterIndex(key[i % |key|])) % 26
  {
    seq(|m|, i requires 0 <= i < |m| =>
      if IsLetter(m[i]) then ShiftChar(m[i], ShiftAt(key, i, decrypt)) else m[i])
  }

  /** The loop shared by `polyalphabeticEncrypt` and
      `polyalphabeticDecrypt`: the key index starts at 0 and moves on,
      modulo the key length, after every character. */
  method ApplyKey(text: String, key: String, decrypt: bool) returns (out: String)
    requires IsLetters(key)
    ensures out == VigenereText(text, key, decrypt)
  {
    out := "";
    var keyIndex := 0;
    for i := 0 to |text|
      invariant keyIndex == i % |key|
      invariant |out| == i
      invariant forall j :: 0 <= j < i ==> out[j] == VigenereText(text, key, decrypt)[j]
    {
      if IsLetter(text[i]) {
        var keyChar := key[keyIndex];
        var baseKey := if keyChar == ToUpper(keyChar) then 65 else 97;
        var keyCode := keyChar as int - baseKey;
        out := out + [ShiftChar(text[i], if decrypt then -keyCode else keyCode)];
      } else {
        out := out + [text[i]];
      }
      ModStep(i, |key|);
      keyIndex := (keyIndex + 1) % |key|;
    }
  }

  /** `polyalphabeticEncrypt`. */
  method PolyalphabeticEncrypt(message: String, keyText: String) returns (r: Result<String>)
    ensures GetPolyalphabeticKey(keyText).Err? ==> r == Err(NotAlphabetic)
    ensures GetPolyalphabeticKey(keyText).Ok? ==>
      r == Ok(VigenereText(message, GetPolyalphabeticKey(keyText).value, false))
  {
    var key := GetPolyalphabeticKey(keyText);
    if key.Err? {
      return Err(key.error);
    }
    var encrypted := ApplyKey(message, key.value, false);
    return Ok(encrypted);
  }

  /** `polyalphabeticDecrypt`. */
  method PolyalphabeticDecrypt(encrypted: String, keyText: String) returns (r: Result<String>)
    ensures GetPolyalphabeticKey(keyText).Err? ==> r == Err(NotAlphabetic)
    ensures GetPolyalphabeticKey(keyText).Ok? ==>
      r == Ok(VigenereText(encrypted, GetPolyalphabeticKey(keyText).value, true))
  {
    var key := GetPolyalphabeticKey(keyText);
    if key.Err? {
      return Err(key.error);
    }
    var message := ApplyKey(encrypted, key.value, true);
    return Ok(message);
  }

  /** Decrypting with the same key undoes encryption: both walk the key in
      lockstep over the same positions. */
  lemma PolyalphabeticRoundTrip(m: String, key: String)
    requires IsLetters(key)
    ensures VigenereText(VigenereText(m, key, false), key, true) == m
  {
    var e := VigenereText(m, key, false);
    var back := VigenereText(e, key, true);
    forall i | 0 <= i < |m|
      ensures back[i] == m[i]
    {
      ShiftCharInverse(m[i], ShiftAt(key, i, false));
    }
  }

  /** The start of the classic test vector, far enough for the key to
      wrap round. */
  lemma LemonExample()
    ensures VigenereText("ATTACKAT", "LEMON", false) == "LXFOPVEF"
  {
  }

  /** A space uses up a key letter: with key "BC" the second 'A' of "A A"
      is shifted by 'B' (position 2 takes key letter 0), not by 'C'. */
  lemma NonLetterAdvancesKey()
    ensures VigenereText("A A", "BC", false) == "B B"
  {
  }
}
