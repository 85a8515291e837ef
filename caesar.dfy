/** The Caesar cipher: every letter is rotated inside its own case's
    alphabet by the numeric key; every other character is copied. */
module Caesar {
  import opened Text
  import opened Keys

  /** What one character of the text becomes under a shift. */
  function CaesarChar(c: char, shift: int): char
  {
    if IsLetter(c) then ShiftChar(c, shift) else c
  }

  /** The text after shifting each letter by `shift` (the key to encrypt,
      its negation to decrypt): same length, non-letters in place, each
      letter in its own case ring, moved `shift` places along it. */
  function CaesarText(m: String, shift: int): (r: String)
    ensures |r| == |m|
    ensures forall i :: 0 <= i < |m| && !IsLetter(m[i]) ==> r[i] == m[i]
    ensures forall i :: 0 <= i < |m| ==> (IsUpper(r[i]) <==> IsUpper(m[i])) && (IsLower(r[i]) <==> IsLower(m[i]))
    ensures forall i :: 0 <= i < |m| && IsLetter(m[i]) ==> LetterIndex(r[i]) == (LetterIndex(m[i]) + shift) % 26
  {
    seq(|m|, i requires 0 <= i < |m| => CaesarChar(m[i], shift))
  }

  /** `ceaserEncrypt`: read the key, then append each character, shifted by
      the key when it is a letter. */
  method CaesarEncrypt(message: String, keyText: String) returns (r: Result<String>)
    ensures GetCaesarKey(keyText).Err? ==> r == Err(NotNumeric)
    ensures GetCaesarKey(keyText).Ok? ==> r == Ok(CaesarText(message, GetCaesarKey(keyText).value))
  {
    var key := GetCaesarKey(keyText);
    if key.Err? {
      return Err(key.error);
    }
    var encrypted := "";
    for i := 0 to |message|
      invariant |encrypted| == i
      invariant forall j :: 0 <= j < i ==> encrypted[j] == CaesarChar(message[j], key.value)
    {
      var c := message[i];
      if IsLetter(c) {
        encrypted := encrypted + [ShiftChar(c, key.value)];
      } else {
        encrypted := encrypted + [c];
      }
    }
    assert encrypted == CaesarText(message, key.value);
    return Ok(encrypted);
  }

  /** `ceaserDecrypt`: the same loop with the key negated. */
  method CaesarDecrypt(encrypted: String, keyText: String) returns (r: Result<String>)
    ensures GetCaesarKey(keyText).Err? ==> r == Err(NotNumeric)
    ensures GetCaesarKey(keyText).Ok? ==> r == Ok(CaesarText(encrypted, -GetCaesarKey(keyText).value))
  {
    var key := GetCaesarKey(keyText);
    if key.Err? {
      return Err(key.error);
    }
    var message := "";
    for i := 0 to |encrypted|
      invariant |message| == i
      invariant forall j :: 0 <= j < i ==> message[j] == CaesarChar(encrypted[j], -key.value)
    {
      var c := encrypted[i];
      if IsLetter(c) {
        message := message + [ShiftChar(c, -key.value)];
      } else {
        message := message + [c];
      }
    }
    assert message == CaesarText(encrypted, -key.value);
    return Ok(message);
  }

  /** Decrypting with the same key undoes encryption, for every key. */
  lemma CaesarRoundTrip(m: String, key: int)
    ensures CaesarText(CaesarText(m, key), -key) == m
  {
    var back := CaesarText(CaesarText(m, key), -key);
    forall i | 0 <= i < |m|
      ensures back[i] == m[i]
    {
      ShiftCharInverse(m[i], key);
    }
  }

  /** Encrypting and then decrypting with the same key text gives back the
      message whenever the key text is accepted. */
  lemma CaesarKeyRoundTrip(m: String, keyText: String)
    requires GetCaesarKey(keyText).Ok?
    ensures var k := GetCaesarKey(keyText).value; CaesarText(CaesarText(m, k), -k) == m
  {
    CaesarRoundTrip(m, GetCaesarKey(keyText).value);
  }

  /** The textbook examples: a shift of 3, and wrapping past 'z'. */
  lemma CaesarExamples()
    ensures CaesarText("Attack", 3) == "Dwwdfn"
    ensures CaesarText("xyz", 3) == "abc"
  {
  }
}
