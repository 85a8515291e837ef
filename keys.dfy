/** The key readers in front of the ciphers. Each reads the key text, strips
    every whitespace character and checks it; a rejected key becomes an
    explicit error instead of an error box and an empty result. */
module Keys {
  import opened Text

  /** The three key rejections, and the `TypeError` the rail fence
      decryption throws when a key leaves it no rails. */
  datatype CipherError = NotNumeric | NotAlphabetic | WrongLength | NoRails

  /** The text the engine shows for each key rejection, and the one the
      script engine reports for the `TypeError`. */
  function Message(e: CipherError): String
  {
    match e
    case NotNumeric => "Enter numeric key"
    case NotAlphabetic => "Enter alphabetic key"
    case WrongLength => "key should be of length 26"
    case NoRails => "Cannot set properties of undefined"
  }

  datatype Result<T> = Ok(value: T) | Err(error: CipherError)

  function DigitValue(c: char): int
  {
    c as int - '0' as int
  }

  /** `parseInt(s, 10)` on a string of decimal digits, without precision
      loss. */
  function DecimalValue(s: String): (v: nat)
    requires IsDigitsOnly(s) || s == []
    ensures v < Pow10(|s|)
  {
    if s == [] then 0
    else
      assert IsDigitsOnly(s[..|s| - 1]) || s[..|s| - 1] == [];
      DecimalValue(s[..|s| - 1]) * 10 + DigitValue(s[|s| - 1])
  }

  /** Ten to the power `n`. */
  function Pow10(n: nat): (p: nat)
    ensures p >= 1
  {
    if n == 0 then 1 else 10 * Pow10(n - 1)
  }

  /** Decimal notation is positional: the leading digits are worth their
      own value times ten to the number of digits after them. */
  lemma {:induction false} DecimalAppend(a: String, b: String)
    requires IsDigitsOnly(a) || a == []
    requires IsDigitsOnly(b) || b == []
    ensures IsDigitsOnly(a + b) || a + b == []
    ensures DecimalValue(a + b) == DecimalValue(a) * Pow10(|b|) + DecimalValue(b)
  {
    if b == [] {
      assert a + b == a;
    } else {
      var front := b[..|b| - 1];
      assert IsDigitsOnly(front) || front == [];
      assert (a + b)[..|a + b| - 1] == a + front;
      assert (a + b)[|a + b| - 1] == b[|b| - 1];
      DecimalAppend(a, front);
      var x, y, d := DecimalValue(a), DecimalValue(front), DigitValue(b[|b| - 1]);
      assert DecimalValue(a + b) == DecimalValue(a + front) * 10 + d;
      assert DecimalValue(b) == y * 10 + d;
      Positional(x, Pow10(|front|), y, d);
    }
  }

  /** Moving one more digit in behind multiplies the leading part by ten. */
  lemma Positional(x: int, p: int, y: int, d: int)
    ensures (x * p + y) * 10 + d == x * (10 * p) + (y * 10 + d)
  {
  }

  /** Leading zeros add nothing: "0042" reads as 42. */
  lemma DecimalValueExample()
    ensures DecimalValue("0042") == 42
  {
    assert "0042"[..3] == "004" && "004"[..2] == "00" && "00"[..1] == "0" && "0"[..0] == [];
  }

  /** `getCeaserKey`, also used for the rail fence: the key, whitespace
      removed, must be a non-empty run of digits; a value outside 1..25 is
      brought into range with `((key % 26) + 26) % 26`. So 0 stays 0, 1..25
      are kept and larger values are reduced modulo 26. */
  function GetCaesarKey(keyText: String): (r: Result<int>)
    ensures r.Err? <==> !IsDigitsOnly(StripWhitespace(keyText))
    ensures r.Err? ==> r.error == NotNumeric
    ensures r.Ok? ==> 0 <= r.value < 26
    ensures r.Ok? ==> r.value == DecimalValue(StripWhitespace(keyText)) % 26
  {
    var key := StripWhitespace(keyText);
    if !IsDigitsOnly(key) then Err(NotNumeric)
    else
      var v := DecimalValue(key);
      if v < 1 || v > 25 then
        ModIsModulus(v, 26);
        Ok(Mod(v, 26))
      else Ok(v)
  }

  /** `getMonoalphabeticCipherKey`: the key, whitespace removed, must be
      letters only (checked first) and exactly 26 of them. */
  function GetMonoalphabeticKey(keyText: String): (r: Result<String>)
    ensures r.Ok? <==> IsLetters(StripWhitespace(keyText)) && |StripWhitespace(keyText)| == 26
    ensures !IsLetters(StripWhitespace(keyText)) ==> r == Err(NotAlphabetic)
    ensures IsLetters(StripWhitespace(keyText)) && |StripWhitespace(keyText)| != 26 ==> r == Err(WrongLength)
    ensures r.Ok? ==> r.value == StripWhitespace(keyText)
  {
    var key := StripWhitespace(keyText);
    if !IsLetters(key) then Err(NotAlphabetic)
    else if |key| != 26 then Err(WrongLength)
    else Ok(key)
  }

  /** `getPolyalphabeticCipherKey`, which the Playfair and columnar key
      readers call unchanged: the key, whitespace removed, must be a
      non-empty string of letters. */
  function GetPolyalphabeticKey(keyText: String): (r: Result<String>)
    ensures r.Ok? <==> IsLetters(StripWhitespace(keyText))
    ensures r.Err? ==> r.error == NotAlphabetic
    ensures r.Ok? ==> r.value == StripWhitespace(keyText) && |r.value| > 0
  {
    var key := StripWhitespace(keyText);
    if !IsLetters(key) then Err(NotAlphabetic) else Ok(key)
  }

  /** 26 normalises to 0, as does 0 itself. */
  lemma CaesarKeyZeroExample()
    ensures GetCaesarKey("26") == Ok(0)
    ensures GetCaesarKey("0") == Ok(0)
  {
    StripWhitespaceNoop("26");
    StripWhitespaceNoop("0");
    assert DecimalValue("26") == 26 by {
      assert "26"[..1] == "2";
    }
    assert Mod(26, 26) == 0;
  }

  /** A sign is not a digit, so negative keys are rejected. */
  /** Whitespace inside the key is removed and the digits are read in
      order: " 2 2 " is the key 22. */
  lemma CaesarKeySpacedExample()
    ensures GetCaesarKey(" 2 2 ") == Ok(22)
  {
    var k := " 2 2 ";
    assert k[..4] == " 2 2" && " 2 2"[..3] == " 2 " && " 2 "[..2] == " 2";
    assert " 2"[..1] == " " && " "[..0] == [];
    assert StripWhitespace(" ") == [];
    assert StripWhitespace(" 2") == "2";
    assert StripWhitespace(" 2 ") == "2";
    assert StripWhitespace(" 2 2") == "22";
    assert StripWhitespace(k) == "22";
    assert "22"[..1] == "2" && "2"[..0] == [];
  }

  lemma CaesarKeyRejectExample()
    ensures GetCaesarKey("-3") == Err(NotNumeric)
    ensures GetCaesarKey("  ") == Err(NotNumeric)
  {
    assert "-3"[0] == '-';
    assert '-' in StripWhitespace("-3");
    assert StripWhitespace("  ") == [] by {
      assert "  "[..1] == " ";
    }
  }
}
