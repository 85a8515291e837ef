/** Character helpers shared by all six ciphers: letter tests, ASCII case
    mapping, the rotating shift of a letter inside its own alphabet, the
    positive modulus, JavaScript's whitespace class, trimming and joining. */
module Text {

  type String = seq<char>

  const Alphabet: String := "abcdefghijklmnopqrstuvwxyz"
  const CapitalAlphabet: String := "ABCDEFGHIJKLMNOPQRSTUVWXYZ"

  /** The two alphabet strings hold the letters in code order. */
  lemma AlphabetAt()
    ensures forall i :: 0 <= i < 26 ==> Alphabet[i] as int == 97 + i
    ensures forall i :: 0 <= i < 26 ==> CapitalAlphabet[i] as int == 65 + i
  {
    assert Alphabet == seq(26, i requires 0 <= i < 26 => (97 + i) as char);
    assert CapitalAlphabet == seq(26, i requires 0 <= i < 26 => (65 + i) as char);
  }

  predicate IsUpper(c: char) { 'A' <= c <= 'Z' }
  predicate IsLower(c: char) { 'a' <= c <= 'z' }

  /** `isLetter` applied to a single character: the regular expression
      `^[a-zA-Z]+$` accepts exactly one ASCII letter. */
  predicate IsLetter(c: char) { IsUpper(c) || IsLower(c) }

  /** `isLetter` applied to a whole string: non-empty, ASCII letters only. */
  predicate IsLetters(s: String) {
    |s| > 0 && forall i :: 0 <= i < |s| ==> IsLetter(s[i])
  }

  /** The letters `isLetter` accepts are exactly those of the two alphabet
      constants, and a letter's index is its position there. */
  lemma LetterAlphabets(c: char)
    ensures IsLower(c) <==> c in Alphabet
    ensures IsUpper(c) <==> c in CapitalAlphabet
    ensures IsLower(c) ==> Alphabet[LetterIndex(c)] == c
    ensures IsUpper(c) ==> CapitalAlphabet[LetterIndex(c)] == c
  {
    AlphabetAt();
    if IsLower(c) {
      assert Alphabet[c as int - 97] == c;
    }
    if IsUpper(c) {
      assert CapitalAlphabet[c as int - 65] == c;
    }
  }

  /** `isDigitsOnly`: the regular expression `^\d+$`, i.e. non-empty and
      made of the ASCII digits only. */
  predicate IsDigitsOnly(s: String) {
    |s| > 0 && forall i :: 0 <= i < |s| ==> '0' <= s[i] <= '9'
  }

  /** `^\d+$` accepts a run of ASCII digits, leading zeros included, and
      rejects the empty string, a sign, a decimal point and inner spaces. */
  lemma DigitsOnlyExamples()
    ensures IsDigitsOnly("0042")
    ensures !IsDigitsOnly("") && !IsDigitsOnly("-3") && !IsDigitsOnly("4.5") && !IsDigitsOnly("4 2")
  {
    assert "-3"[0] == '-' && "4.5"[1] == '.' && "4 2"[1] == ' ';
  }

  /** `toUpperCase` on one character. The engine only ever applies it to
      ASCII letters, so the mapping of other characters is the identity. */
  function ToUpper(c: char): (r: char)
    ensures IsLetter(c) ==> IsUpper(r) && LetterIndex(r) == LetterIndex(c)
    ensures IsUpper(c) || !IsLetter(c) ==> r == c
  {
    if IsLower(c) then (c as int - 32) as char else c
  }

  function ToLower(c: char): (r: char)
    ensures IsLetter(c) ==> IsLower(r) && LetterIndex(r) == LetterIndex(c)
    ensures IsLower(c) || !IsLetter(c) ==> r == c
  {
    if IsUpper(c) then (c as int + 32) as char else c
  }

  /** `checkUpperCase`: a character is "upper case" when upper-casing does
      not change it; on letters this is exactly the upper-case test. */
  predicate CheckUpperCase(c: char) { c == ToUpper(c) }

  lemma CaseOfLetters(c: char)
    requires IsLetter(c)
    ensures CheckUpperCase(c) <==> IsUpper(c)
    ensures ToLower(ToUpper(c)) == ToLower(c) && ToUpper(ToLower(c)) == ToUpper(c)
    ensures IsUpper(c) ==> ToUpper(ToLower(c)) == c
    ensures IsLower(c) ==> ToLower(ToUpper(c)) == c
  {
  }

  /** Position of a letter in its own 26-letter alphabet. */
  function LetterIndex(c: char): (r: int)
    requires IsLetter(c)
    ensures 0 <= r < 26
  {
    if IsUpper(c) then c as int - 'A' as int else c as int - 'a' as int
  }

  /** JavaScript's `%` on integers: the remainder truncates toward zero, so
      it takes the sign of the dividend. */
  function JsRem(a: int, b: int): int
    requires b > 0
  {
    if a >= 0 then a % b else -((-a) % b)
  }

  /** `mod(n, m)` = `((n % m) + m) % m` with JavaScript's `%`. */
  function Mod(n: int, m: int): int
    requires m > 0
  {
    JsRem(JsRem(n, m) + m, m)
  }

  /** Euclidean division is unique: a quotient and a remainder in 0..m-1
      that rebuild `a` are the ones Dafny's `/` and `%` give. */
  lemma ModUnique(a: int, m: int, q: int, r: int)
    requires m > 0 && 0 <= r < m && a == q * m + r
    ensures a % m == r
  {
    var q0, r0 := a / m, a % m;
    var d := q - q0;
    assert d * m == r0 - r by {
      assert q * m - q0 * m == d * m;
    }
    if d >= 1 {
      MulAtLeast(d, m);
    } else if d <= -1 {
      MulAtLeast(-d, m);
    }
  }

  /** Counting on by one, modulo n. */
  lemma ModStep(i: nat, n: nat)
    requires n > 0
    ensures (i % n + 1) % n == (i + 1) % n
  {
    var q, r := i / n, i % n;
    assert i == q * n + r && 0 <= r < n;
    assert (q + 1) * n == q * n + n;
    if r + 1 == n {
      ModUnique(i + 1, n, q + 1, 0);
      ModUnique(r + 1, n, 1, 0);
    } else {
      ModUnique(i + 1, n, q, r + 1);
      ModUnique(r + 1, n, 0, r + 1);
    }
  }

  /** Counting on by one below n. */
  lemma CountOn(p: int, n: int)
    requires 0 <= p < n
    ensures (p + 1) % n == if p + 1 == n then 0 else p + 1
  {
    if p + 1 == n {
      ModUnique(p + 1, n, 1, 0);
    } else {
      ModUnique(p + 1, n, 0, p + 1);
    }
  }

  /** Quotient and remainder are the unique pair that rebuilds `a`. */
  lemma DivModUnique(a: int, m: int, q: int, r: int)
    requires m > 0 && 0 <= r < m && a == q * m + r
    ensures a / m == q && a % m == r
  {
    ModUnique(a, m, q, r);
    var d := a / m - q;
    assert d * m == 0 by {
      assert a == (a / m) * m + r;
      assert (a / m) * m - q * m == d * m;
    }
    if d >= 1 {
      MulAtLeast(d, m);
    } else if d <= -1 {
      MulAtLeast(-d, m);
    }
  }

  lemma MulAtLeast(d: int, m: int)
    requires d >= 1 && m > 0
    ensures d * m >= m
  {
  }

  /** JavaScript's remainder is Dafny's, or Dafny's minus m. */
  lemma JsRemCases(a: int, m: int)
    requires m > 0
    ensures JsRem(a, m) == a % m || JsRem(a, m) == a % m - m
  {
    if a < 0 {
      var q, r := (-a) / m, (-a) % m;
      assert -a == q * m + r;
      if r == 0 {
        ModUnique(a, m, -q, 0);
      } else {
        ModUnique(a, m, -q - 1, m - r);
      }
    }
  }

  /** The double remainder in `mod` and `shiftChar` is the true modulus:
      the result lies in 0..m-1 and differs from n by a multiple of m. */
  lemma ModIsModulus(n: int, m: int)
    ensures m > 0 ==> 0 <= Mod(n, m) < m && Mod(n, m) == n % m
  {
    if m > 0 {
      JsRemCases(n, m);
      var x := JsRem(n, m) + m;
      if x == n % m + m {
        ModUnique(x, m, 1, n % m);
      } else {
        ModUnique(x, m, 0, n % m);
      }
    }
  }

  /** `shiftChar`: rotate a letter by `key` places within its own case's
      alphabet, wrapping in both directions; any other character is returned
      unchanged. */
  function ShiftChar(c: char, key: int): (r: char)
    ensures !IsLetter(c) ==> r == c
    ensures IsUpper(c) ==> IsUpper(r)
    ensures IsLower(c) ==> IsLower(r)
    ensures IsLetter(c) ==> LetterIndex(r) == (LetterIndex(c) + key) % 26
  {
    var code := c as int;
    if 65 <= code <= 90 then
      ModIsModulus(code - 65 + key, 26);
      (Mod(code - 65 + key, 26) + 65) as char
    else if 97 <= code <= 122 then
      ModIsModulus(code - 97 + key, 26);
      (Mod(code - 97 + key, 26) + 97) as char
    else c
  }

  /** Shifting back by the same amount restores every character. */
  lemma ShiftCharInverse(c: char, key: int)
    ensures ShiftChar(ShiftChar(c, key), -key) == c
  {
    if IsLetter(c) {
      var r := ShiftChar(c, key);
      var back := ShiftChar(r, -key);
      assert LetterIndex(back) == ((LetterIndex(c) + key) % 26 - key) % 26;
      ShiftBack(LetterIndex(c), key);
    }
  }

  /** Counting `key` places on and then back, modulo 26, returns to `a`. */
  lemma ShiftBack(a: int, key: int)
    requires 0 <= a < 26
    ensures ((a + key) % 26 - key) % 26 == a
  {
    var q, x := (a + key) / 26, (a + key) % 26;
    assert a + key == q * 26 + x;
    ModUnique(x - key, 26, -q, a);
  }

  /** JavaScript's `\s` class, which is also the set `trim` removes:
      WhiteSpace (tab, vertical tab, form feed, space, no-break space,
      the byte-order mark and the Zs space separators) and LineTerminator
      (line feed, carriage return, U+2028, U+2029). */
  predicate IsWhitespace(c: char) {
    || c == '\t' || c == '\n' || c == '\U{000B}' || c == '\U{000C}' || c == '\r'
    || c == ' ' || c == '\U{00A0}' || c == '\U{1680}'
    || ('\U{2000}' <= c <= '\U{200A}')
    || c == '\U{2028}' || c == '\U{2029}' || c == '\U{202F}' || c == '\U{205F}'
    || c == '\U{3000}' || c == '\U{FEFF}'
  }

  /** `s.replace(/\s+/g, "")`: every whitespace character is removed and the
      others are kept in order. */
  function StripWhitespace(s: String): (r: String)
    ensures |r| <= |s|
    ensures forall i :: 0 <= i < |r| ==> !IsWhitespace(r[i])
    ensures forall c :: c in r <==> c in s && !IsWhitespace(c)
  {
    if s == [] then []
    else
      var last := s[|s| - 1];
      var front := StripWhitespace(s[..|s| - 1]);
      assert s == s[..|s| - 1] + [last];
      if IsWhitespace(last) then front else front + [last]
  }

  /** Stripping works character by character: a whitespace character
      disappears, any other stays. */
  lemma StripWhitespaceChar(c: char)
    ensures StripWhitespace([c]) == if IsWhitespace(c) then [] else [c]
  {
    assert [c][..0] == [];
  }

  /** Stripping a joined text strips each part in place, so the kept
      characters stay in order and keep their number. */
  lemma {:induction false} StripWhitespaceAppend(a: String, b: String)
    ensures StripWhitespace(a + b) == StripWhitespace(a) + StripWhitespace(b)
  {
    if b == [] {
      assert a + b == a;
    } else {
      var front, last := b[..|b| - 1], b[|b| - 1];
      assert (a + b)[..|a + b| - 1] == a + front;
      assert (a + b)[|a + b| - 1] == last;
      StripWhitespaceAppend(a, front);
    }
  }

  /** A string without whitespace is left as it is. */
  lemma {:induction false} StripWhitespaceNoop(s: String)
    requires forall i :: 0 <= i < |s| ==> !IsWhitespace(s[i])
    ensures StripWhitespace(s) == s
  {
    if s != [] {
      StripWhitespaceNoop(s[..|s| - 1]);
    }
  }

  function TrimStart(s: String): (r: String)
    ensures |r| <= |s| && r == s[|s| - |r|..]
    ensures r == [] || !IsWhitespace(r[0])
    ensures forall i :: 0 <= i < |s| - |r| ==> IsWhitespace(s[i])
  {
    if s != [] && IsWhitespace(s[0]) then TrimStart(s[1..]) else s
  }

  function TrimEnd(s: String): (r: String)
    ensures |r| <= |s| && r == s[..|r|]
    ensures r == [] || !IsWhitespace(r[|r| - 1])
    ensures forall i :: |r| <= i < |s| ==> IsWhitespace(s[i])
  {
    if s != [] && IsWhitespace(s[|s| - 1]) then TrimEnd(s[..|s| - 1]) else s
  }

  /** `String.prototype.trim`: the longest whitespace prefix and suffix are
      removed; what is left neither starts nor ends with whitespace. */
  function Trim(s: String): (r: String)
    ensures |r| <= |s|
    ensures r == [] || (!IsWhitespace(r[0]) && !IsWhitespace(r[|r| - 1]))
    ensures var i := |s| - |TrimStart(s)|;
      i + |r| <= |s| && r == s[i..i + |r|] &&
      (forall k :: 0 <= k < i ==> IsWhitespace(s[k])) &&
      (forall k :: i + |r| <= k < |s| ==> IsWhitespace(s[k]))
  {
    TrimEnd(TrimStart(s))
  }

  /** Trimming a string that has no leading or trailing whitespace changes
      nothing. */
  lemma TrimNoop(s: String)
    requires s == [] || (!IsWhitespace(s[0]) && !IsWhitespace(s[|s| - 1]))
    ensures Trim(s) == s
  {
  }

  /** `Array.prototype.join("")` over an array of strings. */
  function Concat(ss: seq<String>): String
  {
    if ss == [] then [] else Concat(ss[..|ss| - 1]) + ss[|ss| - 1]
  }

  lemma {:induction false} ConcatAppend(a: seq<String>, b: seq<String>)
    ensures Concat(a + b) == Concat(a) + Concat(b)
  {
    if b != [] {
      assert (a + b)[..|a + b| - 1] == a + b[..|b| - 1];
      ConcatAppend(a, b[..|b| - 1]);
    } else {
      assert a + b == a;
    }
  }

  lemma ConcatStep(ss: seq<String>, i: int)
    requires 0 <= i < |ss|
    ensures Concat(ss[..i + 1]) == Concat(ss[..i]) + ss[i]
  {
    assert ss[..i + 1][..i] == ss[..i];
  }

  /** Position `t * w + k`, with `k` below `w`, lies in block `t` of
      `count` blocks of width `w`. */
  lemma BlockInside(t: int, k: int, count: int, w: int)
    requires 0 <= t < count && 0 <= k < w
    ensures 0 <= t * w + k < count * w
  {
    if t >= 1 {
      MulAtLeast(t, w);
    }
    assert (t + 1) * w == t * w + w;
    if t + 1 < count {
      assert count * w - (t + 1) * w == (count - t - 1) * w;
      MulAtLeast(count - t - 1, w);
    }
  }

  /** Joining blocks that all have length `w` gives `|ss| * w`
      characters. */
  lemma {:induction false} ConcatLength(ss: seq<String>, w: nat)
    requires forall u :: 0 <= u < |ss| ==> |ss[u]| == w
    ensures |Concat(ss)| == |ss| * w
  {
    if ss != [] {
      ConcatLength(ss[..|ss| - 1], w);
      assert (|ss| - 1) * w + w == |ss| * w;
    }
  }

  /** One character of joined blocks of width `w`: block `t`'s character
      `k` sits at position `t * w + k`. */
  lemma {:induction false} ConcatUniformAt(ss: seq<String>, w: nat, t: int, k: int)
    requires forall u :: 0 <= u < |ss| ==> |ss[u]| == w
    requires 0 <= t < |ss| && 0 <= k < w
    ensures |Concat(ss)| == |ss| * w
    ensures 0 <= t * w + k < |Concat(ss)|
    ensures Concat(ss)[t * w + k] == ss[t][k]
  {
    ConcatLength(ss, w);
    BlockInside(t, k, |ss|, w);
    var front := ss[..|ss| - 1];
    ConcatLength(front, w);
    assert Concat(ss) == Concat(front) + ss[|ss| - 1];
    if t < |ss| - 1 {
      ConcatUniformAt(front, w, t, k);
    } else {
      assert |front| == t;
    }
  }

  /** Joining one-character strings gives their characters in order. */
  lemma {:induction false} ConcatSingles(ss: seq<String>)
    requires forall t :: 0 <= t < |ss| ==> |ss[t]| == 1
    ensures |Concat(ss)| == |ss|
    ensures forall t :: 0 <= t < |ss| ==> Concat(ss)[t] == ss[t][0]
  {
    if ss != [] {
      ConcatSingles(ss[..|ss| - 1]);
    }
  }

  /** `toLowerCase()`, which changes only the letters. */
  function LowerText(s: String): (r: String)
    ensures |r| == |s|
    ensures forall i :: 0 <= i < |s| && IsLetter(s[i]) ==> IsLower(r[i]) && LetterIndex(r[i]) == LetterIndex(s[i])
    ensures forall i :: 0 <= i < |s| && !IsLetter(s[i]) ==> r[i] == s[i]
    ensures IsLetters(s) ==> forall i :: 0 <= i < |r| ==> IsLower(r[i])
  {
    seq(|s|, i requires 0 <= i < |s| => ToLower(s[i]))
  }

  /** No element occurs twice. */
  predicate Distinct<T(==)>(s: seq<T>)
  {
    forall a, b :: 0 <= a < b < |s| ==> s[a] != s[b]
  }

  /** The first position of `c` in `s`. */
  function IndexOf<T(==)>(s: seq<T>, c: T): (i: int)
    requires c in s
    ensures 0 <= i < |s| && s[i] == c
    ensures forall k :: 0 <= k < i ==> s[k] != c
  {
    if s[0] == c then 0 else 1 + IndexOf(s[1..], c)
  }

  /** In a list without repeats each element has one position. */
  lemma IndexOfDistinct<T>(s: seq<T>, k: int)
    requires Distinct(s) && 0 <= k < |s|
    ensures IndexOf(s, s[k]) == k
  {
  }
}
