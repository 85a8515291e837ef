# CipherLab cipher engine in Dafny

CipherLab is a browser page with six classical ciphers: Caesar, monoalphabetic
substitution, Vigenère (polyalphabetic), Playfair, rail fence and columnar
transposition. Each cipher has an encrypt/decrypt pair. Each pair reads its
key from a text box through a key reader that reports malformed keys.
This project models that engine, `index.js`, as Dafny:

- The key box becomes a `keyText` parameter.
- The error box becomes an `Err` value of `Keys.Result`.
- Each cipher is a specification function on strings, plus methods that
  follow the JavaScript loops step by step. Each method's `ensures` ties its
  result to the function.
- The properties the ciphers promise are proved as lemmas about the
  functions: round trips, permutation, case and non-letter preservation, and
  how keys are read.

Modules:

- `Text` (`text.dfy`): the alphabets and `isLetter`, `isDigitsOnly`,
  `checkUpperCase`, `shiftChar` and `mod`. It also holds the JavaScript
  built-ins the engine relies on, modelled exactly: `%` truncating toward
  zero, the `\s` whitespace set, `trim` and `indexOf`.
- `Keys` (`keys.dfy`): the three key readers and the error messages. The
  Playfair, rail fence and columnar readers are aliases of these, and their
  ciphers call the reader they delegate to.
- `Caesar`, `Monoalphabetic`, `Polyalphabetic`: the three substitution
  ciphers.
- `PlayfairGrid`, `PlayfairDigraphs`, `Playfair`:
  - the 5×5 square and `search2dArray`;
  - the digraph splitter and `extractLetters`;
  - the digraph rules and the two Playfair operations.
- `RailFence`: the zig-zag cipher, with its rails and its marked matrix.
- `ColumnarOrder`, `Columnar`:
  - the sorted key and the column order with its `used` pass;
  - the two matrix operations.

Where the engine's documented behaviour and its code differ, the model
follows the code:

- The Vigenère key index moves on at every character, non-letters included
  (`Polyalphabetic.NonLetterAdvancesKey`).
- Playfair drops every non-letter from its output; the positions it records
  are never used.
- A rail fence key is reduced modulo 26 like the Caesar key. A key that
  reduces to 0 leaves no rails: encryption writes `undefined` before every
  character, and decryption of a non-empty text throws.
- Columnar encryption with a key that repeats a letter does not invert under
  decryption (see Findings).

## Model

| member | source | states |
|---|---|---|
| Text.AlphabetAt | index.js:10-11 | the two alphabet constants hold `a`..`z` and `A`..`Z` in code order |
| Text.LetterAlphabets | index.js:39-41 | `isLetter` on one character accepts exactly the characters of the two alphabet constants, and a letter's index is its position there |
| Text.DigitsOnlyExamples | index.js:61-63 | `^\d+$` accepts "0042" and rejects "", "-3", "4.5" and "4 2" |
| Text.ToUpper | index.js:181 | a letter maps to the same letter in upper case (same alphabet index); upper-case letters and non-letters are unchanged |
| Text.ToLower | index.js:180 | a letter maps to the same letter in lower case (same alphabet index); lower-case letters and non-letters are unchanged |
| Text.CaseOfLetters | index.js:394-396 | on a letter, `checkUpperCase` holds exactly for upper case; changing case twice keeps the letter |
| Text.LetterIndex | index.js:44-54 | a letter's offset in its alphabet is in 0..25 |
| Text.ModIsModulus | index.js:570-572 | `mod(n, m)` built from truncating `%` is the mathematical modulus in `[0, m)` |
| Text.JsRemCases | index.js:570-572 | truncating `%` differs from the modulus by at most one `m` |
| Text.ShiftChar | index.js:43-57 | non-letters unchanged, case kept, alphabet offset moves by `key` modulo 26 |
| Text.ShiftCharInverse | index.js:43-57 | shifting by `key` and then by `-key` gives back every character |
| Text.StripWhitespace | index.js:76 | the result has no whitespace and holds exactly the non-whitespace characters of the key |
| Text.StripWhitespaceChar | index.js:76 | one character is dropped exactly when it is whitespace |
| Text.StripWhitespaceAppend | index.js:76 | stripping a joined text strips each part in place, so the kept characters keep their order and number |
| Text.StripWhitespaceNoop | index.js:76 | stripping leaves text without whitespace unchanged |
| Text.Trim | index.js:839 | the result is the slice of the text between its leading and trailing whitespace runs, and neither starts nor ends with whitespace |
| Text.TrimStart | index.js:839 | it removes exactly the leading whitespace, and what remains starts with a non-whitespace character |
| Text.TrimEnd | index.js:839 | it removes exactly the trailing whitespace, and what remains ends with a non-whitespace character |
| Text.TrimNoop | index.js:839 | trimming leaves text without edge whitespace unchanged |
| Text.LowerText | index.js:756 | keeps the length; each letter becomes the same letter in lower case, and every other character is unchanged |
| Text.IndexOf | index.js:778 | `indexOf` returns the first position that holds the value |
| Text.IndexOfDistinct | index.js:778 | in a sequence without repeats, `indexOf` of the `k`-th element is `k` |
| Keys.GetCaesarKey | index.js:75-99 | error exactly when the whitespace-stripped key is not all digits; otherwise the decimal value modulo 26, in 0..25 |
| Keys.DecimalValue | index.js:85 | `parseInt` of a digit string is a number below ten to the number of digits |
| Keys.DecimalAppend | index.js:85 | the value is positional: a prefix counts ten to the length of the rest times its own value |
| Keys.DecimalValueExample | index.js:85 | leading zeros add nothing: "0042" reads as 42 |
| Keys.CaesarKeySpacedExample | index.js:75-99 | inner and outer spaces are removed and the digits kept in order: " 2 2 " is the key 22 |
| Keys.CaesarKeyZeroExample | index.js:93-95 | keys "26" and "0" both read as shift 0 |
| Keys.CaesarKeyRejectExample | index.js:78-82 | a signed key and a blank key are both rejected as not numeric |
| Keys.GetMonoalphabeticKey | index.js:157-172 | accepted exactly when the stripped key is 26 letters; the not-alphabetic error comes before the wrong-length error |
| Keys.GetPolyalphabeticKey | index.js:246-255 | accepted exactly when the stripped key is non-empty and all letters; the key is returned stripped |
| Caesar.CaesarText | index.js:114-121 | keeps length, non-letters and case; each letter moves by the shift modulo 26 |
| Caesar.CaesarEncrypt | index.js:103-125 | the loop computes `CaesarText` with the key read, or returns the key error |
| Caesar.CaesarDecrypt | index.js:128-150 | the loop computes `CaesarText` with the negated key, or returns the key error |
| Caesar.CaesarRoundTrip | index.js:103-150 | decrypting with the same shift restores every text |
| Caesar.CaesarKeyRoundTrip | index.js:75-150 | for every accepted key text, decrypt inverts encrypt |
| Caesar.CaesarExamples | index.js:114-121 | "Attack" with shift 3 gives "Dwwdfn"; the shift wraps "xyz" to "abc" |
| Monoalphabetic.SubstitutionTable | index.js:175-185 | 52 entries, `a, A, b, B, …`, each letter paired with its key letter in the letter's case |
| Monoalphabetic.TablePosition | index.js:178-182 | a letter's entry sits at twice its offset, plus one for upper case |
| Monoalphabetic.TableEntriesAt | index.js:180-181 | the two entries for offset `i` pair `a`+i with the lower-cased key letter and `A`+i with the upper-cased one |
| Monoalphabetic.CreateMap | index.js:175-185 | the loop builds exactly `SubstitutionTable` |
| Monoalphabetic.IndexOfKey | index.js:202 | a lookup by letter finds that letter's entry, or reports that none exists |
| Monoalphabetic.IndexOfValue | index.js:65-67 | `getKeyByValue` finds the first entry holding the value, or none exactly when no entry holds it |
| Monoalphabetic.EncryptText | index.js:200-207 | keeps length and non-letters, substitutes every letter, and keeps case for a letter key |
| Monoalphabetic.MonoalphabeticEncrypt | index.js:188-210 | the loop computes `EncryptText`, or returns the key reader's error |
| Monoalphabetic.MonoalphabeticDecrypt | index.js:214-237 | the loop computes the reverse lookup over the table, or returns the key reader's error |
| Monoalphabetic.DecryptText | index.js:226-233 | when every cipher character decrypts to one character, the result has the same length and character `k` is the decryption of character `k` |
| Monoalphabetic.MissingValueExample | index.js:228 | a cipher letter that no entry holds appends the text "undefined" |
| Monoalphabetic.TableValuesDistinct | index.js:178-182 | for a key that permutes the alphabet, no two table entries share a value |
| Monoalphabetic.DecryptSubstitute | index.js:65-67 | for a permutation key, the reverse lookup of a substituted letter is that letter |
| Monoalphabetic.MonoalphabeticRoundTrip | index.js:188-237 | for a permutation key, decryption restores every text |
| Monoalphabetic.DecryptFirstMatch | index.js:226-233 | decryption picks the first entry in the order `a, A, b, B, …` that holds the cipher letter |
| Monoalphabetic.ReversedKeyExample | index.js:200-207 | with the reversed alphabet as key, "abc" becomes "zyx" |
| Polyalphabetic.KeyShift | index.js:278-281 | a key letter shifts by its alphabet offset, whatever its case |
| Polyalphabetic.VigenereText | index.js:270-294 | keeps length, non-letters and case; letter `i` moves by the key letter at `i` modulo the key length, forward or backward |
| Polyalphabetic.ApplyKey | index.js:267-294 | the loop computes `VigenereText` |
| Polyalphabetic.PolyalphabeticEncrypt | index.js:257-298 | `VigenereText` forward with the key read, or the not-alphabetic error |
| Polyalphabetic.PolyalphabeticDecrypt | index.js:300-333 | `VigenereText` backward with the key read, or the not-alphabetic error |
| Polyalphabetic.PolyalphabeticRoundTrip | index.js:257-333 | decrypting with the same letter key restores every text |
| Polyalphabetic.LemonExample | index.js:270-294 | "ATTACKAT" with key "LEMON" gives "LXFOPVEF" |
| Polyalphabetic.NonLetterAdvancesKey | index.js:285-292 | a space uses up a key letter: "A A" with key "BC" gives "B B" |
| PlayfairGrid.Collect | index.js:359-375 | adding characters keeps the ones already there, adds every new one except `j`, and creates no repeats |
| PlayfairGrid.GridOrderValid | index.js:347-392 | the square's 25 cells hold every lower-case letter but `j` once each, with the key's letters first |
| PlayfairGrid.KeyLettersInOrder | index.js:359-366 | the key's letters appear in the square in the order of their first occurrence |
| PlayfairGrid.CellOfIndex | index.js:380-381 | index `5r + c` is cell `(r, c)` and no other |
| PlayfairGrid.GetPlayfairGrid | index.js:347-392 | the built 5×5 grid holds `GridOrder(key)` row by row |
| PlayfairGrid.FillGrid | index.js:377-388 | cell `(r, c)` receives character `5r + c` |
| PlayfairGrid.Search2dArray | index.js:433-448 | returns the first cell in row order that holds the character, or `(-1, -1)` exactly when none does |
| PlayfairGrid.SearchFindsPosition | index.js:433-448 | in a valid square, the cell found is the character's own cell |
| PlayfairGrid.GridHolds | index.js:433-448 | every lower-case letter but `j` is in the square, so the search never fails on such a letter |
| PlayfairDigraphs.Filler | index.js:405 | the filler is `X` or `x`, in the case of the letter it follows |
| PlayfairDigraphs.Pairing | index.js:398-431 | every digraph has two characters; a digraph of two equal characters ends in a filler; filler positions fall inside the output; output length is input length plus fillers |
| PlayfairDigraphs.FillerPositions | index.js:406-417 | every recorded position holds a filler, and the positions increase |
| PlayfairDigraphs.FillerInText | index.js:406-417 | each recorded position, counted in the joined digraphs, holds the filler for the character before it |
| PlayfairDigraphs.PairingRestores | index.js:398-431 | removing the recorded filler positions from the joined digraphs gives back the message |
| PlayfairDigraphs.PairingOfBlocks | index.js:411-414 | a message of pairs of unequal characters is split into exactly those pairs, with no fillers |
| PlayfairDigraphs.GetPlayfairDigraphs | index.js:398-431 | the loop, including its step back after a filler, computes `Pairing` |
| PlayfairDigraphs.BalloonExample | index.js:402-421 | "balloon" gives ba, lx, lo, on, with a filler at position 3 |
| PlayfairDigraphs.LettersOf | index.js:451-480 | the letters kept are letters that the square can place, no more than the message has |
| PlayfairDigraphs.FoldJ | index.js:460-465 | a letter stays a letter of the same case that the square can place; only `j`/`J` changes, to the letter before it |
| PlayfairDigraphs.LettersOfChar | index.js:455-475 | one character gives its folded self when it is a letter, and nothing otherwise |
| PlayfairDigraphs.LettersOfAppend | index.js:455-475 | the letters of a joined text are the letters of each part in order |
| PlayfairDigraphs.LettersExample | index.js:455-475 | "Jo, hi!" gives "Iohi" |
| PlayfairDigraphs.NonLettersOf | index.js:451-480 | every non-letter is recorded with its position, in increasing order |
| PlayfairDigraphs.ExtractSplits | index.js:451-480 | letters and non-letters together account for every character |
| PlayfairDigraphs.LettersOfSquareLetters | index.js:451-480 | a text of letters passes through unchanged |
| PlayfairDigraphs.ExtractLetters | index.js:451-480 | the loop computes `LettersOf` and `NonLettersOf` |
| Playfair.Step | index.js:540-548 | one step right or down wraps 4 to 0; one step back wraps 0 to 4 |
| Playfair.Target | index.js:538-557 | each rule maps two cells of the square to two cells of the square |
| Playfair.TargetRoundTrip | index.js:509-632 | the decrypt rules undo the encrypt rules on every pair of cells |
| Playfair.TargetDistinct | index.js:538-557 | distinct cells map to distinct cells |
| Playfair.SquareLetterInGrid | index.js:530-531 | a letter's lower case is in the square |
| Playfair.Position | index.js:530-531 | a letter is looked up by its lower case, and its cell holds that lower case |
| Playfair.PairRule | index.js:533-557 | a digraph maps to a digraph of letters, each keeping its own case |
| Playfair.InCaseBack | index.js:540-555 | a square letter written in a case is found at its cell and reports that case |
| Playfair.PairRoundTrip | index.js:509-632 | decrypting an encrypted digraph gives it back, case included |
| Playfair.PairRuleDistinct | index.js:538-557 | a digraph of distinct letters maps to distinct letters |
| Playfair.PairingSquare | index.js:398-431 | splitting a text of letters gives digraphs of letters only |
| Playfair.MapRule | index.js:528-560 | applying the rule to each digraph keeps their number, and the results are digraphs of letters |
| Playfair.PlayfairText | index.js:509-632 | the output has two letters per digraph; each keeps the case of the digraph letter it replaces |
| Playfair.TransformDigraph | index.js:530-557 | one loop iteration emits `PairRule` of the digraph |
| Playfair.TransformDigraphs | index.js:528-560 | the loop emits the rule applied to every digraph, joined |
| Playfair.Located | index.js:530-531 | `search2dArray` on the built grid returns the letter's cell |
| Playfair.PlayfairEncrypt | index.js:509-567 | encryption is the forward cipher over the message's letters, or the key error |
| Playfair.PlayfairDecrypt | index.js:574-632 | decryption is the backward cipher over the text's letters, or the key error |
| Playfair.Encipher | index.js:509-632 | the output has one letter per character of the joined digraphs of the message's letters; each is a square letter in the case of the letter it replaces |
| Playfair.MapRuleRoundTrip | index.js:509-632 | decrypting enciphered digraphs gives the digraphs back |
| Playfair.PlayfairRoundTrip | index.js:509-632 | when no digraph has two equal letters, decryption gives the joined digraphs, and removing the fillers gives the letters back |
| Playfair.EncipherRoundTrip | index.js:509-632 | for any message under that condition, decrypt after encrypt yields the message's letters with fillers |
| RailFence.Walk | index.js:656-668 | the walker stays on a rail and never heads off the top or bottom |
| RailFence.WalkIsZigZag | index.js:656-668 | the rail of character `i` is the zig-zag with period `2key-2` |
| RailFence.RailText | index.js:660-668 | each rail receives exactly its share of the characters |
| RailFence.Rank | index.js:709-718 | each character's position in the cipher text lies within the text |
| RailFence.ZeroRailsText | index.js:656-670 | with no rails, every character becomes ten characters |
| RailFence.ZeroRailsAt | index.js:656-670 | with no rails, each character is preceded by "undefined" |
| RailFence.ZeroRailsExample | index.js:656-670 | with key 0, "AB" encrypts to "undefinedAundefinedB" |
| RailFence.EncryptAt | index.js:656-670 | the character at position `c` lands at its rank in the cipher text |
| RailFence.EncryptText | index.js:645-671 | with at least one rail the cipher text is as long as the text; with zero rails it is ten times as long |
| RailFence.DecryptText | index.js:674-734 | decryption keeps the length |
| RailFence.RailFenceRoundTrip | index.js:645-734 | for every key of at least one rail, decryption restores the text |
| RailFence.RailFencePermutation | index.js:645-671 | with at least one rail, the cipher text is a permutation of the message |
| RailFence.TwoRailsExample | index.js:656-670 | "ABC" on two rails gives "ACB" |
| RailFence.RailFenceEncrypt | index.js:645-671 | returns the key error, or the text for one rail, or the rails joined |
| RailFence.WriteRails | index.js:656-670 | the zig-zag loop builds exactly the rails, joined |
| RailFence.ZeroRails | index.js:656-670 | with no rails, the loop writes "undefined" before every character |
| RailFence.MarkZigZag | index.js:697-706 | exactly the cells on the zig-zag are marked |
| RailFence.FillRail | index.js:711-716 | a rail's marked cells receive the next cipher characters in order; other rails are unchanged |
| RailFence.FillRails | index.js:709-718 | every marked cell receives the cipher character of its rank |
| RailFence.RailFenceDecrypt | index.js:674-734 | returns the key error, or the error for zero rails on non-empty text, or `DecryptText` |
| ColumnarOrder.Insert | index.js:774 | inserting into a sorted key keeps it sorted and adds exactly the one character |
| ColumnarOrder.SortChars | index.js:774 | the sorted key is sorted and a permutation of the key |
| ColumnarOrder.SortedUnique | index.js:774 | any two sorted permutations of a key are equal, so the sorting method does not matter |
| ColumnarOrder.ColumnOf | index.js:811-819 | slot `t` names a column that holds the `t`-th sorted letter |
| ColumnarOrder.ColOrderPermutation | index.js:807-820 | the column order uses every column once, and equal letters take their columns left to right |
| ColumnarOrder.StableTie | index.js:811-819 | of two slots with the same letter, the earlier one gets the left column |
| ColumnarOrder.DistinctColOrder | index.js:808 | when the key letters are distinct, the `used` pass agrees with `indexOf` |
| ColumnarOrder.FirstUnused | index.js:813-818 | finds the leftmost unused column with the letter, or reports that none exists |
| ColumnarOrder.ColumnOrder | index.js:807-820 | the sort and the `used` pass compute `ColOrder` |
| Columnar.CeilDivBounds | index.js:760 | `Math.ceil(length / n)` rows hold the text, and one row fewer would not |
| Columnar.CeilDivExact | index.js:801 | a text of whole rows needs exactly that many rows |
| Columnar.ReadIndex | index.js:778 | `indexOf` of the `t`-th sorted letter is the leftmost column with that letter |
| Columnar.ReadOrder | index.js:777-785 | the encryption read order names a valid column at every slot |
| Columnar.EncryptText | index.js:747-788 | the columns read in `indexOf` order; with distinct key letters this is the stable column order |
| Columnar.DecryptText | index.js:789-840 | the result has no whitespace at either end, and with whole rows it is no longer than the cipher text |
| Columnar.DecryptRowsLength | index.js:822-837 | with whole rows, the rows read back exactly as many characters as the cipher text has |
| Columnar.WriteRows | index.js:764-772 | character `i` is written at row `i / n`, column `i mod n`; other cells stay empty |
| Columnar.ColumnarEncrypt | index.js:747-788 | encryption reads the columns of the lower-cased key in `indexOf` order, or returns the key error |
| Columnar.ReadInOrder | index.js:774-786 | the read loop joins the columns in `indexOf` order |
| Columnar.FillColumns | index.js:822-830 | the `t`-th run of cipher characters fills column `colOrder[t]` from the top |
| Columnar.ColumnarDecrypt | index.js:789-840 | decryption fills the columns of the lower-cased key in stable order, reads the rows and trims, or returns the key error |
| Columnar.ReadMatrix | index.js:833-837 | the row loop joins the rows in order |
| Columnar.ReadColumn | index.js:780-782 | the inner loop joins one column's cells from the top |
| Columnar.ReadRow | index.js:834-836 | the inner loop joins one row's cells from the left |
| Columnar.EncryptGrid | index.js:777-785 | for whole rows, cipher position `t·rows + r` holds the message character at row `r` of the `t`-th column read |
| Columnar.DecryptGrid | index.js:822-837 | for whole rows, message position `r·n + c` is taken from cipher position `slot(c)·rows + r` |
| Columnar.StableColumnarEncrypt | index.js:747-788 | the corrected encryption reads the columns in the stable order built by the `used` pass (index.js:811-819), or returns the key error |
| Columnar.ReadColumns | index.js:777-785 | the read loop joins the columns in any given valid column order |
| Columnar.CellRoundTrip | index.js:747-840 | with columns read in stable order, every character returns to its place |
| Columnar.StableRoundTrip | index.js:747-840 | with columns read in stable order, whole rows and no edge whitespace, decryption restores the text for any key |
| Columnar.DistinctReadOrder | index.js:778 | with distinct key letters, the `indexOf` read order is the stable column order |
| Columnar.ColumnarRoundTrip | index.js:747-840 | with distinct key letters, whole rows and no edge whitespace, decryption restores the text |
| Columnar.ColumnarKeyRoundTrip | index.js:740-840 | for a key the reader accepts with distinct lower-cased letters, decryption inverts encryption on whole rows without edge whitespace |
| Columnar.RepeatedLetterExample | index.js:777-785 | with key "aa", "ab" and "aa" both encrypt to "aa" |
| Columnar.FirstColumnTwice | index.js:777-785 | with key "aa", a two-letter text encrypts to its first letter twice |

## Left out

- Page and I/O: the key box, the error box and the page layout. The key is a
  parameter and the error box is an `Err` result; `Keys.Message` gives the
  text shown. `nav.js`, the algorithm table and the event handlers are not
  part of this model.
- The `isNaN` branches: every cipher returns `""` after an error. The model
  returns the error instead; it does not model that empty string.
- `addNonLetters` and `shiftNonLetterIndices`: never called, because their
  calls are commented out.
- Playfair `nonLetters` and `addedFillers`: they are computed and returned,
  then never used, so they do not reach any output.
- `parseInt` on very long digit strings: JavaScript loses precision above
  2^53. `Keys.DecimalValue` is exact, so a key of more than about 15 digits
  may reduce to a different shift than in the browser.
- Strings are sequences of `char`. UTF-16 surrogate pairs are not modelled,
  because `for…of` steps by code point and indexing by code unit. Case mapping
  is modelled on ASCII letters, the only letters the ciphers accept.
- `Array.prototype.sort` is modelled by an insertion sort. It compares single
  characters by code unit. `ColumnarOrder.SortedUnique` shows that any sort
  gives the same result.
- The first `colOrder` assignment in `columnarDecrypt` is never used: the
  `used` pass overwrites it at once.
- `ColumnarOrder.FirstUnused` returns -1 where the JavaScript callback
  returns `undefined`. `ColumnarOrder.ColumnOrder` proves that this never
  happens.
- `Math.ceil` on a floating-point quotient: `Columnar.CeilDiv` uses exact
  integers, which agree for every length the page can hold.
- Rail fence decryption with zero rails throws a `TypeError` on a non-empty
  text. It is modelled as `Err(NoRails)`.
- Monoalphabetic.MonoalphabeticRoundTrip: holds only for a key that permutes
  the alphabet. With a repeated key letter, decryption picks the first match
  (`Monoalphabetic.DecryptFirstMatch`).
- Playfair.PlayfairRoundTrip: holds only when no digraph holds two equal
  characters. The filler is `x` or `X`, so only that letter can pair with
  itself: a doubled or lone last `x` gets the filler `x`, and "xx" splits
  into the digraphs "xx" and "xx". Decryption also returns the fillers and
  none of the non-letters.
- Columnar.ColumnarRoundTrip: holds only for whole rows and a text without
  edge whitespace.
  - With short columns, decryption fills every column to the full height and
    shifts characters.
  - The final `trim` removes edge whitespace.
  - Distinct key letters are needed too (see Findings).

## Findings

| source | as written | input that shows it | evidently intended | confidence | as-written member | corrected member |
|---|---|---|---|---|---|---|
| index.js:777-785 | encryption finds each sorted key letter's column with `key.indexOf`, so a repeated letter reads its leftmost column every time | key "aa": the texts "ab" and "aa" both encrypt to "aa", so decryption cannot recover "ab" | equal letters take their columns left to right, as the `used` pass in `columnarDecrypt` (index.js:811-819) does, so that decryption inverts encryption for every key | high, proved; not executed | Columnar.RepeatedLetterExample | Columnar.StableRoundTrip |
