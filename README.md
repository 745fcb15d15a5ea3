# Caesar cipher — a verified Dafny model

This project models the Caesar-cipher routine `cipher(text, key)` of
`ceasar-cipher.js` and its constant 26-letter alphabet. The routine makes one
pass over the text. It upper-cases each character. If the result is a space, it
pushes a space onto an array. Then, as a separate check, it scans the alphabet
and pushes `alphabet[(key + x) % 26]` for the entry `x` that matches. Every other
character is dropped. At the end the array is joined into a string.

Everything is in `caesar_cipher.dfy`, module `CaesarCipher`:

- `Cipher` is the routine as the source writes it. It is a method with the outer
  loop over the text and the inner loop over the alphabet. The space check and
  the alphabet scan are two `if`s one after the other, not an `if`/`else`. The
  array of ciphered letters is a local `seq<Element>`. An element is a
  one-character string or `undefined`.
- `Ciphertext` is the specification function that the method is proved equal
  to. `Pushes` gives the contents of the array. It is built from `CharPushes`,
  what one character pushes: `SpacePush` for the space check, then `Scan` for
  the alphabet scan. `Join` models `join("")`.
- `Reference` is an independent definition, one character at a time, built on
  `EncodeChar`. `CiphertextIsReference` proves the two agree for every text and
  every key. The whole-text properties are proved through it.

Two JavaScript behaviours are kept exactly:

- `%` truncates toward zero (`JsRem26`). So `(key + x) % 26` is negative when
  `key + x` is negative and not a multiple of 26.
- Indexing the alphabet at a negative position gives `undefined` (`At`), and
  `join("")` turns `undefined` into the empty string (`Join`). A letter whose
  shifted index is negative is therefore silently dropped, not wrapped around
  (`NegativeKeyDropsLetter`).

A Caesar shift is usually expected to wrap around for every integer key, so
that a letter at index `x` becomes the entry at `(key + x) mod 26` with floored
modulo. The code does not do that: with a negative key it drops the letter, as
stated above. This model follows the code. The shift of a single letter is
proved whenever `key + x` is non-negative, which covers every non-negative key
(`LetterShift`, `LetterInPlace`). Periodicity in the key is proved for
non-negative keys (`KeyPeriodic`).

Upper-casing is modelled as ASCII only: `a`–`z` become `A`–`Z`, and every other
character is unchanged (`Upper`).

## Model

| member | source | states |
|---|---|---|
| `CaesarCipher.AlphabetIsAtoZ` | ceasar-cipher.js:2 | the alphabet has 26 entries, the letters A to Z in order, so no letter appears twice |
| `CaesarCipher.Upper` | ceasar-cipher.js:8 | upper-casing gives a space exactly for a space, and an upper-case letter exactly for a letter of either case; every character that is not a lower-case letter is unchanged; a lower-case letter keeps its alphabet position |
| `CaesarCipher.LetterIndex` | ceasar-cipher.js:14-15 | an upper-case letter matches the alphabet at exactly one index |
| `CaesarCipher.JsRem26` | ceasar-cipher.js:16 | `%` by 26 stays strictly between -26 and 26, leaves the same residue as the dividend, and takes the dividend's sign |
| `CaesarCipher.At` | ceasar-cipher.js:18 | indexing the alphabet gives its entry inside the bounds and `undefined` outside them |
| `CaesarCipher.Cipher` | ceasar-cipher.js:4-24 | the two nested loops, with the space check and the alphabet scan as independent checks, return `Ciphertext(text, key)`, the join of exactly the elements the two checks push, character by character, for every text and every integer key |
| `CaesarCipher.SpacePush` | ceasar-cipher.js:10-12 | the space check pushes at most one element; it pushes something exactly when the upper-cased character is a space, and what it pushes is a space |
| `CaesarCipher.ScanFindsLetter` | ceasar-cipher.js:14-20 | the alphabet scan (`Scan`) over the first `n` entries pushes exactly one element for an upper-case letter whose index is below `n` (the entry at its shifted index) and nothing for any other character |
| `CaesarCipher.CharPushesClosed` | ceasar-cipher.js:8-20 | one character pushes (`CharPushes`) one space for a space, the alphabet entry at its shifted index, or `undefined`, for a letter of either case, and nothing for anything else |
| `CaesarCipher.PushesLength` | ceasar-cipher.js:7-21 | after the outer loop (`Pushes`) the array is never longer than the text, and it is exactly as long as the text when every character upper-cases to a letter or a space, for every key, `undefined` elements included |
| `CaesarCipher.Join` | ceasar-cipher.js:23 | joining never gives more characters than the array has elements |
| `CaesarCipher.JoinSingle` | ceasar-cipher.js:23 | a one-character string joins to its character and `undefined` joins to the empty string |
| `CaesarCipher.JoinAppend` | ceasar-cipher.js:23 | joining an array made of two parts gives the two joined parts, one after the other |
| `CaesarCipher.CiphertextAppend` | ceasar-cipher.js:5-7 | the empty text gives the empty ciphertext, and the ciphertext of `s + t` is the ciphertext of `s` followed by that of `t` |
| `CaesarCipher.CiphertextOfChar` | ceasar-cipher.js:7-20 | one character is ciphered as the reference says: a space gives a space, a letter gives its shifted letter or nothing, and any other character gives nothing |
| `CaesarCipher.CiphertextIsReference` | ceasar-cipher.js:4-24 | the ciphertext equals the character-by-character reference definition for every text and key |
| `CaesarCipher.LetterShift` | ceasar-cipher.js:14-18 | whenever `key + x` is non-negative, in particular for every non-negative key, a letter of either case at alphabet index `x` becomes the entry at `(key + x) % 26` |
| `CaesarCipher.SpaceToSpace` | ceasar-cipher.js:10-12 | a space becomes exactly one space, whatever the key |
| `CaesarCipher.OtherCharDropped` | ceasar-cipher.js:10-20 | a character that is neither a space nor a letter after upper-casing adds nothing |
| `CaesarCipher.NegativeKeyDropsLetter` | ceasar-cipher.js:16-18 | a letter vanishes from the output exactly when `key + x` is negative and not a multiple of 26 |
| `CaesarCipher.LengthBound` | ceasar-cipher.js:7-20 | the ciphertext is never longer than the text, for every integer key |
| `CaesarCipher.LengthExact` | ceasar-cipher.js:7-20 | for every key, the ciphertext is as long as the text only if every character upper-cases to a letter or a space; with a non-negative key the converse holds too |
| `CaesarCipher.OutputAlphabet` | ceasar-cipher.js:2-18 | every character of the ciphertext is an upper-case letter or a space |
| `CaesarCipher.SpacesPreserved` | ceasar-cipher.js:10-15 | the ciphertext holds as many spaces as the text |
| `CaesarCipher.SpaceInPlace` | ceasar-cipher.js:7-12 | a space in the text becomes one space between the ciphertexts of what precedes and what follows it |
| `CaesarCipher.LetterInPlace` | ceasar-cipher.js:7-18 | whenever `key + x` is non-negative, a letter becomes its shifted letter between the ciphertexts of what precedes and what follows it |
| `CaesarCipher.DroppedInPlace` | ceasar-cipher.js:7-20 | a character that is neither a space nor a letter disappears; what precedes and what follows it are ciphered as if it were absent |
| `CaesarCipher.KeyPeriodic` | ceasar-cipher.js:16 | with a non-negative key, adding 26 to the key does not change the ciphertext |
| `CaesarCipher.FullCycle` | ceasar-cipher.js:16 | key 26 gives the same ciphertext as key 0 |
| `CaesarCipher.KeyZero` | ceasar-cipher.js:8-20 | key 0 gives the upper-cased text with every character that is neither a letter nor a space removed |
| `CaesarCipher.HelloWorld` | ceasar-cipher.js:26 | the driver's call on `hello world` with key 4 gives `LIPPS ASVPH` |
| `CaesarCipher.ShiftByOne` | ceasar-cipher.js:4-24 | `ABC` with key 1 gives `BCD` |
| `CaesarCipher.WrapAround` | ceasar-cipher.js:4-24 | `xyz` with key 3 gives `ABC`: the end of the alphabet wraps around to its start |
| `CaesarCipher.PunctuationDropped` | ceasar-cipher.js:4-24 | `Hi!` with key 2 gives `JK`: both cases are shifted and the `!` is dropped |

## Left out

- `main.c` is not part of this model. It prints messages and calls a parser
  that is defined elsewhere, and has no logic of its own.
- The driver's `console.log` (ceasar-cipher.js:27) is output. Only the value it
  prints is kept, as the lemma `HelloWorld`.
- JavaScript numbers are doubles. A fractional key gives an index that is not an
  integer, and keys beyond 2^53 lose precision. The model takes the key as an
  unbounded integer and leaves these cases out.
- Full Unicode `toUpperCase` is left out. Some characters upper-case to several
  characters (`ß` becomes `SS`), and some non-ASCII characters upper-case to
  ASCII letters. Texts are sequences of Dafny `char`s, not UTF-16 code units.
- The array holds one-character strings in the source. Here it holds single
  characters, which `join("")` concatenates to the same string.
