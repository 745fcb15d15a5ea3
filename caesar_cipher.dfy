/** A model of the Caesar-cipher routine `cipher(text, key)` of ceasar-cipher.js.

    The routine walks the text once. Each character is upper-cased; a space pushes a
    space onto an array, and then, as a separate check, the 26-letter alphabet is
    scanned and every matching entry pushes the letter `key` places further on.
    The array is finally joined into a string.

    JavaScript details that the model keeps:
    - `%` truncates toward zero, so `(key + x) % 26` is negative when `key + x` is
      (see `JsRem26`);
    - indexing an array outside its bounds gives `undefined` (see `At`), and
      `join("")` turns `undefined` into the empty string (see `Join`).
    Upper-casing is ASCII only (see `Upper`).
 */
module CaesarCipher {

  /** The constant alphabet, in order. */
  const Alphabet: seq<char> := ['A', 'B', 'C', 'D', 'E', 'F', 'G', 'H', 'I', 'J', 'K', 'L', 'M',
                                'N', 'O', 'P', 'Q', 'R', 'S', 'T', 'U', 'V', 'W', 'X', 'Y', 'Z']

  /** A value held in the array of ciphered letters: a one-character string, or
      `undefined` when the alphabet was indexed out of range. */
  datatype Element = Str(c: char) | Undefined

  predicate IsUpperLetter(c: char) { 'A' <= c <= 'Z' }

  predicate IsLowerLetter(c: char) { 'a' <= c <= 'z' }

  /** A character the cipher can emit. */
  predicate IsCipherChar(c: char) { IsUpperLetter(c) || c == ' ' }

  /** The alphabet holds the letters 'A'..'Z' in code order, so its entries are distinct. */
  lemma AlphabetIsAtoZ()
    ensures |Alphabet| == 26
    ensures forall i :: 0 <= i < |Alphabet| ==> Alphabet[i] as int == 'A' as int + i
  {
  }

  /** ASCII `toUpperCase`: lower-case letters move to upper case, everything else is unchanged. */
  function Upper(c: char): (u: char)
    ensures u == ' ' <==> c == ' '
    ensures IsUpperLetter(u) <==> IsUpperLetter(c) || IsLowerLetter(c)
    ensures !IsLowerLetter(c) ==> u == c
    ensures IsLowerLetter(c) ==> u as int - 'A' as int == c as int - 'a' as int
  {
    if IsLowerLetter(c) then (c as int - 'a' as int + 'A' as int) as char else c
  }

  /** The position of an upper-case letter in the alphabet. */
  function LetterIndex(c: char): (x: nat)
    requires IsUpperLetter(c)
    ensures x < |Alphabet| && Alphabet[x] == c
    ensures forall y :: 0 <= y < |Alphabet| && Alphabet[y] == c ==> y == x
  {
    AlphabetIsAtoZ();
    c as int - 'A' as int
  }

  /** JavaScript's `%` by the alphabet length, 26: the remainder of division truncated
      toward zero, which takes the sign of the dividend. */
  function JsRem26(a: int): (r: int)
    ensures -26 < r < 26
    ensures r % 26 == a % 26
    ensures a >= 0 ==> r >= 0
    ensures a <= 0 ==> r <= 0
  {
    if a >= 0 then a % 26 else -((-a) % 26)
  }

  /** JavaScript array indexing: an index outside the array gives `undefined`. */
  function At(arr: seq<char>, i: int): (e: Element)
    ensures e.Str? <==> 0 <= i < |arr|
    ensures e.Str? ==> e.c == arr[i]
  {
    if 0 <= i < |arr| then Str(arr[i]) else Undefined
  }

  /** What the space check pushes for the upper-cased character `ch`. */
  function SpacePush(ch: char): (r: seq<Element>)
    ensures |r| <= 1
    ensures r != [] <==> ch == ' '
    ensures forall i :: 0 <= i < |r| ==> r[i] == Str(' ')
  {
    if ch == ' ' then [Str(' ')] else []
  }

  /** What the alphabet scan pushes for the upper-cased character `ch` while it visits
      indices 0 .. n-1. */
  function Scan(ch: char, key: int, n: nat): seq<Element>
    requires n <= |Alphabet|
  {
    if n == 0 then []
    else
      Scan(ch, key, n - 1)
      + (if Alphabet[n - 1] == ch then [At(Alphabet, JsRem26(key + (n - 1)))] else [])
  }

  /** What one input character pushes: the space check, then the full alphabet scan. */
  function CharPushes(c: char, key: int): seq<Element>
  {
    var ch := Upper(c);
    SpacePush(ch) + Scan(ch, key, |Alphabet|)
  }

  /** The array of ciphered letters after the whole of `text` has been processed. */
  function Pushes(text: seq<char>, key: int): seq<Element>
  {
    if text == [] then []
    else Pushes(text[..|text| - 1], key) + CharPushes(text[|text| - 1], key)
  }

  /** `join("")`: concatenates the strings, with `undefined` contributing nothing. */
  function Join(es: seq<Element>): (r: seq<char>)
    ensures |r| <= |es|
  {
    if es == [] then []
    else (match es[0] case Str(c) => [c] case Undefined => []) + Join(es[1..])
  }

  /** The ciphertext `cipher(text, key)` returns. */
  function Ciphertext(text: seq<char>, key: int): seq<char>
  {
    Join(Pushes(text, key))
  }

  /** `cipher(text, key)`: the outer loop walks the text, the inner loop scans the alphabet,
      and the space check and the scan are two independent checks. */
  method Cipher(text: seq<char>, key: int) returns (r: seq<char>)
    ensures r == Ciphertext(text, key)
  {
    var cipheredLetters: seq<Element> := [];
    var i := 0;
    while i < |text|
      invariant 0 <= i <= |text|
      invariant cipheredLetters == Pushes(text[..i], key)
    {
      ghost var before := cipheredLetters;
      var character := Upper(text[i]);
      if character == ' ' {
        cipheredLetters := cipheredLetters + [Str(' ')];
      }
      ghost var scanned := cipheredLetters;
      assert scanned == before + SpacePush(character);
      var x := 0;
      while x < |Alphabet|
        invariant 0 <= x <= |Alphabet|
        invariant cipheredLetters == scanned + Scan(character, key, x)
      {
        ghost var pushed := cipheredLetters;
        if Alphabet[x] == character {
          var newIndex := JsRem26(key + x);
          cipheredLetters := cipheredLetters + [At(Alphabet, newIndex)];
        }
        ScanStep(character, key, x, scanned, pushed, cipheredLetters);
        x := x + 1;
      }
      PushesStep(text, i, key, before, scanned, cipheredLetters);
      i := i + 1;
    }
    assert text[..i] == text;
    r := Join(cipheredLetters);
  }

  /** One more step of the alphabet scan adds what that alphabet entry pushes. */
  lemma ScanStep(ch: char, key: int, x: nat, scanned: seq<Element>, before: seq<Element>, after: seq<Element>)
    requires x < |Alphabet|
    requires before == scanned + Scan(ch, key, x)
    requires after == before + (if Alphabet[x] == ch then [At(Alphabet, JsRem26(key + x))] else [])
    ensures after == scanned + Scan(ch, key, x + 1)
  {
  }

  /** One more character of the text adds what that character pushes. */
  lemma PushesStep(text: seq<char>, i: nat, key: int, before: seq<Element>, scanned: seq<Element>, after: seq<Element>)
    requires i < |text|
    requires before == Pushes(text[..i], key)
    requires scanned == before + SpacePush(Upper(text[i]))
    requires after == scanned + Scan(Upper(text[i]), key, |Alphabet|)
    ensures after == Pushes(text[..i + 1], key)
  {
    assert text[..i + 1][..i] == text[..i];
  }

  // ---------------------------------------------------------------------------
  // An independent, character-by-character reference definition.

  /** The output for one input character: a space stays a space; a letter becomes the
      alphabet entry at its index plus `key`, with JavaScript's `%`, and vanishes when
      that index is negative; anything else vanishes. */
  function EncodeChar(c: char, key: int): seq<char>
  {
    var u := Upper(c);
    if u == ' ' then [' ']
    else if IsUpperLetter(u) then
      var j := JsRem26(key + LetterIndex(u));
      if j >= 0 then [Alphabet[j]] else []
    else []
  }

  function Reference(text: seq<char>, key: int): seq<char>
  {
    if text == [] then [] else EncodeChar(text[0], key) + Reference(text[1..], key)
  }

  /** The characters the cipher keeps with a non-negative key. */
  predicate Kept(c: char) { IsCipherChar(Upper(c)) }

  // ---------------------------------------------------------------------------
  // The alphabet scan finds exactly the one matching entry.

  lemma {:induction false} ScanFindsLetter(ch: char, key: int, n: nat)
    requires n <= |Alphabet|
    ensures Scan(ch, key, n)
            == if IsUpperLetter(ch) && LetterIndex(ch) < n
               then [At(Alphabet, JsRem26(key + LetterIndex(ch)))]
               else []
  {
    if n > 0 {
      ScanFindsLetter(ch, key, n - 1);
      AlphabetIsAtoZ();
      var entry := Alphabet[n - 1];
      assert entry as int == 'A' as int + (n - 1);
      if entry == ch {
        assert LetterIndex(ch) == n - 1;
      } else if IsUpperLetter(ch) {
        assert LetterIndex(ch) != n - 1;
      }
    }
  }

  // ---------------------------------------------------------------------------
  // Compositionality.

  lemma {:induction false} JoinAppend(a: seq<Element>, b: seq<Element>)
    ensures Join(a + b) == Join(a) + Join(b)
  {
    if a != [] {
      assert (a + b)[0] == a[0];
      assert (a + b)[1..] == a[1..] + b;
      JoinAppend(a[1..], b);
    } else {
      assert a + b == b;
    }
  }

  /** A one-character string joins to its character and `undefined` to the empty string. */
  lemma JoinSingle(e: Element)
    ensures Join([e]) == if e.Str? then [e.c] else []
  {
  }

  lemma {:induction false} PushesAppend(s: seq<char>, t: seq<char>, key: int)
    ensures Pushes(s + t, key) == Pushes(s, key) + Pushes(t, key)
  {
    if t == [] {
      assert s + t == s;
    } else {
      var init, last := t[..|t| - 1], t[|t| - 1];
      assert (s + t)[..|s + t| - 1] == s + init;
      assert (s + t)[|s + t| - 1] == last;
      assert Pushes(s + t, key) == Pushes(s + init, key) + CharPushes(last, key);
      assert Pushes(t, key) == Pushes(init, key) + CharPushes(last, key);
      PushesAppend(s, init, key);
    }
  }

  /** Processing is left to right: the empty text gives the empty ciphertext, and the
      ciphertext of a concatenation is the concatenation of the ciphertexts. */
  lemma CiphertextAppend(s: seq<char>, t: seq<char>, key: int)
    ensures Ciphertext([], key) == []
    ensures Ciphertext(s + t, key) == Ciphertext(s, key) + Ciphertext(t, key)
  {
    PushesAppend(s, t, key);
    JoinAppend(Pushes(s, key), Pushes(t, key));
  }

  /** The array after a one-character text holds what that character pushes. */
  lemma PushesOfChar(c: char, key: int)
    ensures Pushes([c], key) == CharPushes(c, key)
  {
    assert [c][..0] == [];
  }

  /** What one character pushes, in closed form. */
  lemma CharPushesClosed(c: char, key: int)
    ensures CharPushes(c, key)
            == if Upper(c) == ' ' then [Str(' ')]
               else if IsUpperLetter(Upper(c)) then [At(Alphabet, JsRem26(key + LetterIndex(Upper(c))))]
               else []
  {
    ScanFindsLetter(Upper(c), key, |Alphabet|);
  }

  /** A character pushes one element when it is kept and none otherwise. */
  lemma CharPushesCount(c: char, key: int)
    ensures |CharPushes(c, key)| == if Kept(c) then 1 else 0
  {
    CharPushesClosed(c, key);
  }

  /** The array holds one element (possibly `undefined`) per character that upper-cases to
      a letter or a space, so it is never longer than the text, and as long as the text
      exactly when every character upper-cases to a letter or a space, whatever the key. */
  lemma {:induction false} PushesLength(text: seq<char>, key: int)
    ensures |Pushes(text, key)| <= |text|
    ensures |Pushes(text, key)| == |text| <==> forall i :: 0 <= i < |text| ==> Kept(text[i])
  {
    if text != [] {
      var init, last := text[..|text| - 1], text[|text| - 1];
      PushesLength(init, key);
      CharPushesCount(last, key);
      assert |Pushes(text, key)| == |Pushes(init, key)| + |CharPushes(last, key)|;
      KeptPrefix(text);
    }
  }

  /** Every character is kept exactly when every character but the last is, and the last is. */
  lemma KeptPrefix(text: seq<char>)
    requires text != []
    ensures (forall i :: 0 <= i < |text| ==> Kept(text[i]))
            <==> (forall i :: 0 <= i < |text| - 1 ==> Kept(text[i])) && Kept(text[|text| - 1])
  {
  }

  /** One character is ciphered as the reference says. */
  lemma CiphertextOfChar(c: char, key: int)
    ensures Ciphertext([c], key) == EncodeChar(c, key)
  {
    PushesOfChar(c, key);
    CharPushesClosed(c, key);
    var ch := Upper(c);
    if ch == ' ' {
      JoinSingle(Str(' '));
    } else if IsUpperLetter(ch) {
      JoinSingle(At(Alphabet, JsRem26(key + LetterIndex(ch))));
    }
  }

  /** The method's specification agrees with the reference definition on every text and key. */
  lemma {:induction false} CiphertextIsReference(text: seq<char>, key: int)
    ensures Ciphertext(text, key) == Reference(text, key)
  {
    if text == [] {
      CiphertextAppend([], [], key);
    } else {
      assert text == [text[0]] + text[1..];
      CiphertextAppend([text[0]], text[1..], key);
      CiphertextOfChar(text[0], key);
      CiphertextIsReference(text[1..], key);
    }
  }

  // ---------------------------------------------------------------------------
  // Per-character behaviour.

  /** When key + x is non-negative (in particular for every non-negative key), a letter
      of either case at alphabet index x becomes the alphabet entry at (key + x) % 26. */
  lemma LetterShift(c: char, key: int)
    requires IsUpperLetter(Upper(c)) && key + LetterIndex(Upper(c)) >= 0
    ensures Ciphertext([c], key) == [Alphabet[(key + LetterIndex(Upper(c))) % 26]]
  {
    CiphertextOfChar(c, key);
  }

  /** A space is ciphered as exactly one space, whatever the key. */
  lemma SpaceToSpace(key: int)
    ensures Ciphertext([' '], key) == [' ']
  {
    CiphertextOfChar(' ', key);
  }

  /** A character that is neither a space nor a letter once upper-cased adds nothing. */
  lemma OtherCharDropped(c: char, key: int)
    requires !Kept(c)
    ensures Ciphertext([c], key) == []
  {
    CiphertextOfChar(c, key);
  }

  /** With a negative key a letter vanishes exactly when JavaScript's `%` gives a negative
      index: when key + x is negative and not a multiple of 26. */
  lemma NegativeKeyDropsLetter(c: char, key: int)
    requires IsUpperLetter(Upper(c))
    ensures Ciphertext([c], key) == [] <==>
            key + LetterIndex(Upper(c)) < 0 && (key + LetterIndex(Upper(c))) % 26 != 0
  {
    CiphertextOfChar(c, key);
  }

  lemma EncodeCharLength(c: char, key: int)
    ensures |EncodeChar(c, key)| <= 1
    ensures key >= 0 ==> (|EncodeChar(c, key)| == 1 <==> Kept(c))
  {
  }

  lemma EncodeCharCipherChars(c: char, key: int)
    ensures forall i :: 0 <= i < |EncodeChar(c, key)| ==> IsCipherChar(EncodeChar(c, key)[i])
  {
    var u := Upper(c);
    if u != ' ' && IsUpperLetter(u) {
      var j := JsRem26(key + LetterIndex(u));
      if j >= 0 {
        AlphabetIsAtoZ();
        assert IsUpperLetter(Alphabet[j]);
      }
    }
  }

  // ---------------------------------------------------------------------------
  // Whole-text properties.

  /** Each input character adds at most one output character. */
  lemma {:induction false} LengthBound(text: seq<char>, key: int)
    ensures |Ciphertext(text, key)| <= |text|
  {
    CiphertextIsReference(text, key);
    ReferenceLengthBound(text, key);
  }

  lemma {:induction false} ReferenceLengthBound(text: seq<char>, key: int)
    ensures |Reference(text, key)| <= |text|
  {
    if text != [] {
      EncodeCharLength(text[0], key);
      ReferenceLengthBound(text[1..], key);
    }
  }

  /** Whatever the key, nothing is lost only if every character upper-cases to a letter or
      a space; with a non-negative key the converse holds as well. */
  lemma {:induction false} LengthExact(text: seq<char>, key: int)
    ensures |Ciphertext(text, key)| == |text| ==> forall i :: 0 <= i < |text| ==> Kept(text[i])
    ensures key >= 0 ==>
              (|Ciphertext(text, key)| == |text| <==> forall i :: 0 <= i < |text| ==> Kept(text[i]))
  {
    PushesLength(text, key);
    if key >= 0 {
      CiphertextIsReference(text, key);
      ReferenceLengthExact(text, key);
    }
  }

  lemma {:induction false} ReferenceLengthExact(text: seq<char>, key: nat)
    ensures |Reference(text, key)| == |text| <==> forall i :: 0 <= i < |text| ==> Kept(text[i])
  {
    if text != [] {
      EncodeCharLength(text[0], key);
      ReferenceLengthBound(text[1..], key);
      ReferenceLengthExact(text[1..], key);
      if forall i :: 0 <= i < |text[1..]| ==> Kept(text[1..][i]) {
        if Kept(text[0]) {
          forall i | 0 <= i < |text| ensures Kept(text[i]) {
            if i > 0 { assert text[i] == text[1..][i - 1]; }
          }
        }
      } else {
        var i :| 0 <= i < |text[1..]| && !Kept(text[1..][i]);
        assert !Kept(text[i + 1]);
      }
    }
  }

  /** Every output character is an upper-case letter or a space. */
  lemma {:induction false} OutputAlphabet(text: seq<char>, key: int)
    ensures forall i :: 0 <= i < |Ciphertext(text, key)| ==> IsCipherChar(Ciphertext(text, key)[i])
  {
    CiphertextIsReference(text, key);
    ReferenceOutputAlphabet(text, key);
  }

  lemma {:induction false} ReferenceOutputAlphabet(text: seq<char>, key: int)
    ensures forall i :: 0 <= i < |Reference(text, key)| ==> IsCipherChar(Reference(text, key)[i])
  {
    if text != [] {
      EncodeCharCipherChars(text[0], key);
      ReferenceOutputAlphabet(text[1..], key);
      var head, tail := EncodeChar(text[0], key), Reference(text[1..], key);
      forall i | 0 <= i < |head + tail| ensures IsCipherChar((head + tail)[i]) {
        if i >= |head| { assert (head + tail)[i] == tail[i - |head|]; }
      }
    }
  }

  /** The number of spaces in a string. */
  function SpaceCount(s: seq<char>): nat
  {
    if s == [] then 0 else (if s[0] == ' ' then 1 else 0) + SpaceCount(s[1..])
  }

  lemma {:induction false} SpaceCountAppend(a: seq<char>, b: seq<char>)
    ensures SpaceCount(a + b) == SpaceCount(a) + SpaceCount(b)
  {
    if a != [] {
      assert (a + b)[0] == a[0];
      assert (a + b)[1..] == a[1..] + b;
      SpaceCountAppend(a[1..], b);
    } else {
      assert a + b == b;
    }
  }

  /** The output has as many spaces as the input: spaces map to spaces and nothing else does. */
  lemma {:induction false} SpacesPreserved(text: seq<char>, key: int)
    ensures SpaceCount(Ciphertext(text, key)) == SpaceCount(text)
  {
    CiphertextIsReference(text, key);
    ReferenceSpaces(text, key);
  }

  lemma {:induction false} ReferenceSpaces(text: seq<char>, key: int)
    ensures SpaceCount(Reference(text, key)) == SpaceCount(text)
  {
    if text != [] {
      var e := EncodeChar(text[0], key);
      SpaceCountAppend(e, Reference(text[1..], key));
      ReferenceSpaces(text[1..], key);
      EncodeCharCipherChars(text[0], key);
      if e != [] && text[0] != ' ' {
        assert e[0] != ' ';
        assert e[1..] == [];
      }
    }
  }

  /** A space stays in place: everything before it is ciphered before one space, and
      everything after it after. */
  lemma SpaceInPlace(s: seq<char>, t: seq<char>, key: int)
    ensures Ciphertext(s + [' '] + t, key) == Ciphertext(s, key) + [' '] + Ciphertext(t, key)
  {
    CiphertextAppend(s + [' '], t, key);
    CiphertextAppend(s, [' '], key);
    SpaceToSpace(key);
  }

  /** When key + x is non-negative a letter is replaced in place by its shifted letter. */
  lemma LetterInPlace(s: seq<char>, c: char, t: seq<char>, key: int)
    requires IsUpperLetter(Upper(c)) && key + LetterIndex(Upper(c)) >= 0
    ensures Ciphertext(s + [c] + t, key)
            == Ciphertext(s, key) + [Alphabet[(key + LetterIndex(Upper(c))) % 26]] + Ciphertext(t, key)
  {
    CiphertextAppend(s + [c], t, key);
    CiphertextAppend(s, [c], key);
    LetterShift(c, key);
  }

  /** A character that is neither a space nor a letter vanishes without a trace. */
  lemma DroppedInPlace(s: seq<char>, c: char, t: seq<char>, key: int)
    requires !Kept(c)
    ensures Ciphertext(s + [c] + t, key) == Ciphertext(s, key) + Ciphertext(t, key)
  {
    CiphertextAppend(s + [c], t, key);
    CiphertextAppend(s, [c], key);
    OtherCharDropped(c, key);
  }

  /** With a non-negative key, adding 26 to the key changes nothing. */
  lemma {:induction false} KeyPeriodic(text: seq<char>, key: nat)
    ensures Ciphertext(text, key + 26) == Ciphertext(text, key)
  {
    CiphertextIsReference(text, key);
    CiphertextIsReference(text, key + 26);
    ReferencePeriodic(text, key);
  }

  lemma {:induction false} ReferencePeriodic(text: seq<char>, key: nat)
    ensures Reference(text, key + 26) == Reference(text, key)
  {
    if text != [] {
      EncodeCharPeriodic(text[0], key);
      ReferencePeriodic(text[1..], key);
    }
  }

  lemma EncodeCharPeriodic(c: char, key: nat)
    ensures EncodeChar(c, key + 26) == EncodeChar(c, key)
  {
    var u := Upper(c);
    if u != ' ' && IsUpperLetter(u) {
      var a := key + LetterIndex(u);
      assert JsRem26(a + 26) == (a + 26) % 26 == a % 26 == JsRem26(a);
    }
  }

  /** A full-cycle shift is the same as no shift. */
  lemma FullCycle(text: seq<char>)
    ensures Ciphertext(text, 26) == Ciphertext(text, 0)
  {
    CiphertextIsReference(text, 0);
    CiphertextIsReference(text, 26);
    ReferencePeriodic(text, 0);
  }

  /** The upper-cased text with every character that is neither a letter nor a space removed. */
  function UpperKept(text: seq<char>): seq<char>
  {
    if text == [] then []
    else (if Kept(text[0]) then [Upper(text[0])] else []) + UpperKept(text[1..])
  }

  lemma EncodeCharKeyZero(c: char)
    ensures EncodeChar(c, 0) == if Kept(c) then [Upper(c)] else []
  {
    var u := Upper(c);
    if u != ' ' && IsUpperLetter(u) {
      var x := LetterIndex(u);
      assert JsRem26(x) == x;
    }
  }

  /** Key 0 upper-cases the text and drops everything but letters and spaces. */
  lemma {:induction false} KeyZero(text: seq<char>)
    ensures Ciphertext(text, 0) == UpperKept(text)
  {
    CiphertextIsReference(text, 0);
    ReferenceKeyZero(text);
  }

  lemma {:induction false} ReferenceKeyZero(text: seq<char>)
    ensures Reference(text, 0) == UpperKept(text)
  {
    if text != [] {
      EncodeCharKeyZero(text[0]);
      ReferenceKeyZero(text[1..]);
    }
  }

  // ---------------------------------------------------------------------------
  // Concrete results.

  /** Unfolding the reference definition at position n of a text. */
  lemma ReferenceDrop(t: seq<char>, n: nat, key: int)
    requires n < |t|
    ensures Reference(t[n..], key) == EncodeChar(t[n], key) + Reference(t[n + 1..], key)
  {
    assert t[n..][1..] == t[n + 1..];
  }

  /** How the characters of the driver's text are ciphered with key 4. */
  lemma DriverLetters()
    ensures EncodeChar('h', 4) == "L" && EncodeChar('e', 4) == "I" && EncodeChar('l', 4) == "P"
    ensures EncodeChar('o', 4) == "S" && EncodeChar(' ', 4) == " " && EncodeChar('w', 4) == "A"
    ensures EncodeChar('r', 4) == "V" && EncodeChar('d', 4) == "H"
  {
    assert Upper('h') == 'H' && LetterIndex('H') == 7 && JsRem26(11) == 11;
    assert Upper('e') == 'E' && LetterIndex('E') == 4 && JsRem26(8) == 8;
    assert Upper('l') == 'L' && LetterIndex('L') == 11 && JsRem26(15) == 15;
    assert Upper('o') == 'O' && LetterIndex('O') == 14 && JsRem26(18) == 18;
    assert Upper('w') == 'W' && LetterIndex('W') == 22 && JsRem26(26) == 0;
    assert Upper('r') == 'R' && LetterIndex('R') == 17 && JsRem26(21) == 21;
    assert Upper('d') == 'D' && LetterIndex('D') == 3 && JsRem26(7) == 7;
  }
  /** The first word of the driver's text, character by character. */
  lemma HelloPrefix(t: seq<char>, key: int)
    requires |t| >= 5 && t[0] == 'h' && t[1] == 'e' && t[2] == 'l' && t[3] == 'l' && t[4] == 'o'
    requires key == 4
    ensures Reference(t, key) == "LIPPS" + Reference(t[5..], key)
  {
    DriverLetters();
    assert t[0..] == t;
    ReferenceDrop(t, 0, key);
    ReferenceDrop(t, 1, key);
    ReferenceDrop(t, 2, key);
    ReferenceDrop(t, 3, key);
    ReferenceDrop(t, 4, key);
  }

  /** The rest of the driver's text, character by character. */
  lemma WorldSuffix(t: seq<char>, key: int)
    requires |t| == 6 && t[0] == ' ' && t[1] == 'w' && t[2] == 'o' && t[3] == 'r' && t[4] == 'l' && t[5] == 'd'
    requires key == 4
    ensures Reference(t, key) == " ASVPH"
  {
    DriverLetters();
    assert t[0..] == t;
    assert t[6..] == [];
    ReferenceDrop(t, 0, key);
    ReferenceDrop(t, 1, key);
    ReferenceDrop(t, 2, key);
    ReferenceDrop(t, 3, key);
    ReferenceDrop(t, 4, key);
    ReferenceDrop(t, 5, key);
  }

  /** The driver's text, character by character. */
  lemma HelloWorldSpelled(t: seq<char>, key: int)
    requires |t| == 11 && t[0] == 'h' && t[1] == 'e' && t[2] == 'l' && t[3] == 'l' && t[4] == 'o' && t[5] == ' ' && t[6] == 'w' && t[7] == 'o' && t[8] == 'r' && t[9] == 'l' && t[10] == 'd'
    requires key == 4
    ensures Ciphertext(t, key) == "LIPPS ASVPH"
  {
    CiphertextIsReference(t, key);
    HelloPrefix(t, key);
    WorldSuffix(t[5..], key);
  }

  /** The driver's call `cipher('hello world', 4)`. */
  lemma HelloWorld()
    ensures Ciphertext("hello world", 4) == "LIPPS ASVPH"
  {
    HelloWorldSpelled("hello world", 4);
  }
  /** The reference definition on a three-character text. */
  lemma ReferenceOfThree(t: seq<char>, key: int)
    requires |t| == 3
    ensures Reference(t, key) == EncodeChar(t[0], key) + EncodeChar(t[1], key) + EncodeChar(t[2], key)
  {
    assert t[0..] == t;
    assert t[3..] == [];
    ReferenceDrop(t, 0, key);
    ReferenceDrop(t, 1, key);
    ReferenceDrop(t, 2, key);
  }

  /** The ciphertext of a three-character text, character by character. */
  lemma CiphertextOfThree(t: seq<char>, key: int)
    requires |t| == 3
    ensures Ciphertext(t, key) == EncodeChar(t[0], key) + EncodeChar(t[1], key) + EncodeChar(t[2], key)
  {
    CiphertextIsReference(t, key);
    ReferenceOfThree(t, key);
  }

  /** How the characters of `ABC` are ciphered with key 1. */
  lemma ShiftByOneLetters()
    ensures EncodeChar('A', 1) == "B" && EncodeChar('B', 1) == "C" && EncodeChar('C', 1) == "D"
  {
    assert !IsLowerLetter('A') && LetterIndex('A') == 0 && JsRem26(1) == 1;
    assert !IsLowerLetter('B') && LetterIndex('B') == 1 && JsRem26(2) == 2;
    assert !IsLowerLetter('C') && LetterIndex('C') == 2 && JsRem26(3) == 3;
  }

  /** Each letter of `ABC` moves one place on with key 1. */
  lemma ShiftByOneSpelled(t: seq<char>, key: int)
    requires |t| == 3 && t[0] == 'A' && t[1] == 'B' && t[2] == 'C'
    requires key == 1
    ensures Ciphertext(t, key) == "BCD"
  {
    CiphertextOfThree(t, key);
    ShiftByOneLetters();
  }

  /** `cipher('ABC', 1)` gives `BCD`. */
  lemma ShiftByOne()
    ensures Ciphertext("ABC", 1) == "BCD"
  {
    ShiftByOneSpelled("ABC", 1);
  }

  /** How the characters of `xyz` are ciphered with key 3. */
  lemma WrapAroundLetters()
    ensures EncodeChar('x', 3) == "A" && EncodeChar('y', 3) == "B" && EncodeChar('z', 3) == "C"
  {
    assert Upper('x') == 'X' && LetterIndex('X') == 23 && JsRem26(26) == 0;
    assert Upper('y') == 'Y' && LetterIndex('Y') == 24 && JsRem26(27) == 1;
    assert Upper('z') == 'Z' && LetterIndex('Z') == 25 && JsRem26(28) == 2;
  }

  /** The last letters of the alphabet wrap around to its start. */
  lemma WrapAroundSpelled(t: seq<char>, key: int)
    requires |t| == 3 && t[0] == 'x' && t[1] == 'y' && t[2] == 'z'
    requires key == 3
    ensures Ciphertext(t, key) == "ABC"
  {
    CiphertextOfThree(t, key);
    WrapAroundLetters();
  }

  /** `cipher('xyz', 3)` gives `ABC`. */
  lemma WrapAround()
    ensures Ciphertext("xyz", 3) == "ABC"
  {
    WrapAroundSpelled("xyz", 3);
  }

  /** How the characters of `Hi!` are ciphered with key 2. */
  lemma PunctuationDroppedLetters()
    ensures EncodeChar('H', 2) == "J" && EncodeChar('i', 2) == "K" && EncodeChar('!', 2) == []
  {
    assert Upper('H') == 'H' && LetterIndex('H') == 7 && JsRem26(9) == 9;
    assert Upper('i') == 'I' && LetterIndex('I') == 8 && JsRem26(10) == 10;
    assert Upper('!') == '!' && !IsUpperLetter('!');
  }

  /** Letters of either case are shifted and punctuation is dropped. */
  lemma PunctuationDroppedSpelled(t: seq<char>, key: int)
    requires |t| == 3 && t[0] == 'H' && t[1] == 'i' && t[2] == '!'
    requires key == 2
    ensures Ciphertext(t, key) == "JK"
  {
    CiphertextOfThree(t, key);
    PunctuationDroppedLetters();
  }

  /** `cipher('Hi!', 2)` gives `JK`. */
  lemma PunctuationDropped()
    ensures Ciphertext("Hi!", 2) == "JK"
  {
    PunctuationDroppedSpelled("Hi!", 2);
  }
}
