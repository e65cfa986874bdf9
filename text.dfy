/** String helpers shared by the user-agent classifier and the spam check:
    the substring test behind `String.prototype.includes` and `RegExp.test`
    with a literal pattern, and ASCII lower-casing. */
module Text {

  /** Whether `word` occurs in `text` as a contiguous block; the empty word
      occurs in every text. */
  predicate Contains(text: string, word: string)
    ensures Contains(text, word) ==> |word| <= |text|
    decreases |text|
  {
    |word| <= |text| && (text[..|word|] == word || Contains(text[1..], word))
  }

  /** `word` occurs in `text` starting at position `i`. */
  predicate OccursAt(text: string, word: string, i: nat)
  {
    i + |word| <= |text| && text[i..i + |word|] == word
  }

  /** Contains means: some position of `text` starts a copy of `word`. */
  lemma {:induction false} ContainsIff(text: string, word: string)
    ensures Contains(text, word) <==> exists i: nat :: OccursAt(text, word, i)
    decreases |text|
  {
    if Contains(text, word) {
      if text[..|word|] == word {
        assert OccursAt(text, word, 0);
      } else {
        ContainsIff(text[1..], word);
        var i: nat :| OccursAt(text[1..], word, i);
        assert i + 1 + |word| <= |text|;
        assert text[1..][i..i + |word|] == text[i + 1..i + 1 + |word|];
        assert OccursAt(text, word, i + 1);
      }
    } else {
      forall i: nat ensures !OccursAt(text, word, i) {
        if i > 0 && i + |word| <= |text| {
          ContainsIff(text[1..], word);
          assert text[1..][i - 1..i - 1 + |word|] == text[i..i + |word|];
          assert !OccursAt(text[1..], word, i - 1);
        }
      }
    }
  }

  /** A word found in `text` is still found when characters are added around it. */
  lemma ContainsInContext(prefix: string, text: string, suffix: string, word: string)
    requires Contains(text, word)
    ensures Contains(prefix + text + suffix, word)
  {
    ContainsIff(text, word);
    var i: nat :| OccursAt(text, word, i);
    var big := prefix + text + suffix;
    assert big[|prefix| + i..|prefix| + i + |word|] == word;
    assert OccursAt(big, word, |prefix| + i);
    ContainsIff(big, word);
  }

  /** Only the empty word occurs in the empty text. */
  lemma ContainsInEmpty(word: string)
    ensures Contains("", word) <==> word == ""
  {
  }

  /** `toLowerCase` restricted to ASCII: `A`-`Z` map to `a`-`z`, every other
      character is kept. */
  function LowerChar(c: char): (d: char)
  {
    if 'A' <= c <= 'Z' then (c as int - 'A' as int + 'a' as int) as char else c
  }

  function ToLower(s: string): (t: string)
    ensures |t| == |s|
  {
    seq(|s|, i requires 0 <= i < |s| => LowerChar(s[i]))
  }

  predicate IsUpper(c: char)
  {
    'A' <= c <= 'Z'
  }

  /** Lower-casing keeps the length, moves each upper-case letter to its
      lower-case counterpart (32 code points up), leaves no upper-case letter and
      changes nothing else. */
  lemma ToLowerProperties(s: string)
    ensures |ToLower(s)| == |s|
    ensures forall i :: 0 <= i < |s| && IsUpper(s[i]) ==>
      'a' <= ToLower(s)[i] <= 'z' && ToLower(s)[i] as int == s[i] as int + 32
    ensures forall i :: 0 <= i < |s| ==> !IsUpper(ToLower(s)[i])
    ensures forall i :: 0 <= i < |s| && !IsUpper(s[i]) ==> ToLower(s)[i] == s[i]
  {
  }

  lemma ToLowerIdempotent(s: string)
    ensures ToLower(ToLower(s)) == ToLower(s)
  {
  }

  lemma ToLowerConcat(a: string, b: string)
    ensures ToLower(a + b) == ToLower(a) + ToLower(b)
  {
  }
}
