/** The keyword spam check of the spam-detection demo: the message is lowercased
    and is spam when it contains one of a fixed list of phrases; the click handler
    shows one of two verdicts in the result element. */
module SpamCheck {
  import Text

  const SpamWords: seq<string> := ["spam", "buy now", "click here", "free", "limited time offer"]

  const SpamMessage: string := "This message is likely spam."
  const HamMessage: string := "This message is not spam."

  /** `words.some(word => text.includes(word))`, scanning the words in order. */
  function SomeContained(words: seq<string>, text: string): (found: bool)
    ensures found <==> exists k :: 0 <= k < |words| && Text.Contains(text, words[k])
  {
    if words == [] then false
    else
      assert forall k :: 1 <= k < |words| ==> words[1..][k - 1] == words[k];
      Text.Contains(text, words[0]) || SomeContained(words[1..], text)
  }

  /** The verdict of the click handler for the text typed into the input field.
      Every keyword has at least four characters, so a shorter message is never spam. */
  predicate IsSpam(input: string)
    ensures IsSpam(input) ==> |input| >= 4
  {
    assert forall k :: 0 <= k < |SpamWords| ==> |SpamWords[k]| >= 4;
    SomeContained(SpamWords, Text.ToLower(input))
  }

  /** Spam exactly when some keyword occurs in the lowercased input. */
  lemma IsSpamIff(input: string)
    ensures IsSpam(input) <==>
      exists k :: 0 <= k < |SpamWords| && Text.Contains(Text.ToLower(input), SpamWords[k])
  {
  }

  /** The verdict ignores (ASCII) letter case. */
  lemma CaseInsensitive(input: string)
    ensures IsSpam(Text.ToLower(input)) == IsSpam(input)
  {
    Text.ToLowerIdempotent(input);
  }

  /** No keyword is empty, so the empty message is not spam. */
  lemma {:induction false} EmptyIsNotSpam()
    ensures !IsSpam("")
  {
    assert Text.ToLower("") == "";
    forall k | 0 <= k < |SpamWords| ensures !Text.Contains("", SpamWords[k]) {
      Text.ContainsInEmpty(SpamWords[k]);
      assert SpamWords[k] != "";
    }
  }

  /** Text added before or after a spam message leaves it spam. */
  lemma SpamInContext(prefix: string, input: string, suffix: string)
    requires IsSpam(input)
    ensures IsSpam(prefix + input + suffix)
  {
    var k :| 0 <= k < |SpamWords| && Text.Contains(Text.ToLower(input), SpamWords[k]);
    Text.ToLowerConcat(prefix, input);
    Text.ToLowerConcat(prefix + input, suffix);
    Text.ContainsInContext(Text.ToLower(prefix), Text.ToLower(input), Text.ToLower(suffix), SpamWords[k]);
  }

  /** The result element of the page. */
  class ResultView {
    var textContent: string
    var color: string

    constructor()
      ensures textContent == "" && color == ""
    {
      textContent := "";
      color := "";
    }

    /** The click handler: the spam verdict in red, or the other one in green. */
    method OnCheckClick(inputValue: string)
      modifies this
      ensures textContent == SpamMessage <==> IsSpam(inputValue)
      ensures textContent == HamMessage <==> !IsSpam(inputValue)
      ensures color == (if IsSpam(inputValue) then "red" else "green")
    {
      var userInput := Text.ToLower(inputValue);
      var isSpam := SomeContained(SpamWords, userInput);
      if isSpam {
        textContent := SpamMessage;
        color := "red";
      } else {
        textContent := HamMessage;
        color := "green";
      }
    }
  }
}
