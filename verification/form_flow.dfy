/** What the three add/edit dialogs share: the server's answer to a call, the
    message a `catch` block reads off what was thrown, and the
    case-insensitive phrase test that decides which field shows an error. */
module FormFlow {
  import opened Common
  import opened Text

  /** What a `catch` receives: an `Error` with its message, or any other value. */
  datatype Thrown = ErrorWith(message: string) | NotAnError

  /** The settled promise of one service call. */
  datatype Reply<+T> = Returned(value: T) | Threw(error: Thrown)

  /** `error instanceof Error ? error.message : fallback`. */
  function MessageOf(t: Thrown, fallback: string): string {
    match t
    case ErrorWith(m) => m
    case NotAnError => fallback
  }

  /** `message.toLowerCase().includes(phrase)`. */
  predicate Mentions(message: string, phrase: string) {
    Contains(Lower(message), phrase)
  }

  /** A word is found, in lower case, whatever the case of the message
      around it. */
  lemma MentionsInside(pre: string, word: string, post: string)
    ensures Mentions(pre + word + post, Lower(word))
  {
    var msg := pre + word + post;
    var k := |pre|;
    assert msg[k..k + |word|] == word;
    LowerSlice(msg, k, k + |word|);
    ContainsAt(Lower(msg), Lower(word), k);
  }

  /** Upper-casing first changes nothing once the message is lower-cased. */
  lemma LowerOfUpper(s: string)
    ensures Lower(Upper(s)) == Lower(s)
  {
    assert forall i :: 0 <= i < |s| ==> Lower(Upper(s))[i] == LowerChar(UpperChar(s[i]));
  }

  /** The test ignores case: a shouted message is classified like the original. */
  lemma MentionsIgnoresCase(message: string, phrase: string)
    ensures Mentions(Upper(message), phrase) == Mentions(message, phrase)
  {
    LowerOfUpper(message);
  }

  /** A phrase whose first two letters never occur side by side in the
      lower-cased message is not mentioned. */
  lemma NotMentioned(message: string, phrase: string)
    requires |phrase| >= 2
    requires forall i :: 0 <= i < |message| - 1 ==> !(LowerChar(message[i]) == phrase[0] && LowerChar(message[i + 1]) == phrase[1])
    ensures !Mentions(message, phrase)
  {
    if Mentions(message, phrase) {
      var k := ContainsWitness(Lower(message), phrase);
      OccurrenceStarts(message, phrase, k);
      assert false;
    }
  }

  /** An occurrence of the phrase starts with its first two letters. */
  lemma OccurrenceStarts(message: string, phrase: string, k: nat)
    requires |phrase| >= 2 && k + |phrase| <= |message|
    requires Lower(message)[k..k + |phrase|] == phrase
    ensures LowerChar(message[k]) == phrase[0] && LowerChar(message[k + 1]) == phrase[1]
  {
    assert Lower(message)[k..k + |phrase|][1] == Lower(message)[k + 1];
  }
}
