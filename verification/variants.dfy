/**
 * The two servers side by side. The last-character server accepts letters
 * only, so a space is an error there; the last-vowel server accepts letters
 * and whitespace, so the same text is analysed.
 */
module Variants {
  import opened Chars
  import opened Counting
  import opened Sockets
  import LastCharServer
  import LastVowelServer

  /** "hello world": rejected by the first server; the second finds the last vowel o twice, and 2 is prime. */
  lemma HelloWorldDisagreement()
    ensures LastCharServer.Decide(Received("hello world")) == LastCharServer.NotAlphabetic
    ensures LastVowelServer.Decide(Received("hello world")) == LastVowelServer.Counted("hello world", 'o', 2, true)
  {
    LastCharServer.InnerSpaceRejected();
    HelloWorldCounted();
  }

  lemma HelloWorldCounted()
    ensures LastVowelServer.Decide(Received("hello world")) == LastVowelServer.Counted("hello world", 'o', 2, true)
  {
    HelloWorldFacts();
    VowelAnalysis("hello world", 7, 2);
  }

  lemma HelloWorldFacts()
    ensures forall i | 0 <= i < |"hello world"| :: IsAlpha("hello world"[i]) || IsSpace("hello world"[i])
    ensures forall j | 7 < j < |"hello world"| :: !LastVowelServer.IsVowel("hello world"[j])
    ensures Positions("hello world", 'o') == {4, 7}
    ensures LastVowelServer.Prime(2)
  {
  }

  /** A stripped, valid text whose last vowel sits at `k` is counted with that vowel. */
  lemma VowelAnalysis(text: string, k: nat, n: nat)
    requires text != [] && !IsSpace(text[0]) && !IsSpace(text[|text| - 1])
    requires forall i | 0 <= i < |text| :: IsAlpha(text[i]) || IsSpace(text[i])
    requires k < |text| && LastVowelServer.IsVowel(text[k])
    requires forall j | k < j < |text| :: !LastVowelServer.IsVowel(text[j])
    requires |Positions(text, Lower(text[k]))| == n
    ensures LastVowelServer.Decide(Received(text)) ==
              LastVowelServer.Counted(text, Lower(text[k]), n, LastVowelServer.Prime(n))
  {
    StripOfTrimmed(text);
    LastVowelServer.LastVowelAt(text, k);
    LowerIdempotent(text[k]);
  }
}
