/**
 Practice-text generation (`generateText`). The random choice
 `Math.floor(Math.random() * wordBank.length)` is supplied as `draws`, one
 word-bank index per word; the word bank itself is a parameter.
 */
module Generator {
  import opened Text

  /** A usable word bank: at least one word, every word non-empty and free of spaces. */
  predicate WordBank(bank: seq<string>) {
    |bank| > 0 && forall w :: w in bank ==> |w| > 0 && SpaceFree(w)
  }

  /** Every draw is an index into the bank, as `Math.floor(random * length)` is. */
  predicate ValidDraws(bank: seq<string>, draws: seq<nat>) {
    forall i :: 0 <= i < |draws| ==> draws[i] < |bank|
  }

  /** The array the generation loop fills: one bank word per draw. */
  function Picks(bank: seq<string>, draws: seq<nat>): (words: seq<string>)
    requires ValidDraws(bank, draws)
    ensures |words| == |draws|
  {
    seq(|draws|, i requires 0 <= i < |draws| => bank[draws[i]])
  }

  /** `generateText(draws.length)`: the picked words joined with single spaces. */
  function GenerateText(bank: seq<string>, draws: seq<nat>): string
    requires ValidDraws(bank, draws)
  {
    Join(Picks(bank, draws))
  }

  /** Splitting a generated text on spaces gives back exactly the drawn words,
      so it has one part per draw and every part is a word of the bank. */
  lemma GeneratedWords(bank: seq<string>, draws: seq<nat>)
    requires WordBank(bank) && ValidDraws(bank, draws)
    requires |draws| >= 1
    ensures |Split(GenerateText(bank, draws))| == |draws|
    ensures forall k :: 0 <= k < |draws| ==> Split(GenerateText(bank, draws))[k] == bank[draws[k]]
    ensures forall part :: part in Split(GenerateText(bank, draws)) ==> part in bank
  {
    var words := Picks(bank, draws);
    forall k | 0 <= k < |words|
      ensures SpaceFree(words[k])
    {
      assert words[k] == bank[draws[k]];
      assert words[k] in bank;
    }
    SplitJoin(words);
    assert Split(GenerateText(bank, draws)) == words;
  }

  /** A generated text of at least one word is not empty. */
  lemma GeneratedTextNonEmpty(bank: seq<string>, draws: seq<nat>)
    requires WordBank(bank) && ValidDraws(bank, draws)
    requires |draws| >= 1
    ensures |GenerateText(bank, draws)| >= |bank[draws[0]]| > 0
  {
    var words := Picks(bank, draws);
    assert words[0] == bank[draws[0]];
    assert words[0] in bank;
    if |words| > 1 {
      assert Join(words) == words[0] + " " + Join(words[1..]);
    }
  }
}
