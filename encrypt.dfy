/*
 * The word pipeline of encrypt/Program.cs: the text is cut into words,
 * every word is transformed, and the transformed words are joined with
 * single spaces into the content of the output file.
 */
module Encrypt {
  import opened Text

  /** The number of encryption rounds every word is meant to receive. */
  const EncryptionIterations: int := 5000

  /** The stub transform's one output. */
  const Placeholder: string := "test"

  /**
   * The word list of a text: every newline is deleted, then the rest is
   * split on single spaces. Empty words from repeated, leading or trailing
   * spaces are kept; punctuation stays attached to its word.
   */
  function GetWordArray(text: string): (words: seq<string>)
    ensures |words| == Count(' ', text) + 1
    ensures forall i :: 0 <= i < |words| ==> ' ' !in words[i] && '\n' !in words[i]
  {
    Split(Remove(text, '\n'), ' ')
  }

  /** The words, joined back with single spaces, are the text without its newlines. */
  lemma WordArrayRoundTrip(text: string)
    ensures Join(GetWordArray(text), ' ') == Remove(text, '\n')
  {
    JoinSplit(Remove(text, '\n'), ' ');
  }

  /**
   * Conversely, a non-empty list of words without spaces or newlines is
   * the word list of its own join: the tokenizer loses nothing.
   */
  lemma WordArrayOfJoin(words: seq<string>)
    requires |words| > 0
    requires forall i :: 0 <= i < |words| ==> ' ' !in words[i] && '\n' !in words[i]
    ensures GetWordArray(Join(words, ' ')) == words
  {
    var text := Join(words, ' ');
    assert '\n' !in text by {
      JoinAvoids(words, ' ', '\n');
    }
    RemoveAbsent(text, '\n');
    SplitJoin(words, ' ');
  }

  /** Newlines do not affect the words of a text. */
  lemma WordArrayIgnoresNewlines(a: string, b: string)
    ensures GetWordArray(a + "\n" + b) == GetWordArray(a + b)
  {
    RemoveAppend(a + "\n", b, '\n');
    RemoveAppend(a, "\n", '\n');
    assert Remove("\n", '\n') == "";
    assert Remove(a + "\n", '\n') == Remove(a, '\n');
    RemoveAppend(a, b, '\n');
  }

  /**
   * A line break between two texts glues the last word of the first to the
   * first word of the second, because the newline is deleted rather than
   * replaced by a space; the other words are kept as they are.
   */
  lemma LineBreakGluesWords(a: string, b: string)
    ensures GetWordArray(a + "\n" + b) == Fuse(GetWordArray(a), GetWordArray(b))
  {
    WordArrayIgnoresNewlines(a, b);
    RemoveAppend(a, b, '\n');
    SplitConcat(Remove(a, '\n'), Remove(b, '\n'), ' ');
  }

  /** `k` spaces at the start of a text give `k` empty words before its other words. */
  lemma LeadingSpacesGiveEmptyWords(k: nat, b: string)
    ensures GetWordArray(seq(k, _ => ' ') + b) == seq(k, _ => "") + GetWordArray(b)
  {
    var spaces := seq(k, _ => ' ');
    RemoveAppend(spaces, b, '\n');
    RemoveAbsent(spaces, '\n');
    LeadingSeparators(k, Remove(b, '\n'), ' ');
  }

  /** Two spaces in a row give an empty word between the words around them. */
  lemma WordArrayKeepsEmptyWords(a: string, b: string)
    ensures GetWordArray(a + "  " + b) == GetWordArray(a) + [""] + GetWordArray(b)
  {
    RemoveAppend(a + "  ", b, '\n');
    RemoveAppend(a, "  ", '\n');
    assert Remove("  ", '\n') == "  ";
    AdjacentSeparatorsKeepEmptyToken(Remove(a, '\n'), Remove(b, '\n'), ' ');
  }

  /**
   * `EncryptWord(word, iterations)`: not implemented in the source, it
   * returns the placeholder whatever the word and the round count. Its
   * output holds no space or newline, so it stays one word in the output.
   */
  function EncryptWord(word: string, iterations: int): (cipher: string)
    ensures ' ' !in cipher && '\n' !in cipher
  {
    Placeholder
  }

  /** The stub ignores its arguments: all words and round counts give the same output. */
  lemma EncryptWordIgnoresArguments(w1: string, n1: int, w2: string, n2: int)
    ensures EncryptWord(w1, n1) == EncryptWord(w2, n2) == Placeholder
  {
  }

  /**
   * `xs.Select(f)`: `f` applied to every element, in order. The result has
   * one element per input element, at the same position.
   */
  function Select<T, U>(xs: seq<T>, f: T -> U): (ys: seq<U>)
    ensures |ys| == |xs|
    ensures forall i :: 0 <= i < |xs| ==> ys[i] == f(xs[i])
  {
    if |xs| == 0 then [] else [f(xs[0])] + Select(xs[1..], f)
  }

  /**
   * The encrypted word list: entry `i` is the encryption of word `i` with
   * 5000 rounds, so length and order are kept and equal words at two
   * positions give equal entries.
   */
  function EncryptWords(words: seq<string>): (encrypted: seq<string>)
    ensures |encrypted| == |words|
    ensures forall i :: 0 <= i < |words| ==> encrypted[i] == EncryptWord(words[i], EncryptionIterations)
  {
    Select(words, word => EncryptWord(word, EncryptionIterations))
  }

  /** `n` copies of `w`. */
  function Repeat(w: string, n: nat): (ws: seq<string>)
    ensures |ws| == n
    ensures forall i :: 0 <= i < n ==> ws[i] == w
  {
    if n == 0 then [] else [w] + Repeat(w, n - 1)
  }

  lemma {:induction false} RepeatTotalLength(w: string, n: nat)
    ensures TotalLength(Repeat(w, n)) == n * |w|
  {
    if n > 0 {
      assert Repeat(w, n)[1..] == Repeat(w, n - 1);
      RepeatTotalLength(w, n - 1);
    }
  }

  /** With the stub, the encrypted list is one placeholder per word. */
  lemma EncryptWordsAllPlaceholder(words: seq<string>)
    ensures EncryptWords(words) == Repeat(Placeholder, |words|)
  {
    var encrypted := EncryptWords(words);
    forall i | 0 <= i < |words|
      ensures encrypted[i] == Placeholder
    {
      EncryptWordIgnoresArguments(words[i], EncryptionIterations, "", 0);
    }
  }

  /**
   * The text written to encryptedWords.txt: the word list joined with
   * single spaces. A non-empty list of words without spaces can be read
   * back from it by splitting on spaces.
   */
  function FileContent(wordList: seq<string>): (content: string)
    ensures |wordList| > 0 && (forall i :: 0 <= i < |wordList| ==> ' ' !in wordList[i]) ==>
      Split(content, ' ') == wordList
  {
    if |wordList| > 0 && forall i :: 0 <= i < |wordList| ==> ' ' !in wordList[i] then
      SplitJoin(wordList, ' ');
      Join(wordList, ' ')
    else
      Join(wordList, ' ')
  }

  /**
   * The whole run on a given text: tokenize, encrypt, join. The content
   * splits back into exactly the encrypted word list.
   */
  function Run(text: string): (content: string)
    ensures Split(content, ' ') == EncryptWords(GetWordArray(text))
  {
    FileContent(EncryptWords(GetWordArray(text)))
  }

  /**
   * What the run writes: one placeholder per word of the text, that is one
   * more than the spaces of the text, separated by single spaces; so the
   * content has 5n - 1 characters for n words.
   */
  lemma RunContent(text: string)
    ensures var n := Count(' ', text) + 1;
      && Run(text) == Join(Repeat(Placeholder, n), ' ')
      && |Run(text)| == 5 * n - 1
  {
    var n := Count(' ', text) + 1;
    var encrypted := EncryptWords(GetWordArray(text));
    EncryptWordsAllPlaceholder(GetWordArray(text));
    RepeatTotalLength(Placeholder, n);
    assert |Placeholder| == 4;
    assert TotalLength(encrypted) == 4 * n;
  }
}
