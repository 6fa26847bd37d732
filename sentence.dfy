/**
 * The sentence pipeline of translator.go's sentence handler, lifted out of
 * the HTTP handler: trim, detach the last character as the end sign, split
 * the rest on single spaces, translate every word (title-casing only the
 * first), join with single spaces and re-append the end sign.
 */
module Sentence {
  import opened Wrappers
  import opened Strings
  import opened Transliterator

  /** The one way the pipeline fails: nothing is left after trimming. */
  datatype SentenceError = EmptySentence

  /**
   * The translated words: word 0 title-cased, every other word as
   * `Translate` gives it; so each one is its word's translation up to the
   * case of its letters.
   */
  function TranslateWords(words: seq<string>): (r: seq<string>)
    ensures |r| == |words|
    ensures forall i | 0 <= i < |words| :: LowerStr(r[i]) == Translate(words[i])
    ensures forall i, k | 1 <= i < |words| && 0 <= k < |r[i]| :: !('A' <= r[i][k] <= 'Z')
    ensures |words| > 0 && |r[0]| > 0 ==> r[0][0] == ToTitle(r[0][0])
    ensures |words| > 0 ==> r[0] == Title(LowerStr(r[0]))
  {
    TitledTranslations(words);
    seq(|words|, i requires 0 <= i < |words| =>
      if i == 0 then Title(Translate(words[i])) else Translate(words[i]))
  }

  /**
   * Translations have no upper-case letter, so lower-casing undoes
   * title-casing them.
   */
  lemma TitledTranslations(words: seq<string>)
    ensures forall i, k | 0 <= i < |words| && 0 <= k < |Translate(words[i])| ::
      !('A' <= Translate(words[i])[k] <= 'Z')
    ensures forall i | 0 <= i < |words| :: LowerStr(Title(Translate(words[i]))) == Translate(words[i])
  {
    forall i | 0 <= i < |words|
      ensures forall k | 0 <= k < |Translate(words[i])| :: !('A' <= Translate(words[i])[k] <= 'Z')
      ensures LowerStr(Title(Translate(words[i]))) == Translate(words[i])
    {
      TranslateIsLowerCase(words[i]);
      forall k | 0 <= k < |Translate(words[i])| ensures !('A' <= Translate(words[i])[k] <= 'Z') {
        assert Translate(words[i])[k] in Translate(words[i]);
      }
      LowerOfTitle(Translate(words[i]));
    }
  }

  /**
   * The pipeline as a function.  A sentence that is empty after trimming has
   * no last character to detach; that is the error case.
   */
  function TranslateSentence(sentence: string): (r: Result<string, SentenceError>)
    ensures r.Failure? <==> forall k | 0 <= k < |sentence| :: IsSpace(sentence[k])
  {
    TrimSpaceEmpty(sentence);
    var s := TrimSpace(sentence);
    if |s| == 0 then Failure(EmptySentence)
    else Success(Join(TranslateWords(Split(s[..|s| - 1], " ")), " ") + s[|s| - 1..])
  }

  /** The pipeline as the handler runs it. */
  method TransformSentence(sentence: string) returns (r: Result<string, SentenceError>)
    ensures r == TranslateSentence(sentence)
  {
    var s := TrimSpace(sentence);
    if |s| == 0 {
      return Failure(EmptySentence);
    }
    var endSign := s[|s| - 1..];
    var sentenceWords := Split(s[..|s| - 1], " ");
    var translatedWords := TranslateEach(sentenceWords);
    var translatedSentence := Join(translatedWords, " ");
    translatedSentence := translatedSentence + endSign;
    return Success(translatedSentence);
  }

  /** The handler's loop: translate the words one by one, title-casing the first. */
  method TranslateEach(sentenceWords: seq<string>) returns (translatedWords: seq<string>)
    ensures translatedWords == TranslateWords(sentenceWords)
  {
    translatedWords := [];
    for i := 0 to |sentenceWords|
      invariant translatedWords == TranslateWords(sentenceWords)[..i]
    {
      var word := sentenceWords[i];
      TranslateWordsPrefix(sentenceWords, i);
      if i == 0 {
        translatedWords := translatedWords + [Title(Translate(word))];
      } else {
        translatedWords := translatedWords + [Translate(word)];
      }
    }
    assert TranslateWords(sentenceWords)[..|sentenceWords|] == TranslateWords(sentenceWords);
  }

  /** One more word of `TranslateWords`, as the handler's loop adds it. */
  lemma TranslateWordsPrefix(words: seq<string>, i: nat)
    requires i < |words|
    ensures TranslateWords(words)[..i + 1] ==
      TranslateWords(words)[..i] + [if i == 0 then Title(Translate(words[i])) else Translate(words[i])]
  {
    var r := TranslateWords(words);
    assert r[..i + 1] == r[..i] + [r[i]];
  }

  /** Lower-casing and title-casing never produce or remove a space. */
  lemma CaseMapsKeepSpace(c: char)
    ensures Lower(c) == ' ' <==> c == ' '
    ensures ToTitle(c) == ' ' <==> c == ' '
  {
  }

  /** Title-casing a word without spaces gives a word without spaces. */
  lemma TitleKeepsNoSpace(t: string)
    requires ' ' !in t
    ensures ' ' !in Title(t)
  {
    forall j | 0 <= j < |t| ensures Title(t)[j] != ' ' {
      assert t[j] in t;
      CaseMapsKeepSpace(t[j]);
      assert Title(t)[j] == t[j] || Title(t)[j] == ToTitle(t[j]);
    }
  }

  /** Translating a word without spaces gives a word without spaces. */
  lemma TranslateKeepsNoSpace(w: string)
    requires ' ' !in w
    ensures ' ' !in Translate(w)
  {
    TranslateCharacters(w);
    forall j | 0 <= j < |w| ensures LowerStr(w)[j] != ' ' {
      assert w[j] in w;
      CaseMapsKeepSpace(w[j]);
    }
  }

  /** The translated words of space-free words are space-free. */
  lemma TranslateWordsHaveNoSpace(words: seq<string>)
    requires forall k | 0 <= k < |words| :: ' ' !in words[k]
    ensures forall k | 0 <= k < |words| :: ' ' !in TranslateWords(words)[k]
  {
    forall k | 0 <= k < |words| ensures ' ' !in TranslateWords(words)[k] {
      TranslateKeepsNoSpace(words[k]);
      if k == 0 {
        TitleKeepsNoSpace(Translate(words[k]));
      }
    }
  }

  /**
   * The shape of a translated sentence: it ends with the last character of
   * the trimmed sentence, and the rest splits on single spaces into exactly
   * the translated words, one per space-separated word of the body, so one
   * more than the body has spaces.
   */
  lemma SentenceShape(sentence: string)
    requires TranslateSentence(sentence).Success?
    ensures |TrimSpace(sentence)| > 0
    ensures var out := TranslateSentence(sentence).value; var s := TrimSpace(sentence);
      |out| > 0 && out[|out| - 1] == s[|s| - 1]
    ensures var out := TranslateSentence(sentence).value; var s := TrimSpace(sentence);
      Split(out[..|out| - 1], " ") == TranslateWords(Split(s[..|s| - 1], " "))
    ensures var out := TranslateSentence(sentence).value; var s := TrimSpace(sentence);
      |Split(out[..|out| - 1], " ")| == Count(s[..|s| - 1], ' ') + 1
  {
    var s := TrimSpace(sentence);
    assert |s| > 0;
    BodyShape(s[..|s| - 1], s[|s| - 1..]);
  }

  /** `SentenceShape` for the body and the end sign of a trimmed sentence. */
  lemma BodyShape(body: string, endSign: string)
    requires |endSign| == 1
    ensures var out := Join(TranslateWords(Split(body, " ")), " ") + endSign;
      |out| > 0 && out[|out| - 1] == endSign[0] &&
      Split(out[..|out| - 1], " ") == TranslateWords(Split(body, " ")) &&
      |Split(out[..|out| - 1], " ")| == Count(body, ' ') + 1
  {
    var words := Split(body, " ");
    var translated := TranslateWords(words);
    WordsHaveNoSpace(body);
    TranslateWordsHaveNoSpace(words);
    JoinThenSplit(translated, endSign);
    SplitCount(body, ' ');
  }

  /** The words split off at spaces have no space. */
  lemma WordsHaveNoSpace(body: string)
    ensures forall k | 0 <= k < |Split(body, " ")| :: ' ' !in Split(body, " ")[k]
  {
    var words := Split(body, " ");
    forall k | 0 <= k < |words| ensures ' ' !in words[k] {
      ContainsChar(words[k], ' ');
    }
  }

  /** Space-free words joined with spaces, plus an end sign, split back into the words. */
  lemma JoinThenSplit(words: seq<string>, endSign: string)
    requires |words| >= 1 && |endSign| == 1
    requires forall k | 0 <= k < |words| :: ' ' !in words[k]
    ensures var out := Join(words, " ") + endSign;
      out[|out| - 1] == endSign[0] && Split(out[..|out| - 1], " ") == words
  {
    var joined := Join(words, " ");
    var out := joined + endSign;
    assert out[..|out| - 1] == joined;
    SplitJoin(words, ' ');
  }

  lemma TranslateSentenceOf(sentence: string, body: string, endSign: string)
    requires TrimSpace(sentence) == body + endSign && |endSign| == 1
    ensures TranslateSentence(sentence) == Success(Join(TranslateWords(Split(body, " ")), " ") + endSign)
  {
    var s := TrimSpace(sentence);
    assert s[..|s| - 1] == body && s[|s| - 1..] == endSign;
    var words := Split(s[..|s| - 1], " ");
    assert words == Split(body, " ");
    calc {
      TranslateSentence(sentence);
      Success(Join(TranslateWords(words), " ") + s[|s| - 1..]);
      Success(Join(TranslateWords(Split(body, " ")), " ") + endSign);
    }
  }

  lemma TrimExample()
    ensures TrimSpace("I see.") == "I see."
  {
    var s := "I see.";
    assert !IsSpace(s[0]);
    assert TrimLeft(s) == s;
    assert !IsSpace(s[|s| - 1]);
    assert TrimRight(s) == s;
  }

  lemma SplitExample()
    ensures Split("I see", " ") == ["I", "see"]
  {
    var body := "I see";
    OccursAtChar(body, ' ', 0);
    OccursAtChar(body, ' ', 1);
    assert Index(body, " ") == Some(1);
    assert body[..1] == "I" && body[2..] == "see";
    ContainsChar(body[2..], ' ');
    assert Index(body[2..], " ") == None;
  }

  lemma WordsExample()
    ensures TranslateWords(["I", "see"]) == ["Gi", "eesogo"]
  {
    var i, see := "I", "see";
    assert Translate(i) == "gi" by {
      assert LowerStr(i) == "i";
    }
    assert Translate(see) == "eesogo" by {
      var w := LowerStr(see);
      assert w == "see";
      FirstVowelUnique(w, 1, FirstVowel(w).value);
      assert w[..2] == "se";
      assert w[1..] + w[..1] + "ogo" == "eesogo";
    }
    var gi := Translate(i);
    assert Title(gi) == "Gi";
  }

  lemma JoinExample()
    ensures Join(["Gi", "eesogo"], " ") + "." == "Gi eesogo."
  {
    assert Join(["Gi", "eesogo"], " ") == "Gi eesogo";
  }

  /** The sentence "I see." becomes "Gi eesogo.": "i" starts with a vowel, "see" rotates. */
  lemma SentenceExample()
    ensures TranslateSentence("I see.") == Success("Gi eesogo.")
  {
    var s := "I see.";
    TrimExample();
    var body, endSign := s[..|s| - 1], s[|s| - 1..];
    assert body == "I see" && endSign == ".";
    TranslateSentenceOf(s, body, endSign);
    SplitExample();
    WordsExample();
    JoinExample();
  }
}
