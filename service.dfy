/**
 * What the HTTP handlers of translator.go do once the request body is
 * decoded: translate, then log the original and the translation to the
 * history; and a session of word requests followed by a history request.
 */
module Service {
  import opened Wrappers
  import opened Strings
  import opened Transliterator
  import opened Sentence
  import opened History

  /** The word handler: translate the word and append its record to the log. */
  method HandleWord(store: HistoryStore, englishWord: string) returns (gopherWord: string)
    modifies store
    ensures gopherWord == Translate(englishWord)
    ensures store.State() == AfterAppend(old(store.State()), FormatRecord(englishWord, gopherWord))
  {
    gopherWord := Translate(englishWord);
    store.Append(englishWord + Delimiter + gopherWord);
  }

  /**
   * The sentence handler: translate the sentence and append the record of
   * the trimmed sentence and its translation.  A sentence that is empty
   * after trimming is refused before anything is logged.
   */
  method HandleSentence(store: HistoryStore, englishSentence: string)
    returns (r: Result<string, SentenceError>)
    modifies store
    ensures r == TranslateSentence(englishSentence)
    ensures r.Failure? ==> store.State() == old(store.State())
    ensures r.Success? ==>
      store.State() == AfterAppend(old(store.State()), FormatRecord(TrimSpace(englishSentence), r.value))
  {
    r := TransformSentence(englishSentence);
    if r.Success? {
      store.Append(TrimSpace(englishSentence) + Delimiter + r.value);
    }
  }

  /** An occurrence of the delimiter in a slice is one in the whole string. */
  lemma OccursInSlice(s: string, i: nat, j: nat, m: int)
    requires i <= j <= |s| && OccursAt(s[i..j], Delimiter, m)
    ensures OccursAt(s, Delimiter, i + m)
  {
    var n := |Delimiter|;
    forall t | 0 <= t < n ensures s[i + m..i + m + n][t] == Delimiter[t] {
      assert s[i + m + t] == s[i..j][m + t] == s[i..j][m..m + n][t];
    }
  }

  /** A slice of a string without the delimiter has no delimiter either. */
  lemma NoDelimiterInSlice(s: string, i: nat, j: nat)
    requires i <= j <= |s| && !Contains(s, Delimiter)
    ensures !Contains(s[i..j], Delimiter)
  {
    forall m | OccursAt(s[i..j], Delimiter, m) ensures false {
      OccursInSlice(s, i, j, m);
    }
  }

  /**
   * Where an occurrence of the delimiter in `x + y` lies: inside `x`,
   * inside `y`, or across the seam with '#' on both sides of it.
   */
  lemma OccursInConcat(x: string, y: string, j: int)
    requires OccursAt(x + y, Delimiter, j)
    ensures j + |Delimiter| <= |x| ==> OccursAt(x, Delimiter, j)
    ensures j >= |x| ==> OccursAt(y, Delimiter, j - |x|)
    ensures j < |x| < j + |Delimiter| ==> x[|x| - 1] == '#' && |y| > 0 && y[0] == '#'
  {
    var xy := x + y;
    var n := |Delimiter|;
    if j + n <= |x| {
      assert xy[j..j + n] == x[j..j + n];
    } else if j >= |x| {
      assert xy[j..j + n] == y[j - |x|..j - |x| + n];
    } else {
      assert xy[|x| - 1] == xy[j..j + n][|x| - 1 - j];
      assert xy[|x|] == xy[j..j + n][|x| - j];
    }
  }

  /**
   * Two strings without the delimiter, joined where at least one of the two
   * touching characters is not '#', have no delimiter.
   */
  lemma NoDelimiterAcross(x: string, y: string)
    requires !Contains(x, Delimiter) && !Contains(y, Delimiter)
    requires x == [] || y == [] || x[|x| - 1] != '#' || y[0] != '#'
    ensures !Contains(x + y, Delimiter)
  {
    forall j | OccursAt(x + y, Delimiter, j) ensures false {
      OccursInConcat(x, y, j);
    }
  }

  /** Only '#' lower-cases to '#', so an occurrence after lower-casing is one before. */
  lemma LowerOccurrence(word: string, j: int)
    requires OccursAt(LowerStr(word), Delimiter, j)
    ensures OccursAt(word, Delimiter, j)
  {
    var w := LowerStr(word);
    var n := |Delimiter|;
    forall k | j <= k < j + n ensures word[k] == '#' {
      assert w[k] == w[j..j + n][k - j] == '#';
    }
    assert word[j..j + n] == Delimiter;
  }

  /** Lower-casing keeps a safe original safe. */
  lemma LowerKeepsSafe(word: string)
    requires SafeOriginal(word)
    ensures SafeOriginal(LowerStr(word))
  {
    forall j | OccursAt(LowerStr(word), Delimiter, j) ensures false {
      LowerOccurrence(word, j);
    }
  }

  /** Rotating a safe string and appending "ogo" gives no delimiter. */
  lemma RotationHasNoDelimiter(w: string, q: nat)
    requires SafeOriginal(w) && q <= |w|
    ensures !Contains(w[q..] + w[..q] + "ogo", Delimiter)
  {
    NoDelimiterInSlice(w, q, |w|);
    NoDelimiterInSlice(w, 0, q);
    assert w[q..|w|] == w[q..] && w[0..q] == w[..q];
    if q < |w| {
      assert w[q..][|w[q..]| - 1] == w[|w| - 1];
    }
    NoDelimiterAcross(w[q..], w[..q]);
    assert !Contains("ogo", Delimiter);
    NoDelimiterAcross(w[q..] + w[..q], "ogo");
  }

  /** The translation of a safe original has no delimiter. */
  lemma TranslateHasNoDelimiter(word: string)
    requires SafeOriginal(word)
    ensures !Contains(Translate(word), Delimiter)
  {
    var w := LowerStr(word);
    LowerKeepsSafe(word);
    TranslateRules(word);
    match FirstVowel(w)
    case None =>
    case Some(p) =>
      if p == 0 {
        assert !Contains("g", Delimiter);
        NoDelimiterAcross("g", w);
      } else if w[..2] == "xr" {
        assert !Contains("ge", Delimiter);
        NoDelimiterAcross("ge", w);
      } else {
        var q := if p == 2 && w[1..3] == "qu" then 3 else p;
        assert Translate(word) == w[q..] + w[..q] + "ogo";
        RotationHasNoDelimiter(w, q);
      }
  }

  /** A safe original without newline is logged and read back unchanged, with its translation. */
  lemma WordIsStorable(word: string)
    requires SafeOriginal(word) && '\n' !in word
    ensures Storable(Entry(word, Translate(word)))
  {
    TranslateCharacters(word);
    forall i | 0 <= i < |word| ensures LowerStr(word)[i] != '\n' {
      assert word[i] in word;
    }
    TranslateHasNoDelimiter(word);
  }

  /** The pairs (word, translation) of a sequence of words. */
  function Translations(words: seq<string>): seq<Entry> {
    seq(|words|, i requires 0 <= i < |words| => Entry(words[i], Translate(words[i])))
  }

  /**
   * A fresh log, one word request per word, then a history request: the
   * history holds exactly the words with their translations (sorted, so
   * compared as multisets), and no history at all when there were no words.
   */
  method WordSession(words: seq<string>) returns (r: ReadResult)
    requires forall k | 0 <= k < |words| :: SafeOriginal(words[k]) && '\n' !in words[k]
    ensures words == [] ==> r == NoHistory
    ensures words != [] ==> r.Records? && multiset(r.entries) == multiset(Translations(words))
  {
    var store := new HistoryStore(false, "");
    for i := 0 to |words|
      invariant store.State() == AppendAll(Absent, Formats(Translations(words[..i])))
    {
      var _ := HandleWord(store, words[i]);
      TranslationsSnoc(words, i);
    }
    assert words[..|words|] == words;
    r := store.ReadAll();
    if words != [] {
      var sorted :| SortedByKey(sorted) &&
        multiset(sorted) == multiset(Lines(store.State())) && r == ParseLines(sorted);
      ReadTranslations(words, sorted);
    }
  }

  lemma TranslationsSnoc(words: seq<string>, i: nat)
    requires i < |words|
    ensures Formats(Translations(words[..i + 1])) ==
      Formats(Translations(words[..i])) + [FormatRecord(words[i], Translate(words[i]))]
  {
  }

  /** Reading back the log of a session gives the words with their translations. */
  lemma ReadTranslations(words: seq<string>, sorted: seq<string>)
    requires forall k | 0 <= k < |words| :: SafeOriginal(words[k]) && '\n' !in words[k]
    requires multiset(sorted) == multiset(Lines(AppendAll(Absent, Formats(Translations(words)))))
    ensures ParseLines(sorted).Records?
    ensures multiset(ParseLines(sorted).entries) == multiset(Translations(words))
  {
    var pairs := Translations(words);
    forall k | 0 <= k < |pairs| ensures Storable(pairs[k]) {
      WordIsStorable(words[k]);
    }
    ReadAfterAppends(pairs, sorted);
  }

  /**
   * A word with a newline in it breaks the log: the word handler writes
   * `a\nb######ga\nb`, whose lines `a`, `b######ga` and `b` include lines
   * without a delimiter, so every arrangement of them reads as malformed.
   */
  lemma NewlineWordPoisonsLog(sorted: seq<string>)
    requires multiset(sorted) ==
      multiset(Lines(AfterAppend(Absent, FormatRecord("a\nb", Translate("a\nb")))))
    ensures ParseLines(sorted).Malformed?
  {
    NewlineWordFirstLine();
    assert "a" in multiset(sorted);
    var k :| 0 <= k < |sorted| && sorted[k] == "a";
    ParseLineFields("a");
    assert !Contains("a", Delimiter);
  }

  /** The first line of the log written for the word `a\nb` is `a`. */
  lemma NewlineWordFirstLine()
    ensures Lines(AfterAppend(Absent, FormatRecord("a\nb", Translate("a\nb"))))[0] == "a"
  {
    TranslateNewlineExample();
    var record := FormatRecord("a\nb", "ga\nb");
    assert record[0] == 'a' && record[1] == '\n';
    assert AfterAppend(Absent, record) == FileState(true, record);
    FirstLineBeforeNewline(record);
  }

  /** A text starting with `a` and a newline splits into `a` first. */
  lemma FirstLineBeforeNewline(text: string)
    requires |text| >= 2 && text[0] == 'a' && text[1] == '\n'
    ensures Split(text, "\n")[0] == "a"
  {
    OccursAtChar(text, '\n', 0);
    OccursAtChar(text, '\n', 1);
    assert Index(text, "\n") == Some(1);
    SplitStep(text, '\n', 1);
    assert text[..1] == "a";
  }

  /** The word `a\nb` starts with a vowel, so it translates to `ga\nb`. */
  lemma TranslateNewlineExample()
    ensures Translate("a\nb") == "ga\nb"
  {
    assert LowerStr("a\nb") == "a\nb";
  }
}
