/**
 * The word transliteration of translator.go: the first-vowel scan
 * (`findVowel`) and the rewrite rules (`translate`).
 */
module Transliterator {
  import opened Wrappers
  import opened Strings

  /** The vowels, in the order translator.go lists them; `y` counts as one. */
  const Vowels: string := "aeoiuy"

  predicate IsVowel(c: char)
    ensures IsVowel(c) <==> c == 'a' || c == 'e' || c == 'o' || c == 'i' || c == 'u' || c == 'y'
    ensures IsVowel(c) ==> !('A' <= c <= 'Z')
  {
    c in Vowels
  }

  predicate HasVowel(w: string) {
    exists i | 0 <= i < |w| :: IsVowel(w[i])
  }

  /** `p` is the index of the first vowel of `w`. */
  predicate IsFirstVowel(w: string, p: int) {
    0 <= p < |w| && IsVowel(w[p]) && forall j | 0 <= j < p :: !IsVowel(w[j])
  }

  /** The first vowel of a word, found by recursion; the specification of `FindVowel`. */
  function FirstVowel(w: string): (r: Option<nat>)
    ensures r.Some? ==> IsFirstVowel(w, r.value)
    ensures r.None? ==> !HasVowel(w)
  {
    if |w| == 0 then None
    else if IsVowel(w[0]) then Some(0)
    else
      match FirstVowel(w[1..])
      case None => None
      case Some(k) => Some(k + 1)
  }

  /** A word has at most one first vowel. */
  lemma FirstVowelUnique(w: string, p: int, q: int)
    requires IsFirstVowel(w, p) && IsFirstVowel(w, q)
    ensures p == q
  {
  }

  /**
   * `findVowel`: scans the word character by character and, for each one,
   * the list of vowels; returns the first position holding a vowel, or
   * (-1, false) when there is none.
   */
  method FindVowel(word: string) returns (pos: int, found: bool)
    ensures found ==> IsFirstVowel(word, pos)
    ensures !found ==> pos == -1 && !HasVowel(word)
  {
    var i := 0;
    while i < |word|
      invariant 0 <= i <= |word|
      invariant forall k | 0 <= k < i :: !IsVowel(word[k])
    {
      var j := 0;
      while j < |Vowels|
        invariant 0 <= j <= |Vowels|
        invariant forall m | 0 <= m < j :: word[i] != Vowels[m]
      {
        if word[i] == Vowels[j] {
          return i, true;
        }
        j := j + 1;
      }
      i := i + 1;
    }
    return -1, false;
  }

  /**
   * `translate`: the word is folded to lower case; a word without a vowel
   * comes back as it is; a word starting with a vowel gets "g" in front;
   * otherwise, in this order, an "xr" start gets "ge" in front, a "qu" at
   * positions 1-2 with the first vowel at 2 moves the first three letters to
   * the end, and any other word moves its consonants before the first vowel
   * to the end; both moves append "ogo".  The slices `w[..2]` and `w[1..3]`
   * are in bounds because the first vowel is past position 0 (resp. at 2).
   */
  function Translate(word: string): (r: string)
    ensures |word| <= |r| <= |word| + 3
  {
    var w := LowerStr(word);
    match FirstVowel(w)
    case None => w
    case Some(p) =>
      if p == 0 then "g" + w
      else if w[..2] == "xr" then "ge" + w
      else if p == 2 && w[1..3] == "qu" then w[3..] + w[..3] + "ogo"
      else w[p..] + w[..p] + "ogo"
  }

  /**
   * The rules of `translate`, stated through the first vowel of the
   * lower-case word, in their order of precedence.
   */
  lemma TranslateRules(word: string)
    ensures var w := LowerStr(word);
      !HasVowel(w) ==> Translate(word) == w
    ensures var w := LowerStr(word);
      IsFirstVowel(w, 0) ==> Translate(word) == "g" + w
    ensures var w := LowerStr(word);
      forall p | IsFirstVowel(w, p) && p > 0 ::
        if w[..2] == "xr" then Translate(word) == "ge" + w
        else if p == 2 && w[1..3] == "qu" then Translate(word) == w[3..] + w[..3] + "ogo"
        else Translate(word) == w[p..] + w[..p] + "ogo"
  {
    var w := LowerStr(word);
    forall p | IsFirstVowel(w, p) ensures FirstVowel(w) == Some(p) {
      FirstVowelUnique(w, p, FirstVowel(w).value);
    }
  }

  /** Lower-casing is idempotent, so a word and its lower-case form translate alike. */
  lemma TranslateIgnoresCase(word: string)
    ensures Translate(LowerStr(word)) == Translate(word)
  {
    assert LowerStr(LowerStr(word)) == LowerStr(word);
  }

  /**
   * Both rotation rules keep the letters of the lower-case word, in rotated
   * order, and add the suffix "ogo": the result is three characters longer.
   */
  lemma TranslateRotates(word: string, p: int)
    requires var w := LowerStr(word); IsFirstVowel(w, p) && p > 0 && w[..2] != "xr"
    ensures var w := LowerStr(word); var r := Translate(word);
      |r| == |word| + 3 && r[|w|..] == "ogo" && multiset(r[..|w|]) == multiset(w)
  {
    var w := LowerStr(word);
    var r := Translate(word);
    var k := if p == 2 && w[1..3] == "qu" then 3 else p;
    TranslateRules(word);
    assert r == w[k..] + w[..k] + "ogo";
    assert r[..|w|] == w[k..] + w[..k];
    assert w == w[..k] + w[k..];
  }

  /** A translation is made of the letters of the lower-case word and of "g", "e" and "o". */
  lemma TranslateCharacters(word: string)
    ensures var w := LowerStr(word);
      forall c | c in Translate(word) :: c in w || c in "geo"
  {
    var w := LowerStr(word);
    var r := Translate(word);
    match FirstVowel(w)
    case None =>
    case Some(p) =>
      if p > 0 && w[..2] != "xr" {
        TranslateRotates(word, p);
        assert r == r[..|w|] + "ogo";
        forall c | c in r ensures c in w || c in "geo" {
          if c in r[..|w|] {
            assert c in multiset(w);
          }
        }
      }
  }

  /** A translation has no upper-case ASCII letter. */
  lemma TranslateIsLowerCase(word: string)
    ensures forall c | c in Translate(word) :: !('A' <= c <= 'Z')
  {
    TranslateCharacters(word);
  }

  /** A word starting with a vowel, `y` included, gets "g" in front. */
  lemma TranslateVowelFirstExamples()
    ensures Translate("apple") == "gapple"
    ensures Translate("Yes") == "gyes"
  {
    assert LowerStr("apple") == "apple";
    assert LowerStr("Yes") == "yes";
  }

  /** The "xr" rule fires even though the first vowel is at position 2. */
  lemma TranslateXrExample()
    ensures Translate("xray") == "gexray"
  {
    assert LowerStr("xray") == "xray";
    FirstVowelUnique("xray", 2, FirstVowel("xray").value);
  }

  lemma TranslateQuExample()
    ensures Translate("square") == "aresquogo"
  {
    var w := LowerStr("square");
    assert w == "square";
    FirstVowelUnique(w, 2, FirstVowel(w).value);
    assert w[1..3] == "qu";
    assert w[3..] + w[..3] + "ogo" == "aresquogo";
  }

  /** The general rule: the consonants before the first vowel move to the end. */
  lemma TranslateChairExample()
    ensures Translate("chair") == "airchogo"
  {
    var w := LowerStr("chair");
    assert w == "chair";
    FirstVowelUnique(w, 2, FirstVowel(w).value);
    assert w[..2] == "ch" && w[1..3] == "ha";
    assert w[2..] + w[..2] + "ogo" == "airchogo";
  }

  /** `y` is a vowel, so "rhythm" rotates at position 2. */
  lemma TranslateRhythmExample()
    ensures Translate("rhythm") == "ythmrhogo"
  {
    var v := LowerStr("rhythm");
    assert v == "rhythm";
    FirstVowelUnique(v, 2, FirstVowel(v).value);
    assert v[..2] == "rh" && v[1..3] == "hy";
    assert v[2..] + v[..2] + "ogo" == "ythmrhogo";
  }

  /** Words without a vowel, the empty word included, pass through. */
  lemma TranslateNoVowelExamples()
    ensures Translate("tsk") == "tsk"
    ensures Translate("") == ""
  {
    assert LowerStr("tsk") == "tsk";
    assert !HasVowel("tsk");
  }
}
