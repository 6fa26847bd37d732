# Gopher translator — a Dafny model

The repository is a small HTTP service that translates English into
"gopher": each word is lower-cased and rotated around its first vowel
(`apple` → `gapple`, `xray` → `gexray`, `square` → `aresquogo`,
`chair` → `airchogo`), a sentence is translated word by word with the first
word title-cased and the final punctuation kept, and every translation is
appended to a history log (`original######translation`, one per line) that
is read back sorted case-insensitively.

The model covers the core of `translator.go`:

- `wrappers.dfy` — `Option` and `Result`.
- `strings.dfy` (module `Strings`) — the parts of Go's `strings` package the
  core relies on, with their Go behaviour: `TrimSpace` over Unicode white
  space, `Split` (always at least one piece, `Split("", sep) == [""]`),
  `Join`, `Index`, ASCII `ToLower`, `Title` with Go's word-separator rule,
  and `<` on strings as code-point (= UTF-8 byte) lexicographic order.
- `transliterator.dfy` (module `Transliterator`) — `findVowel` as an
  imperative method with its two nested loops, proved against the
  specification function `FirstVowel`, and `translate` as the pure function
  `Translate` with lemmas for each rule.
- `sentence.dfy` (module `Sentence`) — the sentence pipeline of
  `sentenceHandler` (trim, cut the end sign, split on spaces, translate with
  the first word title-cased, join, re-append the sign) as the function
  `TranslateSentence` and the imperative `TransformSentence`/`TranslateEach`.
- `history.dfy` (module `History`) — the log file as a value
  (`FileState`: exists?, content), `writeHistory` as `AfterAppend` and the
  class `HistoryStore` whose `Append` updates the file in place, and
  `readHistory` as `HistoryStore.ReadAll`: split into lines, sort an array
  of lines in place by lower-cased key (`SortLines`), parse every line on
  the delimiter (`ParseAll`).
- `service.dfy` (module `Service`) — the translate-then-log sequences of
  `wordHandler` and `sentenceHandler`, and a session of word requests
  followed by a history read.

Behaviour of the code that a reader of its documentation may not expect,
followed by the model:

- `translate("")` returns `""` (no vowel, so the word comes back unchanged);
  it is not an error.
- `"I see."` becomes `"Gi eesogo."`: `I` has its vowel first and gets a `g`
  prefix, then `Title` capitalises it.
- An empty or all-blank sentence makes the handler index before the start
  of the string (a run-time panic); the model returns
  `Failure(EmptySentence)` and logs nothing.
- The history is returned as a list of single-key maps, one fresh map per
  line, so two lines with the same original do not collide.
- When the file does not exist the history is empty (`NoHistory`); a line
  with no delimiter makes the handler index past the end of the fields (a
  panic), modelled as `Malformed(line)`.
- A record reads back as the pair that was written only when the original
  contains no delimiter and does not end with `#`: `"a#"` and `"b"` are
  written as `a#######b` and read back as `("a", "#b")`.

## Model

| member | source | states |
|---|---|---|
| Strings.LowerStr | translator.go:194 | lower-casing keeps the length, leaves no upper-case ASCII letter, keeps every character that is not one, and maps each character to one with the same title case (so an upper-case letter becomes its own lower-case letter) |
| Strings.TrimSpace | translator.go:82 | the trimmed sentence is no longer than the sentence and is empty or starts and ends with a non-space |
| Strings.TrimLeft | translator.go:82 | the result is a suffix of the input, every removed character is white space, and it is empty or starts with a non-space |
| Strings.TrimRight | translator.go:82 | the result is a prefix of the input, every removed character is white space, and it is empty or ends with a non-space |
| Strings.TrimSpaceEmpty | translator.go:82 | the trimmed sentence is empty exactly when every character is white space |
| Strings.Index | translator.go:172 | `Some(k)` exactly when the separator occurs at `k` and nowhere before; `None` exactly when it occurs nowhere |
| Strings.Split | translator.go:87 | there is always at least one piece and no piece contains the separator |
| Strings.Join | translator.go:100 | the joined sentence starts with the first word and its length is the words' total length plus one separator between each neighbouring pair |
| Strings.JoinSplit | translator.go:87-100 | joining the pieces of a split with the same separator gives back the input |
| Strings.SplitJoin | translator.go:100 | splitting a join on a one-character separator gives back the parts when no part contains it |
| Strings.SplitCount | translator.go:87 | splitting on a character yields one more piece than there are occurrences of it |
| Strings.SplitAround | translator.go:140 | splitting `a + [c] + b` on `c` is the split of `a` followed by the split of `b` |
| Strings.LexLess | translator.go:167 | a proper prefix is less than the longer string, and no string is less than one of its prefixes |
| Strings.LexLessIrreflexive | translator.go:167 | no string is less than itself |
| Strings.LexLessAsymmetric | translator.go:167 | two strings are never each less than the other |
| Strings.LexLessTransitive | translator.go:167 | string order is transitive |
| Strings.LexLessTotal | translator.go:167 | of two different strings one is less than the other |
| Strings.LexLessFirstDifference | translator.go:167 | at the first position where two strings differ, the smaller character makes its string the smaller one |
| Strings.Title | translator.go:93 | title-casing keeps the length, title-cases the first character and every character that follows a separator, keeps every character that follows a non-separator, and changes nothing but the case of each character |
| Transliterator.IsVowel | translator.go:181 | the vowels are exactly `a`, `e`, `o`, `i`, `u` and `y`, so no upper-case letter is one |
| Transliterator.FirstVowel | translator.go:180-191 | `Some(p)` exactly when `p` is the position of the first vowel, `None` exactly when the word has no vowel |
| Transliterator.FirstVowelUnique | translator.go:180-191 | the first vowel position is unique, so it is what `FirstVowel` returns |
| Transliterator.FindVowel | translator.go:180-191 | when found, the index is the first vowel of the word; otherwise the index is -1 and the word has no vowel |
| Transliterator.Translate | translator.go:193-219 | a translation is at least as long as the word and at most three characters longer; its rules are stated by `TranslateRules` |
| Transliterator.TranslateRules | translator.go:193-219 | the rules of `translate` stated on the first vowel of the lower-cased word, in the source's precedence: no vowel gives the word unchanged; vowel first adds `g`; otherwise an `xr` start adds `ge`; a `qu` at positions 1-2 with the vowel at 2 moves the first three letters to the end before `ogo`; else the letters before the first vowel move to the end before `ogo` |
| Transliterator.TranslateIgnoresCase | translator.go:194 | a word and its lower-cased form translate alike |
| Transliterator.TranslateRotates | translator.go:210-215 | when the vowel is not first and the word does not start with `xr`, the result is three characters longer, ends in `ogo`, and its first part is a rearrangement of the lower-cased word |
| Transliterator.TranslateCharacters | translator.go:193-219 | every character of a translation comes from the lower-cased word or from `g`, `e`, `o` |
| Transliterator.TranslateIsLowerCase | translator.go:194 | a translation contains no upper-case ASCII letter |
| Transliterator.TranslateVowelFirstExamples | translator.go:202-204 | `apple` → `gapple`, `Yes` → `gyes` |
| Transliterator.TranslateXrExample | translator.go:207-209 | `xray` → `gexray` |
| Transliterator.TranslateQuExample | translator.go:210-212 | `square` → `aresquogo` |
| Transliterator.TranslateChairExample | translator.go:213-215 | `chair` → `airchogo` |
| Transliterator.TranslateRhythmExample | translator.go:213-215 | `y` counts as a vowel: `rhythm` → `ythmrhogo` |
| Transliterator.TranslateNoVowelExamples | translator.go:197-199 | a word without vowel, and the empty word, come back unchanged |
| Sentence.TranslateWords | translator.go:89-97 | there is one translated word per word, and each is that word's translation up to the case of its letters; the first word is the title-cased form of its own lower-cased text, that is `Title` of its translation, and no later word has an upper-case letter, so only the first word is title-cased |
| Sentence.TranslateSentence | translator.go:82-101 | the sentence is rejected exactly when it is empty or all white space |
| Sentence.TransformSentence | translator.go:82-101 | the imperative pipeline computes `TranslateSentence` |
| Sentence.TranslateEach | translator.go:89-97 | the loop produces, word by word, the title-cased translation of the first word and the translations of the others |
| Sentence.TitleKeepsNoSpace | translator.go:93 | title-casing introduces no space |
| Sentence.TranslateKeepsNoSpace | translator.go:95 | translating a word without spaces gives a word without spaces |
| Sentence.TranslateWordsHaveNoSpace | translator.go:89-97 | no translated word contains a space |
| Sentence.WordsHaveNoSpace | translator.go:87 | the words split from the sentence contain no space |
| Sentence.JoinThenSplit | translator.go:100 | splitting the joined translation on spaces gives back the translated words |
| Sentence.SentenceShape | translator.go:82-101 | a translated sentence ends with the last character of the trimmed sentence; the rest splits on spaces into `TranslateWords` of the trimmed sentence's words (the first translation title-cased, the others as translated), one more word than the trimmed sentence without its end sign has spaces |
| Sentence.SentenceExample | translator.go:82-101 | `"I see."` → `"Gi eesogo."` |
| History.DelimiterHashes | translator.go:16 | the delimiter is six `#` characters |
| History.HashFreeHasNoDelimiter | translator.go:16 | a string without `#` contains no delimiter |
| History.FormatRecord | translator.go:53 | a record is the original, the delimiter right after it, then the translation, and nothing more |
| History.AfterAppend | translator.go:133-149 | after a write the file exists, keeps its old content followed by a newline when it existed, ends with the record, and is exactly one newline (when the file existed) plus the record longer than before |
| History.Lines | translator.go:158-165 | an absent file has no lines; an existing file has at least one line, no line contains a newline, and the lines joined with newlines give back the content |
| History.AppendAddsLine | translator.go:129-150 | writing a record without newline adds exactly that record as the last line (or creates the file with it as the only line) |
| History.AppendAllLines | translator.go:129-150 | after writing records one by one to a fresh log its lines are exactly those records in order |
| History.ParseLine | translator.go:172-174 | neither field of a parsed line contains the delimiter |
| History.ParseLineFields | translator.go:172-174 | a line parses exactly when it contains the delimiter; the original is the text before the first delimiter, and the translation is the rest of the line up to the next (leftmost) delimiter, or all of it when there is none |
| History.RecordRoundTrip | translator.go:172-174 | a record whose original neither contains the delimiter nor ends with `#`, and whose translation has no delimiter, parses back to its two fields |
| History.RecordRoundTripNeedsSafeOriginal | translator.go:172-174 | an original ending with `#` does not round-trip: `("a#", "b")` reads back as `("a", "#b")` |
| History.ParseLines | translator.go:169-175 | reading an existing file never reports the absent-file result; a successful read has one entry per line, each the parse of its line; a failed read names a line of the file that has no delimiter |
| History.ParseLinesWellFormed | translator.go:171-175 | when every line parses, the result is the list of parsed pairs in line order |
| History.ParseLinesFirstMalformed | translator.go:171-175 | the first line without delimiter is the one reported |
| History.KeyLess | translator.go:167 | lines equal up to case are not less than one another, and a line whose lower-cased form is a proper prefix of the other's is less |
| History.KeyLessAsymmetric | translator.go:167 | two lines are never each less than the other |
| History.KeyLe | translator.go:167 | a line less than another is no greater than it, and lines equal up to case are no greater than one another |
| History.KeyLeTotal | translator.go:167 | of two lines one is no greater than the other |
| History.SortedByKey | translator.go:167 | lines in order pair by pair are in order neighbour by neighbour (`SortedByKeyPairwise` is the converse) |
| History.KeyLeTransitive | translator.go:167 | the case-insensitive order of lines is transitive |
| History.SortedByKeyPairwise | translator.go:167 | in a sorted sequence every earlier line is no greater than every later line |
| History.SwapDown | translator.go:167 | exchanges two neighbouring lines and nothing else |
| History.InsertLine | translator.go:167 | inserts one line into the sorted prefix, leaving the rest of the array and the multiset of lines unchanged |
| History.SortLines | translator.go:167 | the lines end sorted by lower-cased key and are a permutation of the lines before |
| History.ParseAll | translator.go:171-175 | the parse loop computes `ParseLines` of the array's contents |
| History.ParsePermutation | translator.go:165-175 | any reordering of stored records parses into the same multiset of pairs |
| History.ReadAfterAppends | translator.go:129-177 | after appending storable pairs to a fresh log, any sorted arrangement of its lines reads back as exactly those pairs |
| History.HistoryOrderExample | translator.go:167 | lines `Bob`, `alice`, `Zed` are read in the order `alice`, `Bob`, `Zed` |
| History.HistoryStore.constructor | translator.go:131 | the store starts with the given file state |
| History.HistoryStore.Append | translator.go:129-150 | the file state after a write is `AfterAppend` of the state before: created with the record, or extended by a newline and the record |
| History.HistoryStore.ReadAll | translator.go:152-178 | no file gives `NoHistory`; otherwise the result is the parse of some sorted permutation of the file's lines |
| Service.HandleWord | translator.go:51-53 | returns the translation of the word and logs `word######translation` |
| Service.HandleSentence | translator.go:82-104 | returns `TranslateSentence`; on failure the log is unchanged, on success the trimmed sentence and its translation are logged |
| Service.TranslateHasNoDelimiter | translator.go:193-219 | the translation of a word that has no delimiter and does not end with `#` contains no delimiter |
| Service.WordIsStorable | translator.go:51-53 | a word without newline that has no delimiter and does not end with `#`, together with its translation, forms a pair the log gives back unchanged |
| Service.ReadTranslations | translator.go:152-178 | any sorted arrangement of the logged translations of such words reads back as exactly those pairs |
| Service.NewlineWordPoisonsLog | translator.go:165-175 | after the word `a\nb` is logged to a fresh file, every sorted arrangement of its lines reads as malformed, which is where reading panics |
| Service.WordSession | translator.go:51-53 | translating words one by one into a fresh log and reading it returns no history for no words, otherwise exactly the translated pairs |

## Left out

- HTTP routing, request bodies, JSON decoding and encoding, the `-port` flag and `main`: I/O outside the core; the model starts from the decoded word or sentence.
- The method check (`POST method expected`) and every `log.Fatalln` on I/O or JSON errors: the program stops there; the model has no such failures.
- The file system is a value (exists?, content); `os.Stat`, `IsDir`, opening, writing and reading errors are not modelled, and `HistoryFilename` names the single file.
- Out-of-range panics (empty sentence, line without delimiter) are modelled as the error results `EmptySentence` and `Malformed`.
- Strings.LowerStr: lower-cases ASCII letters only; Go's Unicode case mapping of other letters is not modelled.
- Strings.Title: title-cases ASCII letters only; non-ASCII letters are left unchanged, while Go would title-case them.
- Transliterator.FindVowel: returns a code-point index, while Go's `range` over a string yields byte offsets; the two agree on ASCII words, and the slicing in `translate` and of the end sign is on code points for the same reason.
- History.SortLines: insertion sort instead of Go's `sort.Slice`; the contract states sorted and permutation, so the order of lines with equal lower-cased keys is not fixed, as `sort.Slice` is not stable.
- The history's JSON shape (an object holding a list of single-key maps) is modelled as a list of `Entry` pairs.
- Concurrent requests appending to the same file are not modelled.
