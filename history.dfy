/**
 * The history log of translator.go (`writeHistory` and `readHistory`): a
 * text file of newline-separated records `original######translated`,
 * appended one record at a time and read back sorted case-insensitively by
 * the whole line.  The file is modelled as an abstract state: whether it
 * exists, and its content.
 */
module History {
  import opened Wrappers
  import opened Strings

  /** The name of the log file (not used by the model: there is one file). */
  const HistoryFilename: string := "history.txt"

  /** The six-character separator between the two fields of a record. */
  const Delimiter: string := "######"

  /** The delimiter is six '#' characters. */
  lemma DelimiterHashes()
    ensures |Delimiter| == 6 && forall k | 0 <= k < |Delimiter| :: Delimiter[k] == '#'
  {
  }

  /** A string without '#' contains no delimiter. */
  lemma HashFreeHasNoDelimiter(s: string)
    requires '#' !in s
    ensures !Contains(s, Delimiter)
  {
    forall j | 0 <= j <= |s| ensures !OccursAt(s, Delimiter, j) {
      if j + |Delimiter| <= |s| {
        assert s[j..j + |Delimiter|][0] == s[j];
        assert s[j] in s;
      }
    }
  }

  /** One parsed record: the text before and the text after the delimiter. */
  datatype Entry = Entry(original: string, translated: string)

  /** The log file as the program sees it. */
  datatype FileState = FileState(fileExists: bool, content: string)

  /**
   * What reading the log gives: no history at all when the file is absent
   * (the response has no "history" key), the parsed records, or the first
   * line (in sorted order) that has no delimiter, where the program would
   * index past the end of the split fields and crash.
   */
  datatype ReadResult = NoHistory | Records(entries: seq<Entry>) | Malformed(line: string)

  const Absent: FileState := FileState(false, "")

  /** The record the handlers append: original text, delimiter, translation. */
  function FormatRecord(original: string, translated: string): (r: string)
    ensures |r| == |original| + |Delimiter| + |translated|
    ensures r[..|original|] == original && OccursAt(r, Delimiter, |original|)
    ensures r[|original| + |Delimiter|..] == translated
  {
    original + Delimiter + translated
  }

  /**
   * The file after appending one record: an absent file is created holding
   * just the record; an existing one gets a newline and the record.
   */
  function AfterAppend(f: FileState, record: string): (r: FileState)
    ensures r.fileExists
    ensures f.fileExists ==> f.content + "\n" <= r.content
    ensures |record| <= |r.content| && r.content[|r.content| - |record|..] == record
    ensures |r.content| == (if f.fileExists then |f.content| + 1 else 0) + |record|
  {
    if f.fileExists then FileState(true, f.content + "\n" + record)
    else FileState(true, record)
  }

  /** The file after appending several records in order. */
  function AppendAll(f: FileState, records: seq<string>): FileState
    decreases |records|
  {
    if records == [] then f
    else AfterAppend(AppendAll(f, records[..|records| - 1]), records[|records| - 1])
  }

  /** The raw lines of the file, as reading splits them; none when it is absent. */
  function Lines(f: FileState): (r: seq<string>)
    ensures !f.fileExists ==> r == []
    ensures f.fileExists ==> |r| >= 1 && Join(r, "\n") == f.content
    ensures forall k | 0 <= k < |r| :: !Contains(r[k], "\n")
  {
    if f.fileExists then JoinSplit(f.content, "\n"); Split(f.content, "\n") else []
  }

  /** Appending a newline-free record adds exactly that record as the last line. */
  lemma AppendAddsLine(f: FileState, record: string)
    requires '\n' !in record
    ensures Lines(AfterAppend(f, record)) == Lines(f) + [record]
  {
    ContainsChar(record, '\n');
    assert Index(record, "\n") == None;
    if f.fileExists {
      SplitAround(f.content, '\n', record);
      assert f.content + "\n" + record == f.content + ['\n'] + record;
    }
  }

  /**
   * Appending newline-free records r1..rn to an absent file and splitting
   * its content on newlines gives back exactly r1..rn.
   */
  lemma {:induction false} AppendAllLines(records: seq<string>)
    requires forall k | 0 <= k < |records| :: '\n' !in records[k]
    ensures Lines(AppendAll(Absent, records)) == records
    decreases |records|
  {
    if records != [] {
      var n := |records| - 1;
      var before := AppendAll(Absent, records[..n]);
      assert AppendAll(Absent, records) == AfterAppend(before, records[n]);
      AppendAllLines(records[..n]);
      AppendAddsLine(before, records[n]);
      assert records[..n] + [records[n]] == records;
    }
  }

  /**
   * Parsing one line: split it on the delimiter and take the first two
   * fields.  A line without the delimiter has a single field.
   */
  function ParseLine(line: string): (r: Option<Entry>)
    ensures r.Some? ==> !Contains(r.value.original, Delimiter) && !Contains(r.value.translated, Delimiter)
  {
    var fields := Split(line, Delimiter);
    if |fields| < 2 then None else Some(Entry(fields[0], fields[1]))
  }

  /**
   * A line parses exactly when it contains the delimiter; the original is
   * the text before the first delimiter and the translation is the text
   * after it, up to the next (leftmost) delimiter or the end of the line.
   */
  lemma ParseLineFields(line: string)
    ensures ParseLine(line).Some? <==> Contains(line, Delimiter)
    ensures ParseLine(line).Some? ==>
      var e := ParseLine(line).value;
      var rest := line[|e.original| + |Delimiter|..];
      Index(line, Delimiter) == Some(|e.original|) && line[..|e.original|] == e.original &&
      (Index(rest, Delimiter).None? ==> e.translated == rest) &&
      (Index(rest, Delimiter).Some? ==> e.translated == rest[..Index(rest, Delimiter).value])
  {
    match Index(line, Delimiter)
    case None =>
      assert Split(line, Delimiter) == [line];
    case Some(k) =>
      var rest := line[k + |Delimiter|..];
      var fields := Split(line, Delimiter);
      assert fields == [line[..k]] + Split(rest, Delimiter);
      assert OccursAt(line, Delimiter, k);
      match Index(rest, Delimiter)
      case None =>
        assert fields[1] == rest;
      case Some(m) =>
        assert fields[1] == rest[..m];
  }

  /** The original of a record ends in a way that the delimiter cannot start earlier. */
  predicate SafeOriginal(original: string) {
    !Contains(original, Delimiter) && (original == [] || original[|original| - 1] != '#')
  }

  /**
   * A record parses back to its two fields when neither contains the
   * delimiter and the original does not end with '#' (otherwise the first
   * delimiter found starts inside the original).
   */
  lemma RecordRoundTrip(original: string, translated: string)
    requires SafeOriginal(original) && !Contains(translated, Delimiter)
    ensures ParseLine(FormatRecord(original, translated)) == Some(Entry(original, translated))
  {
    var line := FormatRecord(original, translated);
    var n := |original|;
    assert line[n..n + |Delimiter|] == Delimiter;
    assert OccursAt(line, Delimiter, n);
    forall j | 0 <= j < n ensures !OccursAt(line, Delimiter, j) {
      if j + |Delimiter| <= n {
        assert line[j..j + |Delimiter|] == original[j..j + |Delimiter|];
        assert !OccursAt(original, Delimiter, j);
      } else {
        assert line[n - 1] == original[n - 1];
        assert line[j..j + |Delimiter|][n - 1 - j] == line[n - 1];
        assert Delimiter[n - 1 - j] == '#';
      }
    }
    assert Index(line, Delimiter) == Some(n);
    assert line[..n] == original;
    assert line[n + |Delimiter|..] == translated;
    assert Index(translated, Delimiter) == None;
    assert Split(translated, Delimiter) == [translated];
    assert Split(line, Delimiter) == [original, translated];
  }

  /** An original ending with '#' is cut short: "a#" and "b" read back as "a" and "#b". */
  lemma RecordRoundTripNeedsSafeOriginal()
    ensures ParseLine(FormatRecord("a#", "b")) == Some(Entry("a", "#b"))
  {
    var line := "a#######b";
    assert FormatRecord("a#", "b") == line;
    assert line[1..7] == Delimiter;
    assert line[0] != Delimiter[0];
    assert Index(line, Delimiter) == Some(1);
    assert line[..1] == "a" && line[7..] == "#b";
    assert !OccursAt("#b", Delimiter, 0);
    assert Index("#b", Delimiter) == None;
  }

  /**
   * Parsing the sorted lines in order: every line becomes an entry, and the
   * first line without a delimiter stops the reading.
   */
  function ParseLines(lines: seq<string>): (r: ReadResult)
    ensures r != NoHistory
    ensures r.Records? ==> |r.entries| == |lines|
    ensures r.Records? ==> forall k | 0 <= k < |lines| :: ParseLine(lines[k]) == Some(r.entries[k])
    ensures r.Malformed? ==> r.line in lines && ParseLine(r.line).None?
  {
    if lines == [] then Records([])
    else match ParseLine(lines[0])
      case None => Malformed(lines[0])
      case Some(e) =>
        var rest := ParseLines(lines[1..]);
        if rest.Records? then Records([e] + rest.entries) else rest
  }

  /** When every line parses, the result is the entries in line order. */
  lemma {:induction false} ParseLinesWellFormed(lines: seq<string>, entries: seq<Entry>)
    requires |entries| == |lines|
    requires forall k | 0 <= k < |lines| :: ParseLine(lines[k]) == Some(entries[k])
    ensures ParseLines(lines) == Records(entries)
    decreases |lines|
  {
    if lines != [] {
      ParseLinesWellFormed(lines[1..], entries[1..]);
      assert [entries[0]] + entries[1..] == entries;
    }
  }

  /** When line `i` is the first without a delimiter, reading fails on that line. */
  lemma {:induction false} ParseLinesFirstMalformed(lines: seq<string>, i: nat)
    requires i < |lines| && ParseLine(lines[i]).None?
    requires forall k | 0 <= k < i :: ParseLine(lines[k]).Some?
    ensures ParseLines(lines) == Malformed(lines[i])
    decreases i
  {
    if i > 0 {
      ParseLinesFirstMalformed(lines[1..], i - 1);
    }
  }

  /** The order of the history: `x` may come before `y` when lower(y) < lower(x) does not hold. */
  predicate KeyLe(x: string, y: string)
    ensures KeyLess(x, y) ==> KeyLe(x, y)
    ensures LowerStr(x) == LowerStr(y) ==> KeyLe(x, y)
  {
    LexLessAsymmetric(LowerStr(x), LowerStr(y));
    !KeyLess(y, x)
  }

  /** The comparison the program passes to `sort.Slice`. */
  predicate KeyLess(x: string, y: string)
    ensures LowerStr(x) == LowerStr(y) ==> !KeyLess(x, y)
    ensures LowerStr(x) < LowerStr(y) ==> KeyLess(x, y)
  {
    LexLessIrreflexive(LowerStr(x));
    LexLess(LowerStr(x), LowerStr(y))
  }

  /** Of two lines, one is no greater than the other. */
  lemma KeyLeTotal(x: string, y: string)
    ensures KeyLe(x, y) || KeyLe(y, x)
  {
    LexLessTotal(LowerStr(x), LowerStr(y));
    if LowerStr(x) != LowerStr(y) && KeyLess(x, y) {
      LexLessAsymmetric(LowerStr(x), LowerStr(y));
    }
  }

  /** Two lines are never each less than the other. */
  lemma KeyLessAsymmetric(x: string, y: string)
    ensures KeyLess(x, y) ==> !KeyLess(y, x)
  {
    LexLessAsymmetric(LowerStr(x), LowerStr(y));
  }

  /** Neighbouring lines are in order. */
  predicate SortedByKey(s: seq<string>)
    ensures (forall i, j | 0 <= i < j < |s| :: KeyLe(s[i], s[j])) ==> SortedByKey(s)
  {
    forall k | 0 < k < |s| :: KeyLe(s[k - 1], s[k])
  }

  lemma KeyLeTransitive(x: string, y: string, z: string)
    requires KeyLe(x, y) && KeyLe(y, z)
    ensures KeyLe(x, z)
  {
    var a, b, c := LowerStr(x), LowerStr(y), LowerStr(z);
    if LexLess(c, a) {
      LexLessTotal(b, a);
      if b == a {
      } else if LexLess(b, a) {
      } else {
        LexLessTransitive(c, a, b);
      }
    }
  }

  /** Lines sorted neighbour by neighbour are sorted pairwise. */
  lemma {:induction false} SortedByKeyPairwise(s: seq<string>, i: int, j: int)
    requires SortedByKey(s) && 0 <= i <= j < |s|
    ensures KeyLe(s[i], s[j])
    decreases j - i
  {
    if i == j {
      LexLessIrreflexive(LowerStr(s[i]));
    } else {
      SortedByKeyPairwise(s, i, j - 1);
      KeyLeTransitive(s[i], s[j - 1], s[j]);
    }
  }

  /** Exchanging an out-of-order pair at `j - 1`, `j` keeps the insertion's invariants. */
  lemma SwapKeepsOrder(s: seq<string>, j: nat, i: nat)
    requires 0 < j <= i < |s|
    requires forall k | 0 < k < j :: KeyLe(s[k - 1], s[k])
    requires forall k | j < k <= i :: KeyLe(s[k - 1], s[k])
    requires j < i ==> KeyLe(s[j - 1], s[j + 1])
    requires KeyLess(s[j], s[j - 1])
    ensures var t := s[j - 1 := s[j]][j := s[j - 1]];
      (forall k | 0 < k < j - 1 :: KeyLe(t[k - 1], t[k])) &&
      (forall k | j - 1 < k <= i :: KeyLe(t[k - 1], t[k])) &&
      (1 < j <= i ==> KeyLe(t[j - 2], t[j]))
  {
    assert KeyLe(s[j], s[j - 1]);
  }

  /**
   * One step of the insertion: the line at `i` moves down past every line
   * before it with a larger key, so that the first `i + 1` lines are in
   * order; nothing else moves and no line is lost.
   */
  method InsertLine(a: array<string>, i: nat)
    requires i < a.Length
    requires forall k | 0 < k < i :: KeyLe(a[k - 1], a[k])
    modifies a
    ensures forall k | 0 < k <= i :: KeyLe(a[k - 1], a[k])
    ensures a[i + 1..] == old(a[i + 1..])
    ensures multiset(a[..]) == multiset(old(a[..]))
  {
    var j := i;
    while j > 0 && KeyLess(a[j], a[j - 1])
      invariant 0 <= j <= i
      invariant forall k | 0 < k < j :: KeyLe(a[k - 1], a[k])
      invariant forall k | j < k <= i :: KeyLe(a[k - 1], a[k])
      invariant 0 < j < i ==> KeyLe(a[j - 1], a[j + 1])
      invariant a[i + 1..] == old(a[i + 1..])
      invariant multiset(a[..]) == multiset(old(a[..]))
    {
      SwapKeepsOrder(a[..], j, i);
      SwapDown(a, j);
      j := j - 1;
    }
  }

  /** Exchanges the lines at `j - 1` and `j`. */
  method SwapDown(a: array<string>, j: nat)
    requires 0 < j < a.Length
    modifies a
    ensures a[..] == old(a[..])[j - 1 := old(a[j])][j := old(a[j - 1])]
    ensures multiset(a[..]) == multiset(old(a[..]))
  {
    a[j - 1], a[j] := a[j], a[j - 1];
  }

  /**
   * The in-place sort of the lines: afterwards they are in order by their
   * lower-case text and are a permutation of what they were.  (An insertion
   * sort; `sort.Slice` promises no order among equal keys, and neither does
   * this contract.)
   */
  method SortLines(a: array<string>)
    modifies a
    ensures SortedByKey(a[..])
    ensures multiset(a[..]) == multiset(old(a[..]))
  {
    var i := 0;
    while i < a.Length
      invariant 0 <= i <= a.Length
      invariant forall k | 0 < k < i :: KeyLe(a[k - 1], a[k])
      invariant multiset(a[..]) == multiset(old(a[..]))
    {
      InsertLine(a, i);
      i := i + 1;
    }
  }

  /**
   * A pair the log stores and gives back unchanged: no newline in either
   * field, no delimiter in either field, and no '#' at the end of the
   * original.
   */
  predicate Storable(e: Entry) {
    '\n' !in e.original && '\n' !in e.translated &&
    SafeOriginal(e.original) && !Contains(e.translated, Delimiter)
  }

  /** The records of a sequence of pairs, in order. */
  function Formats(pairs: seq<Entry>): seq<string> {
    seq(|pairs|, k requires 0 <= k < |pairs| => FormatRecord(pairs[k].original, pairs[k].translated))
  }

  /**
   * Parsing lines that are the records of storable pairs, in any order,
   * succeeds and gives back the pairs, in that order.
   */
  lemma {:induction false} ParsePermutation(lines: seq<string>, pairs: seq<Entry>)
    requires forall k | 0 <= k < |pairs| :: Storable(pairs[k])
    requires multiset(lines) == multiset(Formats(pairs))
    ensures ParseLines(lines).Records?
    ensures multiset(ParseLines(lines).entries) == multiset(pairs)
    decreases |lines|
  {
    if lines == [] {
      assert |Formats(pairs)| == |multiset(Formats(pairs))| == 0;
    } else {
      var j := PickRecord(lines, pairs);
      var rest := pairs[..j] + pairs[j + 1..];
      assert forall k | 0 <= k < |rest| :: Storable(rest[k]) by {
        forall k | 0 <= k < |rest| ensures Storable(rest[k]) {
          assert rest[k] == pairs[if k < j then k else k + 1];
        }
      }
      ParsePermutation(lines[1..], rest);
      ParseLinesCons(lines, pairs[j]);
      MultisetInsert(pairs, j);
    }
  }

  /** The first line is the record of one of the pairs, and the other lines are those of the rest. */
  lemma PickRecord(lines: seq<string>, pairs: seq<Entry>) returns (j: nat)
    requires |lines| > 0
    requires forall k | 0 <= k < |pairs| :: Storable(pairs[k])
    requires multiset(lines) == multiset(Formats(pairs))
    ensures j < |pairs| && ParseLine(lines[0]) == Some(pairs[j])
    ensures multiset(lines[1..]) == multiset(Formats(pairs[..j] + pairs[j + 1..]))
  {
    var all := Formats(pairs);
    assert lines[0] in multiset(lines);
    j :| 0 <= j < |all| && all[j] == lines[0];
    RecordRoundTrip(pairs[j].original, pairs[j].translated);
    FormatsRemove(pairs, j);
    MultisetRemove(lines, all, j);
  }

  lemma ParseLinesCons(lines: seq<string>, e: Entry)
    requires |lines| > 0 && ParseLine(lines[0]) == Some(e) && ParseLines(lines[1..]).Records?
    ensures ParseLines(lines) == Records([e] + ParseLines(lines[1..]).entries)
  {
  }

  lemma MultisetInsert(pairs: seq<Entry>, j: nat)
    requires j < |pairs|
    ensures multiset(pairs) == multiset{pairs[j]} + multiset(pairs[..j] + pairs[j + 1..])
  {
    assert pairs == pairs[..j] + [pairs[j]] + pairs[j + 1..];
  }

  lemma FormatsRemove(pairs: seq<Entry>, j: nat)
    requires j < |pairs|
    ensures Formats(pairs[..j] + pairs[j + 1..]) == Formats(pairs)[..j] + Formats(pairs)[j + 1..]
  {
  }

  lemma MultisetRemove(lines: seq<string>, all: seq<string>, j: nat)
    requires |lines| > 0 && j < |all| && all[j] == lines[0]
    requires multiset(lines) == multiset(all)
    ensures multiset(lines[1..]) == multiset(all[..j] + all[j + 1..])
  {
    assert lines == [lines[0]] + lines[1..];
    assert multiset(lines) == multiset{lines[0]} + multiset(lines[1..]);
    assert all == all[..j] + [all[j]] + all[j + 1..];
    assert multiset(all) == multiset(all[..j]) + multiset{all[j]} + multiset(all[j + 1..]);
    var m, n, x := multiset(lines[1..]), multiset(all[..j] + all[j + 1..]), multiset{lines[0]};
    var a, c := multiset(all[..j]), multiset(all[j + 1..]);
    assert n == a + c;
    forall z ensures m[z] == n[z] {
      assert multiset(lines)[z] == m[z] + x[z];
      assert multiset(all)[z] == a[z] + x[z] + c[z];
    }
    assert m == n;
  }

  /**
   * Appending the records of storable pairs to an absent file and reading
   * the lines back in any sorted order gives exactly those pairs, each as
   * often as it was appended.
   */
  lemma ReadAfterAppends(pairs: seq<Entry>, sorted: seq<string>)
    requires forall k | 0 <= k < |pairs| :: Storable(pairs[k])
    requires multiset(sorted) == multiset(Lines(AppendAll(Absent, Formats(pairs))))
    ensures ParseLines(sorted).Records?
    ensures multiset(ParseLines(sorted).entries) == multiset(pairs)
  {
    var records := Formats(pairs);
    forall k | 0 <= k < |records| ensures '\n' !in records[k] {
      assert '\n' !in Delimiter;
    }
    AppendAllLines(records);
    ParsePermutation(sorted, pairs);
  }

  /**
   * The order of the history is the case-insensitive order of the whole
   * lines, whatever the order of appending: "alice" comes before "Bob",
   * which comes before "Zed".
   */
  lemma HistoryOrderExample(sorted: seq<string>)
    requires SortedByKey(sorted)
    requires multiset(sorted) ==
      multiset(["Bob######obbogo", "alice######galice", "Zed######edzogo"])
    ensures sorted == ["alice######galice", "Bob######obbogo", "Zed######edzogo"]
  {
    var a, b, z := "alice######galice", "Bob######obbogo", "Zed######edzogo";
    assert LowerStr(a)[0] == 'a' && LowerStr(b)[0] == 'b' && LowerStr(z)[0] == 'z';
    assert KeyLess(a, b) && KeyLess(b, z) && KeyLess(a, z);
    assert |sorted| == |multiset(sorted)| == 3;
    forall i, j | 0 <= i < j < 3 ensures !KeyLess(sorted[j], sorted[i]) {
      SortedByKeyPairwise(sorted, i, j);
    }
    assert sorted[0] in multiset(sorted) && sorted[1] in multiset(sorted) && sorted[2] in multiset(sorted);
    assert a in multiset(sorted) && b in multiset(sorted) && z in multiset(sorted);
  }

  /**
   * The parsing loop of `readHistory`: each line is split on the delimiter
   * and its first two fields become an entry; a line with fewer than two
   * fields ends the reading.
   */
  method ParseAll(lines: array<string>) returns (r: ReadResult)
    ensures r == ParseLines(lines[..])
  {
    var entries: seq<Entry> := [];
    var i := 0;
    while i < lines.Length
      invariant 0 <= i <= lines.Length
      invariant |entries| == i
      invariant forall k | 0 <= k < i :: ParseLine(lines[k]) == Some(entries[k])
    {
      var records := Split(lines[i], Delimiter);
      if |records| < 2 {
        ParseLinesFirstMalformed(lines[..], i);
        return Malformed(lines[i]);
      }
      entries := entries + [Entry(records[0], records[1])];
      i := i + 1;
    }
    ParseLinesWellFormed(lines[..], entries);
    return Records(entries);
  }

  /** The log file, with the two operations the handlers perform on it. */
  class HistoryStore {
    var fileExists: bool
    var content: string

    /** A store over a file that exists with the given content, or does not exist. */
    constructor (fileExists: bool, content: string)
      ensures this.fileExists == fileExists && this.content == content
    {
      this.fileExists := fileExists;
      this.content := content;
    }

    function State(): FileState
      reads this
    {
      FileState(fileExists, content)
    }

    /** `writeHistory`: create the file with the record, or append a newline and the record. */
    method Append(record: string)
      modifies this
      ensures State() == AfterAppend(old(State()), record)
    {
      if fileExists {
        content := content + "\n" + record;
      } else {
        fileExists := true;
        content := record;
      }
    }

    /**
     * `readHistory`: nothing when the file is absent; otherwise the lines,
     * sorted case-insensitively in place, parsed one by one in that order.
     */
    method ReadAll() returns (r: ReadResult)
      ensures !fileExists ==> r == NoHistory
      ensures fileExists ==>
        exists sorted: seq<string> | SortedByKey(sorted) ::
          multiset(sorted) == multiset(Lines(State())) && r == ParseLines(sorted)
    {
      if !fileExists {
        return NoHistory;
      }
      var split := Split(content, "\n");
      var lines := new string[|split|](k requires 0 <= k < |split| => split[k]);
      assert lines[..] == split;
      SortLines(lines);
      r := ParseAll(lines);
    }
  }
}
