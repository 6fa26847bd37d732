/**
 * Models of the functions of Go's `strings` package that translator.go uses,
 * on strings as sequences of code points.  Case mapping covers ASCII only.
 */
module Strings {
  import opened Wrappers

  /** `strings.ToLower` on one character (ASCII letters only). */
  function Lower(c: char): char {
    if 'A' <= c <= 'Z' then (c as int + 32) as char else c
  }

  /**
   * `strings.ToLower` on a string, character by character: no upper-case
   * ASCII letter is left, and every other character is kept.
   */
  function LowerStr(s: string): (r: string)
    ensures |r| == |s|
    ensures forall i | 0 <= i < |r| :: !('A' <= r[i] <= 'Z')
    ensures forall i | 0 <= i < |s| && !('A' <= s[i] <= 'Z') :: r[i] == s[i]
    ensures forall i | 0 <= i < |s| :: ToTitle(r[i]) == ToTitle(s[i])
  {
    seq(|s|, i requires 0 <= i < |s| => Lower(s[i]))
  }

  /** `unicode.ToTitle` on one character (ASCII letters only). */
  function ToTitle(c: char): char {
    if 'a' <= c <= 'z' then (c as int - 32) as char else c
  }

  /** `unicode.IsSpace`: the ASCII white space and the Unicode White_Space code points. */
  predicate IsSpace(c: char) {
    var n := c as int;
    n == 0x20 || 0x09 <= n <= 0x0D || n == 0x85 || n == 0xA0 || n == 0x1680 ||
    0x2000 <= n <= 0x200A || n == 0x2028 || n == 0x2029 || n == 0x202F ||
    n == 0x205F || n == 0x3000
  }

  /** Leading white space removed; everything removed was white space. */
  function TrimLeft(s: string): (r: string)
    ensures |r| <= |s| && r == s[|s| - |r|..]
    ensures r == [] || !IsSpace(r[0])
    ensures forall k | 0 <= k < |s| - |r| :: IsSpace(s[k])
    decreases |s|
  {
    if |s| > 0 && IsSpace(s[0]) then TrimLeft(s[1..]) else s
  }

  /** Trailing white space removed; everything removed was white space. */
  function TrimRight(s: string): (r: string)
    ensures |r| <= |s| && r == s[..|r|]
    ensures r == [] || !IsSpace(r[|r| - 1])
    ensures forall k | |r| <= k < |s| :: IsSpace(s[k])
    decreases |s|
  {
    if |s| > 0 && IsSpace(s[|s| - 1]) then TrimRight(s[..|s| - 1]) else s
  }

  /** `strings.TrimSpace`: white space removed from both ends. */
  function TrimSpace(s: string): (r: string)
    ensures |r| <= |s|
    ensures r == [] || (!IsSpace(r[0]) && !IsSpace(r[|r| - 1]))
  {
    TrimRight(TrimLeft(s))
  }

  /** The trimmed string is empty exactly when the string is all white space. */
  lemma TrimSpaceEmpty(s: string)
    ensures TrimSpace(s) == [] <==> forall k | 0 <= k < |s| :: IsSpace(s[k])
  {
    var l := TrimLeft(s);
    var r := TrimRight(l);
    if r != [] {
      assert r[0] == l[0];
      assert !IsSpace(s[|s| - |l|]);
    } else {
      assert l == [];
    }
  }

  /** `sep` occurs in `s` starting at index `j`. */
  predicate OccursAt(s: string, sep: string, j: int) {
    0 <= j && j + |sep| <= |s| && s[j..j + |sep|] == sep
  }

  /** `strings.Contains`. */
  predicate Contains(s: string, sep: string) {
    exists j | 0 <= j <= |s| :: OccursAt(s, sep, j)
  }

  lemma OccursAtTail(s: string, sep: string, j: int)
    requires |s| > 0 && j >= 1
    ensures OccursAt(s, sep, j) <==> OccursAt(s[1..], sep, j - 1)
  {
    if j + |sep| <= |s| {
      assert s[1..][j - 1..j - 1 + |sep|] == s[j..j + |sep|];
    }
  }

  lemma OccursShift(s: string, sep: string)
    requires |s| > 0
    ensures forall j | j >= 1 :: OccursAt(s, sep, j) <==> OccursAt(s[1..], sep, j - 1)
  {
    forall j | j >= 1 ensures OccursAt(s, sep, j) <==> OccursAt(s[1..], sep, j - 1) {
      OccursAtTail(s, sep, j);
    }
  }

  /** `strings.Index`: the position of the first occurrence of `sep` in `s`. */
  function Index(s: string, sep: string): (r: Option<nat>)
    ensures r.Some? ==> OccursAt(s, sep, r.value)
    ensures r.Some? ==> forall j | 0 <= j < r.value :: !OccursAt(s, sep, j)
    ensures r.None? ==> forall j :: !OccursAt(s, sep, j)
    decreases |s|
  {
    if |s| < |sep| then None
    else if s[..|sep|] == sep then Some(0)
    else
      var t := Index(s[1..], sep);
      OccursShift(s, sep);
      if t.None? then None else Some(t.value + 1)
  }

  /** Every occurrence of `sep` in a prefix of `s` is one in `s`. */
  lemma OccursInPrefix(s: string, sep: string, n: nat, j: int)
    requires n <= |s| && OccursAt(s[..n], sep, j)
    ensures OccursAt(s, sep, j)
  {
    assert s[..n][j..j + |sep|] == s[j..j + |sep|];
  }

  /** When `sep` occurs nowhere before `k`, the prefix `s[..k]` does not contain it. */
  lemma NoOccurrenceBefore(s: string, sep: string, k: nat)
    requires |sep| > 0 && k <= |s| && forall j | 0 <= j < k :: !OccursAt(s, sep, j)
    ensures !Contains(s[..k], sep)
  {
    forall j | OccursAt(s[..k], sep, j) ensures false {
      OccursInPrefix(s, sep, k, j);
    }
  }

  /**
   * `strings.Split` for a non-empty separator: the pieces between the
   * occurrences of `sep`, found left to right.  There is always at least one
   * piece and no piece contains `sep`.
   */
  function Split(s: string, sep: string): (r: seq<string>)
    requires |sep| > 0
    ensures |r| >= 1
    ensures forall k | 0 <= k < |r| :: !Contains(r[k], sep)
    decreases |s|
  {
    match Index(s, sep)
    case None => [s]
    case Some(k) =>
      NoOccurrenceBefore(s, sep, k);
      [s[..k]] + Split(s[k + |sep|..], sep)
  }

  /** The total length of some strings. */
  function TotalLength(parts: seq<string>): nat {
    if parts == [] then 0 else |parts[0]| + TotalLength(parts[1..])
  }

  /**
   * `strings.Join`: the parts with one separator between each neighbouring
   * pair, so the result starts with the first part and holds exactly
   * `|parts| - 1` separators besides the parts.
   */
  function Join(parts: seq<string>, sep: string): (r: string)
    ensures |parts| > 0 ==> parts[0] <= r
    ensures |parts| > 0 ==> |r| == TotalLength(parts) + (|parts| - 1) * |sep|
  {
    if |parts| == 0 then []
    else if |parts| == 1 then parts[0]
    else parts[0] + sep + Join(parts[1..], sep)
  }

  /** Joining the pieces of a split with the same separator gives back the string. */
  lemma {:induction false} JoinSplit(s: string, sep: string)
    requires |sep| > 0
    ensures Join(Split(s, sep), sep) == s
    decreases |s|
  {
    match Index(s, sep)
    case None =>
    case Some(k) =>
      var rest := Split(s[k + |sep|..], sep);
      JoinSplit(s[k + |sep|..], sep);
      assert ([s[..k]] + rest)[1..] == rest;
      assert Join(Split(s, sep), sep) == s[..k] + sep + Join(rest, sep);
      assert s == s[..k] + sep + s[k + |sep|..];
  }

  /** `[c]` occurs at `j` exactly where `s` holds `c`. */
  lemma OccursAtChar(s: string, c: char, j: int)
    ensures OccursAt(s, [c], j) <==> 0 <= j < |s| && s[j] == c
  {
    if 0 <= j < |s| {
      assert s[j..j + 1] == [s[j]];
    }
  }

  /** A string contains `[c]` exactly when `c` is one of its characters. */
  lemma ContainsChar(s: string, c: char)
    ensures Contains(s, [c]) <==> c in s
  {
    if c in s {
      var j :| 0 <= j < |s| && s[j] == c;
      OccursAtChar(s, c, j);
    }
    if Contains(s, [c]) {
      var j :| OccursAt(s, [c], j);
      OccursAtChar(s, c, j);
    }
  }

  /**
   * Splitting on a one-character separator undoes joining with it, provided
   * no part contains the separator (the empty list is the one exception:
   * joining it gives "", which splits into [""]).
   */
  lemma {:induction false} SplitJoin(parts: seq<string>, c: char)
    requires |parts| >= 1
    requires forall k | 0 <= k < |parts| :: c !in parts[k]
    ensures Split(Join(parts, [c]), [c]) == parts
    decreases |parts|
  {
    var s := Join(parts, [c]);
    if |parts| == 1 {
      ContainsChar(s, c);
      if Index(s, [c]).Some? {
        OccursAtChar(s, c, Index(s, [c]).value);
      }
    } else {
      var p := parts[0];
      var tail := Join(parts[1..], [c]);
      assert s == p + [c] + tail;
      OccursAtChar(s, c, |p|);
      forall j | 0 <= j < |p| ensures !OccursAt(s, [c], j) {
        OccursAtChar(s, c, j);
        assert s[j] == p[j];
      }
      assert Index(s, [c]) == Some(|p|);
      assert s[..|p|] == p;
      assert s[|p| + 1..] == tail;
      SplitJoin(parts[1..], c);
    }
  }

  /** The number of times `c` occurs in `s`. */
  function Count(s: string, c: char): nat {
    multiset(s)[c]
  }

  /** Splitting on a one-character separator gives one piece more than it has occurrences. */
  lemma {:induction false} SplitCount(s: string, c: char)
    ensures |Split(s, [c])| == Count(s, c) + 1
    decreases |s|
  {
    match Index(s, [c])
    case None =>
      ContainsChar(s, c);
      assert !Contains(s, [c]);
    case Some(k) =>
      OccursAtChar(s, c, k);
      assert c !in s[..k] by {
        forall j | 0 <= j < k ensures s[j] != c {
          OccursAtChar(s, c, j);
        }
      }
      SplitCount(s[k + 1..], c);
      assert s == s[..k] + [c] + s[k + 1..];
      assert multiset(s) == multiset(s[..k]) + multiset([c]) + multiset(s[k + 1..]);
  }

  /**
   * Go's `<` on strings: lexicographic order of code points, which is the
   * order of their UTF-8 encodings byte by byte.
   */
  predicate LexLess(a: string, b: string)
    ensures a < b ==> LexLess(a, b)
    ensures b <= a ==> !LexLess(a, b)
    decreases |a|
  {
    if |a| == 0 then |b| > 0
    else if |b| == 0 then false
    else if a[0] != b[0] then a[0] < b[0]
    else LexLess(a[1..], b[1..])
  }

  /** At the first position where two strings differ, their characters decide the order. */
  lemma {:induction false} LexLessFirstDifference(a: string, b: string, k: nat)
    requires k < |a| && k < |b| && a[..k] == b[..k] && a[k] != b[k]
    ensures LexLess(a, b) <==> a[k] < b[k]
    decreases k
  {
    if k > 0 {
      assert a[0] == a[..k][0] == b[..k][0] == b[0];
      assert a[1..][..k - 1] == a[..k][1..] == b[..k][1..] == b[1..][..k - 1];
      LexLessFirstDifference(a[1..], b[1..], k - 1);
    }
  }

  lemma {:induction false} LexLessIrreflexive(a: string)
    ensures !LexLess(a, a)
    decreases |a|
  {
    if |a| > 0 {
      LexLessIrreflexive(a[1..]);
    }
  }

  lemma {:induction false} LexLessAsymmetric(a: string, b: string)
    ensures LexLess(a, b) ==> !LexLess(b, a)
    decreases |a|
  {
    if |a| > 0 && |b| > 0 && a[0] == b[0] {
      LexLessAsymmetric(a[1..], b[1..]);
    }
  }

  lemma {:induction false} LexLessTransitive(a: string, b: string, c: string)
    requires LexLess(a, b) && LexLess(b, c)
    ensures LexLess(a, c)
    decreases |a|
  {
    if |a| > 0 && a[0] == b[0] && b[0] == c[0] {
      LexLessTransitive(a[1..], b[1..], c[1..]);
    }
  }

  lemma {:induction false} LexLessTotal(a: string, b: string)
    ensures a == b || LexLess(a, b) || LexLess(b, a)
    decreases |a|
  {
    if |a| > 0 && |b| > 0 && a[0] == b[0] {
      LexLessTotal(a[1..], b[1..]);
      if a[1..] == b[1..] {
        assert a == [a[0]] + a[1..] && b == [b[0]] + b[1..];
      }
    }
  }

  /**
   * `strings.Title`: every character that follows a separator (and the first
   * one) is mapped to title case.  As in Go, ASCII letters, digits and `_`
   * are not separators, other ASCII characters are, and a non-ASCII
   * character is one exactly when it is white space.
   */
  predicate IsSeparator(c: char) {
    if c as int <= 0x7F then
      !('0' <= c <= '9' || 'a' <= c <= 'z' || 'A' <= c <= 'Z' || c == '_')
    else
      IsSpace(c)
  }

  /** Title-casing a character changes nothing but its case. */
  lemma TitleCaseOnly()
    ensures forall c: char {:trigger ToTitle(c)} :: Lower(ToTitle(c)) == Lower(c)
  {
  }

  function Title(s: string): (r: string)
    ensures |r| == |s|
    ensures |s| > 0 ==> r[0] == ToTitle(s[0])
    ensures forall i | 0 <= i < |s| :: Lower(r[i]) == Lower(s[i])
    ensures forall i | 0 < i < |s| && IsSeparator(s[i - 1]) :: r[i] == ToTitle(s[i])
    ensures forall i | 0 < i < |s| && !IsSeparator(s[i - 1]) :: r[i] == s[i]
  {
    TitleCaseOnly();
    seq(|s|, i requires 0 <= i < |s| =>
      if IsSeparator(if i == 0 then ' ' else s[i - 1]) then ToTitle(s[i]) else s[i])
  }

  /** Lower-casing undoes title-casing a string that has no upper-case letter. */
  lemma LowerOfTitle(t: string)
    requires forall c | c in t :: !('A' <= c <= 'Z')
    ensures LowerStr(Title(t)) == t
  {
    var ti := Title(t);
    var u := LowerStr(ti);
    forall i | 0 <= i < |t| ensures u[i] == t[i] {
      var c := t[i];
      assert c in t;
      assert Lower(ti[i]) == Lower(c);
      assert Lower(c) == c;
    }
  }

  /** One step of `Split` on a one-character separator first found at `k`. */
  lemma SplitStep(s: string, c: char, k: nat)
    requires Index(s, [c]) == Some(k)
    ensures Split(s, [c]) == [s[..k]] + Split(s[k + 1..], [c])
  {
  }

  /**
   * Splitting on a one-character separator distributes over a concatenation
   * around that separator.
   */
  lemma {:induction false} SplitAround(a: string, c: char, b: string)
    ensures Split(a + [c] + b, [c]) == Split(a, [c]) + Split(b, [c])
    decreases |a|
  {
    if Index(a, [c]).None? {
      SplitAroundLast(a, c, b);
    } else {
      var k := Index(a, [c]).value;
      var head, tail, rest := a[..k], Split(a[k + 1..], [c]), Split(b, [c]);
      calc {
        Split(a + [c] + b, [c]);
      ==  { SplitAroundHead(a, c, b, k); }
        [head] + Split(a[k + 1..] + [c] + b, [c]);
      ==  { SplitAround(a[k + 1..], c, b); }
        [head] + (tail + rest);
      ==
        ([head] + tail) + rest;
      ==  { SplitStep(a, c, k); }
        Split(a, [c]) + rest;
      }
    }
  }

  /** `SplitAround` when `a` holds no `c`. */
  lemma SplitAroundLast(a: string, c: char, b: string)
    requires Index(a, [c]).None?
    ensures Split(a + [c] + b, [c]) == Split(a, [c]) + Split(b, [c])
  {
    assert Split(a, [c]) == [a];
    var s := a + [c] + b;
    IndexAround(a, c, b);
    SplitStep(s, c, |a|);
    assert s[..|a|] == a && s[|a| + 1..] == b;
  }

  /** The first piece of `a + [c] + b` when `a` holds a `c` at `k` first. */
  lemma SplitAroundHead(a: string, c: char, b: string, k: nat)
    requires Index(a, [c]) == Some(k)
    ensures Split(a + [c] + b, [c]) == [a[..k]] + Split(a[k + 1..] + [c] + b, [c])
  {
    var s := a + [c] + b;
    IndexAround(a, c, b);
    SplitStep(s, c, k);
    SliceAround(a, c, b, k);
  }

  /** Cutting `a + [x] + b` at a position inside `a`. */
  lemma SliceAround<T>(a: seq<T>, x: T, b: seq<T>, k: nat)
    requires k < |a|
    ensures (a + [x] + b)[..k] == a[..k]
    ensures (a + [x] + b)[k + 1..] == a[k + 1..] + [x] + b
  {
    assert a == a[..k + 1] + a[k + 1..];
    assert a + [x] + b == a[..k + 1] + (a[k + 1..] + [x] + b);
  }

  /** The first `c` in `a + [c] + b` is the first one of `a`, or the one after `a`. */
  lemma IndexAround(a: string, c: char, b: string)
    ensures Index(a + [c] + b, [c]) == if Index(a, [c]).None? then Some(|a|) else Index(a, [c])
  {
    var s := a + [c] + b;
    forall j | 0 <= j < |a| ensures OccursAt(s, [c], j) <==> OccursAt(a, [c], j) {
      OccursAtChar(s, c, j);
      OccursAtChar(a, c, j);
    }
    OccursAtChar(s, c, |a|);
  }
}
