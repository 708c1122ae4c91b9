/** String operations the source takes from Python's `str` type and `re`
    module, on `string` = `seq<char>`. Unicode character classes are not
    re-derived: they are given as predicates in `CharClasses`. */
module Strings {
  import opened SeqFacts

  /** Python's `\w` (word character) and `\s` / `str.isspace()` (whitespace)
      classes, supplied by the caller. */
  datatype CharClasses = CharClasses(isWord: char -> bool, isSpace: char -> bool)

  /** The one fact about the classes the model relies on: ' ' is whitespace. */
  predicate SpaceIsSpace(cc: CharClasses) {
    cc.isSpace(' ')
  }

  predicate OccursAt(s: string, sub: string, k: nat) {
    k + |sub| <= |s| && s[k..k + |sub|] == sub
  }

  /** Python `sub in s`. */
  predicate Contains(s: string, sub: string) {
    exists k: nat | k <= |s| :: OccursAt(s, sub, k)
  }

  lemma ContainsTail(s: string, sub: string)
    requires |s| > 0
    ensures Contains(s[1..], sub) ==> Contains(s, sub)
  {
    if Contains(s[1..], sub) {
      var k: nat :| k <= |s[1..]| && OccursAt(s[1..], sub, k);
      assert k + 1 + |sub| <= |s|;
      assert s[k + 1..k + 1 + |sub|] == s[1..][k..k + |sub|];
      assert OccursAt(s, sub, k + 1);
    }
  }

  /** An occurrence of `sub` in `s` that is not at its start is an
      occurrence in the tail of `s`. */
  lemma ContainsShift(s: string, sub: string)
    requires |s| > 0 && !OccursAt(s, sub, 0)
    ensures Contains(s, sub) ==> Contains(s[1..], sub)
  {
    if Contains(s, sub) {
      var k: nat :| k <= |s| && OccursAt(s, sub, k);
      assert k > 0;
      assert s[1..][k - 1..k - 1 + |sub|] == s[k..k + |sub|];
      assert OccursAt(s[1..], sub, k - 1);
    }
  }

  /** Python `s.replace(pat, '')`: removes every occurrence of `pat`,
      scanning left to right without overlaps. `RemoveAllFirst` and
      `RemoveAllNoMatch` pin the result down; `RemoveAllShrinks` and
      `RemoveAllKeepsChars` bound it. */
  function RemoveAll(s: string, pat: string): (r: string)
    ensures |r| <= |s|
    decreases |s|
  {
    if |pat| == 0 || |s| < |pat| then s
    else if s[..|pat|] == pat then RemoveAll(s[|pat|..], pat)
    else [s[0]] + RemoveAll(s[1..], pat)
  }

  /** An occurrence in the tail of `s` is an occurrence in `s`, one place on. */
  lemma OccursShift(s: string, sub: string, j: nat)
    requires |s| > 0
    ensures OccursAt(s[1..], sub, j) <==> OccursAt(s, sub, j + 1)
  {
    if j + 1 + |sub| <= |s| {
      assert s[1..][j..j + |sub|] == s[j + 1..j + 1 + |sub|];
    }
  }

  /** A string holding no `pat` is left as it is. */
  lemma {:induction false} RemoveAllNoMatch(s: string, pat: string)
    requires !Contains(s, pat)
    ensures RemoveAll(s, pat) == s
    decreases |s|
  {
    if |pat| > 0 && |s| >= |pat| {
      assert !OccursAt(s, pat, 0);
      assert s[..|pat|] != pat;
      ContainsTail(s, pat);
      RemoveAllNoMatch(s[1..], pat);
      assert s == [s[0]] + s[1..];
    }
  }

  /** Removing an occurring `pat` shortens the string by at least `|pat|`. */
  lemma {:induction false} RemoveAllShrinks(s: string, pat: string)
    ensures |pat| > 0 && Contains(s, pat) ==> |RemoveAll(s, pat)| + |pat| <= |s|
    decreases |s|
  {
    if |pat| > 0 && Contains(s, pat) {
      var k: nat :| k <= |s| && OccursAt(s, pat, k);
      if s[..|pat|] != pat {
        assert !OccursAt(s, pat, 0);
        ContainsShift(s, pat);
        RemoveAllShrinks(s[1..], pat);
      }
    }
  }

  /** Removing occurrences only drops characters: none is added or repeated. */
  lemma {:induction false} RemoveAllKeepsChars(s: string, pat: string)
    ensures multiset(RemoveAll(s, pat)) <= multiset(s)
    decreases |s|
  {
    if |pat| == 0 || |s| < |pat| {
    } else if s[..|pat|] == pat {
      RemoveAllKeepsChars(s[|pat|..], pat);
      assert s == s[..|pat|] + s[|pat|..];
    } else {
      RemoveAllKeepsChars(s[1..], pat);
      assert s == [s[0]] + s[1..];
    }
  }

  /** Without an occurrence at the front, the first character is kept. */
  lemma RemoveAllKeepsHead(s: string, pat: string)
    requires 0 < |pat| <= |s| && !OccursAt(s, pat, 0)
    ensures RemoveAll(s, pat) == [s[0]] + RemoveAll(s[1..], pat)
  {
    assert s[..|pat|] != pat;
  }

  lemma NoEarlierInTail(s: string, pat: string, k: nat)
    requires |s| > 0 && 0 < k
    requires forall j: nat :: j < k ==> !OccursAt(s, pat, j)
    ensures forall j: nat :: j < k - 1 ==> !OccursAt(s[1..], pat, j)
  {
    forall j: nat | j < k - 1 ensures !OccursAt(s[1..], pat, j) {
      OccursShift(s, pat, j);
    }
  }

  lemma GlueHead(s: string, k: nat, n: nat, rest: string)
    requires 0 < k && k + n <= |s|
    ensures [s[0]] + (s[1..][..k - 1] + rest) == s[..k] + rest
    ensures s[1..][k - 1 + n..] == s[k + n..]
  {
    assert [s[0]] + s[1..][..k - 1] == s[..k];
    Assoc([s[0]], s[1..][..k - 1], rest);
  }

  lemma RemoveAllAtFront(s: string, pat: string)
    requires |pat| > 0 && OccursAt(s, pat, 0)
    ensures RemoveAll(s, pat) == s[..0] + RemoveAll(s[|pat|..], pat)
  {
    assert s[..|pat|] == pat;
    assert s[..0] == [];
  }

  lemma RemoveAllFirstStep(s: string, pat: string, k: nat)
    requires 0 < k && 0 < |pat| && k + |pat| <= |s| && !OccursAt(s, pat, 0)
    requires RemoveAll(s[1..], pat) == s[1..][..k - 1] + RemoveAll(s[1..][k - 1 + |pat|..], pat)
    ensures RemoveAll(s, pat) == s[..k] + RemoveAll(s[k + |pat|..], pat)
  {
    var t, rest := s[1..], RemoveAll(s[k + |pat|..], pat);
    GlueHead(s, k, |pat|, rest);
    calc {
      RemoveAll(s, pat);
      { RemoveAllKeepsHead(s, pat); }
      [s[0]] + RemoveAll(t, pat);
      { assert t[k - 1 + |pat|..] == s[k + |pat|..]; }
      [s[0]] + (t[..k - 1] + rest);
      s[..k] + rest;
    }
  }

  /** `replace(pat, '')` keeps everything before the first occurrence of
      `pat`, drops that occurrence, and carries on after it: together with
      `RemoveAllNoMatch` this determines the result on every input. */
  lemma {:induction false} RemoveAllFirst(s: string, pat: string, k: nat)
    requires |pat| > 0 && OccursAt(s, pat, k)
    requires forall j: nat :: j < k ==> !OccursAt(s, pat, j)
    ensures RemoveAll(s, pat) == s[..k] + RemoveAll(s[k + |pat|..], pat)
    decreases k
  {
    if k == 0 {
      RemoveAllAtFront(s, pat);
    } else {
      var t := s[1..];
      assert RemoveAll(t, pat) == t[..k - 1] + RemoveAll(t[k - 1 + |pat|..], pat) by {
        OccursShift(s, pat, k - 1);
        NoEarlierInTail(s, pat, k);
        RemoveAllFirst(t, pat, k - 1);
      }
      assert !OccursAt(s, pat, 0);
      RemoveAllFirstStep(s, pat, k);
    }
  }

  /** Removing `pat` from `pat + h`, where `h` holds no `pat`, leaves `h`. */
  lemma RemoveLeading(pat: string, h: string)
    requires |pat| > 0 && !Contains(h, pat)
    ensures RemoveAll(pat + h, pat) == h
  {
    var u := pat + h;
    assert u[..|pat|] == pat;
    assert u[|pat|..] == h;
    RemoveAllNoMatch(h, pat);
  }

  /** Python `s.lstrip(chars)`, the stripped characters given by `p`. */
  function StripLeft(s: string, p: char -> bool): (r: string)
    ensures |r| <= |s| && r == s[|s| - |r|..]
    ensures forall k :: 0 <= k < |s| - |r| ==> p(s[k])
    ensures r == [] || !p(r[0])
    decreases |s|
  {
    if |s| > 0 && p(s[0]) then StripLeft(s[1..], p) else s
  }

  /** Python `s.rstrip(chars)`. */
  function StripRight(s: string, p: char -> bool): (r: string)
    ensures |r| <= |s| && r == s[..|r|]
    ensures forall k :: |r| <= k < |s| ==> p(s[k])
    ensures r == [] || !p(r[|r| - 1])
    decreases |s|
  {
    if |s| > 0 && p(s[|s| - 1]) then StripRight(s[..|s| - 1], p) else s
  }

  /** Python `s.strip(chars)`: neither starts nor ends with a stripped
      character (and is a slice of `s`, `StripIsSlice`). */
  function Strip(s: string, p: char -> bool): (r: string)
    ensures |r| <= |s|
    ensures r == [] || (!p(r[0]) && !p(r[|r| - 1]))
  {
    StripRight(StripLeft(s, p), p)
  }

  lemma {:induction false} StripLeftAt(s: string, p: char -> bool, a: nat)
    requires a < |s| && !p(s[a])
    requires forall k :: 0 <= k < a ==> p(s[k])
    ensures StripLeft(s, p) == s[a..]
    decreases a
  {
    if a > 0 {
      assert p(s[0]);
      assert forall k :: 0 <= k < a - 1 ==> s[1..][k] == s[k + 1];
      StripLeftAt(s[1..], p, a - 1);
      assert s[1..][a - 1..] == s[a..];
    }
  }

  lemma {:induction false} StripRightAt(s: string, p: char -> bool, b: nat)
    requires 0 < b <= |s| && !p(s[b - 1])
    requires forall k :: b <= k < |s| ==> p(s[k])
    ensures StripRight(s, p) == s[..b]
    decreases |s| - b
  {
    if b < |s| {
      var n := |s| - 1;
      assert p(s[n]);
      assert forall k :: 0 <= k < n ==> s[..n][k] == s[k];
      StripRightAt(s[..n], p, b);
      assert s[..n][..b] == s[..b];
    } else {
      assert s[..b] == s;
    }
  }

  lemma {:induction false} StripLeftAll(s: string, p: char -> bool)
    requires forall k :: 0 <= k < |s| ==> p(s[k])
    ensures StripLeft(s, p) == []
    decreases |s|
  {
    if |s| > 0 {
      StripLeftAll(s[1..], p);
    }
  }

  lemma SuffixAllStripped(s: string, p: char -> bool, a: nat, b: nat)
    requires a <= b <= |s|
    requires forall k :: b <= k < |s| ==> p(s[k])
    ensures forall k :: b - a <= k < |s| - a ==> p(s[a..][k])
  {
    forall k | b - a <= k < |s| - a ensures p(s[a..][k]) {
      assert s[a..][k] == s[a + k];
    }
  }

  lemma StripRightOfSuffix(s: string, p: char -> bool, a: nat, b: nat)
    requires a < b <= |s| && !p(s[b - 1])
    requires forall k :: b <= k < |s| ==> p(s[k])
    ensures StripRight(s[a..], p) == s[a..b]
  {
    SuffixAllStripped(s, p, a, b);
    assert s[a..][b - a - 1] == s[b - 1];
    StripRightAt(s[a..], p, b - a);
    SliceOfSuffix(s, a, b);
  }

  /** Stripping text whose stripped characters surround the slice
      `s[a..b]`, which starts and ends with a kept character, gives that
      slice. */
  lemma StripSurrounded(s: string, p: char -> bool, a: nat, b: nat)
    requires a <= b <= |s|
    requires forall k :: 0 <= k < a ==> p(s[k])
    requires forall k :: b <= k < |s| ==> p(s[k])
    requires a < b ==> !p(s[a]) && !p(s[b - 1])
    ensures Strip(s, p) == s[a..b]
  {
    if a == b {
      StripLeftAll(s, p);
    } else {
      StripLeftAt(s, p, a);
      StripRightOfSuffix(s, p, a, b);
    }
  }

  /** Number of characters `Strip` cuts off the front of `s`. */
  function Leading(s: string, p: char -> bool): (n: nat)
    ensures n <= |s|
  {
    |s| - |StripLeft(s, p)|
  }

  /** `Strip` keeps a contiguous slice of `s`. */
  lemma StripIsSlice(s: string, p: char -> bool)
    ensures Leading(s, p) + |Strip(s, p)| <= |s|
    ensures Strip(s, p) == s[Leading(s, p)..Leading(s, p) + |Strip(s, p)|]
  {
  }

  /** `Strip` keeps only characters of `s`. */
  lemma StripKeepsChars(s: string, p: char -> bool)
    ensures multiset(Strip(s, p)) <= multiset(s)
  {
    StripIsSlice(s, p);
    SliceMultiset(s, Leading(s, p), Leading(s, p) + |Strip(s, p)|);
  }

  /** Everything `Strip` cuts off, at either end, is a stripped character. */
  lemma StripCutsOnlyStripped(s: string, p: char -> bool)
    ensures Leading(s, p) + |Strip(s, p)| <= |s|
    ensures forall k :: 0 <= k < Leading(s, p) ==> p(s[k])
    ensures forall k :: Leading(s, p) + |Strip(s, p)| <= k < |s| ==> p(s[k])
  {
    StripIsSlice(s, p);
    var l := StripLeft(s, p);
    var i := |s| - |l|;
    assert forall k :: i <= k < |s| ==> s[k] == l[k - i];
  }

  /** A string that already neither starts nor ends with a stripped
      character is left as it is: stripping is idempotent. */
  lemma StripStable(s: string, p: char -> bool)
    requires s == [] || (!p(s[0]) && !p(s[|s| - 1]))
    ensures Strip(s, p) == s
  {
    assert StripLeft(s, p) == s;
  }

  /** Python `s.split(sep)` for a one-character separator. */
  function Split(s: string, sep: char): (parts: seq<string>)
    ensures |parts| >= 1
    ensures forall i :: 0 <= i < |parts| ==> sep !in parts[i]
    decreases |s|
  {
    if sep !in s then [s]
    else
      var i := IndexOfChar(s, sep);
      [s[..i]] + Split(s[i + 1..], sep)
  }

  function IndexOfChar(s: string, c: char): (i: nat)
    requires c in s
    ensures i < |s| && s[i] == c && c !in s[..i]
  {
    if s[0] == c then 0
    else
      assert s == [s[0]] + s[1..];
      1 + IndexOfChar(s[1..], c)
  }

  /** Python `sep.join(parts)`. */
  function Join(parts: seq<string>, sep: char): string
  {
    if |parts| == 0 then ""
    else if |parts| == 1 then parts[0]
    else parts[0] + [sep] + Join(parts[1..], sep)
  }

  lemma JoinCons(w: string, rest: seq<string>, sep: char)
    requires |rest| > 0
    ensures Join([w] + rest, sep) == w + [sep] + Join(rest, sep)
  {
    assert ([w] + rest)[1..] == rest;
  }

  /** A join of non-empty parts starts with the first part's first
      character and ends with the last part's last character. */
  lemma {:induction false} JoinEnds(parts: seq<string>, sep: char)
    requires forall m :: 0 <= m < |parts| ==> |parts[m]| > 0
    ensures |parts| == 0 ==> Join(parts, sep) == ""
    ensures |parts| > 0 ==> var j, last := Join(parts, sep), parts[|parts| - 1];
      |j| > 0 && j[0] == parts[0][0] && j[|j| - 1] == last[|last| - 1]
    decreases |parts|
  {
    if |parts| > 1 {
      JoinEnds(parts[1..], sep);
      assert parts[1..][|parts| - 2] == parts[|parts| - 1];
    }
  }

  /** Joining the fields of a split gives back the original text. */
  lemma {:induction false} JoinSplit(s: string, sep: char)
    ensures Join(Split(s, sep), sep) == s
    decreases |s|
  {
    if sep in s {
      var i := IndexOfChar(s, sep);
      var rest := Split(s[i + 1..], sep);
      var parts := [s[..i]] + rest;
      assert Split(s, sep) == parts;
      assert parts[1..] == rest;
      assert Join(parts, sep) == s[..i] + [sep] + Join(rest, sep);
      JoinSplit(s[i + 1..], sep);
      assert s == s[..i] + [sep] + s[i + 1..];
    }
  }

  /** The first occurrence of `c` is the one with no `c` before it. */
  lemma IndexOfCharAt(s: string, c: char, j: nat)
    requires j < |s| && s[j] == c && c !in s[..j]
    ensures IndexOfChar(s, c) == j
  {
    var i := IndexOfChar(s, c);
    assert forall k :: 0 <= k < j ==> s[k] == s[..j][k];
    assert forall k :: 0 <= k < i ==> s[k] == s[..i][k];
  }

  /** Splitting a join of separator-free fields gives back the fields. */
  lemma {:induction false} SplitJoin(parts: seq<string>, sep: char)
    requires |parts| >= 1
    requires forall i :: 0 <= i < |parts| ==> sep !in parts[i]
    ensures Split(Join(parts, sep), sep) == parts
    decreases |parts|
  {
    if |parts| > 1 {
      var p0, rest := parts[0], Join(parts[1..], sep);
      var s := p0 + [sep] + rest;
      assert Join(parts, sep) == s;
      assert s[..|p0|] == p0;
      assert sep !in p0;
      IndexOfCharAt(s, sep, |p0|);
      assert s[|p0| + 1..] == rest;
      assert Split(s, sep) == [p0] + Split(rest, sep);
      SplitJoin(parts[1..], sep);
      assert parts == [p0] + parts[1..];
    }
  }

  /** Python `s.replace(a, b)` for single characters. */
  function ReplaceChar(s: string, a: char, b: char): (r: string)
    ensures |r| == |s|
    ensures forall k :: 0 <= k < |s| ==> r[k] == (if s[k] == a then b else s[k])
  {
    seq(|s|, k requires 0 <= k < |s| => if s[k] == a then b else s[k])
  }

  /** Python `s.replace(c, '')` for a single character: every `c` goes and
      every other character stays, as many times as it occurs. */
  function DeleteChar(s: string, c: char): (r: string)
    ensures c !in r
    ensures |r| <= |s|
    ensures forall x :: x in r ==> x in s
    ensures multiset(r) == multiset(s)[c := 0]
    decreases |s|
  {
    if |s| == 0 then ""
    else
      assert s == [s[0]] + s[1..];
      (if s[0] == c then "" else [s[0]]) + DeleteChar(s[1..], c)
  }

  /** Deletion works character by character, so it keeps the order of the
      characters it leaves: it commutes with concatenation. */
  lemma {:induction false} DeleteCharAppend(a: string, b: string, c: char)
    ensures DeleteChar(a + b, c) == DeleteChar(a, c) + DeleteChar(b, c)
    decreases |a|
  {
    if |a| > 0 {
      var h: string := if a[0] == c then "" else [a[0]];
      assert (a + b)[0] == a[0];
      assert (a + b)[1..] == a[1..] + b;
      assert DeleteChar(a + b, c) == h + DeleteChar(a[1..] + b, c);
      assert DeleteChar(a, c) == h + DeleteChar(a[1..], c);
      DeleteCharAppend(a[1..], b, c);
      Assoc(h, DeleteChar(a[1..], c), DeleteChar(b, c));
    } else {
      assert a + b == b;
    }
  }

  /** Deleting a character that does not occur changes nothing. */
  lemma {:induction false} DeleteAbsent(s: string, c: char)
    requires c !in s
    ensures DeleteChar(s, c) == s
    decreases |s|
  {
    if |s| > 0 {
      assert c !in s[1..];
      DeleteAbsent(s[1..], c);
      assert [s[0]] + s[1..] == s;
    }
  }
}
