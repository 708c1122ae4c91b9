/** The brand and stop-word columns of `save_results_to_csv` in ws.py, and
    the line cleaning of `read_urls_from_file`. Lower-casing and the
    regular-expression word class `\w` are parameters. */
module Tagging {
  import opened Strings
  import opened SeqFacts

  const Yes: string := "Да"
  const No: string := "Нет"

  /** Some brand is a substring of the text. */
  predicate IsBrand(text: string, brands: seq<string>) {
    exists i :: 0 <= i < |brands| && Contains(text, brands[i])
  }

  /** `\w` at index i; outside the text there is no word character. */
  predicate IsWordAt(s: string, i: int, cc: CharClasses) {
    0 <= i < |s| && cc.isWord(s[i])
  }

  /** `\b` at index i: a word character on exactly one side. */
  predicate Boundary(s: string, i: int, cc: CharClasses) {
    IsWordAt(s, i - 1, cc) != IsWordAt(s, i, cc)
  }

  /** `re.search(rf'\b{re.escape(w)}\b', s)` succeeding at index k. */
  predicate WordMatchAt(s: string, w: string, k: nat, cc: CharClasses) {
    OccursAt(s, w, k) && Boundary(s, k, cc) && Boundary(s, k + |w|, cc)
  }

  predicate WordMatch(s: string, w: string, cc: CharClasses) {
    exists k: nat | k <= |s| :: WordMatchAt(s, w, k, cc)
  }

  /** The first stop word, in list order, found as a whole word. */
  predicate FirstStopWord(text: string, stopWords: seq<string>, i: nat, cc: CharClasses) {
    i < |stopWords| && WordMatch(text, stopWords[i], cc) &&
    forall j :: 0 <= j < i ==> !WordMatch(text, stopWords[j], cc)
  }

  /** The two tagging loops for one result row, each leaving at its first
      hit. */
  method TagQuery(query: string, brands: seq<string>, stopWords: seq<string>,
                  lower: string -> string, cc: CharClasses)
    returns (brandFlag: string, stopWord: string)
    ensures brandFlag == (if IsBrand(lower(query), brands) then Yes else No)
    ensures (exists i: nat :: FirstStopWord(lower(query), stopWords, i, cc) && stopWord == stopWords[i]) ||
            ((forall i :: 0 <= i < |stopWords| ==> !WordMatch(lower(query), stopWords[i], cc)) && stopWord == "")
  {
    var text := lower(query);
    brandFlag := No;
    for i := 0 to |brands|
      invariant forall j :: 0 <= j < i ==> !Contains(text, brands[j])
    {
      if Contains(text, brands[i]) {
        brandFlag := Yes;
        break;
      }
    }
    stopWord := "";
    for i := 0 to |stopWords|
      invariant forall j :: 0 <= j < i ==> !WordMatch(text, stopWords[j], cc)
    {
      if WordMatch(text, stopWords[i], cc) {
        assert FirstStopWord(text, stopWords, i, cc);
        return brandFlag, stopWords[i];
      }
    }
  }

  /** An empty brand is a substring of everything, so it flags every
      query. */
  lemma EmptyBrandFlagsAll(text: string, brands: seq<string>)
    requires "" in brands
    ensures IsBrand(text, brands)
  {
    var i :| 0 <= i < |brands| && brands[i] == "";
    assert OccursAt(text, "", 0);
  }

  /** A whole-word match is in particular a substring match. */
  lemma WordMatchIsSubstring(s: string, w: string, cc: CharClasses)
    ensures WordMatch(s, w, cc) ==> Contains(s, w)
  {
  }

  /** A stop word that starts with a word character is not found where it
      continues a word: "кот" does not match inside "скот". */
  lemma NoMatchInsideWord(s: string, w: string, k: nat, cc: CharClasses)
    requires |w| > 0 && cc.isWord(w[0])
    requires 0 < k <= |s| && cc.isWord(s[k - 1])
    ensures !WordMatchAt(s, w, k, cc)
  {
    if OccursAt(s, w, k) {
      assert s[k] == s[k..k + |w|][0] == w[0];
    }
  }

  /** A text that is exactly a stop word made of word characters at both
      ends matches it. */
  lemma WholeTextMatches(w: string, cc: CharClasses)
    requires |w| > 0 && cc.isWord(w[0]) && cc.isWord(w[|w| - 1])
    ensures WordMatch(w, w, cc)
  {
    assert w[0..|w|] == w;
    assert WordMatchAt(w, w, 0, cc);
  }

  /** `[url.strip() for url in urls if url.strip()]`. */
  function CleanLines(lines: seq<string>, cc: CharClasses): (r: seq<string>)
    ensures |r| <= |lines|
    ensures forall i :: 0 <= i < |r| ==> Stripped(r[i], cc)
    decreases |lines|
  {
    if |lines| == 0 then []
    else
      var prev := CleanLines(lines[..|lines| - 1], cc);
      var t := Strip(lines[|lines| - 1], cc.isSpace);
      var tail := if t != "" then [t] else [];
      StrippedAppend(prev, tail, cc);
      prev + tail
  }

  /** A non-empty line with no whitespace at either end. */
  predicate Stripped(x: string, cc: CharClasses) {
    |x| > 0 && !cc.isSpace(x[0]) && !cc.isSpace(x[|x| - 1])
  }

  lemma StrippedAppend(a: seq<string>, b: seq<string>, cc: CharClasses)
    requires forall i :: 0 <= i < |a| ==> Stripped(a[i], cc)
    requires forall i :: 0 <= i < |b| ==> Stripped(b[i], cc)
    ensures forall i :: 0 <= i < |a + b| ==> Stripped((a + b)[i], cc)
  {
  }

  /** The cleaning works line by line, so it keeps the order of the lines
      and commutes with concatenation. */
  lemma {:induction false} CleanLinesAppend(a: seq<string>, b: seq<string>, cc: CharClasses)
    ensures CleanLines(a + b, cc) == CleanLines(a, cc) + CleanLines(b, cc)
    decreases |b|
  {
    if |b| == 0 {
      assert a + b == a;
    } else {
      var n := |b| - 1;
      var t := Strip(b[n], cc.isSpace);
      var tail := if t != "" then [t] else [];
      assert (a + b)[..|a + b| - 1] == a + b[..n];
      assert CleanLines(a + b, cc) == CleanLines(a + b[..n], cc) + tail;
      assert CleanLines(b, cc) == CleanLines(b[..n], cc) + tail;
      CleanLinesAppend(a, b[..n], cc);
    }
  }

  /** Each kept line is the stripped form of an input line. */
  lemma {:induction false} CleanLinesFromInput(lines: seq<string>, cc: CharClasses)
    ensures forall x :: x in CleanLines(lines, cc) ==> exists i :: 0 <= i < |lines| && x == Strip(lines[i], cc.isSpace)
    decreases |lines|
  {
    if |lines| > 0 {
      var n := |lines| - 1;
      var prefix := lines[..n];
      CleanLinesFromInput(prefix, cc);
      forall x | x in CleanLines(lines, cc)
        ensures exists i :: 0 <= i < |lines| && x == Strip(lines[i], cc.isSpace)
      {
        if x in CleanLines(prefix, cc) {
          var i :| 0 <= i < n && x == Strip(prefix[i], cc.isSpace);
          assert prefix[i] == lines[i];
        } else {
          assert x == Strip(lines[n], cc.isSpace);
        }
      }
    }
  }

  /** Only blank lines (nothing but whitespace) are dropped. */
  lemma CleanLinesKeepsNonBlank(lines: seq<string>, cc: CharClasses)
    ensures forall i :: 0 <= i < |lines| && Strip(lines[i], cc.isSpace) != "" ==>
              Strip(lines[i], cc.isSpace) in CleanLines(lines, cc)
  {
    forall i | 0 <= i < |lines| && Strip(lines[i], cc.isSpace) != ""
      ensures Strip(lines[i], cc.isSpace) in CleanLines(lines, cc)
    {
      CleanLinesKeepsLine(lines, i, cc);
    }
  }

  lemma CleanLinesKeepsLine(lines: seq<string>, i: nat, cc: CharClasses)
    requires i < |lines| && Strip(lines[i], cc.isSpace) != ""
    ensures Strip(lines[i], cc.isSpace) in CleanLines(lines, cc)
  {
    var a, x, b := lines[..i], lines[i], lines[i + 1..];
    SplitAround(lines, i);
    CleanLinesAppend(a + [x], b, cc);
    CleanLinesAppend(a, [x], cc);
    assert [x][..0] == [];
    assert CleanLines([x], cc) == [Strip(x, cc.isSpace)];
  }

  /** Cleaning an already clean list changes nothing. */
  lemma {:induction false} CleanLinesIdempotent(lines: seq<string>, cc: CharClasses)
    ensures CleanLines(CleanLines(lines, cc), cc) == CleanLines(lines, cc)
    decreases |lines|
  {
    if |lines| > 0 {
      var n := |lines| - 1;
      var t := Strip(lines[n], cc.isSpace);
      CleanLinesIdempotent(lines[..n], cc);
      CleanLinesAppend(CleanLines(lines[..n], cc), if t != "" then [t] else [], cc);
      if t != "" {
        StripStable(t, cc.isSpace);
        assert [t][..0] == [];
      }
    }
  }
}
