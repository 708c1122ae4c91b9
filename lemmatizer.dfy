/** The query normaliser of kill_duplicates.py (`lemmatize`): clean the
    text, run the morphological analyser, drop function words, and join the
    sorted lemmas into the canonical key. The analyser (segmenter, morph
    tagger and lemmatiser) is a parameter: cleaned text to (lemma, tag)
    tokens. */
module Lemmatizer {
  import opened Strings
  import opened Sorting
  import opened SeqFacts

  /** One analysed token: its dictionary form (`token.lemma`) and tag. */
  datatype Token = Token(normalForm: string, pos: string)

  /** Part-of-speech tags whose tokens are dropped from the key. */
  const DroppedTags: seq<string> := ["ADP", "PART", "CONJ", "PRCL"]

  /** `re.sub(r'[^\w\s]', ' ', s)`. */
  function ReplaceSpecials(s: string, cc: CharClasses): (r: string)
    ensures |r| == |s|
    ensures forall k :: 0 <= k < |s| ==>
              r[k] == (if cc.isWord(s[k]) || cc.isSpace(s[k]) then s[k] else ' ')
  {
    seq(|s|, k requires 0 <= k < |s| => if cc.isWord(s[k]) || cc.isSpace(s[k]) then s[k] else ' ')
  }

  /** `re.sub(r'[-,]', ' ', s)`. */
  function ReplaceDashComma(s: string): (r: string)
    ensures |r| == |s|
    ensures forall k :: 0 <= k < |s| ==> r[k] == (if s[k] == '-' || s[k] == ',' then ' ' else s[k])
  {
    seq(|s|, k requires 0 <= k < |s| => if s[k] == '-' || s[k] == ',' then ' ' else s[k])
  }

  /** Index of the first character of `s` at or after `i` that is not
      whitespace. */
  function SkipSpaces(s: string, i: nat, isSpace: char -> bool): (j: nat)
    requires i <= |s|
    ensures i <= j <= |s|
    ensures forall k :: i <= k < j ==> isSpace(s[k])
    ensures j < |s| ==> !isSpace(s[j])
    decreases |s| - i
  {
    if i < |s| && isSpace(s[i]) then SkipSpaces(s, i + 1, isSpace) else i
  }

  /** `re.sub(r'\s+', ' ', s[i:])`: every maximal whitespace run becomes one ' '. */
  function CollapseFrom(s: string, i: nat, isSpace: char -> bool): string
    requires i <= |s|
    decreases |s| - i
  {
    if i == |s| then ""
    else if isSpace(s[i]) then [' '] + CollapseFrom(s, SkipSpaces(s, i + 1, isSpace), isSpace)
    else [s[i]] + CollapseFrom(s, i + 1, isSpace)
  }

  function CollapseSpaces(s: string, isSpace: char -> bool): string {
    CollapseFrom(s, 0, isSpace)
  }

  /** The three substitutions and the final `strip()` of `lemmatize`. */
  function Clean(s: string, cc: CharClasses): string {
    Strip(CollapseSpaces(ReplaceDashComma(ReplaceSpecials(s, cc)), cc.isSpace), cc.isSpace)
  }

  /** The lemmas of the tokens whose tag is not a dropped one, in order. */
  function KeptLemmas(tokens: seq<Token>): seq<string>
    decreases |tokens|
  {
    if |tokens| == 0 then []
    else
      var t := tokens[|tokens| - 1];
      KeptLemmas(tokens[..|tokens| - 1]) + (if t.pos !in DroppedTags then [t.normalForm] else [])
  }

  /** `" ".join(sorted(lemmas))`. */
  function KeyOf(lemmas: seq<string>): string {
    Join(Sort(lemmas), ' ')
  }

  /** The canonical key `lemmatize(text)` computes. */
  function CanonicalKey(text: string, cc: CharClasses, analyse: string -> seq<Token>): string {
    KeyOf(KeptLemmas(analyse(Clean(text, cc))))
  }

  /** `lemmatize`: the token loop appends each kept lemma in order. */
  method Lemmatize(text: string, cc: CharClasses, analyse: string -> seq<Token>) returns (key: string)
    ensures key == CanonicalKey(text, cc, analyse)
  {
    var cleaned := Clean(text, cc);
    var tokens := analyse(cleaned);
    var lemmas: seq<string> := [];
    for i := 0 to |tokens|
      invariant lemmas == KeptLemmas(tokens[..i])
    {
      assert tokens[..i + 1][..i] == tokens[..i];
      if tokens[i].pos !in DroppedTags {
        lemmas := lemmas + [tokens[i].normalForm];
      }
    }
    assert tokens[..|tokens|] == tokens;
    key := KeyOf(lemmas);
  }

  // ---------------------------------------------------------------------
  // Shape of the cleaned text

  predicate SingleSpaced(r: string) {
    forall k :: 0 <= k < |r| - 1 ==> !(r[k] == ' ' && r[k + 1] == ' ')
  }

  /** A character the cleanup lets through: a word character other than
      '-' and ','. */
  predicate KeyChar(cc: CharClasses, x: char) {
    cc.isWord(x) && x != '-' && x != ','
  }

  /** Every character is ' ', or a non-whitespace `KeyChar`. */
  predicate SpacesOr(r: string, cc: CharClasses) {
    forall k :: 0 <= k < |r| ==> r[k] == ' ' || (!cc.isSpace(r[k]) && KeyChar(cc, r[k]))
  }

  lemma SpacesOrCons(x: char, c: string, cc: CharClasses)
    requires SpacesOr(c, cc) && (x == ' ' || (!cc.isSpace(x) && KeyChar(cc, x)))
    ensures SpacesOr([x] + c, cc)
  {
    assert forall k :: 1 <= k < |c| + 1 ==> ([x] + c)[k] == c[k - 1];
  }

  /** The collapse keeps only ' ' and the non-space characters of its input. */
  lemma {:induction false} CollapseChars(s: string, i: nat, cc: CharClasses)
    requires i <= |s|
    requires forall k :: 0 <= k < |s| ==> cc.isSpace(s[k]) || KeyChar(cc, s[k])
    ensures SpacesOr(CollapseFrom(s, i, cc.isSpace), cc)
    decreases |s| - i
  {
    if i < |s| {
      if cc.isSpace(s[i]) {
        var j := SkipSpaces(s, i + 1, cc.isSpace);
        CollapseChars(s, j, cc);
        SpacesOrCons(' ', CollapseFrom(s, j, cc.isSpace), cc);
      } else {
        CollapseChars(s, i + 1, cc);
        SpacesOrCons(s[i], CollapseFrom(s, i + 1, cc.isSpace), cc);
      }
    }
  }

  lemma SingleSpacedCons(x: char, c: string)
    requires SingleSpaced(c) && (x == ' ' ==> |c| == 0 || c[0] != ' ')
    ensures SingleSpaced([x] + c)
  {
    assert forall k :: 1 <= k < |c| + 1 ==> ([x] + c)[k] == c[k - 1];
  }

  /** The collapse leaves no two adjacent spaces, and starts with one only
      where its input has whitespace. */
  lemma {:induction false} CollapseSingleSpaced(s: string, i: nat, isSpace: char -> bool)
    requires i <= |s|
    requires isSpace(' ')
    ensures var r := CollapseFrom(s, i, isSpace);
      SingleSpaced(r) && (|r| > 0 && r[0] == ' ' ==> i < |s| && isSpace(s[i]))
    decreases |s| - i
  {
    if i < |s| {
      if isSpace(s[i]) {
        var j := SkipSpaces(s, i + 1, isSpace);
        CollapseSingleSpaced(s, j, isSpace);
        SingleSpacedCons(' ', CollapseFrom(s, j, isSpace));
      } else {
        CollapseSingleSpaced(s, i + 1, isSpace);
        SingleSpacedCons(s[i], CollapseFrom(s, i + 1, isSpace));
      }
    }
  }

  /** The shape of cleaned text: no space at either end, no two consecutive
      spaces, and every other character a non-whitespace word character
      (never '-' or ','). */
  predicate CleanForm(r: string, cc: CharClasses) {
    && (|r| > 0 ==> r[0] != ' ' && r[|r| - 1] != ' ')
    && SingleSpaced(r)
    && SpacesOr(r, cc)
  }

  /** After cleanup the text has the clean form: every non-word, non-space
      character became a space and every whitespace run one ' '. */
  lemma CleanShape(s: string, cc: CharClasses)
    requires SpaceIsSpace(cc)
    ensures CleanForm(Clean(s, cc), cc)
  {
    var t := ReplaceDashComma(ReplaceSpecials(s, cc));
    SubstitutedChars(s, cc);
    CollapseChars(t, 0, cc);
    CollapseSingleSpaced(t, 0, cc.isSpace);
    StripShape(CollapseSpaces(t, cc.isSpace), cc);
  }

  /** Stripping text of that shape keeps the shape and leaves no space at
      either end. */
  lemma StripShape(c: string, cc: CharClasses)
    requires SpaceIsSpace(cc)
    requires SingleSpaced(c) && SpacesOr(c, cc)
    ensures CleanForm(Strip(c, cc.isSpace), cc)
  {
    StripIsSlice(c, cc.isSpace);
    var i := Leading(c, cc.isSpace);
    SliceKeepsShape(c, i, i + |Strip(c, cc.isSpace)|, cc);
  }

  /** After the two substitutions every character is whitespace or a
      `KeyChar`. */
  lemma SubstitutedChars(s: string, cc: CharClasses)
    requires SpaceIsSpace(cc)
    ensures var t := ReplaceDashComma(ReplaceSpecials(s, cc));
      forall k :: 0 <= k < |t| ==> cc.isSpace(t[k]) || KeyChar(cc, t[k])
  {
  }

  /** A slice of text of that shape keeps the shape. */
  lemma SliceKeepsShape(c: string, i: nat, j: nat, cc: CharClasses)
    requires i <= j <= |c|
    requires SingleSpaced(c) && SpacesOr(c, cc)
    ensures SingleSpaced(c[i..j]) && SpacesOr(c[i..j], cc)
  {
    var r := c[i..j];
    assert forall k :: 0 <= k < |r| ==> r[k] == c[i + k];
  }

  /** Collapsing is the identity on text whose only whitespace is single ' '
      characters. */
  lemma {:induction false} CollapseIdentity(s: string, i: nat, isSpace: char -> bool)
    requires i <= |s|
    requires forall k :: 0 <= k < |s| && isSpace(s[k]) ==> s[k] == ' '
    requires SingleSpaced(s)
    ensures CollapseFrom(s, i, isSpace) == s[i..]
    decreases |s| - i
  {
    if i < |s| {
      assert s[i..] == [s[i]] + s[i + 1..];
      if isSpace(s[i]) {
        assert i + 1 < |s| ==> s[i + 1] != ' ';
        assert SkipSpaces(s, i + 1, isSpace) == i + 1;
      }
      CollapseIdentity(s, i + 1, isSpace);
    }
  }

  /** Text already in the clean form is left unchanged by the cleanup. */
  lemma CleanFixesCleanForm(r: string, cc: CharClasses)
    requires SpaceIsSpace(cc) && CleanForm(r, cc)
    ensures Clean(r, cc) == r
  {
    assert ReplaceSpecials(r, cc) == r;
    assert ReplaceDashComma(r) == r;
    CollapseIdentity(r, 0, cc.isSpace);
    assert StripLeft(r, cc.isSpace) == r;
    assert StripRight(r, cc.isSpace) == r;
  }

  /** Cleaning is idempotent: cleaned text is a fixed point of the cleanup. */
  lemma CleanIdempotent(s: string, cc: CharClasses)
    requires SpaceIsSpace(cc)
    ensures Clean(Clean(s, cc), cc) == Clean(s, cc)
  {
    CleanShape(s, cc);
    CleanFixesCleanForm(Clean(s, cc), cc);
  }

  // ---------------------------------------------------------------------
  // Cleaned text is the split words joined by single spaces

  /** Index of the first whitespace character of `t` at or after `j`. */
  function WordEnd(t: string, j: nat, isSpace: char -> bool): (e: nat)
    requires j <= |t|
    ensures j <= e <= |t|
    ensures forall k :: j <= k < e ==> !isSpace(t[k])
    ensures e < |t| ==> isSpace(t[e])
    decreases |t| - j
  {
    if j < |t| && !isSpace(t[j]) then WordEnd(t, j + 1, isSpace) else j
  }

  /** Python `t[i:].split()`: the maximal whitespace-free runs, in order. */
  function WordsFrom(t: string, i: nat, isSpace: char -> bool): seq<string>
    requires i <= |t|
    decreases |t| - i
  {
    var j := SkipSpaces(t, i, isSpace);
    if j == |t| then []
    else [t[j..WordEnd(t, j, isSpace)]] + WordsFrom(t, WordEnd(t, j, isSpace), isSpace)
  }

  predicate SpaceFree(w: string, isSpace: char -> bool) {
    forall k :: 0 <= k < |w| ==> !isSpace(w[k])
  }

  /** Every split word is non-empty and whitespace-free. */
  lemma {:induction false} WordsFromShape(t: string, i: nat, isSpace: char -> bool)
    requires i <= |t|
    ensures forall m :: 0 <= m < |WordsFrom(t, i, isSpace)| ==>
              |WordsFrom(t, i, isSpace)[m]| > 0 && SpaceFree(WordsFrom(t, i, isSpace)[m], isSpace)
    decreases |t| - i
  {
    var j := SkipSpaces(t, i, isSpace);
    if j < |t| {
      var e := WordEnd(t, j, isSpace);
      WordsFromShape(t, e, isSpace);
      var w, rest := t[j..e], WordsFrom(t, e, isSpace);
      assert forall k :: 0 <= k < |w| ==> w[k] == t[j + k];
      assert |w| > 0 && SpaceFree(w, isSpace);
      var ws := [w] + rest;
      assert WordsFrom(t, i, isSpace) == ws;
      forall m | 0 <= m < |ws| ensures |ws[m]| > 0 && SpaceFree(ws[m], isSpace) {
        if m == 0 {
          assert ws[m] == w;
        } else {
          assert ws[m] == rest[m - 1];
          assert |rest[m - 1]| > 0 && SpaceFree(rest[m - 1], isSpace);
        }
      }
    }
  }

  /** Python `t.split()`. */
  function Words(t: string, isSpace: char -> bool): seq<string> {
    WordsFrom(t, 0, isSpace)
  }

  /** A run of non-whitespace characters passes through the collapse
      unchanged. */
  lemma {:induction false} CollapseWord(t: string, j: nat, e: nat, isSpace: char -> bool)
    requires j <= e <= |t|
    requires forall k :: j <= k < e ==> !isSpace(t[k])
    ensures CollapseFrom(t, j, isSpace) == t[j..e] + CollapseFrom(t, e, isSpace)
    decreases e - j
  {
    if j < e {
      var rest := CollapseFrom(t, e, isSpace);
      assert CollapseFrom(t, j, isSpace) == [t[j]] + CollapseFrom(t, j + 1, isSpace);
      CollapseWord(t, j + 1, e, isSpace);
      ConsSlice(t, j, e, rest);
    }
  }

  lemma ConsSlice(t: string, j: nat, e: nat, rest: string)
    requires j < e <= |t|
    ensures [t[j]] + (t[j + 1..e] + rest) == t[j..e] + rest
  {
    assert t[j..e] == [t[j]] + t[j + 1..e];
  }

  /** The ' ' the collapse leaves at the end of text that ends in
      whitespace and has a word at or after `j`. */
  function TrailSpace(t: string, j: nat, isSpace: char -> bool): string {
    if j < |t| && isSpace(t[|t| - 1]) then " " else ""
  }

  /** The collapse of the last word of the text is the word itself. */
  lemma CollapseLastWord(t: string, j: nat, isSpace: char -> bool)
    requires j < |t| && !isSpace(t[j]) && WordEnd(t, j, isSpace) == |t|
    ensures CollapseFrom(t, j, isSpace) == Join(WordsFrom(t, j, isSpace), ' ') + TrailSpace(t, j, isSpace)
  {
    CollapseWord(t, j, |t|, isSpace);
    assert SkipSpaces(t, j, isSpace) == j;
    assert !isSpace(t[|t| - 1]);
    assert WordsFrom(t, |t|, isSpace) == [];
    assert WordsFrom(t, j, isSpace) == [t[j..|t|]];
  }

  /** A word followed by whitespace: the collapse is the word, one ' ', and
      the collapse from the next word (or the end). */
  lemma CollapseWordThenSpace(t: string, j: nat, e: nat, j2: nat, isSpace: char -> bool)
    requires j < |t| && !isSpace(t[j])
    requires e == WordEnd(t, j, isSpace) && e < |t| && j2 == SkipSpaces(t, e + 1, isSpace)
    ensures CollapseFrom(t, j, isSpace) == t[j..e] + ([' '] + CollapseFrom(t, j2, isSpace))
    ensures WordsFrom(t, j, isSpace) == [t[j..e]] + WordsFrom(t, j2, isSpace)
    ensures j2 == |t| ==> isSpace(t[|t| - 1]) && WordsFrom(t, j2, isSpace) == [] && CollapseFrom(t, j2, isSpace) == ""
    ensures j2 < |t| ==> |WordsFrom(t, j2, isSpace)| > 0 && TrailSpace(t, j2, isSpace) == TrailSpace(t, j, isSpace)
  {
    CollapseWord(t, j, e, isSpace);
    assert SkipSpaces(t, j, isSpace) == j;
    assert SkipSpaces(t, e, isSpace) == j2;
    assert SkipSpaces(t, j2, isSpace) == j2;
  }

  /** Gluing a word in front of the joined rest of the words. */
  lemma GlueWord(w: string, rest: seq<string>, c: string, trail: string)
    requires |rest| > 0 ==> c == Join(rest, ' ') + trail
    requires |rest| == 0 ==> c == "" && trail == " "
    ensures w + ([' '] + c) == Join([w] + rest, ' ') + trail
  {
    if |rest| > 0 {
      JoinCons(w, rest, ' ');
    } else {
      assert [w] + rest == [w];
    }
  }

  /** From the start of a word (or the end of the text) the collapse is the
      words joined by ' ', followed by one ' ' when the text ends in
      whitespace. */
  lemma {:induction false} CollapseFromWordStart(t: string, j: nat, isSpace: char -> bool)
    requires j <= |t| && (j < |t| ==> !isSpace(t[j]))
    ensures CollapseFrom(t, j, isSpace) == Join(WordsFrom(t, j, isSpace), ' ') + TrailSpace(t, j, isSpace)
    decreases |t| - j
  {
    if j < |t| {
      var e := WordEnd(t, j, isSpace);
      if e < |t| {
        var j2 := SkipSpaces(t, e + 1, isSpace);
        CollapseWordThenSpace(t, j, e, j2, isSpace);
        CollapseFromWordStart(t, j2, isSpace);
        GlueWord(t[j..e], WordsFrom(t, j2, isSpace), CollapseFrom(t, j2, isSpace), TrailSpace(t, j, isSpace));
      } else {
        CollapseLastWord(t, j, isSpace);
      }
    }
  }

  /** The collapse is the joined words, with one ' ' in front when the
      text starts with whitespace and one behind when it ends with
      whitespace after a word. */
  lemma CollapsePadded(t: string, isSpace: char -> bool)
    ensures CollapseSpaces(t, isSpace) ==
            (if 0 < |t| && isSpace(t[0]) then [' '] else []) + Join(Words(t, isSpace), ' ')
            + TrailSpace(t, SkipSpaces(t, 0, isSpace), isSpace)
  {
    var j := SkipSpaces(t, 0, isSpace);
    CollapseFromWordStart(t, j, isSpace);
    WordsFromSkip(t, 0, isSpace);
    var joined, trail := Join(WordsFrom(t, j, isSpace), ' '), TrailSpace(t, j, isSpace);
    assert Words(t, isSpace) == WordsFrom(t, j, isSpace);
    if 0 < |t| && isSpace(t[0]) {
      assert SkipSpaces(t, 1, isSpace) == j;
      assert CollapseFrom(t, 0, isSpace) == [' '] + (joined + trail);
      ConsAssoc(' ', joined, trail);
    } else {
      assert j == 0;
      assert [] + joined == joined;
    }
  }

  /** Whitespace in front of the words does not change the split. */
  lemma WordsFromSkip(t: string, i: nat, isSpace: char -> bool)
    requires i <= |t|
    ensures WordsFrom(t, i, isSpace) == WordsFrom(t, SkipSpaces(t, i, isSpace), isSpace)
  {
    var j := SkipSpaces(t, i, isSpace);
    assert SkipSpaces(t, j, isSpace) == j;
  }

  /** Stripping whitespace padding off joined whitespace-free words gives the
      joined words. */
  lemma StripPadded(lead: string, ws: seq<string>, trail: string, p: char -> bool)
    requires forall k :: 0 <= k < |lead| ==> p(lead[k])
    requires forall k :: 0 <= k < |trail| ==> p(trail[k])
    requires forall m :: 0 <= m < |ws| ==> |ws[m]| > 0 && !p(ws[m][0]) && !p(ws[m][|ws[m]| - 1])
    ensures Strip(lead + Join(ws, ' ') + trail, p) == Join(ws, ' ')
  {
    var joined := Join(ws, ' ');
    JoinEnds(ws, ' ');
    PaddedSlice(lead, joined, trail);
    StripSurrounded(lead + joined + trail, p, |lead|, |lead| + |joined|);
  }

  /** `re.sub(r'\s+', ' ', t).strip()` is `' '.join(t.split())` whenever
      ' ' is whitespace. */
  lemma CollapseStripIsJoinedWords(t: string, isSpace: char -> bool)
    requires isSpace(' ')
    ensures Strip(CollapseSpaces(t, isSpace), isSpace) == Join(Words(t, isSpace), ' ')
  {
    CollapsePadded(t, isSpace);
    WordsFromShape(t, 0, isSpace);
    var ws := WordsFrom(t, 0, isSpace);
    assert Words(t, isSpace) == ws;
    forall m | 0 <= m < |ws| ensures |ws[m]| > 0 && !isSpace(ws[m][0]) && !isSpace(ws[m][|ws[m]| - 1]) {
      assert SpaceFree(ws[m], isSpace);
    }
    StripPadded(if 0 < |t| && isSpace(t[0]) then [' '] else [], ws,
                TrailSpace(t, SkipSpaces(t, 0, isSpace), isSpace), isSpace);
  }

  lemma PaddedSlice(lead: string, mid: string, trail: string)
    ensures var c := lead + mid + trail;
      c[|lead|..|lead| + |mid|] == mid &&
      (forall k :: 0 <= k < |lead| ==> c[k] == lead[k]) &&
      (forall k :: |lead| + |mid| <= k < |c| ==> c[k] == trail[k - |lead| - |mid|]) &&
      (|mid| > 0 ==> c[|lead|] == mid[0] && c[|lead| + |mid| - 1] == mid[|mid| - 1])
  {
  }

  /** The cleaned text is the whitespace-split words of the substituted text
      joined by single spaces. */
  lemma CleanIsJoinedWords(s: string, cc: CharClasses)
    requires SpaceIsSpace(cc)
    ensures Clean(s, cc) == Join(Words(ReplaceDashComma(ReplaceSpecials(s, cc)), cc.isSpace), ' ')
  {
    CollapseStripIsJoinedWords(ReplaceDashComma(ReplaceSpecials(s, cc)), cc.isSpace);
  }

  /** The second substitution is redundant whenever '-' and ',' are neither
      word nor whitespace characters (as in Python's `\w` and `\s`). */
  lemma DashCommaRedundant(s: string, cc: CharClasses)
    requires !cc.isWord('-') && !cc.isSpace('-') && !cc.isWord(',') && !cc.isSpace(',')
    ensures ReplaceDashComma(ReplaceSpecials(s, cc)) == ReplaceSpecials(s, cc)
  {
  }

  // ---------------------------------------------------------------------
  // The key does not depend on token order

  lemma {:induction false} KeptLemmasAppend(a: seq<Token>, b: seq<Token>)
    ensures KeptLemmas(a + b) == KeptLemmas(a) + KeptLemmas(b)
    decreases |b|
  {
    if |b| > 0 {
      var b' := b[..|b| - 1];
      assert (a + b)[..|a + b| - 1] == a + b';
      KeptLemmasAppend(a, b');
    } else {
      assert a + b == a;
    }
  }

  /** Removing one matching element from two permutations of each other
      leaves permutations of each other. */
  lemma RemoveMatching<T>(t1: seq<T>, t2: seq<T>, m: nat)
    requires multiset(t1) == multiset(t2) && |t1| > 0
    requires m < |t2| && t2[m] == t1[|t1| - 1]
    ensures multiset(t1[..|t1| - 1]) == multiset(t2[..m] + t2[m + 1..])
  {
    var n := |t1| - 1;
    assert t1 == t1[..n] + [t1[n]];
    assert t2 == t2[..m] + [t2[m]] + t2[m + 1..];
    assert multiset(t1[..n]) == multiset(t1) - multiset{t1[n]};
    assert multiset(t2[..m] + t2[m + 1..]) == multiset(t2) - multiset{t2[m]};
  }

  /** Taking one token out of the middle splits off its own kept lemmas. */
  lemma KeptLemmasRemove(t: seq<Token>, m: nat)
    requires m < |t|
    ensures multiset(KeptLemmas(t)) == multiset(KeptLemmas(t[..m] + t[m + 1..])) + multiset(KeptLemmas([t[m]]))
  {
    SplitAround(t, m);
    KeptLemmasSplit(t, t[..m], t[m], t[m + 1..]);
  }

  lemma KeptLemmasSplit(t: seq<Token>, a: seq<Token>, x: Token, b: seq<Token>)
    requires t == a + [x] + b
    ensures multiset(KeptLemmas(t)) == multiset(KeptLemmas(a + b)) + multiset(KeptLemmas([x]))
  {
    KeptLemmasAppend(a + [x], b);
    KeptLemmasAppend(a, [x]);
    KeptLemmasAppend(a, b);
    var ka, kx, kb := KeptLemmas(a), KeptLemmas([x]), KeptLemmas(b);
    assert multiset((ka + kx) + kb) == multiset(ka + kb) + multiset(kx);
  }

  /** Permuting the analyser's tokens permutes the kept lemmas. */
  lemma {:induction false} KeptLemmasPermutation(t1: seq<Token>, t2: seq<Token>)
    requires multiset(t1) == multiset(t2)
    ensures multiset(KeptLemmas(t1)) == multiset(KeptLemmas(t2))
    decreases |t1|
  {
    if |t1| == 0 {
      assert |multiset(t2)| == 0;
    } else {
      var n := |t1| - 1;
      assert t1[n] in multiset(t2);
      var m :| 0 <= m < |t2| && t2[m] == t1[n];
      RemoveMatching(t1, t2, m);
      KeptLemmasPermutation(t1[..n], t2[..m] + t2[m + 1..]);
      KeptLemmasRemove(t1, n);
      KeptLemmasRemove(t2, m);
      assert t1[..n] + t1[n + 1..] == t1[..n];
    }
  }

  /** The key is invariant under any permutation of the analyser's output:
      the order in which the analyser returns the tokens does not matter. */
  lemma KeyPermutationInvariant(t1: seq<Token>, t2: seq<Token>)
    requires multiset(t1) == multiset(t2)
    ensures KeyOf(KeptLemmas(t1)) == KeyOf(KeptLemmas(t2))
  {
    KeptLemmasPermutation(t1, t2);
    SortDependsOnlyOnElements(KeptLemmas(t1), KeptLemmas(t2));
  }

  /** A token is dropped exactly when its tag is one of the four. */
  lemma KeptLemmasFilter(tokens: seq<Token>, t: Token)
    ensures KeptLemmas(tokens + [t]) ==
            KeptLemmas(tokens) + (if t.pos in {"ADP", "PART", "CONJ", "PRCL"} then [] else [t.normalForm])
  {
    assert (tokens + [t])[..|tokens|] == tokens;
  }
}
