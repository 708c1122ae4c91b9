/** The post-pass of kill_duplicates.py over the written CSV lines: every
    line but the header is split on ';', the numeric columns 2..10 are
    reformatted when they hold a number with a point, quote characters are
    removed from them, and the line is joined again. Parsing a float and
    formatting it with two decimals are parameters. */
module LineRewrite {
  import opened Wrappers
  import opened Strings

  /** Columns the rewrite touches. */
  predicate Numeric(i: int) { 2 <= i <= 10 }

  /** One numeric column: `float(field)` when the field contains '.', then
      `f"{num:.2f}"` with '.' turned into ','; in every case `'` and `"`
      are removed. */
  function RewriteField(field: string, parse: string -> Option<real>, fmt: real -> string): (r: string)
    ensures '\'' !in r && '"' !in r
    ensures ('.' !in field || parse(field).None?) ==> r == DeleteChar(DeleteChar(field, '\''), '"')
    ensures '.' in field && parse(field).Some? ==>
              r == DeleteChar(DeleteChar(ReplaceChar(fmt(parse(field).value), '.', ','), '\''), '"')
    ensures forall c :: c in r ==> c in field || (c in fmt(parse(field).GetOr(0.0)) && c != '.') || c == ','
  {
    var f := if '.' in field && parse(field).Some? then ReplaceChar(fmt(parse(field).value), '.', ',') else field;
    var r := DeleteChar(DeleteChar(f, '\''), '"');
    assert forall c :: c in r ==> c in f;
    r
  }

  /** The columns of a line after the rewrite. */
  function RewriteParts(parts: seq<string>, parse: string -> Option<real>, fmt: real -> string): (r: seq<string>)
    ensures |r| == |parts|
    ensures forall i :: 0 <= i < |parts| && !Numeric(i) ==> r[i] == parts[i]
    ensures forall i :: 0 <= i < |parts| && Numeric(i) ==> r[i] == RewriteField(parts[i], parse, fmt)
  {
    seq(|parts|, i requires 0 <= i < |parts| => if Numeric(i) then RewriteField(parts[i], parse, fmt) else parts[i])
  }

  /** A whole line after the rewrite. */
  function RewrittenLine(line: string, parse: string -> Option<real>, fmt: real -> string): string {
    Join(RewriteParts(Split(line, ';'), parse, fmt), ';')
  }

  /** The statements applied to one numeric column: a failed parse leaves
      the field as it is. */
  method RewriteColumn(field: string, parse: string -> Option<real>, fmt: real -> string)
    returns (r: string)
    ensures r == RewriteField(field, parse, fmt)
  {
    r := field;
    if '.' in r {
      var num := parse(r);
      if num.Some? {
        r := ReplaceChar(fmt(num.value), '.', ',');
      }
    }
    r := DeleteChar(DeleteChar(r, '\''), '"');
  }

  /** The columns after the loop has handled the indexes below `i`. */
  ghost function RewrittenBelow(split: seq<string>, i: int, parse: string -> Option<real>,
                                fmt: real -> string): seq<string>
  {
    seq(|split|, j requires 0 <= j < |split| =>
      if j < i && Numeric(j) then RewriteField(split[j], parse, fmt) else split[j])
  }

  lemma RewrittenBelowStep(split: seq<string>, i: nat, parse: string -> Option<real>, fmt: real -> string)
    requires i < |split|
    ensures var b := RewrittenBelow(split, i, parse, fmt);
      b[i] == split[i] &&
      RewrittenBelow(split, i + 1, parse, fmt) ==
        if Numeric(i) then b[i := RewriteField(split[i], parse, fmt)] else b
  {
  }

  lemma RewrittenBelowAll(split: seq<string>, parse: string -> Option<real>, fmt: real -> string)
    ensures RewrittenBelow(split, |split|, parse, fmt) == RewriteParts(split, parse, fmt)
  {
  }

  /** One step of the column loop: column `i` is rewritten in place when it
      is one of the numeric columns. */
  method RewriteColumnAt(parts: array<string>, split: seq<string>, i: nat,
                         parse: string -> Option<real>, fmt: real -> string)
    requires i < parts.Length == |split|
    requires parts[..] == RewrittenBelow(split, i, parse, fmt)
    modifies parts
    ensures parts[..] == RewrittenBelow(split, i + 1, parse, fmt)
  {
    RewrittenBelowStep(split, i, parse, fmt);
    if Numeric(i) {
      var field := RewriteColumn(parts[i], parse, fmt);
      parts[i] := field;
    }
  }

  /** One line: the columns are updated in place in a list, then joined. */
  method RewriteLine(line: string, parse: string -> Option<real>, fmt: real -> string) returns (newLine: string)
    ensures newLine == RewrittenLine(line, parse, fmt)
  {
    var split := Split(line, ';');
    var parts := new string[|split|](i requires 0 <= i < |split| => split[i]);
    assert parts[..] == RewrittenBelow(split, 1, parse, fmt);
    for i := 1 to parts.Length
      invariant parts[..] == RewrittenBelow(split, i, parse, fmt)
    {
      RewriteColumnAt(parts, split, i, parse, fmt);
    }
    RewrittenBelowAll(split, parse, fmt);
    newLine := Join(parts[..], ';');
  }

  /** When the number format never produces ';', the rewrite keeps the
      number of columns, and a column outside 2..10 is unchanged. */
  lemma RewriteKeepsColumns(line: string, parse: string -> Option<real>, fmt: real -> string)
    requires forall x :: ';' !in fmt(x)
    ensures Split(RewrittenLine(line, parse, fmt), ';') == RewriteParts(Split(line, ';'), parse, fmt)
    ensures |Split(RewrittenLine(line, parse, fmt), ';')| == |Split(line, ';')|
    ensures forall i :: 0 <= i < |Split(line, ';')| && !Numeric(i) ==>
              Split(RewrittenLine(line, parse, fmt), ';')[i] == Split(line, ';')[i]
  {
    var parts := Split(line, ';');
    var r := RewriteParts(parts, parse, fmt);
    forall i | 0 <= i < |r| ensures ';' !in r[i] {
      if Numeric(i) {
        var y := parse(parts[i]).GetOr(0.0);
        assert ';' !in fmt(y);
        assert ';' !in parts[i];
      }
    }
    SplitJoin(r, ';');
  }

  /** A line without the numeric columns' triggers (no '.', no quotes in
      columns 2..10) comes back unchanged. */
  lemma RewriteIdentity(line: string, parse: string -> Option<real>, fmt: real -> string)
    requires forall i :: 0 <= i < |Split(line, ';')| && Numeric(i) ==>
               var f := Split(line, ';')[i]; '.' !in f && '\'' !in f && '"' !in f
    ensures RewrittenLine(line, parse, fmt) == line
  {
    var parts := Split(line, ';');
    forall i | 0 <= i < |parts| && Numeric(i) ensures RewriteField(parts[i], parse, fmt) == parts[i] {
      DeleteAbsent(parts[i], '\'');
      DeleteAbsent(parts[i], '"');
    }
    assert RewriteParts(parts, parse, fmt) == parts;
    JoinSplit(line, ';');
  }

  /** The file pass: the header line is kept as it is and every other line
      is rewritten, in order. */
  method RewriteLines(lines: seq<string>, parse: string -> Option<real>, fmt: real -> string)
    returns (processed: seq<string>)
    requires |lines| >= 1
    ensures |processed| == |lines| && processed[0] == lines[0]
    ensures forall k :: 1 <= k < |lines| ==> processed[k] == RewrittenLine(lines[k], parse, fmt)
  {
    processed := [lines[0]];
    for k := 1 to |lines|
      invariant |processed| == k && processed[0] == lines[0]
      invariant forall j :: 1 <= j < k ==> processed[j] == RewrittenLine(lines[j], parse, fmt)
    {
      var newLine := RewriteLine(lines[k], parse, fmt);
      processed := processed + [newLine];
    }
  }
}
