/**
 * Tables rendered as labelled bullet lists
 * (`TableFormatter` in src/url2md/utils/table_formatter.py).
 */
module TableFormatter {
  import opened Text

  // ------------------------------------------------------- star removal

  /** `s` with every `c` deleted. */
  function RemoveChar(s: string, c: char): (r: string)
    ensures c !in r
    ensures |r| <= |s|
  {
    if |s| == 0 then []
    else if s[0] == c then RemoveChar(s[1..], c)
    else [s[0]] + RemoveChar(s[1..], c)
  }

  lemma {:induction false} RemoveCharAppend(a: string, b: string, c: char)
    ensures RemoveChar(a + b, c) == RemoveChar(a, c) + RemoveChar(b, c)
  {
    if |a| > 0 {
      assert (a + b)[1..] == a[1..] + b;
      RemoveCharAppend(a[1..], b, c);
    } else {
      assert a + b == b;
    }
  }

  /** End of the run of `c` starting at `i`. */
  function RunEnd(s: string, i: nat, c: char): (e: nat)
    requires i <= |s|
    ensures i <= e <= |s|
    ensures forall j :: i <= j < e ==> s[j] == c
    ensures e < |s| ==> s[e] != c
    decreases |s| - i
  {
    if i < |s| && s[i] == c then RunEnd(s, i + 1, c) else i
  }

  /**
   * `re.sub(c{min,}, '', s)` for one character `c`: a run of `c` of length at
   * least `min` disappears (the greedy match takes the whole run); a shorter
   * run stays.
   */
  function DeleteRuns(s: string, c: char, min: nat): (r: string)
    decreases |s|
  {
    if |s| == 0 then []
    else if s[0] == c then
      var e := RunEnd(s, 0, c);
      (if e >= min then [] else s[..e]) + DeleteRuns(s[e..], c, min)
    else [s[0]] + DeleteRuns(s[1..], c, min)
  }

  lemma {:induction false} RemoveCharOfRun(s: string, e: nat, c: char)
    requires e <= |s| && forall j :: 0 <= j < e ==> s[j] == c
    ensures RemoveChar(s[..e], c) == []
    decreases e
  {
    if e > 0 {
      assert s[..e][1..] == s[1..][..e - 1];
      RemoveCharOfRun(s[1..], e - 1, c);
    }
  }

  /** Deleting runs of `c` never changes what is left once every `c` is gone. */
  lemma {:induction false} DeleteRunsKeepsOthers(s: string, c: char, min: nat)
    ensures RemoveChar(DeleteRuns(s, c, min), c) == RemoveChar(s, c)
    decreases |s|
  {
    if |s| > 0 {
      if s[0] == c {
        var e := RunEnd(s, 0, c);
        var kept := if e >= min then [] else s[..e];
        DeleteRunsKeepsOthers(s[e..], c, min);
        RemoveCharAppend(kept, DeleteRuns(s[e..], c, min), c);
        RemoveCharOfRun(s, e, c);
        assert RemoveChar(kept, c) == [];
        assert s == s[..e] + s[e..];
        RemoveCharAppend(s[..e], s[e..], c);
      } else {
        DeleteRunsKeepsOthers(s[1..], c, min);
        RemoveCharAppend([s[0]], DeleteRuns(s[1..], c, min), c);
      }
    }
  }

  /** Deleting every run of length at least one deletes every `c`. */
  lemma {:induction false} DeleteAllRuns(s: string, c: char)
    ensures DeleteRuns(s, c, 1) == RemoveChar(s, c)
    decreases |s|
  {
    if |s| > 0 {
      if s[0] == c {
        var e := RunEnd(s, 0, c);
        DeleteAllRuns(s[e..], c);
        RemoveCharOfRun(s, e, c);
        assert s == s[..e] + s[e..];
        RemoveCharAppend(s[..e], s[e..], c);
      } else {
        DeleteAllRuns(s[1..], c);
      }
    }
  }

  /** The two `*` passes: first runs of two or more, then any run. */
  function StripStars(text: string): string {
    DeleteRuns(DeleteRuns(text, '*', 2), '*', 1)
  }

  /** Together the two passes delete exactly the `*` characters, and nothing else. */
  lemma StripStarsRemovesStars(text: string)
    ensures StripStars(text) == RemoveChar(text, '*')
  {
    DeleteAllRuns(DeleteRuns(text, '*', 2), '*');
    DeleteRunsKeepsOthers(text, '*', 2);
    RemoveCharIdempotent(RemoveChar(text, '*'), '*');
  }

  lemma {:induction false} RemoveCharIdempotent(s: string, c: char)
    requires c !in s
    ensures RemoveChar(s, c) == s
    decreases |s|
  {
    if |s| > 0 {
      RemoveCharIdempotent(s[1..], c);
    }
  }

  // ---------------------------------------------------------- code spans

  /** Index of the first backquote at or after `i`, or `|s|`. */
  function NextTick(s: string, i: nat): (q: nat)
    requires i <= |s|
    ensures i <= q <= |s|
    ensures q < |s| ==> s[q] == '`'
    ensures forall j :: i <= j < q ==> s[j] != '`'
    decreases |s| - i
  {
    if i == |s| || s[i] == '`' then i else NextTick(s, i + 1)
  }

  /**
   * `re.sub(r'`([^`]+)`', r'`\1`', s)`: at a backquote followed by a
   * non-empty stretch without backquotes and a closing backquote, the span
   * is written back as it was; elsewhere the character is copied.
   */
  function CodeSpans(s: string): (r: string)
    decreases |s|
  {
    if |s| == 0 then []
    else if s[0] == '`' && 1 < NextTick(s, 1) < |s| then
      var q := NextTick(s, 1);
      "`" + s[1..q] + "`" + CodeSpans(s[q + 1..])
    else [s[0]] + CodeSpans(s[1..])
  }

  /** The code-span substitution writes every span back unchanged: it is the identity. */
  lemma {:induction false} CodeSpansIdentity(s: string)
    ensures CodeSpans(s) == s
    decreases |s|
  {
    if |s| > 0 {
      if s[0] == '`' && 1 < NextTick(s, 1) < |s| {
        var q := NextTick(s, 1);
        CodeSpansIdentity(s[q + 1..]);
        SpanSplit(s, q);
      } else {
        CodeSpansIdentity(s[1..]);
        assert s == [s[0]] + s[1..];
      }
    }
  }

  lemma SpanSplit(s: string, q: nat)
    requires 0 < q < |s| && s[0] == '`' && s[q] == '`'
    ensures s == "`" + s[1..q] + "`" + s[q + 1..]
  {
  }

  // ----------------------------------------------------------- _clean_text

  /** `f'{mark}{inner}{mark} {word}'` */
  function Emphasize(mark: string, inner: string, word: string): string {
    mark + inner + mark + " " + word
  }

  /** The required/optional marking, on text already free of `*`. */
  function Mark(t: string): (r: string)
    ensures Contains(Lower(t), "required") ==>
      |r| >= 11 && r[..2] == "**" && r[|r| - 11..] == "** required"
    ensures !Contains(Lower(t), "required") && Contains(Lower(t), "optional") ==>
      |r| >= 10 && r[..1] == "*" && r[|r| - 10..] == "* optional"
    ensures !Contains(Lower(t), "required") && !Contains(Lower(t), "optional") ==> r == t
  {
    if Contains(Lower(t), "required") then
      var inner := Strip(ReplaceAll(t, "required", ""));
      EmphasizeRequired(inner);
      Emphasize("**", inner, "required")
    else if Contains(Lower(t), "optional") then
      var inner := Strip(ReplaceAll(t, "optional", ""));
      EmphasizeOptional(inner);
      Emphasize("*", inner, "optional")
    else t
  }

  lemma EmphasizeRequired(inner: string)
    ensures var r := Emphasize("**", inner, "required");
      |r| >= 11 && r[..2] == "**" && r[|r| - 11..] == "** required"
  {
    EmphasizeEnds("**", inner, "required");
    assert "**" + " " + "required" == "** required";
  }

  lemma EmphasizeOptional(inner: string)
    ensures var r := Emphasize("*", inner, "optional");
      |r| >= 10 && r[..1] == "*" && r[|r| - 10..] == "* optional"
  {
    EmphasizeEnds("*", inner, "optional");
    assert "*" + " " + "optional" == "* optional";
  }

  /** The marks open the text, and the closing mark, a space and the word end it. */
  lemma EmphasizeEnds(mark: string, inner: string, word: string)
    ensures var r := Emphasize(mark, inner, word);
      && |r| >= |mark| + 1 + |word|
      && r[..|mark|] == mark
      && r[|r| - |mark| - 1 - |word|..] == mark + " " + word
  {
    var r := Emphasize(mark, inner, word);
    assert r == mark + (inner + mark + " " + word);
    assert r == (mark + inner) + (mark + " " + word);
  }

  /** `TableFormatter._clean_text` */
  function CleanText(text: string): (r: string)
    ensures Squeezed(r)
  {
    var squeezed := Squeeze(Mark(StripStars(text)));
    SqueezeSqueezed(Mark(StripStars(text)));
    CodeSpansIdentity(squeezed);
    CodeSpans(squeezed)
  }

  /** A cell mentioning neither keyword loses every `*` and gains none. */
  lemma PlainCellHasNoStars(text: string)
    requires !Contains(Lower(RemoveChar(text, '*')), "required")
    requires !Contains(Lower(RemoveChar(text, '*')), "optional")
    ensures '*' !in CleanText(text)
  {
    StripStarsRemovesStars(text);
    var squeezed := Squeeze(RemoveChar(text, '*'));
    WordsAvoid(RemoveChar(text, '*'), '*');
    JoinAvoids(Words(RemoveChar(text, '*')), " ", '*');
    CodeSpansIdentity(squeezed);
  }

  /** `_clean_text` squeezes the marked, star-free text; nothing else changes it. */
  lemma CleanTextSqueezesMarked(text: string)
    ensures CleanText(text) == Squeeze(Mark(RemoveChar(text, '*')))
  {
    StripStarsRemovesStars(text);
    CodeSpansIdentity(Squeeze(Mark(RemoveChar(text, '*'))));
  }

  /**
   * A cell mentioning `required` (in any case) comes out as `**...**`
   * followed by ` required`.
   */
  lemma RequiredCellShape(text: string)
    requires Contains(Lower(RemoveChar(text, '*')), "required")
    ensures var r := CleanText(text);
      |r| >= 11 && r[..2] == "**" && r[|r| - 11..] == "** required"
  {
    CleanTextSqueezesMarked(text);
    var t := RemoveChar(text, '*');
    MarkRequired(t);
    RequiredShape(Strip(ReplaceAll(t, "required", "")));
  }

  /**
   * A cell mentioning `optional` but not `required` comes out as `*...*`
   * followed by ` optional`.
   */
  lemma OptionalCellShape(text: string)
    requires !Contains(Lower(RemoveChar(text, '*')), "required")
    requires Contains(Lower(RemoveChar(text, '*')), "optional")
    ensures var r := CleanText(text);
      |r| >= 10 && r[..1] == "*" && r[|r| - 10..] == "* optional"
  {
    CleanTextSqueezesMarked(text);
    var t := RemoveChar(text, '*');
    MarkOptional(t);
    OptionalShape(Strip(ReplaceAll(t, "optional", "")));
  }

  lemma MarkRequired(t: string)
    requires Contains(Lower(t), "required")
    ensures Mark(t) == Emphasize("**", Strip(ReplaceAll(t, "required", "")), "required")
  {
  }

  lemma MarkOptional(t: string)
    requires !Contains(Lower(t), "required") && Contains(Lower(t), "optional")
    ensures Mark(t) == Emphasize("*", Strip(ReplaceAll(t, "optional", "")), "optional")
  {
  }

  lemma RequiredShape(x: string)
    ensures var r := Squeeze(Emphasize("**", x, "required"));
      |r| >= 11 && r[..2] == "**" && r[|r| - 11..] == "** required"
  {
    SqueezeEmphasized("**", x, "required");
  }

  lemma OptionalShape(x: string)
    ensures var r := Squeeze(Emphasize("*", x, "optional"));
      |r| >= 10 && r[..1] == "*" && r[|r| - 10..] == "* optional"
  {
    SqueezeEmphasized("*", x, "optional");
  }

  /** Squeezing an emphasized text keeps the marks and the word at the ends. */
  lemma SqueezeEmphasized(mark: string, x: string, word: string)
    requires |mark| > 0 && NoSpace(mark) && |word| > 0 && NoSpace(word)
    ensures var r := Squeeze(Emphasize(mark, x, word));
      && |r| >= |mark| + 1 + |word|
      && r[..|mark|] == mark
      && r[|r| - |mark| - 1 - |word|..] == mark + " " + word
  {
    var u := mark + x + mark;
    EmphasizeParts(mark, x, word);
    SqueezeKeepsHead(mark, x + mark);
    SqueezeKeepsTail(mark + x, mark);
    SqueezeThenWord(u, word);
  }

  lemma EmphasizeParts(mark: string, x: string, word: string)
    ensures Emphasize(mark, x, word) == (mark + x + mark) + " " + word
    ensures mark + x + mark == mark + (x + mark)
  {
  }

  /** A space-free word after a space stays the last word. */
  lemma SqueezeThenWord(u: string, word: string)
    requires |Squeeze(u)| > 0 && |word| > 0 && NoSpace(word)
    ensures Squeeze(u + " " + word) == Squeeze(u) + " " + word
  {
    WordsSpaceAppend(u, word);
    WordsOfNoSpace(word);
    JoinSnoc(Words(u), word, " ");
  }

  // ---------------------------------------------------------- format_table

  /** The label of column `i`: its header, or `Field <i+1>` past the headers. */
  function Label(headers: seq<string>, i: nat): (name: string)
    ensures i < |headers| ==> name == headers[i]
    ensures i >= |headers| ==>
      && |name| > 6 && name[..6] == "Field "
      && (forall k :: 6 <= k < |name| ==> IsDigit(name[k]))
      && ParseNat(name[6..]) == i + 1
  {
    if i < |headers| then headers[i]
    else
      var d := NatToString(i + 1);
      ParseNatToString(i + 1);
      FieldParts(d);
      "Field " + d
  }

  lemma FieldParts(d: string)
    ensures ("Field " + d)[..6] == "Field " && ("Field " + d)[6..] == d
  {
  }

  /** The bullet line of one cell. */
  function ItemLine(headers: seq<string>, i: nat, cell: string): string {
    "- **" + Label(headers, i) + "**: " + CleanText(cell)
  }

  /** The bullet lines of one row, one per cell in order. */
  function RowItems(headers: seq<string>, row: seq<string>): (items: seq<string>)
    ensures |items| == |row|
    ensures forall i :: 0 <= i < |row| ==> items[i] == ItemLine(headers, i, row[i])
  {
    seq(|row|, i requires 0 <= i < |row| => ItemLine(headers, i, row[i]))
  }

  /** One row's block: its bullet lines joined by `\n`, then `\n`. */
  function RowBlock(headers: seq<string>, row: seq<string>): string {
    Join(RowItems(headers, row), "\n") + "\n"
  }

  /** The blocks of all rows, in order. */
  function RowBlocks(headers: seq<string>, rows: seq<seq<string>>): (blocks: seq<string>)
    ensures |blocks| == |rows|
    ensures forall r :: 0 <= r < |rows| ==> blocks[r] == RowBlock(headers, rows[r])
  {
    seq(|rows|, r requires 0 <= r < |rows| => RowBlock(headers, rows[r]))
  }

  /**
   * `TableFormatter.format_table`: each row becomes a block of
   * `- **label**: cleaned` lines; blocks are joined by `\n` and one more
   * `\n` ends the text.
   */
  method FormatTable(headers: seq<string>, rows: seq<seq<string>>) returns (out: string)
    ensures out == Join(RowBlocks(headers, rows), "\n") + "\n"
  {
    var formatted: seq<string> := [];
    for r := 0 to |rows|
      invariant |formatted| == r
      invariant forall k :: 0 <= k < r ==> formatted[k] == RowBlock(headers, rows[k])
    {
      var block := FormatRow(headers, rows[r]);
      formatted := formatted + [block];
    }
    BlocksPointwise(headers, rows, formatted);
    out := Join(formatted, "\n") + "\n";
  }

  /** The inner loop of `format_table`: one row's block. */
  method FormatRow(headers: seq<string>, row: seq<string>) returns (block: string)
    ensures block == RowBlock(headers, row)
  {
    var item: seq<string> := [];
    for i := 0 to |row|
      invariant |item| == i
      invariant forall k :: 0 <= k < i ==> item[k] == ItemLine(headers, k, row[k])
    {
      var line := FormatItem(headers, i, row[i]);
      item := item + [line];
    }
    ItemsPointwise(headers, row, item);
    block := Join(item, "\n") + "\n";
  }

  method FormatItem(headers: seq<string>, i: nat, cell: string) returns (line: string)
    ensures line == ItemLine(headers, i, cell)
  {
    var header := Label(headers, i);
    var cleaned := CleanText(cell);
    ItemLineParts(headers, i, cell, header, cleaned);
    line := "- **" + header + "**: " + cleaned;
  }

  /** A label is one line when the headers are: `Field <n>` holds only a word, a space and digits. */
  lemma LabelIsOneLine(headers: seq<string>, i: nat)
    requires forall k :: 0 <= k < |headers| ==> '\n' !in headers[k]
    ensures '\n' !in Label(headers, i)
  {
    if i >= |headers| {
      var d := NatToString(i + 1);
      assert forall k :: 0 <= k < |d| ==> d[k] != '\n';
      assert '\n' !in "Field ";
    }
  }

  /**
   * Each cell gives exactly one line: `- **label**: ` and the cleaned cell,
   * with no line break inside (cleaning squeezes every whitespace run to one space).
   */
  lemma ItemLineIsOneLine(headers: seq<string>, i: nat, cell: string)
    requires '\n' !in Label(headers, i)
    ensures var line := ItemLine(headers, i, cell); var p := "- **" + Label(headers, i) + "**: ";
      && '\n' !in line
      && |line| >= |p| && line[..|p|] == p
  {
    var c := CleanText(cell);
    SqueezedIsOneLine(c);
    var p := "- **" + Label(headers, i) + "**: ";
    LineParts(p, c);
  }

  /** A squeezed text holds no line break: its only whitespace is single spaces. */
  lemma SqueezedIsOneLine(c: string)
    requires Squeezed(c)
    ensures forall k :: 0 <= k < |c| ==> c[k] != '\n'
  {
    forall k | 0 <= k < |c|
      ensures c[k] != '\n'
    {
      if c[k] == '\n' {
        assert IsSpace(c[k]);
      }
    }
  }

  lemma LineParts(p: string, c: string)
    requires '\n' !in p && forall k :: 0 <= k < |c| ==> c[k] != '\n'
    ensures '\n' !in p + c && (p + c)[..|p|] == p
  {
  }

  /**
   * With one-line headers every bullet of a row is a single line, so the
   * row's block (`RowBlockAsLines`) holds exactly one line per cell.
   */
  lemma RowItemsAreLines(headers: seq<string>, row: seq<string>)
    requires forall k :: 0 <= k < |headers| ==> '\n' !in headers[k]
    ensures forall k :: 0 <= k < |row| ==> '\n' !in RowItems(headers, row)[k]
  {
    forall k | 0 <= k < |row|
      ensures '\n' !in RowItems(headers, row)[k]
    {
      LabelIsOneLine(headers, k);
      ItemLineIsOneLine(headers, k, row[k]);
    }
  }

  lemma ItemLineParts(headers: seq<string>, i: nat, cell: string, header: string, cleaned: string)
    requires header == Label(headers, i) && cleaned == CleanText(cell)
    ensures ItemLine(headers, i, cell) == "- **" + header + "**: " + cleaned
  {
  }

  lemma ItemsPointwise(headers: seq<string>, row: seq<string>, items: seq<string>)
    requires |items| == |row| && forall k :: 0 <= k < |row| ==> items[k] == ItemLine(headers, k, row[k])
    ensures items == RowItems(headers, row)
  {
  }

  lemma BlocksPointwise(headers: seq<string>, rows: seq<seq<string>>, blocks: seq<string>)
    requires |blocks| == |rows| && forall k :: 0 <= k < |rows| ==> blocks[k] == RowBlock(headers, rows[k])
    ensures blocks == RowBlocks(headers, rows)
  {
  }

  /** The lines a row contributes: its bullets, or one empty line for a row without cells. */
  function RowLines(headers: seq<string>, row: seq<string>): seq<string> {
    if row == [] then [""] else RowItems(headers, row)
  }

  /** The table, line by line: each row's lines followed by a blank separator line. */
  function TableLines(headers: seq<string>, rows: seq<seq<string>>): seq<string>
    decreases |rows|
  {
    if rows == [] then [] else RowLines(headers, rows[0]) + [""] + TableLines(headers, rows[1..])
  }

  /**
   * The layout `format_table` produces: one bullet line per cell, rows in
   * order, each row followed by a blank line; without rows, a single `\n`.
   */
  lemma TableLayout(headers: seq<string>, rows: seq<seq<string>>)
    ensures rows == [] ==> Join(RowBlocks(headers, rows), "\n") + "\n" == "\n"
    ensures rows != [] ==> Join(RowBlocks(headers, rows), "\n") + "\n" == UnLines(TableLines(headers, rows))
  {
    if rows != [] {
      JoinThenNewline(RowBlocks(headers, rows));
      BlocksAsLines(headers, rows);
    }
  }

  lemma {:induction false} BlocksAsLines(headers: seq<string>, rows: seq<seq<string>>)
    ensures UnLines(RowBlocks(headers, rows)) == UnLines(TableLines(headers, rows))
    decreases |rows|
  {
    if rows != [] {
      var blocks := RowBlocks(headers, rows);
      RowBlocksTail(headers, rows);
      BlocksAsLines(headers, rows[1..]);
      RowBlockAsLines(headers, rows[0]);
      ConsLines(blocks, RowLines(headers, rows[0]), TableLines(headers, rows[1..]));
    }
  }

  lemma RowBlocksTail(headers: seq<string>, rows: seq<seq<string>>)
    requires rows != []
    ensures RowBlocks(headers, rows)[1..] == RowBlocks(headers, rows[1..])
  {
  }

  /** A block of lines then a blank line, in front of the rest. */
  lemma ConsLines(blocks: seq<string>, lines: seq<string>, restLines: seq<string>)
    requires |blocks| > 0 && blocks[0] == UnLines(lines) && UnLines(blocks[1..]) == UnLines(restLines)
    ensures UnLines(blocks) == UnLines(lines + [""] + restLines)
  {
    UnLinesAppend(lines + [""], restLines);
    UnLinesAppend(lines, [""]);
    assert UnLines([""]) == "\n";
  }

  lemma RowBlockAsLines(headers: seq<string>, row: seq<string>)
    ensures RowBlock(headers, row) == UnLines(RowLines(headers, row))
  {
    if row != [] {
      JoinThenNewline(RowItems(headers, row));
    }
  }
}
