/**
 * `HtmlHandler._clean_markdown` (src/url2md/handlers/html_handler.py): a
 * fixed chain of `re.sub` rewrites, then `strip()`.
 *
 * Every pattern of the chain matches at least one character, so `re.sub`
 * is a left-to-right scan: at each position the pattern is tried, a match
 * is replaced and the scan resumes after it, otherwise the character is
 * copied. Each pattern is a matcher returning the end of its match at a
 * position, with the regex engine's backtracking worked out by hand (see
 * each matcher's comment).
 */
module MarkdownCleanup {
  import opened Text

  /** The rewrites of the chain, in the order they are applied. */
  datatype Rule =
    | HeadingGap    // (\n#+\s.*?)(\n(?!\n))  ->  \1\n\n\2
    | ListGap       // (\n-\s.*?)(\n(?!\n))   ->  \1\n\n\2
    | FenceWrap     // (```.*?\n.*?```), DOTALL  ->  \n\n\1\n\n
    | Strong        // <strong>([^<]+)</strong>  ->  **\1**
    | Em            // <em>([^<]+)</em>  ->  *\1*
    | HeadingBreak  // (#+\s.*?\n)  ->  \1\n\n
    | ListBreak     // (-\s.*?\n)  ->  \1\n\n
    | FenceBreak3   // (```.*?```\n), DOTALL  ->  \1\n\n\n
    | FenceBreak2   // (```.*?```\n), DOTALL  ->  \1\n\n
    | BlankRuns     // \n{4,}  ->  \n\n

  // --------------------------------------------------------------- scanning

  /** The end of the run of `c` starting at `i`. */
  function RunEnd(s: string, i: nat, c: char): (e: nat)
    requires i <= |s|
    ensures i <= e <= |s|
    ensures forall k :: i <= k < e ==> s[k] == c
    ensures e < |s| ==> s[e] != c
    decreases |s| - i
  {
    if i == |s| || s[i] != c then i else RunEnd(s, i + 1, c)
  }

  /** The first position at or after `i` holding `c`, or `|s|`. */
  function NextChar(s: string, i: nat, c: char): (e: nat)
    requires i <= |s|
    ensures i <= e <= |s|
    ensures forall k :: i <= k < e ==> s[k] != c
    ensures e < |s| ==> s[e] == c
    decreases |s| - i
  {
    if i == |s| || s[i] == c then i else NextChar(s, i + 1, c)
  }

  /** The first position at or after `i` where `pat` occurs, or `|s|`. */
  function NextOccurrence(s: string, i: nat, pat: string): (e: nat)
    requires i <= |s|
    ensures i <= e <= |s|
    ensures forall k :: i <= k < e ==> !OccursAt(s, pat, k)
    ensures e < |s| ==> OccursAt(s, pat, e)
    decreases |s| - i
  {
    if i == |s| || OccursAt(s, pat, i) then i else NextOccurrence(s, i + 1, pat)
  }

  // --------------------------------------------------------------- matchers

  /**
   * `\n#+\s.*?\n(?!\n)` and `\n-\s.*?\n(?!\n)`: after the marker comes one
   * whitespace character (giving back a `#` never helps: `\s` would then face
   * a `#`); the lazy `.*?` stops at the first newline, and since `.` cannot
   * cross a newline, the match fails when a second newline follows it.
   */
  function GapMatch(s: string, i: nat, hashes: bool): (m: Option<nat>)
    requires i <= |s|
    ensures m.Some? ==> i < m.value <= |s|
  {
    if i + 1 >= |s| || s[i] != '\n' then None
    else
      var h := if hashes then RunEnd(s, i + 1, '#') else if s[i + 1] == '-' then i + 2 else i + 1;
      if h == i + 1 || h >= |s| || !IsSpace(s[h]) then None
      else
        var e := NextChar(s, h + 1, '\n');
        if e < |s| && (e + 1 == |s| || s[e + 1] != '\n') then Some(e + 1) else None
  }

  /**
   * `#+\s.*?\n` and `-\s.*?\n`: the marker, one whitespace character, then
   * everything up to and including the next newline.
   */
  function BreakMatch(s: string, i: nat, hashes: bool): (m: Option<nat>)
    requires i <= |s|
    ensures m.Some? ==> i < m.value <= |s|
  {
    if i == |s| then None
    else
      var h := if hashes then RunEnd(s, i, '#') else if s[i] == '-' then i + 1 else i;
      if h == i || h >= |s| || !IsSpace(s[h]) then None
      else
        var e := NextChar(s, h + 1, '\n');
        if e < |s| then Some(e + 1) else None
  }

  /**
   * "```.*?\n.*?```" with `.` matching newlines: the first newline after the
   * opening fence, then the first fence after that newline. When no fence
   * follows the first newline, none follows a later one either.
   */
  function FenceWrapMatch(s: string, i: nat): (m: Option<nat>)
    requires i <= |s|
    ensures m.Some? ==> i < m.value <= |s|
  {
    if !OccursAt(s, "```", i) then None
    else
      var a := NextChar(s, i + 3, '\n');
      if a == |s| then None
      else
        var b := NextOccurrence(s, a + 1, "```");
        if b < |s| then Some(b + 3) else None
  }

  /** "```.*?```\n" with `.` matching newlines: up to the first "```\n" after the opening fence. */
  function FenceBreakMatch(s: string, i: nat): (m: Option<nat>)
    requires i <= |s|
    ensures m.Some? ==> i < m.value <= |s|
  {
    if !OccursAt(s, "```", i) then None
    else
      var b := NextOccurrence(s, i + 3, "```\n");
      if b < |s| then Some(b + 4) else None
  }

  /**
   * `<tag>([^<]+)</tag>`: the greedy `[^<]+` runs to the first `<`, and only
   * there can the closing tag start, so backtracking never finds another end.
   */
  function TagMatch(s: string, i: nat, open: string, close: string): (m: Option<nat>)
    requires i <= |s|
    ensures m.Some? ==> i < m.value <= |s|
  {
    if !OccursAt(s, open, i) then None
    else
      var r := NextChar(s, i + |open|, '<');
      if r > i + |open| && OccursAt(s, close, r) && |close| > 0 then Some(r + |close|) else None
  }

  /** `\n{4,}`: the whole run of newlines, when it has at least four. */
  function BlankRunMatch(s: string, i: nat): (m: Option<nat>)
    requires i <= |s|
    ensures m.Some? ==> i < m.value <= |s|
  {
    var e := RunEnd(s, i, '\n');
    if e - i >= 4 then Some(e) else None
  }

  /** The end of the match of `rule` at `i`, if it matches there. */
  function Match(rule: Rule, s: string, i: nat): (m: Option<nat>)
    requires i <= |s|
    ensures m.Some? ==> i < m.value <= |s|
    ensures m.Some? && rule == BlankRuns ==> forall k :: i <= k < m.value ==> s[k] == '\n'
  {
    match rule
    case HeadingGap => GapMatch(s, i, true)
    case ListGap => GapMatch(s, i, false)
    case FenceWrap => FenceWrapMatch(s, i)
    case Strong => TagMatch(s, i, "<strong>", "</strong>")
    case Em => TagMatch(s, i, "<em>", "</em>")
    case HeadingBreak => BreakMatch(s, i, true)
    case ListBreak => BreakMatch(s, i, false)
    case FenceBreak3 => FenceBreakMatch(s, i)
    case FenceBreak2 => FenceBreakMatch(s, i)
    case BlankRuns => BlankRunMatch(s, i)
  }

  /** The replacement text for the match `s[i..j]`. */
  function Replacement(rule: Rule, s: string, i: nat, j: nat): string
    requires i < j <= |s|
  {
    match rule
    case HeadingGap => s[i..j - 1] + "\n\n" + s[j - 1..j]
    case ListGap => s[i..j - 1] + "\n\n" + s[j - 1..j]
    case FenceWrap => "\n\n" + s[i..j] + "\n\n"
    case Strong => if i + 8 <= j - 9 then "**" + s[i + 8..j - 9] + "**" else s[i..j]
    case Em => if i + 4 <= j - 5 then "*" + s[i + 4..j - 5] + "*" else s[i..j]
    case HeadingBreak => s[i..j] + "\n\n"
    case ListBreak => s[i..j] + "\n\n"
    case FenceBreak3 => s[i..j] + "\n\n\n"
    case FenceBreak2 => s[i..j] + "\n\n"
    case BlankRuns => "\n\n"
  }

  /** Where the scan goes on after position `i`: past the match, or past the copied character. */
  function Next(rule: Rule, s: string, i: nat): (j: nat)
    requires i < |s|
    ensures i < j <= |s|
  {
    var m := Match(rule, s, i);
    if m.Some? then m.value else i + 1
  }

  /** What the scan emits at position `i`: the replacement of the match, or the character itself. */
  function Piece(rule: Rule, s: string, i: nat): string
    requires i < |s|
  {
    var m := Match(rule, s, i);
    if m.Some? then Replacement(rule, s, i, m.value) else [s[i]]
  }

  /** `re.sub` of `rule` over `s[i..]`. */
  function Sub(rule: Rule, s: string, i: nat): string
    requires i <= |s|
    decreases |s| - i
  {
    if i == |s| then [] else Piece(rule, s, i) + Sub(rule, s, Next(rule, s, i))
  }

  function Apply(rule: Rule, s: string): string {
    Sub(rule, s, 0)
  }

  /** `HtmlHandler._clean_markdown` */
  function CleanMarkdown(markdown: string): (r: string)
    ensures Stripped(r) && NoFourNewlines(r)
  {
    StripKeepsNoFour(Rewritten(markdown));
    Strip(Rewritten(markdown))
  }

  /** The eleven substitutions of `_clean_markdown`, in order, before the final strip. */
  function Rewritten(markdown: string): (r: string)
    ensures NoFourNewlines(r)
  {
    var a := Apply(ListGap, Apply(HeadingGap, markdown));
    var b := Apply(Em, Apply(Strong, Apply(FenceWrap, a)));
    var c := Apply(FenceBreak3, Apply(ListBreak, Apply(HeadingBreak, b)));
    var d := Apply(FenceBreak2, Apply(HeadingBreak, c));
    BlankRunsLeaveNoFour(d, 0);
    Apply(BlankRuns, d)
  }

  // ------------------------------------------------------- blank-line runs

  predicate FourNewlinesAt(t: string, k: nat)
    requires k + 3 < |t|
  {
    t[k] == '\n' && t[k + 1] == '\n' && t[k + 2] == '\n' && t[k + 3] == '\n'
  }

  /** No four newlines in a row, that is, at most two blank lines in a row. */
  predicate NoFourNewlines(t: string) {
    forall k :: 0 <= k && k + 3 < |t| ==> !FourNewlinesAt(t, k)
  }

  /** The number of newlines `t` starts with. */
  function LeadingNewlines(t: string): nat {
    if t != [] && t[0] == '\n' then 1 + LeadingNewlines(t[1..]) else 0
  }

  lemma ConsNoFour(c: char, t: string)
    requires NoFourNewlines(t)
    requires c == '\n' ==> LeadingNewlines(t) <= 2
    ensures NoFourNewlines([c] + t)
    ensures LeadingNewlines([c] + t) == if c == '\n' then 1 + LeadingNewlines(t) else 0
  {
    var u := [c] + t;
    assert u[1..] == t;
    if c == '\n' && |t| >= 3 && t[0] == '\n' && t[1] == '\n' {
      assert LeadingNewlines(t) == 2 + LeadingNewlines(t[2..]);
      assert t[2..][0] == t[2];
    }
    assert forall k :: 1 <= k && k + 3 < |u| ==> (FourNewlinesAt(u, k) <==> FourNewlinesAt(t, k - 1));
  }

  /**
   * The scan of `\n{4,}` from `i` leaves no four newlines in a row, and
   * starts with no more newlines than the input's run at `i`, and at most three.
   */
  lemma {:induction false} BlankRunsLeaveNoFour(s: string, i: nat)
    requires i <= |s|
    ensures var o := Sub(BlankRuns, s, i);
      NoFourNewlines(o) && LeadingNewlines(o) <= 3 && LeadingNewlines(o) <= RunEnd(s, i, '\n') - i
    decreases |s| - i
  {
    if i < |s| {
      var e := RunEnd(s, i, '\n');
      if e - i >= 4 {
        BlankRunsLeaveNoFour(s, e);
        assert RunEnd(s, e, '\n') == e;
        var rest := Sub(BlankRuns, s, e);
        ConsNoFour('\n', rest);
        ConsNoFour('\n', ['\n'] + rest);
        assert "\n\n" + rest == ['\n'] + (['\n'] + rest);
      } else {
        BlankRunsLeaveNoFour(s, i + 1);
        var rest := Sub(BlankRuns, s, i + 1);
        assert s[i] == '\n' ==> RunEnd(s, i + 1, '\n') == e;
        ConsNoFour(s[i], rest);
      }
    }
  }

  /** `strip()` cannot create a run of newlines. */
  lemma StripKeepsNoFour(s: string)
    requires NoFourNewlines(s)
    ensures NoFourNewlines(Strip(s))
  {
    var t := TrimStart(s);
    TrimStartKeepsNoFour(s);
    var r := TrimEnd(t);
    assert forall k :: 0 <= k && k + 3 < |r| ==> (FourNewlinesAt(r, k) <==> FourNewlinesAt(t, k));
  }

  lemma {:induction false} TrimStartKeepsNoFour(s: string)
    requires NoFourNewlines(s)
    ensures NoFourNewlines(TrimStart(s))
    decreases |s|
  {
    if |s| > 0 && IsSpace(s[0]) {
      var t := s[1..];
      assert forall k :: 0 <= k && k + 3 < |t| ==> (FourNewlinesAt(t, k) <==> FourNewlinesAt(s, k + 1));
      TrimStartKeepsNoFour(t);
    }
  }

  // ------------------------------------------------------ bold and italics

  /** `<strong>x</strong>` becomes `**x**` when `x` is not empty and has no `<`. */
  lemma StrongToBold(x: string)
    requires x != [] && '<' !in x
    ensures Apply(Strong, "<strong>" + x + "</strong>") == "**" + x + "**"
  {
    TagRewrite(x, "<strong>", "</strong>", Strong, "**");
  }

  /** `<em>x</em>` becomes `*x*` when `x` is not empty and has no `<`. */
  lemma EmToItalic(x: string)
    requires x != [] && '<' !in x
    ensures Apply(Em, "<em>" + x + "</em>") == "*" + x + "*"
  {
    TagRewrite(x, "<em>", "</em>", Em, "*");
  }

  lemma TagRewrite(x: string, open: string, close: string, rule: Rule, mark: string)
    requires x != [] && '<' !in x
    requires (rule == Strong && open == "<strong>" && close == "</strong>" && mark == "**")
          || (rule == Em && open == "<em>" && close == "</em>" && mark == "*")
    ensures Apply(rule, open + x + close) == mark + x + mark
  {
    var s := open + x + close;
    var e := |open| + |x|;
    TagShape(open, x, close);
    NextCharAt(s, |open|, e, '<');
    assert Match(rule, s, 0) == Some(|s|);
    assert Piece(rule, s, 0) == mark + x + mark;
    assert Sub(rule, s, |s|) == [];
    assert Sub(rule, s, 0) == mark + x + mark + [];
  }

  lemma TagShape(open: string, x: string, close: string)
    requires '<' !in x && close != [] && close[0] == '<'
    ensures var s := open + x + close; var n := |open|;
      && OccursAt(s, open, 0) && OccursAt(s, close, n + |x|) && s[n..n + |x|] == x
      && (forall k :: n <= k < n + |x| ==> s[k] != '<') && s[n + |x|] == '<'
  {
    var s := open + x + close;
    var n := |open|;
    assert forall k :: n <= k < n + |x| ==> s[k] == x[k - n];
  }

  lemma NextCharAt(s: string, i: nat, e: nat, c: char)
    requires i <= e < |s| && s[e] == c
    requires forall k :: i <= k < e ==> s[k] != c
    ensures NextChar(s, i, c) == e
  {
  }

  // --------------------------------------------------- only line breaks added

  /** `s` without its newlines. */
  function Squash(s: string): (r: string)
    ensures '\n' !in r
  {
    if s == [] then [] else (if s[0] == '\n' then [] else [s[0]]) + Squash(s[1..])
  }

  lemma {:induction false} SquashAppend(a: string, b: string)
    ensures Squash(a + b) == Squash(a) + Squash(b)
    decreases |a|
  {
    if a != [] {
      assert (a + b)[1..] == a[1..] + b;
      SquashAppend(a[1..], b);
    } else {
      assert a + b == b;
    }
  }

  /** The rules that only insert or remove newlines. */
  predicate Spacing(rule: Rule) {
    rule != Strong && rule != Em
  }

  /**
   * The spacing rules change nothing but line breaks: with the newlines
   * taken out, the text is the same before and after.
   */
  lemma {:induction false} SpacingKeepsText(rule: Rule, s: string, i: nat)
    requires Spacing(rule) && i <= |s|
    ensures Squash(Sub(rule, s, i)) == Squash(s[i..])
    decreases |s| - i
  {
    if i < |s| {
      var j := Next(rule, s, i);
      SpacingKeepsText(rule, s, j);
      PieceKeepsText(rule, s, i);
      SquashAppend(Piece(rule, s, i), Sub(rule, s, j));
      SquashSplit(s, i, j);
    }
  }

  lemma SquashSplit(s: string, i: nat, j: nat)
    requires i <= j <= |s|
    ensures Squash(s[i..]) == Squash(s[i..j]) + Squash(s[j..])
  {
    assert s[i..] == s[i..j] + s[j..];
    SquashAppend(s[i..j], s[j..]);
  }

  lemma PieceKeepsText(rule: Rule, s: string, i: nat)
    requires Spacing(rule) && i < |s|
    ensures Squash(Piece(rule, s, i)) == Squash(s[i..Next(rule, s, i)])
  {
    var m := Match(rule, s, i);
    if m.Some? {
      ReplacementKeepsText(rule, s, i, m.value);
    } else {
      assert s[i..i + 1] == [s[i]];
    }
  }

  lemma ReplacementKeepsText(rule: Rule, s: string, i: nat, j: nat)
    requires Spacing(rule) && i < j <= |s|
    requires rule == BlankRuns ==> forall k :: i <= k < j ==> s[k] == '\n'
    ensures Squash(Replacement(rule, s, i, j)) == Squash(s[i..j])
  {
    if rule == HeadingGap || rule == ListGap {
      GapKeepsText(rule, s, i, j);
    } else if rule == FenceWrap {
      WrapKeepsText(s, i, j);
    } else if rule == BlankRuns {
      SquashOfNewlines(s[i..j]);
      SquashOfNewlines("\n\n");
    } else {
      BreakKeepsText(rule, s, i, j);
    }
  }

  lemma GapKeepsText(rule: Rule, s: string, i: nat, j: nat)
    requires (rule == HeadingGap || rule == ListGap) && i < j <= |s|
    ensures Squash(Replacement(rule, s, i, j)) == Squash(s[i..j])
  {
    assert s[i..j] == s[i..j - 1] + s[j - 1..j];
    InsertKeepsText(s[i..j - 1], "\n\n", s[j - 1..j]);
  }

  lemma WrapKeepsText(s: string, i: nat, j: nat)
    requires i < j <= |s|
    ensures Squash(Replacement(FenceWrap, s, i, j)) == Squash(s[i..j])
  {
    var w := s[i..j];
    SquashAppend("\n\n" + w, "\n\n");
    SquashAppend("\n\n", w);
    SquashOfNewlines("\n\n");
  }

  lemma BreakKeepsText(rule: Rule, s: string, i: nat, j: nat)
    requires rule in {HeadingBreak, ListBreak, FenceBreak3, FenceBreak2} && i < j <= |s|
    ensures Squash(Replacement(rule, s, i, j)) == Squash(s[i..j])
  {
    var w := s[i..j];
    var nl := if rule == FenceBreak3 then "\n\n\n" else "\n\n";
    assert Replacement(rule, s, i, j) == w + nl;
    SquashAppend(w, nl);
    SquashOfNewlines(nl);
    assert Squash(w) + [] == Squash(w);
  }

  /** Inserting newlines between `a` and `b` leaves the text as it was. */
  lemma InsertKeepsText(a: string, nl: string, b: string)
    requires forall k :: 0 <= k < |nl| ==> nl[k] == '\n'
    ensures Squash(a + nl + b) == Squash(a + b)
  {
    SquashAppend(a + nl, b);
    SquashAppend(a, nl);
    SquashOfNewlines(nl);
    SquashAppend(a, b);
  }

  lemma {:induction false} SquashOfNewlines(w: string)
    requires forall k :: 0 <= k < |w| ==> w[k] == '\n'
    ensures Squash(w) == []
    decreases |w|
  {
    if w != [] {
      SquashOfNewlines(w[1..]);
    }
  }

  // ------------------------------------------------- markdown without tags

  /**
   * On markdown with no `<` the tag rules find nothing, so the whole chain
   * only inserts and removes line breaks: without its newlines the result
   * reads exactly as the input did.
   */
  lemma RewrittenKeepsText(markdown: string)
    requires '<' !in markdown
    ensures Squash(Rewritten(markdown)) == Squash(markdown)
  {
    var m0 := Apply(HeadingGap, markdown);
    SpacingStep(HeadingGap, markdown);
    var a := Apply(ListGap, m0);
    SpacingStep(ListGap, m0);
    var b0 := Apply(FenceWrap, a);
    SpacingStep(FenceWrap, a);
    SquashKeepsChar(markdown, '<');
    SquashKeepsChar(b0, '<');
    TagStep(Strong, b0);
    TagStep(Em, b0);
    var b := b0;
    var c0 := Apply(HeadingBreak, b);
    SpacingStep(HeadingBreak, b);
    var c1 := Apply(ListBreak, c0);
    SpacingStep(ListBreak, c0);
    var c := Apply(FenceBreak3, c1);
    SpacingStep(FenceBreak3, c1);
    var d0 := Apply(HeadingBreak, c);
    SpacingStep(HeadingBreak, c);
    var d := Apply(FenceBreak2, d0);
    SpacingStep(FenceBreak2, d0);
    SpacingStep(BlankRuns, d);
  }

  lemma SpacingStep(rule: Rule, s: string)
    requires Spacing(rule)
    ensures Squash(Apply(rule, s)) == Squash(s)
  {
    SpacingKeepsText(rule, s, 0);
    assert s[0..] == s;
  }

  lemma TagStep(rule: Rule, s: string)
    requires !Spacing(rule) && '<' !in s
    ensures Apply(rule, s) == s
  {
    TagFreeUnchanged(rule, s, 0);
    assert s[0..] == s;
  }

  /** A tag rule copies a text without `<` unchanged: every tag starts with one. */
  lemma {:induction false} TagFreeUnchanged(rule: Rule, s: string, i: nat)
    requires !Spacing(rule) && '<' !in s && i <= |s|
    ensures Sub(rule, s, i) == s[i..]
    decreases |s| - i
  {
    if i < |s| {
      assert Match(rule, s, i).None?;
      TagFreeUnchanged(rule, s, i + 1);
      assert s[i..] == [s[i]] + s[i + 1..];
    }
  }

  /** Taking out the newlines keeps every other character present or absent. */
  lemma {:induction false} SquashKeepsChar(s: string, c: char)
    requires c != '\n'
    ensures c in s <==> c in Squash(s)
    decreases |s|
  {
    if s != [] {
      SquashKeepsChar(s[1..], c);
      assert s == [s[0]] + s[1..];
    }
  }
}
