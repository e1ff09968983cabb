/**
 * Splitting flat Markdown at level-1 headings
 * (`MarkdownSplitter` in src/url2md/utils/markdown_splitter.py).
 *
 * A heading is a match of `^#\s+(.+)$` in multi-line mode. The matcher below
 * follows Python's leftmost-first backtracking semantics: `^` holds at the
 * start of the text and after every `\n`; `\s` also matches `\n`, so the
 * whitespace after `#` may span lines; `.` matches anything but `\n`; `$`
 * holds before every `\n` and at the end.
 */
module MarkdownSplitter {
  import opened Text
  import opened Sanitizer

  // ------------------------------------------------------------ the matcher

  /** `^` in multi-line mode. */
  predicate LineStart(s: string, p: nat) {
    p == 0 || (0 < p <= |s| && s[p - 1] == '\n')
  }

  /** End of the whitespace run starting at `i` (what a greedy `\s+` takes). */
  function SpaceRunEnd(s: string, i: nat): (k: nat)
    requires i <= |s|
    ensures i <= k <= |s| && AllSpace(s[i..k])
    ensures k < |s| ==> !IsSpace(s[k])
    decreases |s| - i
  {
    if i < |s| && IsSpace(s[i]) then SpaceRunEnd(s, i + 1) else i
  }

  /** Where a greedy `.+` starting at `i` stops: the next `\n`, or the end. */
  function LineEnd(s: string, i: nat): (e: nat)
    requires i <= |s|
    ensures i <= e <= |s| && Excludes(s[i..e], '\n')
    ensures e < |s| ==> s[e] == '\n'
    decreases |s| - i
  {
    if i == |s| || s[i] == '\n' then i else LineEnd(s, i + 1)
  }

  /** The largest `m` with `lo <= m < hi` and `s[m] != '\n'`, if any. */
  function LastNonNewline(s: string, lo: nat, hi: nat): (m: Option<nat>)
    requires lo <= hi <= |s|
    ensures m.Some? ==> lo <= m.value < hi && s[m.value] != '\n'
    ensures m.Some? ==> forall j :: m.value < j < hi ==> s[j] == '\n'
    ensures m.None? ==> forall j :: lo <= j < hi ==> s[j] == '\n'
    decreases hi - lo
  {
    if lo == hi then None
    else if s[hi - 1] != '\n' then Some(hi - 1)
    else LastNonNewline(s, lo, hi - 1)
  }

  /**
   * Where the group `(.+)` starts when `#\s+(.+)$` matches at `i`, or `None`.
   * The greedy `\s+` first takes the whole whitespace run; only when that run
   * reaches the end of the text does it give characters back, until `.+` can
   * start on a character other than `\n`.
   */
  function GroupStart(s: string, i: nat): Option<nat>
    requires i < |s|
  {
    if s[i] != '#' then None
    else
      var k := SpaceRunEnd(s, i + 1);
      if k == i + 1 then None
      else if k < |s| then Some(k)
      else LastNonNewline(s, i + 2, k)
  }

  /**
   * The regex read declaratively: `#` at `i`, then a non-empty whitespace run
   * `s[i+1..g]`, then a character other than `\n` at `g` where `.+` begins.
   */
  predicate SplitsAt(s: string, i: nat, g: nat) {
    && i < |s| && s[i] == '#'
    && i + 2 <= g < |s|
    && AllSpace(s[i + 1..g])
    && s[g] != '\n'
  }

  /**
   * The matcher picks exactly the split a backtracking engine finds first:
   * the one with the longest `\s+`; it fails exactly when no split exists.
   */
  lemma GroupStartIsLongestSplit(s: string, i: nat)
    requires i < |s|
    ensures GroupStart(s, i).Some? ==>
      SplitsAt(s, i, GroupStart(s, i).value)
      && forall g: nat :: SplitsAt(s, i, g) ==> g <= GroupStart(s, i).value
    ensures GroupStart(s, i).None? ==> forall g: nat :: !SplitsAt(s, i, g)
  {
    if s[i] == '#' {
      var k := SpaceRunEnd(s, i + 1);
      forall g: nat | SplitsAt(s, i, g)
        ensures g <= k
      {
        RunCoversSpaces(s, i + 1, g);
      }
      if k == i + 1 {
      } else if k < |s| {
        assert s[k] != '\n' by {
          assert !IsSpace(s[k]);
        }
      } else {
        var m := LastNonNewline(s, i + 2, k);
        if m.Some? {
          AllSpacePrefix(s[i + 1..k], m.value - i - 1);
          assert s[i + 1..k][..m.value - i - 1] == s[i + 1..m.value];
        }
      }
    }
  }

  lemma AllSpacePrefix(t: string, n: nat)
    requires AllSpace(t) && n <= |t|
    ensures AllSpace(t[..n])
  {
  }

  /** A greedy `\s+` takes at least every whitespace run that starts where it does. */
  lemma {:induction false} RunCoversSpaces(s: string, i: nat, g: nat)
    requires i <= g <= |s| && AllSpace(s[i..g])
    ensures g <= SpaceRunEnd(s, i)
    decreases g - i
  {
    if i < g {
      assert s[i] == s[i..g][0];
      assert s[i + 1..g] == s[i..g][1..];
      RunCoversSpaces(s, i + 1, g);
    }
  }

  /** One heading match: where it starts, where its group starts, where it ends. */
  datatype H1Match = H1Match(start: nat, groupStart: nat, end: nat)

  /** What every match of the heading pattern looks like in `s`. */
  predicate IsMatch(s: string, m: H1Match) {
    && m.start < |s| && LineStart(s, m.start)
    && GroupStart(s, m.start) == Some(m.groupStart)
    && m.end == LineEnd(s, m.groupStart)
    && m.start + 2 <= m.groupStart < m.end <= |s|
  }

  /** Matches in increasing order, not overlapping, all at or after `p`. */
  predicate Ordered(s: string, ms: seq<H1Match>, p: nat) {
    && (forall k :: 0 <= k < |ms| ==> IsMatch(s, ms[k]) && p <= ms[k].start)
    && (forall k :: 0 <= k < |ms| - 1 ==> ms[k].end <= ms[k + 1].start)
  }

  /** `finditer` from position `p`: try each position in turn, resume after each match. */
  function FindH1From(s: string, p: nat): (ms: seq<H1Match>)
    requires p <= |s|
    ensures Ordered(s, ms, p)
    decreases |s| - p
  {
    if p == |s| then []
    else if LineStart(s, p) && GroupStart(s, p).Some? then
      var g := GroupStart(s, p).value;
      assert p + 2 <= g < |s| by { GroupStartIsLongestSplit(s, p); }
      var e := LineEnd(s, g);
      var rest := FindH1From(s, e);
      var m := H1Match(p, g, e);
      assert IsMatch(s, m);
      [m] + rest
    else FindH1From(s, p + 1)
  }

  /** `H1_PATTERN.finditer(content)` */
  function FindH1(s: string): (ms: seq<H1Match>)
    ensures Ordered(s, ms, 0)
  {
    FindH1From(s, 0)
  }

  /** No match of `ms` has `q` strictly inside it. */
  predicate OutsideMatches(ms: seq<H1Match>, q: nat) {
    forall k :: 0 <= k < |ms| ==> !(ms[k].start < q < ms[k].end)
  }

  /**
   * The scan misses no heading: a line start at or after `p` where the
   * pattern matches, and that no earlier match has consumed, starts a match.
   */
  lemma {:induction false} FindH1FromComplete(s: string, p: nat, q: nat)
    requires p <= q < |s| && LineStart(s, q) && GroupStart(s, q).Some?
    requires OutsideMatches(FindH1From(s, p), q)
    ensures exists k :: 0 <= k < |FindH1From(s, p)| && FindH1From(s, p)[k].start == q
    decreases |s| - p
  {
    if LineStart(s, p) && GroupStart(s, p).Some? {
      var m := FindH1FromHead(s, p);
      var rest := FindH1From(s, m.end);
      if p < q {
        OutsideTail(m, rest, q);
        FindH1FromComplete(s, m.end, q);
        FoundInTail(m, rest, q);
      } else {
        assert FindH1From(s, p)[0].start == q;
      }
    } else {
      FindH1FromComplete(s, p + 1, q);
    }
  }

  /** At a heading line the scan matches there and resumes at the match's end. */
  lemma FindH1FromHead(s: string, p: nat) returns (m: H1Match)
    requires p < |s| && LineStart(s, p) && GroupStart(s, p).Some?
    ensures m.start == p < m.end <= |s|
    ensures FindH1From(s, p) == [m] + FindH1From(s, m.end)
  {
    m := FindH1From(s, p)[0];
  }

  lemma OutsideTail(m: H1Match, rest: seq<H1Match>, q: nat)
    requires OutsideMatches([m] + rest, q)
    ensures !(m.start < q < m.end) && OutsideMatches(rest, q)
  {
    assert ([m] + rest)[0] == m;
    forall k | 0 <= k < |rest|
      ensures !(rest[k].start < q < rest[k].end)
    {
      assert rest[k] == ([m] + rest)[k + 1];
    }
  }

  lemma FoundInTail(m: H1Match, rest: seq<H1Match>, q: nat)
    requires exists k :: 0 <= k < |rest| && rest[k].start == q
    ensures exists k :: 0 <= k < |[m] + rest| && ([m] + rest)[k].start == q
  {
    var k :| 0 <= k < |rest| && rest[k].start == q;
    assert ([m] + rest)[k + 1].start == q;
  }

  /** Every heading line outside the earlier matches is found. */
  lemma FindH1Complete(s: string)
    ensures var ms := FindH1(s);
      forall q :: 0 <= q < |s| && LineStart(s, q) && GroupStart(s, q).Some? && OutsideMatches(ms, q) ==>
        exists k :: 0 <= k < |ms| && ms[k].start == q
  {
    forall q | 0 <= q < |s| && LineStart(s, q) && GroupStart(s, q).Some? && OutsideMatches(FindH1(s), q)
      ensures exists k :: 0 <= k < |FindH1(s)| && FindH1(s)[k].start == q
    {
      FindH1FromComplete(s, 0, q);
    }
  }

  /** The scan finds nothing exactly when no line start admits a match. */
  lemma {:induction false} NoMatchFromIff(s: string, p: nat)
    requires p <= |s|
    ensures FindH1From(s, p) == [] <==>
      forall q :: p <= q < |s| && LineStart(s, q) ==> GroupStart(s, q).None?
    decreases |s| - p
  {
    if p < |s| {
      NoMatchFromIff(s, p + 1);
    }
  }

  /** `H1_PATTERN` finds no heading exactly when no line admits the regex. */
  lemma NoHeadingsIff(s: string)
    ensures FindH1(s) == [] <==>
      forall q: nat, g: nat :: q < |s| && LineStart(s, q) ==> !SplitsAt(s, q, g)
  {
    NoMatchFromIff(s, 0);
    forall q | 0 <= q < |s| && LineStart(s, q)
      ensures GroupStart(s, q).None? <==> forall g: nat :: !SplitsAt(s, q, g)
    {
      GroupStartIsLongestSplit(s, q);
    }
  }

  /** A line that begins `##` never opens a section: the second `#` is not whitespace. */
  lemma DoubleHashNeverHeading(s: string)
    ensures forall m :: m in FindH1(s) ==> s[m.start] == '#' && IsSpace(s[m.start + 1])
  {
    forall m | m in FindH1(s)
      ensures s[m.start] == '#' && IsSpace(s[m.start + 1])
    {
      GroupStartIsLongestSplit(s, m.start);
      assert s[m.start + 1] == s[m.start + 1..m.groupStart][0];
    }
  }

  // ------------------------------------------------------------ the splitter

  datatype SplitError = EmptyContent | NoHeadings

  /** The `ValueError` message of each failure. */
  function Message(e: SplitError): string {
    match e
    case EmptyContent => "Empty Markdown content"
    case NoHeadings => "No H1 headings found in Markdown content"
  }

  datatype SplitResult = Files(files: map<string, string>) | Failed(error: SplitError)

  /** The file name of a heading: `normalize_filename(heading.strip()) + ".md"`. */
  function Key(s: string, m: H1Match): (key: string)
    requires m.groupStart <= m.end <= |s|
    ensures |key| > 3 && key[|key| - 3..] == ".md"
    ensures NoUpper(key) && '.' !in key[..|key| - 3]
  {
    var name := NormalizeFilename(Strip(s[m.groupStart..m.end]));
    KeyParts(name);
    name + ".md"
  }

  lemma KeyParts(name: string)
    requires |name| > 0 && NoUpper(name) && '.' !in name
    ensures var key := name + ".md";
      && |key| > 3 && key[|key| - 3..] == ".md"
      && NoUpper(key) && '.' !in key[..|key| - 3]
  {
    var key := name + ".md";
    assert key[..|key| - 3] == name;
    NoUpperConcat(name, ".md");
  }

  /** Where section `k` ends: the next heading's start, or the end of the text. */
  function SectionEnd(s: string, ms: seq<H1Match>, k: nat): (e: nat)
    requires Ordered(s, ms, 0) && k < |ms|
    ensures ms[k].end <= e <= |s|
  {
    if k + 1 < |ms| then ms[k + 1].start else |s|
  }

  /** The content of section `k`: its heading through the next heading, stripped. */
  function Body(s: string, ms: seq<H1Match>, k: nat): (b: string)
    requires Ordered(s, ms, 0) && k < |ms|
    ensures |b| > 0 && b[0] == '#' && Stripped(b)
  {
    var raw := s[ms[k].start..SectionEnd(s, ms, k)];
    assert raw[0] == '#' by { GroupStartIsLongestSplit(s, ms[k].start); }
    StripKeepsHead(raw);
    Strip(raw)
  }

  /** The file name of every heading, in text order. */
  function Keys(s: string, ms: seq<H1Match>): (ks: seq<string>)
    requires Ordered(s, ms, 0)
  {
    seq(|ms|, k requires 0 <= k < |ms| => Key(s, ms[k]))
  }

  /** The content of every section, in text order. */
  function Bodies(s: string, ms: seq<H1Match>): (bs: seq<string>)
    requires Ordered(s, ms, 0)
  {
    seq(|ms|, k requires 0 <= k < |ms| => Body(s, ms, k))
  }

  /** No later name among the first `n` repeats name `k`. */
  predicate LastOf(names: seq<string>, k: nat, n: nat)
    requires k < n <= |names|
  {
    forall j :: k < j < n ==> names[j] != names[k]
  }

  /**
   * `MarkdownSplitter.split_markdown` without the file writes: blank input
   * and input without a heading fail; otherwise one entry per distinct file
   * name, holding the content of the last section that produced it.
   */
  method SplitMarkdown(content: string) returns (r: SplitResult)
    ensures r == Failed(EmptyContent) <==> Strip(content) == []
    ensures r == Failed(NoHeadings) <==> Strip(content) != [] && FindH1(content) == []
    ensures r.Files? ==> FindH1(content) != []
    ensures r.Files? ==> forall name :: name in r.files <==> name in Keys(content, FindH1(content))
    ensures r.Files? ==> |r.files| <= |FindH1(content)|
    ensures r.Files? ==> forall k :: 0 <= k < |FindH1(content)| && LastOf(Keys(content, FindH1(content)), k, |FindH1(content)|) ==>
      r.files[Keys(content, FindH1(content))[k]] == Bodies(content, FindH1(content))[k]
  {
    if Strip(content) == [] {
      return Failed(EmptyContent);
    }
    var matches := FindH1(content);
    if matches == [] {
      return Failed(NoHeadings);
    }
    var files := CollectFiles(Keys(content, matches), Bodies(content, matches));
    return Files(files);
  }

  /**
   * The loop of `split_markdown`: write each section under its file name in
   * turn, a later section replacing an earlier one of the same name.
   */
  method CollectFiles(names: seq<string>, bodies: seq<string>) returns (files: map<string, string>)
    requires |names| == |bodies|
    ensures forall name :: name in files <==> name in names
    ensures |files| <= |names|
    ensures forall k :: 0 <= k < |names| && LastOf(names, k, |names|) ==> files[names[k]] == bodies[k]
  {
    files := map[];
    for i := 0 to |names|
      invariant forall name :: name in files <==> name in names[..i]
      invariant |files| <= i
      invariant forall k :: 0 <= k < i && LastOf(names, k, i) ==> files[names[k]] == bodies[k]
    {
      WriteStep(names, bodies, files, i);
      files := files[names[i] := bodies[i]];
    }
    assert names[..|names|] == names;
  }

  /** Writing entry `i` keeps the loop's invariant one step further. */
  lemma WriteStep(names: seq<string>, bodies: seq<string>, files: map<string, string>, i: nat)
    requires |names| == |bodies| && i < |names|
    requires forall name :: name in files <==> name in names[..i]
    requires |files| <= i
    requires forall k :: 0 <= k < i && LastOf(names, k, i) ==> files[names[k]] == bodies[k]
    ensures var files' := files[names[i] := bodies[i]];
      && (forall name :: name in files' <==> name in names[..i + 1])
      && |files'| <= i + 1
      && forall k :: 0 <= k < i + 1 && LastOf(names, k, i + 1) ==> files'[names[k]] == bodies[k]
  {
    assert names[..i + 1] == names[..i] + [names[i]];
    var files' := files[names[i] := bodies[i]];
    forall k | 0 <= k < i + 1 && LastOf(names, k, i + 1)
      ensures files'[names[k]] == bodies[k]
    {
      if k < i {
        assert names[i] != names[k];
        assert names[k] in names[..i];
      }
    }
  }

  // ------------------------------------------------------------ properties

    /** Headings, hence sections, come in text order. */
  lemma {:induction false} OrderedStarts(s: string, ms: seq<H1Match>, j: nat, k: nat)
    requires Ordered(s, ms, 0) && j <= k < |ms|
    ensures ms[j].start <= ms[k].start
    decreases k - j
  {
    if j < k {
      OrderedStarts(s, ms, j + 1, k);
    }
  }

  /** Raw sections, from heading `k` to the end: consecutive slices that tile the text. */
  function RawSections(s: string, ms: seq<H1Match>, k: nat): string
    requires Ordered(s, ms, 0) && k <= |ms|
    decreases |ms| - k
  {
    if k == |ms| then [] else s[ms[k].start..SectionEnd(s, ms, k)] + RawSections(s, ms, k + 1)
  }

  /** The sections, before stripping, put back together give the text from the first heading on. */
  lemma {:induction false} SectionsTile(s: string, ms: seq<H1Match>, k: nat)
    requires Ordered(s, ms, 0) && k < |ms|
    ensures RawSections(s, ms, k) == s[ms[k].start..]
    decreases |ms| - k
  {
    if k + 1 < |ms| {
      SectionsTile(s, ms, k + 1);
      OrderedStarts(s, ms, k, k + 1);
      SliceSplit(s, ms[k].start, ms[k + 1].start);
    } else {
      SliceSplit(s, ms[k].start, |s|);
    }
  }

  lemma SliceSplit(s: string, a: nat, b: nat)
    requires a <= b <= |s|
    ensures s[a..] == s[a..b] + s[b..]
  {
  }
}
