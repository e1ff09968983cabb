/**
 * `HtmlSplitter.split_and_save` (src/url2md/utils/html_splitter.py): one
 * HTML file per `h1`, holding the `h1` and the sibling tags after it up to
 * the next sibling `h1`.
 *
 * The parent's children are the input; the sibling walk only sees tags, as
 * `find_next_sibling()` does. Writing the files is left out: the method
 * returns each file's name and content. The clock and the serialisation of
 * a tag (`str(tag)`) are parameters: `now(i)` is the timestamp read by
 * `datetime.now()` while file `i` is named, so files may differ in it.
 */
module HtmlSplitter {
  import opened Text
  import opened Html

  datatype SavedFile = SavedFile(name: string, content: string)

  predicate IsH1(n: Node) { IsNamed(n, "h1") }

  // --------------------------------------------------------------- headings

  /** Positions of the `h1` tags at or after `i`, in order. */
  function H1From(tags: seq<Node>, i: nat): (hs: seq<nat>)
    requires i <= |tags|
    ensures forall k :: 0 <= k < |hs| ==> i <= hs[k] < |tags| && IsH1(tags[hs[k]])
    ensures forall k, l :: 0 <= k < l < |hs| ==> hs[k] < hs[l]
    ensures forall p :: i <= p < |tags| && IsH1(tags[p]) ==> p in hs
    decreases |tags| - i
  {
    if i == |tags| then []
    else if IsH1(tags[i]) then [i] + H1From(tags, i + 1)
    else H1From(tags, i + 1)
  }

  /** `find_all('h1')` on a flat list of sibling tags. */
  function H1Positions(tags: seq<Node>): seq<nat> {
    H1From(tags, 0)
  }

  /** The first `h1` position at or after `i`, or `|tags|` when none is left. */
  function NextH1(tags: seq<Node>, i: nat): (e: nat)
    requires i <= |tags|
    ensures i <= e <= |tags|
    ensures e < |tags| ==> IsH1(tags[e])
    ensures forall p :: i <= p < e ==> !IsH1(tags[p])
    decreases |tags| - i
  {
    if i == |tags| || IsH1(tags[i]) then i else NextH1(tags, i + 1)
  }

  /** The section of the `h1` at `h`: it and the following tags up to the next `h1`. */
  function Section(tags: seq<Node>, h: nat): seq<Node>
    requires h < |tags|
  {
    tags[h..NextH1(tags, h + 1)]
  }

  /** Each tag serialised with `render`, in order. */
  function Rendered(render: Node -> string, xs: seq<Node>): (ss: seq<string>)
    ensures |ss| == |xs| && forall k :: 0 <= k < |xs| ==> ss[k] == render(xs[k])
  {
    seq(|xs|, k requires 0 <= k < |xs| => render(xs[k]))
  }

  // --------------------------------------------------------------- naming

  /** `f"{n:02d}"`: at least two digits, zero-padded. */
  function Pad2(n: nat): (s: string)
    ensures |s| >= 2 && forall k :: 0 <= k < |s| ==> IsDigit(s[k])
    ensures |s| == (if n < 10 then 2 else |NatToString(n)|)
  {
    var d := NatToString(n);
    if |d| < 2 then "0" + d else d
  }

  /** `[^\w\-_]` is replaced: word characters and hyphens stay. */
  predicate IsTitleChar(c: char) { IsWord(c) || c == '-' }

  function TitleChars(s: string): (r: string)
    ensures |r| == |s|
    ensures forall k :: 0 <= k < |s| ==> r[k] == (if IsTitleChar(s[k]) then s[k] else '_')
  {
    seq(|s|, k requires 0 <= k < |s| => if IsTitleChar(s[k]) then s[k] else '_')
  }

  /** The title part of a file name: the heading text, stripped, replaced, cut to 50 characters. */
  function FileTitle(h1: Node): (t: string)
    ensures |t| <= 50 && forall k :: 0 <= k < |t| ==> IsTitleChar(t[k]) || t[k] == '_'
    ensures var s := Strip(TextOf(h1));
      && |t| == (if |s| <= 50 then |s| else 50)
      && forall k :: 0 <= k < |t| ==> t[k] == (if IsTitleChar(s[k]) then s[k] else '_')
  {
    var r := TitleChars(Strip(TextOf(h1)));
    if |r| <= 50 then r else r[..50]
  }

  /** `f"{i+1:02d}_{title}_{timestamp}.html"` */
  function FileName(i: nat, h1: Node, timestamp: string): string {
    Pad2(i + 1) + "_" + FileTitle(h1) + "_" + timestamp + ".html"
  }

  // --------------------------------------------------------------- the walk

  /**
   * `HtmlSplitter.split_and_save` without the writes: file `i` is named
   * after the `i`-th `h1` and holds the serialised tags of its section,
   * joined by `\n`.
   */
  method SplitAndSave(children: seq<Node>, now: nat -> string, render: Node -> string) returns (files: seq<SavedFile>)
    ensures var tags := Tags(children); var hs := H1Positions(tags);
      && |files| == |hs|
      && forall i :: 0 <= i < |hs| ==>
           files[i] == SavedFile(FileName(i, tags[hs[i]], now(i)), Join(Rendered(render, Section(tags, hs[i])), "\n"))
  {
    var tags := Tags(children);
    var hs := H1Positions(tags);
    files := [];
    for i := 0 to |hs|
      invariant |files| == i
      invariant forall k :: 0 <= k < i ==>
        files[k] == SavedFile(FileName(k, tags[hs[k]], now(k)), Join(Rendered(render, Section(tags, hs[k])), "\n"))
    {
      var h := hs[i];
      var section := CollectSection(tags, h, render);
      files := files + [SavedFile(FileName(i, tags[h], now(i)), Join(section, "\n"))];
    }
  }

  /** The inner walk: from the `h1` at `h`, take each next sibling until the next `h1`. */
  method CollectSection(tags: seq<Node>, h: nat, render: Node -> string) returns (section: seq<string>)
    requires h < |tags|
    ensures section == Rendered(render, Section(tags, h))
  {
    section := [];
    var j := h;
    while j < |tags|
      invariant h <= j <= |tags|
      invariant section == Rendered(render, tags[h..j])
      invariant forall p :: h < p < j ==> !IsH1(tags[p])
      invariant j > h && j < |tags| ==> !IsH1(tags[j])
      decreases |tags| - j
    {
      RenderedSnoc(render, tags, h, j);
      section := section + [render(tags[j])];
      j := j + 1;
      if j < |tags| && IsNamed(tags[j], "h1") {
        break;
      }
    }
    SectionEndsAt(tags, h, j);
  }

  lemma RenderedSnoc(render: Node -> string, tags: seq<Node>, h: nat, j: nat)
    requires h <= j < |tags|
    ensures Rendered(render, tags[h..j + 1]) == Rendered(render, tags[h..j]) + [render(tags[j])]
  {
  }

  /** Where the walk stops is where the section ends. */
  lemma SectionEndsAt(tags: seq<Node>, h: nat, j: nat)
    requires h < j <= |tags|
    requires forall p :: h < p < j ==> !IsH1(tags[p])
    requires j < |tags| ==> IsH1(tags[j])
    ensures NextH1(tags, h + 1) == j
  {
    var e := NextH1(tags, h + 1);
    assert e < |tags| ==> IsH1(tags[e]);
  }

  // ------------------------------------------------------------ properties

  /** A section opens with its own `h1` and holds no other `h1`. */
  lemma SectionShape(tags: seq<Node>, h: nat)
    requires h < |tags| && IsH1(tags[h])
    ensures var sec := Section(tags, h);
      |sec| > 0 && sec[0] == tags[h] && forall k :: 0 < k < |sec| ==> !IsH1(sec[k])
  {
    var e := NextH1(tags, h + 1);
    assert forall k :: 0 < k < e - h ==> Section(tags, h)[k] == tags[h + k];
  }

  /** Consecutive headings: each section ends where the next heading starts. */
  lemma SectionEnds(tags: seq<Node>, k: nat)
    requires k < |H1Positions(tags)|
    ensures var hs := H1Positions(tags);
      NextH1(tags, hs[k] + 1) == if k + 1 < |hs| then hs[k + 1] else |tags|
  {
    var hs := H1Positions(tags);
    var e := NextH1(tags, hs[k] + 1);
    if k + 1 < |hs| {
      assert hs[k] < hs[k + 1] && IsH1(tags[hs[k + 1]]);
      assert e in hs;
      var l :| 0 <= l < |hs| && hs[l] == e;
      assert hs[k] < hs[l] <= hs[k + 1];
    } else {
      assert forall l :: 0 <= l < |hs| ==> hs[l] <= hs[k];
    }
  }

  /** The sections of the headings from the `k`-th on, one after another. */
  function SectionsFrom(tags: seq<Node>, k: nat): seq<Node>
    requires k <= |H1Positions(tags)|
    decreases |H1Positions(tags)| - k
  {
    var hs := H1Positions(tags);
    if k == |hs| then [] else Section(tags, hs[k]) + SectionsFrom(tags, k + 1)
  }

  /**
   * The sections tile the tags from the `k`-th heading on: every tag after
   * the first `h1` lands in exactly one file, in order.
   */
  lemma {:induction false} SectionsTile(tags: seq<Node>, k: nat)
    requires k < |H1Positions(tags)|
    ensures SectionsFrom(tags, k) == tags[H1Positions(tags)[k]..]
    decreases |H1Positions(tags)| - k
  {
    var hs := H1Positions(tags);
    SectionEnds(tags, k);
    if k + 1 < |hs| {
      SectionsTile(tags, k + 1);
      SplitTags(tags, hs[k], hs[k + 1]);
    } else {
      SplitTags(tags, hs[k], |tags|);
    }
  }

  lemma SplitTags(tags: seq<Node>, a: nat, b: nat)
    requires a <= b <= |tags|
    ensures tags[a..] == tags[a..b] + tags[b..]
  {
  }

  /** A tag before the first heading lies before every heading. */
  lemma BeforeFirstHeading(tags: seq<Node>, p: nat)
    requires p < |tags| && |H1Positions(tags)| > 0 && p < H1Positions(tags)[0]
    ensures forall k :: 0 <= k < |H1Positions(tags)| ==> p < H1Positions(tags)[k]
  {
  }

  /** Zero-padding keeps the number: reading the digits back gives `n`. */
  lemma Pad2Parses(n: nat)
    ensures ParseNat(Pad2(n)) == n
  {
    ParseNatToString(n);
    var d := NatToString(n);
    if |d| < 2 {
      ParseLeadingZero(d);
    }
  }

  lemma {:induction false} ParseLeadingZero(d: string)
    requires forall k :: 0 <= k < |d| ==> IsDigit(d[k])
    ensures ParseNat("0" + d) == ParseNat(d)
    decreases |d|
  {
    if |d| > 0 {
      var z := "0" + d;
      assert z[..|z| - 1] == "0" + d[..|d| - 1];
      ParseLeadingZero(d[..|d| - 1]);
    }
  }

  /** Files get distinct names: the index prefix differs. */
  lemma FileNamesDistinct(i: nat, j: nat, a: Node, b: Node, ta: string, tb: string)
    requires i != j
    ensures FileName(i, a, ta) != FileName(j, b, tb)
  {
    Pad2Parses(i + 1);
    Pad2Parses(j + 1);
    NameHead(Pad2(i + 1), FileTitle(a), ta);
    NameHead(Pad2(j + 1), FileTitle(b), tb);
    DigitPrefixDiffer(FileName(i, a, ta), FileName(j, b, tb), Pad2(i + 1), Pad2(j + 1));
  }

  /** A file name starts with its index digits, then `_`. */
  lemma NameHead(p: string, title: string, timestamp: string)
    ensures var x := p + "_" + title + "_" + timestamp + ".html";
      |p| < |x| && x[..|p|] == p && x[|p|] == '_'
  {
  }

  /** Texts that start with different digit runs, each ended by `_`, differ. */
  lemma DigitPrefixDiffer(x: string, y: string, p: string, q: string)
    requires forall k :: 0 <= k < |p| ==> IsDigit(p[k])
    requires forall k :: 0 <= k < |q| ==> IsDigit(q[k])
    requires p != q
    requires |p| < |x| && x[..|p|] == p && x[|p|] == '_'
    requires |q| < |y| && y[..|q|] == q && y[|q|] == '_'
    ensures x != y
  {
    assert forall k :: 0 <= k < |p| ==> x[k] == p[k];
    assert forall k :: 0 <= k < |q| ==> y[k] == q[k];
  }
}
