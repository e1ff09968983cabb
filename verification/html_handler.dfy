/**
 * The two element overrides of `CustomMarkdownConverter` and the `h1`
 * sectioning of `HtmlHandler` (src/url2md/handlers/html_handler.py).
 *
 * `convert_img` and `convert_pre` are modelled over the abstract tree of
 * module `Html`; the text `convert_pre` receives (the markdown the base
 * converter made of the element's children) is a parameter. `_split_by_h1`
 * walks a snapshot of the body's children.
 */
module HtmlHandler {
  import opened Text
  import opened Html

  // ----------------------------------------------------------------- images

  /** `el.get(key, '')`: a missing attribute reads as the empty string. */
  function Attr(el: Node, key: string): string
    requires el.Element?
  {
    if key in el.attrs then el.attrs[key] else ""
  }

  /** The image syntax, with the title part only when the title is not empty. */
  function ImageMarkdown(alt: string, src: string, title: string): string {
    if title != "" then "![" + alt + "](" + src + " \"" + title + "\")"
    else "![" + alt + "](" + src + ")"
  }

  /** `CustomMarkdownConverter.convert_img` */
  function ConvertImg(el: Node): (md: string)
    requires el.Element?
    ensures var alt := if "alt" in el.attrs then el.attrs["alt"] else "";
      var src := if "src" in el.attrs then el.attrs["src"] else "";
      var title := if "title" in el.attrs then el.attrs["title"] else "";
      md == "![" + alt + "](" + src + TitleTail(title)
  {
    ImageMarkdown(Attr(el, "alt"), Attr(el, "src"), Attr(el, "title"))
  }

  /** An absent attribute and an empty one give the same image. */
  lemma MissingAttrIsEmpty(el: Node, key: string)
    requires el.Element? && key !in el.attrs
    ensures ConvertImg(el) == ConvertImg(el.(attrs := el.attrs[key := ""]))
  {
    var el' := el.(attrs := el.attrs[key := ""]);
    assert Attr(el', "alt") == Attr(el, "alt");
    assert Attr(el', "src") == Attr(el, "src");
    assert Attr(el', "title") == Attr(el, "title");
  }

  /** The first index of a character of `cs` in `s`, or `|s|`. */
  function IndexIn(s: string, cs: set<char>): (r: nat)
    ensures r <= |s|
    ensures r < |s| ==> s[r] in cs
    ensures forall k :: 0 <= k < r ==> s[k] !in cs
  {
    if s == [] then 0
    else if s[0] in cs then 0
    else 1 + IndexIn(s[1..], cs)
  }

  /** A prefix free of `cs` is skipped whole. */
  lemma IndexInAfter(a: string, b: string, cs: set<char>)
    requires forall k :: 0 <= k < |a| ==> a[k] !in cs
    requires b != [] && b[0] in cs
    ensures IndexIn(a + b, cs) == |a|
  {
    assert (a + b)[|a|] == b[0];
    assert forall k :: 0 <= k < |a| ==> (a + b)[k] == a[k];
  }

  datatype ImageParts = ImageParts(alt: string, src: string, title: string)

  /** What follows the source in the image syntax. */
  function TitleTail(title: string): string {
    if title != "" then " \"" + title + "\")" else ")"
  }

  /** Reads an image back: `![`, then the rest as a link. */
  function ParseImage(md: string): Option<ImageParts> {
    if |md| < 2 || md[..2] != "![" then None else ParseLink(md[2..])
  }

  /** The alternative text runs to the first `]`, which `(` must follow. */
  function ParseLink(t: string): Option<ImageParts> {
    var a := IndexIn(t, {']'});
    if a + 1 >= |t| || t[a + 1] != '(' then None
    else
      var target := ParseTarget(t[a + 2..]);
      if target.None? then None else Some(ImageParts(t[..a], target.value.0, target.value.1))
  }

  /**
   * The source runs to the first space or `)`; after a space comes the
   * title between quotes, then the closing `)`.
   */
  function ParseTarget(u: string): Option<(string, string)> {
    var b := IndexIn(u, {' ', ')'});
    if b == |u| then None
    else if u[b] == ')' then
      if b + 1 == |u| then Some((u[..b], "")) else None
    else
      var w := u[b + 1..];
      if |w| >= 3 && w[0] == '"' && w[|w| - 2] == '"' && w[|w| - 1] == ')'
      then Some((u[..b], w[1..|w| - 2]))
      else None
  }

  /**
   * The image text keeps its three attributes: reading it back gives them,
   * as long as the alternative text has no `]` and the source no space or `)`.
   */
  lemma ImageRoundTrip(alt: string, src: string, title: string)
    requires ']' !in alt && ' ' !in src && ')' !in src
    ensures ParseImage(ImageMarkdown(alt, src, title)) == Some(ImageParts(alt, src, title))
  {
    var rest := src + TitleTail(title);
    ImageShape(alt, src, title, rest);
    TargetRoundTrip(src, title);
    LinkRoundTrip(alt, rest);
  }

  lemma ImageShape(alt: string, src: string, title: string, rest: string)
    requires rest == src + TitleTail(title)
    ensures var md := ImageMarkdown(alt, src, title);
      |md| >= 2 && md[..2] == "![" && md[2..] == alt + "](" + rest
  {
    ImageAssoc(alt, src, title);
    BangPrefix(alt, rest);
  }

  lemma ImageAssoc(alt: string, src: string, title: string)
    ensures ImageMarkdown(alt, src, title) == "![" + alt + "](" + (src + TitleTail(title))
  {
    if title != "" {
      assert "![" + alt + "](" + src + " \"" + title + "\")" == "![" + alt + "](" + (src + (" \"" + title + "\")"));
    } else {
      assert "![" + alt + "](" + src + ")" == "![" + alt + "](" + (src + ")");
    }
  }

  lemma BangPrefix(alt: string, rest: string)
    ensures var md := "![" + alt + "](" + rest;
      |md| >= 2 && md[..2] == "![" && md[2..] == alt + "](" + rest
  {
  }

  lemma LinkRoundTrip(alt: string, rest: string)
    requires ']' !in alt
    ensures var p := ParseTarget(rest);
      ParseLink(alt + "](" + rest) == if p.None? then None else Some(ImageParts(alt, p.value.0, p.value.1))
  {
    var t := alt + "](" + rest;
    assert t == alt + ("](" + rest);
    IndexInAfter(alt, "](" + rest, {']'});
    assert t[|alt| + 2..] == rest;
    assert t[..|alt|] == alt;
  }

  lemma TargetRoundTrip(src: string, title: string)
    requires ' ' !in src && ')' !in src
    ensures ParseTarget(src + TitleTail(title)) == Some((src, title))
  {
    var u := src + TitleTail(title);
    IndexInAfter(src, TitleTail(title), {' ', ')'});
    assert u[..|src|] == src;
    if title != "" {
      assert u[|src| + 1..] == "\"" + title + "\")";
    }
  }

  /** The image of the library's own example. */
  lemma ConvertImgExample()
    ensures ConvertImg(Element("img", map["src" := "test.jpg", "alt" := "Test", "title" := "Test Image"], [], []))
         == "![Test](test.jpg \"Test Image\")"
  {
    var el := Element("img", map["src" := "test.jpg", "alt" := "Test", "title" := "Test Image"], [], []);
    ExampleAttrs(el);
    ExampleImage();
  }

  lemma ExampleAttrs(el: Node)
    requires el == Element("img", map["src" := "test.jpg", "alt" := "Test", "title" := "Test Image"], [], [])
    ensures Attr(el, "alt") == "Test" && Attr(el, "src") == "test.jpg" && Attr(el, "title") == "Test Image"
  {
  }

  lemma ExampleImage()
    ensures ImageMarkdown("Test", "test.jpg", "Test Image") == "![Test](test.jpg \"Test Image\")"
  {
  }

  // ------------------------------------------------------------ code blocks

  /** The class names that carry a language hint. */
  predicate HasHintPrefix(cls: string) {
    OccursAt(cls, "language-", 0) || OccursAt(cls, "lang-", 0)
  }

  /** `cls.replace('language-', '').replace('lang-', '')` */
  function HintOf(cls: string): string {
    ReplaceAll(ReplaceAll(cls, "language-", ""), "lang-", "")
  }

  /** A class `language-x` or `lang-x`, with `x` free of hyphens, gives the hint `x`. */
  lemma HintOfPrefixed(x: string)
    requires '-' !in x
    ensures HintOf("language-" + x) == x
    ensures HintOf("lang-" + x) == x
  {
    var lx := "language-" + x;
    assert lx[9..] == x;
    assert lx[..9] == "language-";
    ReplaceAllLastAbsent(x, "language-", "");
    assert ReplaceAll(lx, "language-", "") == "" + x;
    assert "" + x == x;
    ReplaceAllLastAbsent(x, "lang-", "");
    var gx := "lang-" + x;
    NoLanguageIn(x);
    ReplaceAllNoMatch(gx, "language-", "");
    assert gx[5..] == x && gx[..5] == "lang-";
    ReplaceAllLastAbsent(x, "lang-", "");
    assert ReplaceAll(gx, "lang-", "") == "" + x;
  }

  /** `language-` never occurs in `lang-x` when `x` has no hyphen: its hyphen would have to be the fifth character. */
  lemma NoLanguageIn(x: string)
    requires '-' !in x
    ensures forall i: nat :: !OccursAt("lang-" + x, "language-", i)
  {
    var gx := "lang-" + x;
    forall i: nat
      ensures !OccursAt(gx, "language-", i)
    {
      if i + 9 <= |gx| {
        HyphenOnlyAtFour(x, i + 8);
        assert gx[i..i + 9][8] != "language-"[8];
      }
    }
  }

  lemma HyphenOnlyAtFour(x: string, j: nat)
    requires '-' !in x && 4 < j < 5 + |x|
    ensures ("lang-" + x)[j] != '-'
  {
    assert ("lang-" + x)[j] == x[j - 5];
  }

  /** The hint of the first class with a hint prefix, if any. */
  function FirstHint(classes: seq<string>): (r: Option<string>)
    ensures r.None? <==> forall k :: 0 <= k < |classes| ==> !HasHintPrefix(classes[k])
    ensures r.Some? ==> exists k :: (0 <= k < |classes| && HasHintPrefix(classes[k])
      && (forall m :: 0 <= m < k ==> !HasHintPrefix(classes[m])) && r.value == HintOf(classes[k]))
  {
    if classes == [] then None
    else if HasHintPrefix(classes[0]) then Some(HintOf(classes[0]))
    else
      var r := FirstHint(classes[1..]);
      assert r.Some? ==> exists k :: (1 <= k < |classes| && HasHintPrefix(classes[k])
        && (forall m :: 1 <= m < k ==> !HasHintPrefix(classes[m])) && r.value == HintOf(classes[k]));
      r
  }

  /** The `for cls in classes` loop of `convert_pre`, leaving at the first hint. */
  method LanguageHint(classes: seq<string>) returns (lang: Option<string>)
    ensures lang == FirstHint(classes)
  {
    lang := None;
    var i := 0;
    while i < |classes|
      invariant 0 <= i <= |classes|
      invariant FirstHint(classes) == FirstHint(classes[i..])
      decreases |classes| - i
    {
      var cls := classes[i];
      if HasHintPrefix(cls) {
        lang := Some(HintOf(cls));
        break;
      }
      assert classes[i..][1..] == classes[i + 1..];
      i := i + 1;
    }
  }

  /** `lang or ""` */
  function HintText(lang: Option<string>): string {
    if lang.Some? then lang.value else ""
  }

  /** A fenced code block with an info string. */
  function Fence(info: string, body: string): string {
    "```" + info + "\n" + body + "\n```"
  }

  /** The info string and the body of a fenced block, read back. */
  function Unfence(md: string): Option<(string, string)> {
    if |md| < 3 || md[..3] != "```" then None
    else
      var t := md[3..];
      var a := IndexIn(t, {'\n'});
      if a == |t| || |t| - (a + 1) < 4 || t[|t| - 4..] != "\n```" then None
      else Some((t[..a], t[a + 1..|t| - 4]))
  }

  /** A fence keeps its info string and its body, whenever the info string is one line. */
  lemma FenceRoundTrip(info: string, body: string)
    requires '\n' !in info
    ensures Unfence(Fence(info, body)) == Some((info, body))
  {
    var md := Fence(info, body);
    FenceShape(info, body);
    IndexInAfter(info, "\n" + body + "\n```", {'\n'});
  }

  lemma FenceShape(info: string, body: string)
    ensures var md := Fence(info, body);
      md[..3] == "```" && md[3..] == info + ("\n" + body + "\n```")
      && md[3..][|info| + 1..|md| - 7] == body && md[|md| - 4..] == "\n```"
  {
  }

  /**
   * `CustomMarkdownConverter.convert_pre`: with a `code` descendant the
   * fence's info string is its first hint (or nothing); without one the
   * fence has no info string. The code text is stripped.
   */
  method ConvertPre(el: Node, text: string) returns (md: string)
    requires el.Element?
    ensures var code := FindFirst(el.children, "code");
      md == Fence(if code.Some? then HintText(FirstHint(code.value.classes)) else "", Strip(text))
  {
    var code := FindFirst(el.children, "code");
    if code.Some? {
      var lang := LanguageHint(code.value.classes);
      md := "```" + HintText(lang) + "\n" + Strip(text) + "\n```";
    } else {
      md := "```\n" + Strip(text) + "\n```";
    }
  }

  /** The hint of `class="language-python"` is `python`. */
  lemma PythonHint()
    ensures FirstHint(["language-python"]) == Some("python")
  {
    LanguagePrefixed("python");
    var cls := "language-" + "python";
    assert cls == "language-python";
    assert FirstHint([cls]) == Some(HintOf(cls));
  }

  /** A `language-` class whose rest has no `l` hints at that rest. */
  lemma LanguagePrefixed(rest: string)
    requires |rest| > 0 && 'l' !in rest
    ensures HasHintPrefix("language-" + rest) && HintOf("language-" + rest) == rest
  {
    var s := "language-" + rest;
    assert s[..9] == "language-";
    assert s[9..] == rest;
    ReplaceAllAbsent(rest, "language-", "");
    ReplaceAllAbsent(rest, "lang-", "");
    assert ReplaceAll(s, "language-", "") == "" + ReplaceAll(rest, "language-", "");
    assert "" + rest == rest;
  }

  // ------------------------------------------------------------- sectioning

  /** A section: its title and the tag holding its content. */
  datatype TitledSection = TitledSection(title: string, content: Node)

  /** `Tag(name="div")` holding `items`. */
  function Div(items: seq<Node>): Node {
    Element("div", map[], [], items)
  }

  predicate IsH1(n: Node) { IsNamed(n, "h1") }

  /** The tags of the sections' contents, one section after another. */
  function Items(sections: seq<TitledSection>): seq<Node>
  {
    if sections == [] then []
    else
      var last := sections[|sections| - 1].content;
      Items(sections[..|sections| - 1]) + (if last.Element? then last.children else [])
  }

  /**
   * A section the walk emits: a non-empty `div` whose only `h1` can be its
   * first tag; a section opened by an `h1` is titled with that heading's
   * stripped text, any other is the leading `index` section.
   */
  predicate WellFormed(sec: TitledSection, first: bool) {
    var c := sec.content;
    && c.Element? && c == Div(c.children)
    && |c.children| > 0
    && (forall m :: 0 < m < |c.children| ==> !IsH1(c.children[m]))
    && (IsH1(c.children[0]) ==> sec.title == Strip(TextOf(c.children[0])))
    && (!IsH1(c.children[0]) ==> first && sec.title == "index")
  }

  /**
   * The walk's state: the sections emitted so far and the open section
   * (`current_title`, `current_content`), which is empty only before the
   * first tag.
   */
  predicate WalkState(sections: seq<TitledSection>, title: string, content: seq<Node>) {
    && (forall k :: 0 <= k < |sections| ==> WellFormed(sections[k], k == 0))
    && (content == [] ==> sections == [] && title == "index")
    && (content != [] ==> WellFormed(TitledSection(title, Div(content)), sections == []))
  }

  /**
   * `HtmlHandler._split_by_h1` over the body's children: the tags are cut
   * before every `h1`; a non-empty run of tags before the first `h1` forms
   * the `index` section; without any tag the body itself is the one section.
   */
  method SplitByH1(body: Node) returns (sections: seq<TitledSection>)
    requires body.Element?
    ensures Tags(body.children) == [] ==> sections == [TitledSection("index", body)]
    ensures Tags(body.children) != [] ==>
      && Items(sections) == Tags(body.children)
      && forall k :: 0 <= k < |sections| ==> WellFormed(sections[k], k == 0)
  {
    var children := body.children;
    sections := [];
    var title := "index";
    var content: seq<Node> := [];
    for i := 0 to |children|
      invariant Items(sections) + content == Tags(children[..i])
      invariant WalkState(sections, title, content)
    {
      var element := children[i];
      TagsSnoc(children, i);
      if element.Element? {
        sections, title, content := Visit(sections, title, content, element);
      }
    }
    if content != [] {
      ItemsSnoc(sections, TitledSection(title, Div(content)));
      sections := sections + [TitledSection(title, Div(content))];
    }
    assert children[..|children|] == children;
    if sections == [] {
      sections := [TitledSection("index", body)];
    }
  }

  /** One tag of the walk: an `h1` closes the open section and opens its own; any other tag joins it. */
  method Visit(sections: seq<TitledSection>, title: string, content: seq<Node>, element: Node)
    returns (sections': seq<TitledSection>, title': string, content': seq<Node>)
    requires element.Element? && WalkState(sections, title, content)
    ensures WalkState(sections', title', content')
    ensures Items(sections') + content' == Items(sections) + content + [element]
  {
    if element.name == "h1" {
      sections' := sections;
      if content != [] {
        ItemsSnoc(sections, TitledSection(title, Div(content)));
        sections' := sections + [TitledSection(title, Div(content))];
      }
      title' := Strip(TextOf(element));
      content' := [element];
    } else {
      assert content != [] ==> (content + [element])[0] == content[0];
      sections', title', content' := sections, title, content + [element];
    }
  }

  lemma TagsSnoc(ns: seq<Node>, i: nat)
    requires i < |ns|
    ensures Tags(ns[..i + 1]) == Tags(ns[..i]) + (if ns[i].Element? then [ns[i]] else [])
  {
    assert ns[..i + 1] == ns[..i] + [ns[i]];
    TagsAppend(ns[..i], [ns[i]]);
  }

  lemma ItemsSnoc(sections: seq<TitledSection>, sec: TitledSection)
    requires sec.content.Element?
    ensures Items(sections + [sec]) == Items(sections) + sec.content.children
  {
    assert (sections + [sec])[..|sections|] == sections;
  }
}
