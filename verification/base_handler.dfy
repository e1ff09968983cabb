/**
 * The two pieces of `BaseHandler` (src/url2md/handlers/base_handler.py)
 * that compute text: the table of contents `generate_toc` writes, and the
 * file-name cleaner `_sanitize_filename`.
 *
 * A path is the sequence of its components; `sorted` compares paths
 * component by component, and `relative_to` strips the output directory's
 * components from the front. Writing `README.md` is left out: the method
 * returns the text.
 */
module BaseHandler {
  import opened Text

  // --------------------------------------------------------- file names

  /** The characters `_sanitize_filename` keeps: `-_.() `, ASCII letters and digits. */
  predicate IsValidChar(c: char) {
    c == '-' || c == '_' || c == '.' || c == '(' || c == ')' || c == ' ' || IsLetter(c) || IsDigit(c)
  }

  /** `"".join(c for c in s if c in valid_chars)` */
  function KeepValid(s: string): (r: string)
    ensures |r| <= |s|
    ensures forall c :: c in r ==> IsValidChar(c) && c in s
    ensures forall c :: c in s && IsValidChar(c) ==> c in r
  {
    if s == [] then []
    else
      var rest := KeepValid(s[1..]);
      assert forall c :: c in rest ==> c in s;
      assert forall c :: c in s ==> c == s[0] || c in s[1..];
      (if IsValidChar(s[0]) then [s[0]] else []) + rest
  }

  /** One character is kept exactly when it is valid. */
  lemma KeepValidChar(c: char)
    ensures KeepValid([c]) == if IsValidChar(c) then [c] else []
  {
    assert [c][1..] == [];
  }

  /** The filter keeps the order: it works on each part of a text separately. */
  lemma {:induction false} KeepValidAppend(a: string, b: string)
    ensures KeepValid(a + b) == KeepValid(a) + KeepValid(b)
    decreases |a|
  {
    if a == [] {
      assert a + b == b;
    } else {
      assert (a + b)[1..] == a[1..] + b;
      KeepValidAppend(a[1..], b);
    }
  }

  /** A text made of valid characters is kept whole. */
  lemma {:induction false} KeepValidOfValid(s: string)
    requires forall c :: c in s ==> IsValidChar(c)
    ensures KeepValid(s) == s
    decreases |s|
  {
    if s != [] {
      assert forall c :: c in s[1..] ==> c in s;
      KeepValidOfValid(s[1..]);
      assert [s[0]] + s[1..] == s;
    }
  }

  /**
   * `BaseHandler._sanitize_filename`: keep the valid characters, lower-case,
   * strip, turn spaces into hyphens; an empty result becomes `unnamed`.
   */
  function SanitizeFilename(filename: string): (r: string)
    ensures r != []
    ensures forall c :: c in r ==> IsValidChar(c) && !IsUpper(c) && c != ' '
    ensures NoSpace(r)
  {
    var kept := KeepValid(filename);
    var lowered := Lower(kept);
    var stripped := Strip(lowered);
    var hyphened := ReplaceAll(stripped, " ", "-");
    CleanedChars(kept, lowered, stripped, hyphened);
    ValidNoSpace(hyphened);
    ValidNoSpace("unnamed");
    if hyphened == [] then "unnamed" else hyphened
  }

  /** Each character lower-cased, with a space turned into a hyphen. */
  function Hyphenated(k: string): (r: string)
    ensures |r| == |k|
  {
    seq(|k|, i requires 0 <= i < |k| => if k[i] == ' ' then '-' else LowerChar(k[i]))
  }

  /**
   * The whole of `_sanitize_filename`: the kept characters, stripped, then
   * lower-cased with each space turned into a hyphen; `unnamed` when nothing
   * is left.
   */
  lemma SanitizeOfAny(filename: string)
    ensures var t := Strip(KeepValid(filename));
      SanitizeFilename(filename) == if t == [] then "unnamed" else Hyphenated(t)
  {
    var t := Strip(KeepValid(filename));
    StripLower(KeepValid(filename));
    HyphenatedOfLower(t);
  }

  /**
   * When the kept characters neither start nor end with a space, the result
   * is those characters in order, lower-cased, with each space turned into a
   * hyphen.
   */
  lemma SanitizeOfKept(filename: string)
    requires var k := KeepValid(filename); k != [] && k[0] != ' ' && k[|k| - 1] != ' '
    ensures var k := KeepValid(filename); var r := SanitizeFilename(filename);
      && |r| == |k|
      && (forall i :: 0 <= i < |k| ==> r[i] == (if k[i] == ' ' then '-' else LowerChar(k[i])))
      && r == Hyphenated(k)
  {
    var k := KeepValid(filename);
    assert k[0] in k && k[|k| - 1] in k;
    LowerKeptIsStripped(k);
    HyphenatedOfLower(k);
  }

  lemma LowerKeptIsStripped(k: string)
    requires k != [] && k[0] != ' ' && k[|k| - 1] != ' '
    requires IsValidChar(k[0]) && IsValidChar(k[|k| - 1])
    ensures Strip(Lower(k)) == Lower(k)
  {
    StripOfStripped(Lower(k));
  }

  lemma HyphenatedOfLower(k: string)
    ensures ReplaceAll(Lower(k), " ", "-") == Hyphenated(k)
  {
    var lowered := Lower(k);
    ReplaceCharPointwise(lowered, ' ', '-');
    assert " " == [' '] && "-" == ['-'];
    assert forall i :: 0 <= i < |k| ==> (lowered[i] == ' ' <==> k[i] == ' ');
  }

  /** `"Hello World!"` becomes `"hello-world"`. */
  lemma SanitizeExample()
    ensures SanitizeFilename("Hello World!") == "hello-world"
  {
    KeptExample();
    KeptExampleEnds();
    SanitizeOfKept("Hello World!");
    HyphenatedExample();
  }

  lemma KeptExampleEnds()
    ensures var k := "Hello World"; k != [] && k[0] != ' ' && k[|k| - 1] != ' '
  {
  }

  lemma HyphenatedExample()
    ensures Hyphenated("Hello World") == "hello-world"
  {
  }

  lemma KeptExample()
    ensures KeepValid("Hello World!") == "Hello World"
  {
    ExampleSplit();
    ExampleValid();
    KeepValidDropsLast("Hello World", '!');
  }

  /** A valid text followed by an invalid character keeps the text. */
  lemma KeepValidDropsLast(a: string, c: char)
    requires forall x :: x in a ==> IsValidChar(x)
    requires !IsValidChar(c)
    ensures KeepValid(a + [c]) == a
  {
    KeepValidAppend(a, [c]);
    KeepValidOfValid(a);
    KeepValidChar(c);
    assert a + [] == a;
  }

  lemma ExampleSplit()
    ensures "Hello World!" == "Hello World" + "!"
  {
  }

  lemma ExampleValid()
    ensures forall c :: c in "Hello World" ==> IsValidChar(c)
  {
  }

  lemma ValidNoSpace(t: string)
    requires forall c :: c in t ==> IsValidChar(c) && c != ' '
    ensures NoSpace(t)
  {
    assert forall k :: 0 <= k < |t| ==> t[k] in t;
  }

  lemma CleanedChars(kept: string, lowered: string, stripped: string, hyphened: string)
    requires forall c :: c in kept ==> IsValidChar(c)
    requires lowered == Lower(kept) && stripped == Strip(lowered)
    requires hyphened == ReplaceAll(stripped, " ", "-")
    ensures forall c :: c in hyphened ==> IsValidChar(c) && !IsUpper(c) && c != ' '
  {
    assert forall k :: 0 <= k < |lowered| ==> IsValidChar(lowered[k]) && !IsUpper(lowered[k]);
    StripChars(lowered);
    assert forall c :: c in stripped ==> IsValidChar(c) && !IsUpper(c);
    ReplaceCharResult(stripped, ' ', '-');
  }

  /** Cleaning a cleaned name changes nothing. */
  lemma SanitizeIdempotent(filename: string)
    ensures SanitizeFilename(SanitizeFilename(filename)) == SanitizeFilename(filename)
  {
    var r := SanitizeFilename(filename);
    KeepValidOfValid(r);
    LowerOfNoUpper(r);
    StripOfNoSpace(r);
    ReplaceAllAbsent(r, " ", "-");
  }

  // ------------------------------------------------------- path ordering

  /** A path as its components, in order. */
  type Path = seq<string>

  /** Code-point order on strings, a prefix first. */
  predicate StrLe(a: string, b: string)
    decreases |a|
  {
    a == [] || (b != [] && (a[0] < b[0] || (a[0] == b[0] && StrLe(a[1..], b[1..]))))
  }

  lemma {:induction false} StrLeTotal(a: string, b: string)
    ensures StrLe(a, b) || StrLe(b, a)
    decreases |a|
  {
    if a != [] && b != [] && a[0] == b[0] {
      StrLeTotal(a[1..], b[1..]);
    }
  }

  lemma {:induction false} StrLeReflexive(a: string)
    ensures StrLe(a, a)
    decreases |a|
  {
    if a != [] {
      StrLeReflexive(a[1..]);
    }
  }

  lemma {:induction false} StrLeAntisymmetric(a: string, b: string)
    requires StrLe(a, b) && StrLe(b, a)
    ensures a == b
    decreases |a|
  {
    if a != [] {
      StrLeAntisymmetric(a[1..], b[1..]);
      assert a == [a[0]] + a[1..] && b == [b[0]] + b[1..];
    }
  }

  lemma {:induction false} StrLeTransitive(a: string, b: string, c: string)
    requires StrLe(a, b) && StrLe(b, c)
    ensures StrLe(a, c)
    decreases |a|
  {
    if a != [] && a[0] == b[0] && b[0] == c[0] {
      StrLeTransitive(a[1..], b[1..], c[1..]);
    }
  }

  /** Path order: component by component, each compared as a string. */
  predicate PathLe(p: Path, q: Path)
    decreases |p|
  {
    p == [] || (q != [] && ((StrLe(p[0], q[0]) && p[0] != q[0]) || (p[0] == q[0] && PathLe(p[1..], q[1..]))))
  }

  lemma {:induction false} PathLeTotal(p: Path, q: Path)
    ensures PathLe(p, q) || PathLe(q, p)
    decreases |p|
  {
    if p != [] && q != [] {
      StrLeTotal(p[0], q[0]);
      if p[0] == q[0] {
        PathLeTotal(p[1..], q[1..]);
      }
    }
  }

  lemma {:induction false} PathLeTransitive(p: Path, q: Path, r: Path)
    requires PathLe(p, q) && PathLe(q, r)
    ensures PathLe(p, r)
    decreases |p|
  {
    if p != [] {
      StrLeReflexive(p[0]);
      StrLeReflexive(q[0]);
      StrLeTransitive(p[0], q[0], r[0]);
      if p[0] == q[0] && q[0] == r[0] {
        PathLeTransitive(p[1..], q[1..], r[1..]);
      } else if StrLe(q[0], p[0]) {
        StrLeAntisymmetric(p[0], q[0]);
      }
    }
  }

  predicate SortedPaths(ps: seq<Path>) {
    forall i, j :: 0 <= i < j < |ps| ==> PathLe(ps[i], ps[j])
  }

  /** Inserts `p` before the first path it does not follow. */
  function Insert(p: Path, ps: seq<Path>): (r: seq<Path>)
    requires SortedPaths(ps)
    ensures SortedPaths(r) && multiset(r) == multiset(ps) + multiset{p}
  {
    if ps == [] then [p]
    else if PathLe(p, ps[0]) then
      InsertFront(p, ps);
      [p] + ps
    else
      var rest := Insert(p, ps[1..]);
      PathLeTotal(p, ps[0]);
      InsertBehind(ps, rest, p);
      [ps[0]] + rest
  }

  lemma InsertFront(p: Path, ps: seq<Path>)
    requires SortedPaths(ps) && ps != [] && PathLe(p, ps[0])
    ensures SortedPaths([p] + ps)
  {
    forall j | 0 < j < |ps| + 1
      ensures PathLe(p, ([p] + ps)[j])
    {
      if j > 1 {
        PathLeTransitive(p, ps[0], ps[j - 1]);
      }
    }
  }

  lemma InsertBehind(ps: seq<Path>, rest: seq<Path>, p: Path)
    requires ps != [] && SortedPaths(ps) && SortedPaths(rest) && PathLe(ps[0], p)
    requires multiset(rest) == multiset(ps[1..]) + multiset{p}
    ensures SortedPaths([ps[0]] + rest)
    ensures multiset([ps[0]] + rest) == multiset(ps) + multiset{p}
  {
    var h := ps[0];
    forall j | 0 <= j < |rest|
      ensures PathLe(h, rest[j])
    {
      assert rest[j] in multiset(rest);
      if rest[j] != p {
        assert rest[j] in multiset(ps[1..]);
        var k :| 0 <= k < |ps[1..]| && ps[1..][k] == rest[j];
        assert ps[k + 1] == rest[j];
      }
    }
    assert ps == [h] + ps[1..];
  }

  /** `sorted(files)`: an insertion sort by path order. */
  function SortPaths(ps: seq<Path>): (r: seq<Path>)
    ensures SortedPaths(r) && multiset(r) == multiset(ps)
  {
    if ps == [] then []
    else
      assert ps == [ps[0]] + ps[1..];
      Insert(ps[0], SortPaths(ps[1..]))
  }

  // ------------------------------------------------------------- the TOC

  /** The directory's components begin the file's. */
  predicate Under(file: Path, dir: Path) {
    |dir| <= |file| && file[..|dir|] == dir
  }

  /** `file.relative_to(output_dir)`: the components after the directory's, if it is a prefix. */
  function RelativeTo(file: Path, dir: Path): (r: Option<Path>)
    ensures r.Some? <==> Under(file, dir)
  {
    if Under(file, dir) then Some(file[|dir|..]) else None
  }

  /** The relative path completes the directory to the file. */
  lemma RelativeToRestores(file: Path, dir: Path)
    requires Under(file, dir)
    ensures dir + RelativeTo(file, dir).value == file
  {
    assert file == file[..|dir|] + file[|dir|..];
  }

  /** `str(path)`: components joined by `/`, and `.` for the empty path. */
  function PathText(p: Path): string {
    if p == [] then "." else Join(p, "/")
  }

  /** `path.name`: the last component. */
  function FileName(p: Path): string {
    if p == [] then "" else p[|p| - 1]
  }

  /** The position of the last `.` in `name`, or `|name|` when there is none. */
  function LastDot(name: string): (i: nat)
    ensures i <= |name|
    ensures i < |name| ==> name[i] == '.' && '.' !in name[i + 1..]
    ensures i == |name| ==> '.' !in name
  {
    if name == [] then 0
    else if name[|name| - 1] == '.' then |name| - 1
    else
      var i := LastDot(name[..|name| - 1]);
      assert name[..|name| - 1] + [name[|name| - 1]] == name;
      if i == |name| - 1 then |name| else i
  }

  /** `path.stem`: the name without its suffix, a suffix being a last dot neither first nor last. */
  function Stem(name: string): string {
    var i := LastDot(name);
    if 0 < i < |name| - 1 then name[..i] else name
  }

  /** `path.suffix` */
  function Suffix(name: string): string {
    var i := LastDot(name);
    if 0 < i < |name| - 1 then name[i..] else ""
  }

  /** The name splits into its stem and its suffix; the suffix is empty or a dot and a dot-free rest. */
  lemma StemAndSuffix(name: string)
    ensures Stem(name) + Suffix(name) == name
    ensures Suffix(name) == [] || (|Suffix(name)| >= 2 && Suffix(name)[0] == '.' && '.' !in Suffix(name)[1..])
  {
    var i := LastDot(name);
    if 0 < i < |name| - 1 {
      assert name[..i] + name[i..] == name;
      assert name[i..][1..] == name[i + 1..];
    } else {
      assert name + [] == name;
    }
  }

  /** `file.stem.replace("-", " ").title()` */
  function DisplayName(file: Path): string {
    Title(ReplaceAll(Stem(FileName(file)), "-", " "))
  }

  /**
   * The display name is the stem, character for character: each hyphen
   * becomes a space, and each word starts with a capital, the rest lower-case.
   */
  lemma DisplayNameShape(file: Path)
    ensures var stem := Stem(FileName(file)); var name := DisplayName(file);
      && |name| == |stem|
      && (forall k :: 0 <= k < |stem| ==> (name[k] == ' ' <==> stem[k] == '-' || stem[k] == ' '))
      && (forall k :: 0 <= k < |stem| && stem[k] != '-' ==> LowerChar(name[k]) == LowerChar(stem[k]))
      && (forall k :: 0 <= k < |stem| && IsLetter(name[k]) ==> (IsUpper(name[k]) <==> k == 0 || !IsLetter(name[k - 1])))
  {
    var stem := Stem(FileName(file));
    ReplaceCharPointwise(stem, '-', ' ');
    assert "-" == ['-'] && " " == [' '];
    TitleShape(ReplaceAll(stem, "-", " "));
  }

  /** The bullet of one file. */
  function TocLine(name: string, rel: Path): string {
    "- [" + name + "](" + PathText(rel) + ")"
  }

  /** `f"- [{name}]({relative_path})"` for one file. */
  function TocEntry(file: Path, dir: Path): string
    requires Under(file, dir)
  {
    TocLine(DisplayName(file), RelativeTo(file, dir).value)
  }

  const TocHeader: string := "# Table of Contents\n"

  /** What `generate_toc` returns: the text, or the first file (in sorted order) outside the directory. */
  datatype TocResult = Toc(content: string) | NotUnder(file: Path)

  /** The bullets of the files, in the given order, each relative to `dir`. */
  function TocLines(files: seq<Path>, dir: Path): seq<string>
    requires forall k :: 0 <= k < |files| ==> Under(files[k], dir)
    ensures |TocLines(files, dir)| == |files|
    ensures forall k :: 0 <= k < |files| ==> TocLines(files, dir)[k] == TocEntry(files[k], dir)
  {
    seq(|files|, k requires 0 <= k < |files| => TocEntry(files[k], dir))
  }

  /**
   * `BaseHandler.generate_toc` without the write: the header line, then one
   * bullet per file in sorted order, joined by newlines. A file outside the
   * output directory stops it (`relative_to` raises).
   */
  method GenerateToc(files: seq<Path>, outputDir: Path) returns (r: TocResult)
    ensures var sorted := SortPaths(files);
      && (r.NotUnder? <==> exists k :: 0 <= k < |sorted| && !Under(sorted[k], outputDir))
      && (r.NotUnder? ==> exists k :: (0 <= k < |sorted| && sorted[k] == r.file
            && !Under(sorted[k], outputDir) && forall m :: 0 <= m < k ==> Under(sorted[m], outputDir)))
      && (r.Toc? ==> r.content == Join([TocHeader] + TocLines(sorted, outputDir), "\n"))
  {
    var sorted := SortPaths(files);
    r := TocOfSorted(sorted, outputDir);
  }

  /** The loop of `generate_toc` over the files, already sorted. */
  method TocOfSorted(sorted: seq<Path>, outputDir: Path) returns (r: TocResult)
    ensures r.NotUnder? <==> exists k :: 0 <= k < |sorted| && !Under(sorted[k], outputDir)
    ensures r.NotUnder? ==> exists k :: (0 <= k < |sorted| && sorted[k] == r.file
            && !Under(sorted[k], outputDir) && forall m :: 0 <= m < k ==> Under(sorted[m], outputDir))
    ensures r.Toc? ==> r.content == Join([TocHeader] + TocLines(sorted, outputDir), "\n")
  {
    var lines := [TocHeader];
    for i := 0 to |sorted|
      invariant forall k :: 0 <= k < i ==> Under(sorted[k], outputDir)
      invariant lines == [TocHeader] + TocLines(sorted[..i], outputDir)
    {
      var file := sorted[i];
      var rel := RelativeTo(file, outputDir);
      if rel.None? {
        return NotUnder(file);
      }
      var entry := TocEntry(file, outputDir);
      TocLinesSnoc(sorted, i, outputDir);
      SnocAfterHeader(TocHeader, TocLines(sorted[..i], outputDir), entry);
      lines := lines + [entry];
    }
    assert sorted[..|sorted|] == sorted;
    r := Toc(Join(lines, "\n"));
  }

  lemma TocLinesSnoc(files: seq<Path>, i: nat, dir: Path)
    requires i < |files| && forall k :: 0 <= k <= i ==> Under(files[k], dir)
    ensures TocLines(files[..i + 1], dir) == TocLines(files[..i], dir) + [TocEntry(files[i], dir)]
  {
    var a := TocLines(files[..i + 1], dir);
    var b := TocLines(files[..i], dir);
    forall k | 0 <= k < i
      ensures a[k] == b[k]
    {
      assert files[..i + 1][k] == files[..i][k];
    }
    assert files[..i + 1][i] == files[i];
    SnocPointwise(a, b, TocEntry(files[i], dir));
  }

  lemma SnocPointwise(a: seq<string>, b: seq<string>, e: string)
    requires |a| == |b| + 1 && a[|b|] == e
    requires forall k :: 0 <= k < |b| ==> a[k] == b[k]
    ensures a == b + [e]
  {
  }

  lemma SnocAfterHeader(h: string, xs: seq<string>, e: string)
    ensures [h] + xs + [e] == [h] + (xs + [e])
  {
  }

  /** With files, the text opens with the header line, then a blank line, then the bullets. */
  lemma TocShape(lines: seq<string>)
    requires lines != []
    ensures var t := Join([TocHeader] + lines, "\n");
      t == TocHeader + "\n" + Join(lines, "\n")
  {
    var all := [TocHeader] + lines;
    assert all[1..] == lines;
  }

  /** A bullet ends with `)`, so a text with files has no trailing newline. */
  lemma TocEndsWithBullet(files: seq<Path>, dir: Path)
    requires files != [] && forall k :: 0 <= k < |files| ==> Under(files[k], dir)
    ensures var t := Join([TocHeader] + TocLines(files, dir), "\n");
      t != [] && t[|t| - 1] == ')'
  {
    var lines := [TocHeader] + TocLines(files, dir);
    JoinEndsWithLast(lines, "\n");
  }

  // ------------------------------------------------------------- examples

  /** The last dot of `base.ext`, for a dot-free `ext`, is the one before `ext`. */
  lemma {:induction false} LastDotBeforeExt(base: string, ext: string)
    requires '.' !in ext
    ensures LastDot(base + "." + ext) == |base|
    decreases |ext|
  {
    var name := base + "." + ext;
    if ext == [] {
      assert name[|name| - 1] == '.';
    } else {
      var shorter := base + "." + ext[..|ext| - 1];
      assert name[..|name| - 1] == shorter;
      assert name[|name| - 1] == ext[|ext| - 1];
      LastDotBeforeExt(base, ext[..|ext| - 1]);
    }
  }

  /** Replacing a character that `a` lacks passes `a` through unchanged. */
  lemma {:induction false} ReplacePassesPrefix(a: string, rest: string, x: char, y: char)
    requires x !in a
    ensures ReplaceAll(a + rest, [x], [y]) == a + ReplaceAll(rest, [x], [y])
    decreases |a|
  {
    if a != [] {
      var s := a + rest;
      assert s[1..] == a[1..] + rest;
      assert s[..1] == [a[0]];
      ReplacePassesPrefix(a[1..], rest, x, y);
      assert s[0] == a[0];
    } else {
      assert a + rest == rest;
    }
  }

  /** Hyphens between two hyphen-free words become a space. */
  lemma HyphenToSpace(a: string, b: string)
    requires '-' !in a && '-' !in b
    ensures ReplaceAll(a + "-" + b, "-", " ") == a + " " + b
  {
    var t := "-" + b;
    assert a + "-" + b == a + t;
    ReplacePassesPrefix(a, t, '-', ' ');
    assert t[..1] == "-" && t[1..] == b;
    ReplaceAllAbsent(b, "-", " ");
    assert ReplaceAll(t, "-", " ") == " " + ReplaceAll(b, "-", " ");
    assert a + (" " + b) == a + " " + b;
  }

  /** The stem of `base.ext`, both non-empty and `ext` dot-free, is `base`. */
  lemma StemOfDotted(base: string, ext: string)
    requires base != [] && ext != [] && '.' !in ext
    ensures Stem(base + "." + ext) == base
  {
    LastDotBeforeExt(base, ext);
    assert (base + "." + ext)[..|base|] == base;
  }

  /** `first-section.md` is listed as `First Section`. */
  lemma DisplayNameExample(dir: Path)
    ensures DisplayName(dir + ["first-section.md"]) == "First Section"
  {
    assert FileName(dir + ["first-section.md"]) == "first-section.md";
    ExampleParts();
    StemOfDotted("first-section", "md");
    HyphenToSpace("first", "section");
    ExampleTitle();
  }

  lemma ExampleParts()
    ensures "first-section" + "." + "md" == "first-section.md"
    ensures "first" + "-" + "section" == "first-section"
    ensures "first" + " " + "section" == "first section"
  {
  }

  lemma ExampleTitle()
    ensures Title("first section") == "First Section"
  {
  }
}
