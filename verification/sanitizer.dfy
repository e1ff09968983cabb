/**
 * Filename normalisation and collision-free naming
 * (`FilenameNormalizer` in src/url2md/utils/sanitizer.py).
 */
module Sanitizer {
  import opened Text

  // ------------------------------------------------------------ char classes

  /** Characters kept by `INVALID_CHARS.sub('', …)`, i.e. those matching `[\w\s.-]`. */
  predicate IsValidNameChar(c: char) { IsWord(c) || IsSpace(c) || c == '.' || c == '-' }

  /** Characters matched by `SPACES_HYPHENS`, the class `[-\s]`. */
  predicate IsSeparator(c: char) { c == '-' || IsSpace(c) }

  /**
   * The shape of a cleaned base name: non-empty, lower-case, made of word
   * characters and hyphens, with no hyphen at either end and no two hyphens
   * in a row (so no whitespace and no dot either).
   */
  predicate IsSlug(s: string) {
    && |s| > 0
    && (forall i :: 0 <= i < |s| ==> IsSlugChar(s[i]))
    && s[0] != '-' && s[|s| - 1] != '-'
    && NoDoubled(s, '-')
  }

  /** A character a slug may hold: a lower-case word character or a hyphen. */
  predicate IsSlugChar(c: char) { (IsWord(c) && !IsUpper(c)) || c == '-' }

  lemma SlugHasNoSpaceNorDot(s: string)
    requires IsSlug(s)
    ensures NoSpace(s) && NoUpper(s) && '.' !in s
  {
    assert forall i :: 0 <= i < |s| ==> IsSlugChar(s[i]);
  }

  // ------------------------------------------------------------ dot segments

  /** `s.split('.')[0]`: the text before the first dot. */
  function FirstSegment(s: string): (r: string)
    ensures |r| <= |s| && r == s[..|r|] && '.' !in r
    ensures |r| < |s| ==> s[|r|] == '.'
  {
    if |s| == 0 || s[0] == '.' then [] else [s[0]] + FirstSegment(s[1..])
  }

  /** `s.split('.')[-1]`: the text after the last dot. */
  function LastSegment(s: string): (r: string)
    ensures |r| <= |s| && r == s[|s| - |r|..] && '.' !in r
    ensures |r| < |s| ==> s[|s| - |r| - 1] == '.'
  {
    if |s| == 0 || s[|s| - 1] == '.' then [] else LastSegment(s[..|s| - 1]) + [s[|s| - 1]]
  }

  // ------------------------------------------------------------ base cleaning

  /** `INVALID_CHARS.sub('', s)`: deletes every character outside `[\w\s.-]`. */
  function RemoveInvalid(s: string): (r: string)
    ensures |r| <= |s|
    ensures forall i :: 0 <= i < |r| ==> IsValidNameChar(r[i])
    ensures (forall i :: 0 <= i < |s| ==> IsValidNameChar(s[i])) ==> r == s
    ensures NoUpper(s) && '.' !in s ==> forall i :: 0 <= i < |r| ==> IsSlugChar(r[i]) || IsSpace(r[i])
  {
    if |s| == 0 then []
    else if IsValidNameChar(s[0]) then [s[0]] + RemoveInvalid(s[1..])
    else RemoveInvalid(s[1..])
  }

  /** Every character of `s` matches `[\w\s.-]`. */
  predicate ValidText(s: string) {
    forall i :: 0 <= i < |s| ==> IsValidNameChar(s[i])
  }

  lemma RemoveInvalidOfValid(s: string)
    requires ValidText(s)
    ensures RemoveInvalid(s) == s
  {
  }

  /** One character survives exactly when it is valid. */
  lemma RemoveInvalidChar(c: char)
    ensures RemoveInvalid([c]) == if IsValidNameChar(c) then [c] else []
  {
    assert [c][1..] == [];
  }

  /** The deletion keeps the order of what survives: it works on each part of a text separately. */
  lemma {:induction false} RemoveInvalidAppend(a: string, b: string)
    ensures RemoveInvalid(a + b) == RemoveInvalid(a) + RemoveInvalid(b)
    decreases |a|
  {
    if a == [] {
      assert a + b == b;
    } else {
      assert (a + b)[1..] == a[1..] + b;
      RemoveInvalidAppend(a[1..], b);
    }
  }

  /** `s` without its separators (`[-\s]`). */
  function DropSeparators(s: string): (r: string)
    ensures forall i :: 0 <= i < |r| ==> !IsSeparator(r[i])
  {
    if s == [] then []
    else (if IsSeparator(s[0]) then [] else [s[0]]) + DropSeparators(s[1..])
  }

  /** End of the run of separators starting at `i`. */
  function SeparatorRunEnd(s: string, i: nat): (e: nat)
    requires i <= |s|
    ensures i <= e <= |s|
    ensures e < |s| ==> !IsSeparator(s[e])
    decreases |s| - i
  {
    if i < |s| && IsSeparator(s[i]) then SeparatorRunEnd(s, i + 1) else i
  }

  /** `SPACES_HYPHENS.sub('-', s)`: every maximal run of `[-\s]` becomes one hyphen. */
  function CollapseSeparators(s: string): (r: string)
    ensures |s| > 0 ==> |r| > 0 && r[0] == (if IsSeparator(s[0]) then '-' else s[0])
    ensures forall i :: 0 <= i < |r| ==> r[i] == '-' || !IsSeparator(r[i])
    ensures (forall i :: 0 <= i < |s| ==> IsSlugChar(s[i]) || IsSpace(s[i])) ==>
              forall i :: 0 <= i < |r| ==> IsSlugChar(r[i])
    ensures NoDoubled(r, '-')
    decreases |s|
  {
    if |s| == 0 then []
    else if IsSeparator(s[0]) then
      var e := SeparatorRunEnd(s, 0);
      var rest := CollapseSeparators(s[e..]);
      var r := "-" + rest;
      assert forall i :: 1 <= i < |r| - 1 ==> (DoubledAt(r, i, '-') <==> DoubledAt(rest, i - 1, '-'));
      r
    else
      var rest := CollapseSeparators(s[1..]);
      var r := [s[0]] + rest;
      assert forall i :: 1 <= i < |r| - 1 ==> (DoubledAt(r, i, '-') <==> DoubledAt(rest, i - 1, '-'));
      r
  }

  /**
   * Collapsing changes separators only: with every separator deleted, the
   * result reads exactly as the input does, so the other characters are
   * all kept, in order, and none is added.
   */
  lemma {:induction false} CollapseKeepsText(s: string)
    ensures DropSeparators(CollapseSeparators(s)) == DropSeparators(s)
    decreases |s|
  {
    if |s| > 0 {
      if IsSeparator(s[0]) {
        var e := SeparatorRunEnd(s, 0);
        CollapseKeepsText(s[e..]);
        SeparatorRunDropped(s, 0);
        assert ("-" + CollapseSeparators(s[e..]))[1..] == CollapseSeparators(s[e..]);
      } else {
        CollapseKeepsText(s[1..]);
        assert ([s[0]] + CollapseSeparators(s[1..]))[1..] == CollapseSeparators(s[1..]);
      }
    }
  }

  /** A run of separators disappears when separators are deleted. */
  lemma {:induction false} SeparatorRunDropped(s: string, i: nat)
    requires i <= |s|
    ensures DropSeparators(s[i..]) == DropSeparators(s[SeparatorRunEnd(s, i)..])
    decreases |s| - i
  {
    if i < |s| && IsSeparator(s[i]) {
      assert s[i..][1..] == s[i + 1..];
      SeparatorRunDropped(s, i + 1);
    }
  }

  lemma {:induction false} CollapseOfNoRuns(s: string)
    requires NoSpace(s)
    requires NoDoubled(s, '-')
    ensures CollapseSeparators(s) == s
    decreases |s|
  {
    if |s| > 0 {
      if IsSeparator(s[0]) && |s| > 1 {
        assert !DoubledAt(s, 0, '-');
        assert SeparatorRunEnd(s, 1) == 1;
      }
      assert NoDoubled(s[1..], '-') by {
        forall i | 0 <= i < |s[1..]| - 1
          ensures !DoubledAt(s[1..], i, '-')
        {
          assert !DoubledAt(s, i + 1, '-');
        }
      }
      CollapseOfNoRuns(s[1..]);
    }
  }

  /**
   * The base name: the text before the first dot of the lower-cased input,
   * with invalid characters deleted, separator runs collapsed to one hyphen
   * and hyphens stripped from both ends; `"unnamed"` when nothing is left.
   */
  function CleanBase(filename: string): (r: string)
    ensures IsSlug(r)
  {
    var base := FirstSegment(Lower(filename));
    var kept := RemoveInvalid(base);
    var collapsed := CollapseSeparators(kept);
    var stripped := StripSet(collapsed, {'-'});
    if |stripped| == 0 then Unnamed()
    else
      CleanedIsSlug(filename, base, kept, collapsed, stripped);
      stripped
  }

  /** The base used when nothing of the name survives cleaning. */
  function Unnamed(): (r: string)
    ensures IsSlug(r) && r == "unnamed"
  {
    "unnamed"
  }

  lemma CleanedIsSlug(filename: string, base: string, kept: string, collapsed: string, stripped: string)
    requires base == FirstSegment(Lower(filename))
    requires kept == RemoveInvalid(base)
    requires collapsed == CollapseSeparators(kept)
    requires stripped == StripSet(collapsed, {'-'}) && |stripped| > 0
    ensures IsSlug(stripped)
  {
    assert NoUpper(base) by {
      var l := Lower(filename);
      assert base == l[..|base|];
    }
    assert forall i :: 0 <= i < |collapsed| ==> IsSlugChar(collapsed[i]);
    StrippedIsSlug(collapsed, stripped);
  }

  lemma StrippedIsSlug(collapsed: string, stripped: string)
    requires forall i :: 0 <= i < |collapsed| ==> IsSlugChar(collapsed[i])
    requires NoDoubled(collapsed, '-')
    requires stripped == StripSet(collapsed, {'-'}) && |stripped| > 0
    ensures IsSlug(stripped)
  {
    var a := StripStart(collapsed, {'-'});
    assert stripped == collapsed[a..a + |stripped|];
    assert stripped[0] != '-' && stripped[|stripped| - 1] != '-';
    SliceKeepsSlugChars(collapsed, a, a + |stripped|);
    SliceKeepsNoDoubled(collapsed, a, a + |stripped|);
  }

  lemma SliceKeepsSlugChars(s: string, a: nat, b: nat)
    requires a <= b <= |s|
    requires forall i :: 0 <= i < |s| ==> IsSlugChar(s[i])
    ensures forall i :: 0 <= i < b - a ==> IsSlugChar(s[a..b][i])
  {
  }

  lemma SliceKeepsNoDoubled(s: string, a: nat, b: nat)
    requires a <= b <= |s| && NoDoubled(s, '-')
    ensures NoDoubled(s[a..b], '-')
  {
    var t := s[a..b];
    forall i | 0 <= i < |t| - 1
      ensures !DoubledAt(t, i, '-')
    {
      assert t[i] == s[a + i] && t[i + 1] == s[a + i + 1];
      assert !DoubledAt(s, a + i, '-');
    }
  }

  /**
   * The extension: the text after the last dot of the lower-cased input, not
   * cleaned, or `""` when there is no dot or the text holds no valid character.
   */
  function Extension(filename: string): (r: string)
    ensures '.' !in r && NoUpper(r)
    ensures r != "" ==> '.' in Lower(filename) && r == LastSegment(Lower(filename)) && RemoveInvalid(r) != ""
    ensures '.' in Lower(filename) && RemoveInvalid(LastSegment(Lower(filename))) != "" ==> r == LastSegment(Lower(filename))
  {
    var lowered := Lower(filename);
    var ext := if '.' in lowered then LastSegment(lowered) else "";
    assert NoUpper(ext) by {
      if '.' in lowered { assert ext == lowered[|lowered| - |ext|..]; }
    }
    if ext != "" && RemoveInvalid(ext) == "" then "" else ext
  }

  /**
   * `FilenameNormalizer.normalize_filename`: the slug base, then `-` and the
   * extension when there is one. Never empty, never upper-case, never a dot.
   */
  function NormalizeFilename(filename: string): (r: string)
    ensures |r| > 0 && NoUpper(r) && '.' !in r
    ensures r == CleanBase(filename) + (if Extension(filename) == "" then "" else "-" + Extension(filename))
  {
    var base := CleanBase(filename);
    var ext := Extension(filename);
    NameParts(base, ext);
    base + (if ext == "" then "" else "-" + ext)
  }

  lemma NameParts(base: string, ext: string)
    requires IsSlug(base) && '.' !in ext && NoUpper(ext)
    ensures var r := base + (if ext == "" then "" else "-" + ext); |r| > 0 && NoUpper(r) && '.' !in r
  {
    SlugHasNoSpaceNorDot(base);
    var tail := if ext == "" then "" else "-" + ext;
    assert NoUpper(tail) && '.' !in tail;
    NoUpperConcat(base, tail);
  }

  /** `NormalizeFilename` from its two parts. */
  lemma NormalizeSteps(filename: string, base: string, ext: string)
    requires CleanBase(filename) == base && Extension(filename) == ext
    ensures NormalizeFilename(filename) == if ext == "" then base else base + "-" + ext
  {
    ConcatParts(base, ext);
  }

  lemma ConcatParts(base: string, ext: string)
    ensures base + (if ext == "" then "" else "-" + ext) == if ext == "" then base else base + "-" + ext
  {
    if ext == "" {
      assert base + "" == base;
    } else {
      assert base + ("-" + ext) == base + "-" + ext;
    }
  }

  /** Without a dot there is no extension: the name is its cleaned base. */
  lemma NormalizeOfDotFree(filename: string)
    requires '.' !in filename
    ensures NormalizeFilename(filename) == CleanBase(filename)
  {
    ExtensionOfDotFree(filename);
    NormalizeSteps(filename, CleanBase(filename), "");
  }

  lemma NoUpperConcat(a: string, b: string)
    requires NoUpper(a) && NoUpper(b)
    ensures NoUpper(a + b)
  {
    assert forall i :: |a| <= i < |a + b| ==> (a + b)[i] == b[i - |a|];
  }

  /** A name without a dot normalises to a slug that normalisation leaves alone. */
  lemma DotFreeIdempotent(filename: string)
    requires '.' !in filename
    ensures NormalizeFilename(NormalizeFilename(filename)) == NormalizeFilename(filename)
  {
    NormalizeOfDotFree(filename);
    SlugFixedPoint(CleanBase(filename));
  }

  /** A slug is its own normalisation. */
  lemma SlugFixedPoint(s: string)
    requires IsSlug(s)
    ensures NormalizeFilename(s) == s
  {
    SlugHasNoSpaceNorDot(s);
    CleanBaseOfSlug(s);
    ExtensionOfDotFree(s);
    NormalizeSteps(s, s, "");
  }

  lemma CleanBaseOfSlug(s: string)
    requires IsSlug(s)
    ensures CleanBase(s) == s
  {
    SlugHasNoSpaceNorDot(s);
    LowerOfNoUpper(s);
    FirstSegmentOfDotFree(s);
    assert forall i :: 0 <= i < |s| ==> IsValidNameChar(s[i]) by {
      assert forall i :: 0 <= i < |s| ==> IsSlugChar(s[i]);
    }
    CollapseOfNoRuns(s);
    StripSetOfUnmarkedEnds(s, {'-'});
    CleanBaseSteps(s, s, s, s, s, s);
  }

  /** `CleanBase` as the chain of its steps. */
  lemma CleanBaseSteps(filename: string, lowered: string, base: string, kept: string, collapsed: string, stripped: string)
    requires lowered == Lower(filename) && base == FirstSegment(lowered)
    requires kept == RemoveInvalid(base) && collapsed == CollapseSeparators(kept)
    requires stripped == StripSet(collapsed, {'-'})
    ensures CleanBase(filename) == if stripped == [] then "unnamed" else stripped
  {
  }

  lemma FirstSegmentOfDotFree(s: string)
    requires '.' !in s
    ensures FirstSegment(s) == s
  {
  }

  lemma ExtensionOfDotFree(s: string)
    requires '.' !in s
    ensures Extension(s) == ""
  {
    LowerKeepsChar(s, '.');
  }

  /** Normalisation is not idempotent once a dot is involved: `"a.-"` gives `"a--"`, which gives `"a"`. */
  lemma DottedNotIdempotent()
    ensures NormalizeFilename("a.-") == "a--"
    ensures NormalizeFilename("a--") == "a"
  {
    DottedStep1();
    DottedStep2();
  }

  lemma DottedStep1()
    ensures NormalizeFilename("a.-") == "a--"
  {
    DottedBase();
    DottedExtension();
    NormalizeSteps("a.-", "a", "-");
    HyphenatedExample();
  }

  lemma HyphenatedExample()
    ensures "a" + "-" + "-" == "a--"
  {
  }

  lemma DottedBase()
    ensures CleanBase("a.-") == "a"
  {
    LowerOfNoUpper("a.-");
    DottedFirstSegment();
    assert RemoveInvalid("a") == "a";
    CollapseOfNoRuns("a");
    StripSetOfUnmarkedEnds("a", {'-'});
    CleanBaseSteps("a.-", "a.-", "a", "a", "a", "a");
  }

  lemma DottedFirstSegment()
    ensures FirstSegment("a.-") == "a"
  {
    assert "a.-"[1] == '.';
  }

  lemma DottedExtension()
    ensures Extension("a.-") == "-"
  {
    LowerOfNoUpper("a.-");
    assert "a.-"[1] == '.';
    assert LastSegment("a.-") == "-";
    assert RemoveInvalid("-") == "-";
  }

  lemma DottedStep2()
    ensures NormalizeFilename("a--") == "a"
  {
    LowerOfNoUpper("a--");
    FirstSegmentOfDotFree("a--");
    assert RemoveInvalid("a--") == "a--";
    DoubleHyphenCollapses();
    DoubleHyphenStripped();
    CleanBaseSteps("a--", "a--", "a--", "a--", "a-", "a");
    ExtensionOfDotFree("a--");
    NormalizeSteps("a--", "a", "");
  }

  /** A name with a space and an extension: `"Test File.txt"` gives `"test-file-txt"`. */
  lemma NormalizeSpaceExample()
    ensures NormalizeFilename("Test File.txt") == "test-file-txt"
  {
    ExampleLowered();
    ExampleBase();
    ExampleExtension();
    NormalizeSteps("Test File.txt", "test-file", "txt");
    ExampleJoined();
  }

  lemma ExampleLowered()
    ensures Lower("Test File.txt") == "test file.txt"
  {
  }

  lemma ExampleJoined()
    ensures "test-file" + "-" + "txt" == "test-file-txt"
  {
  }

  lemma ExampleBase()
    requires Lower("Test File.txt") == "test file.txt"
    ensures CleanBase("Test File.txt") == "test-file"
  {
    ExampleParts();
    ExampleNoDot();
    FirstSegmentBeforeDot("test file", "txt");
    ExampleAllValid();
    RemoveInvalidOfValid("test file");
    ExampleWords();
    CollapseOneSpace("test", "file");
    ExampleStripped();
    CleanBaseSteps("Test File.txt", "test file.txt", "test file", "test file", "test-file", "test-file");
  }

  lemma ExampleParts()
    ensures "test file.txt" == "test file" + "." + "txt"
    ensures "test file" == "test" + " " + "file"
    ensures "test-file" == "test" + "-" + "file"
  {
  }

  lemma ExampleNoDot()
    ensures '.' !in "test file" && '.' !in "txt"
  {
  }

  lemma ExampleAllValid()
    ensures ValidText("test file") && ValidText("txt")
  {
  }

  lemma ExampleWords()
    ensures forall i :: 0 <= i < |"test"| ==> !IsSeparator("test"[i])
    ensures forall i :: 0 <= i < |"file"| ==> !IsSeparator("file"[i])
  {
  }

  lemma ExampleStripped()
    ensures StripSet("test-file", {'-'}) == "test-file"
  {
    assert "test-file"[0] != '-' && "test-file"[8] != '-';
    StripSetOfUnmarkedEnds("test-file", {'-'});
  }

  lemma ExampleExtension()
    requires Lower("Test File.txt") == "test file.txt"
    ensures Extension("Test File.txt") == "txt"
  {
    ExampleParts();
    ExampleNoDot();
    ExampleAllValid();
    RemoveInvalidOfValid("txt");
    LastSegmentAfterDot("test file", "txt");
    assert "test file.txt"[9] == '.';
  }

  /** The text before the first dot: a dot-free `a` followed by a dot. */
  lemma {:induction false} FirstSegmentBeforeDot(a: string, b: string)
    requires '.' !in a
    ensures FirstSegment(a + "." + b) == a
    decreases |a|
  {
    if a == [] {
      assert (a + "." + b)[0] == '.';
    } else {
      assert (a + "." + b)[1..] == a[1..] + "." + b;
      FirstSegmentBeforeDot(a[1..], b);
      assert [a[0]] + a[1..] == a;
    }
  }

  /** The text after the last dot: a dot-free `b` after a dot. */
  lemma {:induction false} LastSegmentAfterDot(a: string, b: string)
    requires '.' !in b
    ensures LastSegment(a + "." + b) == b
    decreases |b|
  {
    var s := a + "." + b;
    if b == [] {
      assert s[|s| - 1] == '.';
    } else {
      var b' := b[..|b| - 1];
      assert s[..|s| - 1] == a + "." + b';
      LastSegmentAfterDot(a, b');
      assert b' + [b[|b| - 1]] == b;
    }
  }

  /** Two separator-free words around one space: the space becomes a hyphen. */
  lemma CollapseOneSpace(a: string, b: string)
    requires |b| > 0
    requires forall i :: 0 <= i < |a| ==> !IsSeparator(a[i])
    requires forall i :: 0 <= i < |b| ==> !IsSeparator(b[i])
    ensures CollapseSeparators(a + " " + b) == a + "-" + b
  {
    SpaceThenWord(b);
    CollapseOfNoSeparators(b);
    CollapseAfterWord(a, " " + b);
    Regroup(a, " ", b);
    Regroup(a, "-", b);
  }

  lemma Regroup(a: string, m: string, b: string)
    ensures a + m + b == a + (m + b)
  {
  }

  lemma SpaceThenWord(b: string)
    requires |b| > 0 && !IsSeparator(b[0])
    ensures CollapseSeparators(" " + b) == "-" + CollapseSeparators(b)
  {
    var t := " " + b;
    assert SeparatorRunEnd(t, 1) == 1;
    assert t[1..] == b;
    CollapseRunStep(t);
  }

  /** A separator run at the front becomes one hyphen. */
  lemma CollapseRunStep(s: string)
    requires |s| > 0 && IsSeparator(s[0])
    ensures CollapseSeparators(s) == "-" + CollapseSeparators(s[SeparatorRunEnd(s, 0)..])
  {
  }

  /** Any other first character is copied. */
  lemma CollapseWordStep(s: string)
    requires |s| > 0 && !IsSeparator(s[0])
    ensures CollapseSeparators(s) == [s[0]] + CollapseSeparators(s[1..])
  {
  }

  lemma {:induction false} CollapseOfNoSeparators(s: string)
    requires forall i :: 0 <= i < |s| ==> !IsSeparator(s[i])
    ensures CollapseSeparators(s) == s
    decreases |s|
  {
    if s != [] {
      CollapseWordStep(s);
      CollapseOfNoSeparators(s[1..]);
    }
  }

  /** A separator-free prefix is copied as it is. */
  lemma {:induction false} CollapseAfterWord(a: string, t: string)
    requires forall i :: 0 <= i < |a| ==> !IsSeparator(a[i])
    ensures CollapseSeparators(a + t) == a + CollapseSeparators(t)
    decreases |a|
  {
    if a != [] {
      var s := a + t;
      assert s[0] == a[0];
      CollapseWordStep(s);
      assert s[1..] == a[1..] + t;
      CollapseAfterWord(a[1..], t);
      ConsAssoc(a, CollapseSeparators(t));
    } else {
      assert a + t == t;
    }
  }

  lemma ConsAssoc(a: string, u: string)
    requires a != []
    ensures [a[0]] + (a[1..] + u) == a + u
  {
  }

  lemma DoubleHyphenCollapses()
    ensures CollapseSeparators("a--") == "a-"
  {
    assert SeparatorRunEnd("a--", 1) == 3;
    assert "a--"[3..] == [];
  }

  lemma DoubleHyphenStripped()
    ensures StripSet("a-", {'-'}) == "a"
  {
    assert DropWhile("a-", {'-'}) == "a-";
    assert DropWhileEnd("a-", {'-'}) == "a";
  }

  // ------------------------------------------------------------ safe filename

  /** The `counter`-th name `get_safe_filename` tries: `stem.ext`, then `stem-2.ext`, `stem-3.ext`, … */
  function Candidate(stem: string, extension: string, counter: nat): (name: string)
    requires counter >= 1
    ensures |name| > |stem| + |extension|
    ensures name[..|stem|] == stem && name[|name| - |extension| - 1..] == "." + extension
    ensures counter == 1 <==> name[|stem|] == '.'
    ensures counter > 1 ==> name[|stem|] == '-' && CounterText(name[|stem| + 1..|name| - |extension| - 1], counter)
  {
    if counter == 1 then
      CandidateParts(stem, ".", extension);
      stem + "." + extension
    else
      var d := NatToString(counter);
      ParseNatToString(counter);
      CandidateParts(stem, "-" + d, extension);
      assert ("-" + d)[1..] == d;
      assert stem + "-" + d + "." + extension == stem + ("-" + d) + "." + extension;
      stem + "-" + d + "." + extension
  }

  /** `d` is the decimal text of `counter`: digits only, reading back as `counter`. */
  predicate CounterText(d: string, counter: nat) {
    (forall k :: 0 <= k < |d| ==> IsDigit(d[k])) && ParseNat(d) == counter
  }

  lemma CandidateParts(stem: string, mid: string, extension: string)
    requires |mid| > 0
    ensures var name := stem + mid + "." + extension;
      && |name| == |stem| + |mid| + 1 + |extension|
      && name[..|stem|] == stem && name[|name| - |extension| - 1..] == "." + extension
      && name[|stem|] == mid[0]
      && name[|stem| + 1..|name| - |extension| - 1] == mid[1..]
  {
    var name := stem + mid + "." + extension;
    assert name == stem + (mid + ("." + extension));
  }

  /** No two counters give the same candidate, so the probe never repeats a name. */
  lemma CandidateInjective(stem: string, extension: string, j: nat, k: nat)
    requires 1 <= j < k
    ensures Candidate(stem, extension, j) != Candidate(stem, extension, k)
  {
    var a := Candidate(stem, extension, j);
    var b := Candidate(stem, extension, k);
    if j == 1 {
      assert a[|stem|] == '.' && b[|stem|] == '-';
    } else if |a| == |b| {
      var ma := a[|stem| + 1..|a| - |extension| - 1];
      var mb := b[|stem| + 1..|b| - |extension| - 1];
      assert ParseNat(ma) == j && ParseNat(mb) == k;
      assert ma != mb;
    }
  }

  /** The candidates for counters `1..n`. */
  ghost function Probed(stem: string, extension: string, n: nat): set<string>
  {
    if n == 0 then {} else Probed(stem, extension, n - 1) + {Candidate(stem, extension, n)}
  }

  lemma {:induction false} ProbedSize(stem: string, extension: string, n: nat)
    ensures |Probed(stem, extension, n)| == n
    ensures forall k :: n < k ==> Candidate(stem, extension, k) !in Probed(stem, extension, n)
  {
    if n > 0 {
      ProbedSize(stem, extension, n - 1);
      forall k | n < k
        ensures Candidate(stem, extension, k) !in Probed(stem, extension, n)
      {
        CandidateInjective(stem, extension, n, k);
      }
    }
  }

  lemma {:induction false} ProbedMembers(stem: string, extension: string, n: nat, existing: set<string>)
    requires forall j :: 1 <= j <= n ==> Candidate(stem, extension, j) in existing
    ensures Probed(stem, extension, n) <= existing
  {
    if n > 0 {
      ProbedMembers(stem, extension, n - 1, existing);
    }
  }

  /** Pairwise distinct candidates that are all taken cannot outnumber the taken names. */
  lemma ProbedBound(stem: string, extension: string, n: nat, existing: set<string>)
    requires forall j :: 1 <= j <= n ==> Candidate(stem, extension, j) in existing
    ensures n <= |existing|
  {
    ProbedMembers(stem, extension, n, existing);
    ProbedSize(stem, extension, n);
    var p := Probed(stem, extension, n);
    assert existing == p + (existing - p);
  }

  lemma SecondIsNotFirst(stem: string, extension: string)
    ensures Candidate(stem, extension, 2) != Candidate(stem, extension, 1)
  {
  }

  /**
   * When only `stem.ext` is taken, the probe's answer is `stem-2.ext`: the
   * counter is never written as `-1`.
   */
  lemma TakenBaseGivesSecond(stem: string, extension: string, existing: set<string>, name: string)
    requires existing == {stem + "." + extension}
    requires name !in existing
    requires exists counter :: (counter >= 1
      && name == Candidate(stem, extension, counter)
      && forall j :: 1 <= j < counter ==> Candidate(stem, extension, j) in existing)
    ensures name == stem + "-2." + extension
  {
    var counter :| counter >= 1
      && name == Candidate(stem, extension, counter)
      && forall j :: 1 <= j < counter ==> Candidate(stem, extension, j) in existing;
    SecondIsNotFirst(stem, extension);
    assert counter == 2;
    assert NatToString(2) == "2";
    assert stem + "-" + "2" + "." + extension == stem + "-2." + extension;
  }

  /**
   * `FilenameNormalizer.get_safe_filename`: the first candidate name not among
   * the directory's `existing` names. Every earlier candidate is taken; the
   * directory is only read.
   */
  method GetSafeFilename(base: string, extension: string, existing: set<string>) returns (name: string)
    ensures name !in existing
    ensures exists counter :: (counter >= 1
      && name == Candidate(NormalizeFilename(base), extension, counter)
      && forall j :: 1 <= j < counter ==> Candidate(NormalizeFilename(base), extension, j) in existing)
  {
    var stem := NormalizeFilename(base);
    name := ProbeNames(stem, extension, existing);
  }

  /** The probe loop of `get_safe_filename` for an already normalised stem. */
  method ProbeNames(stem: string, extension: string, existing: set<string>) returns (name: string)
    ensures name !in existing
    ensures exists counter :: (counter >= 1
      && name == Candidate(stem, extension, counter)
      && forall j :: 1 <= j < counter ==> Candidate(stem, extension, j) in existing)
  {
    var counter := 1;
    while true
      invariant counter >= 1
      invariant forall j :: 1 <= j < counter ==> Candidate(stem, extension, j) in existing
      invariant counter - 1 <= |existing|
      decreases |existing| - (counter - 1)
    {
      var filename;
      if counter == 1 {
        filename := stem + "." + extension;
      } else {
        filename := stem + "-" + NatToString(counter) + "." + extension;
      }
      assert filename == Candidate(stem, extension, counter);
      if filename !in existing {
        return filename;
      }
      ProbedBound(stem, extension, counter, existing);
      counter := counter + 1;
    }
  }
}
