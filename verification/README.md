# url2md text segmentation and naming, in Dafny

url2md fetches a web page, converts it to Markdown and writes it to disk as
one or more files. This project models the deterministic core of that
pipeline: the functions that cut content into sections, rewrite elements and
text, and choose file and folder names. Each is modelled in Dafny, together
with the properties its code promises.

- **File names.** There are two slug functions. `FilenameNormalizer.normalize_filename`
  and its collision-avoiding probe `get_safe_filename` are in `Sanitizer`.
  `BaseHandler._sanitize_filename` is in `BaseHandler`.
- **Sections.** There are three splitters:
  - `HtmlHandler._split_by_h1` (`HtmlHandler.SplitByH1`): an accumulator
    walk over the body's children.
  - `HtmlSplitter.split_and_save` (`HtmlSplitter.SplitAndSave`): each `h1`
    and its following sibling tags.
  - `MarkdownSplitter.split_markdown` (`MarkdownSplitter.SplitMarkdown`):
    slices at the lines matching `^#\s+(.+)$`, with its two error results.
- **Rewriting.**
  - The `img` and `pre` overrides of the Markdown converter.
  - The `re.sub` chain of `_clean_markdown` (`MarkdownCleanup`).
  - `TableFormatter.format_table` and `_clean_text`.
- **Navigation and folders.** The table of contents `generate_toc` builds,
  and the domain folder names of `sanitize_domain_name` and
  `build_domain_path`.

Shared pieces:
- `Text` holds the ASCII versions of the Python string operations used:
  `lower`, `title`, `strip`, `split`, `replace`, `in`, `join` and `str(int)`.
- `Html` holds an abstract HTML tree. A tag has a name, an attribute map, a
  class list and children; anything else is a text node.

Each regular expression is a hand-written matcher that follows Python's
leftmost-first backtracking. `re.sub` is a left-to-right scan that resumes
after each match. Two proofs check a matcher against a declarative reading of
its regex: `MarkdownSplitter.GroupStartIsLongestSplit` and
`Domain.MergeIsLeftmostMatch`.

Where the repository's tests and its code disagree, the model follows the code.
- `normalize_filename("!@#$%^&*.doc")` is `unnamed-doc`, because the empty
  base becomes `unnamed` before the extension is added. The test expects `doc`.
- `normalize_filename("multiple...dots")` is `multiple-dots`, because only
  the first and the last dot segments are kept (`split('.')`, whatever the
  comment says about `rsplit`). The test expects `multipledots`.
- In the test for `get_safe_filename`, `test.md` is taken and the test
  expects `test-1.md`, then `test-2.md`. The counter starts at 1 and the
  first name carries no counter, so the first answer is `test-2.md`
  (`Sanitizer.TakenBaseGivesSecond`). The probe creates no file, so the
  second call returns the same name.
- `normalize_filename` is idempotent on names without a dot
  (`Sanitizer.DotFreeIdempotent`) but not in general: `a.-` gives `a--`,
  which gives `a` (`Sanitizer.DottedNotIdempotent`).

## Model

| member | source | states |
|---|---|---|
| Sanitizer.FirstSegment | src/url2md/utils/sanitizer.py:151-152 | the base segment is a dot-free prefix, ended by a dot or by the end of the name |
| Sanitizer.LastSegment | src/url2md/utils/sanitizer.py:151-153 | the extension segment is a dot-free suffix, preceded by a dot or by the start of the name |
| Sanitizer.RemoveInvalid | src/url2md/utils/sanitizer.py:157 | every character left is in `[\w\s.-]`; a text made only of such characters is kept whole |
| Sanitizer.RemoveInvalidChar | src/url2md/utils/sanitizer.py:157 | one character is kept exactly when it is in `[\w\s.-]` |
| Sanitizer.RemoveInvalidAppend | src/url2md/utils/sanitizer.py:157 | removal works on each part separately, so the kept characters stay in their order |
| Sanitizer.CollapseSeparators | src/url2md/utils/sanitizer.py:159 | a separator run becomes one hyphen: no separator other than `-` and no two hyphens in a row remain, and the first character is kept or made a hyphen |
| Sanitizer.CollapseOfNoRuns | src/url2md/utils/sanitizer.py:159 | a text with no whitespace and no doubled hyphen is left unchanged |
| Sanitizer.CollapseKeepsText | src/url2md/utils/sanitizer.py:159 | collapsing rewrites only separator runs: with all whitespace and hyphens deleted, input and result are the same text |
| Sanitizer.CleanBase | src/url2md/utils/sanitizer.py:148-165 | the base is a slug: non-empty, lower-case word characters and hyphens, no hyphen at either end, no two hyphens in a row; an empty cleaned base becomes `unnamed` |
| Sanitizer.Extension | src/url2md/utils/sanitizer.py:151-169 | the extension is dot-free and lower-case; it is non-empty exactly when the name has a dot and its last segment keeps a valid character, and then it is that segment |
| Sanitizer.NormalizeFilename | src/url2md/utils/sanitizer.py:138-172 | the result is never empty, has no upper-case letter and no dot, and is the base followed by `-` and the extension when there is one |
| Sanitizer.NormalizeOfDotFree | src/url2md/utils/sanitizer.py:151-172 | without a dot there is no extension, and the name is its cleaned base |
| Sanitizer.SlugFixedPoint | src/url2md/utils/sanitizer.py:138-172 | a slug normalises to itself |
| Sanitizer.DotFreeIdempotent | src/url2md/utils/sanitizer.py:138-172 | for a name without a dot, normalising twice is normalising once |
| Sanitizer.DottedNotIdempotent | src/url2md/utils/sanitizer.py:151-172 | `a.-` normalises to `a--`, and `a--` normalises to `a` |
| Sanitizer.NormalizeSpaceExample | src/url2md/utils/sanitizer.py:138-172 | `Test File.txt` normalises to `test-file-txt` |
| Sanitizer.Candidate | src/url2md/utils/sanitizer.py:192-195 | the `counter`-th name is the stem, then `.` for counter 1, or `-` and the decimal digits of the counter otherwise, then `.` and the extension |
| Sanitizer.CandidateInjective | src/url2md/utils/sanitizer.py:192-195 | distinct counters give distinct candidate names |
| Sanitizer.ProbedBound | src/url2md/utils/sanitizer.py:190-200 | the number of candidates found taken never exceeds the number of existing names, so the probe ends |
| Sanitizer.ProbeNames | src/url2md/utils/sanitizer.py:189-200 | the loop returns a name not among the existing ones; it is the candidate of some counter, and every earlier candidate is taken |
| Sanitizer.GetSafeFilename | src/url2md/utils/sanitizer.py:175-200 | as ProbeNames, with the stem `normalize_filename(base)` |
| Sanitizer.TakenBaseGivesSecond | src/url2md/utils/sanitizer.py:190-199 | when only `stem.ext` is taken, the answer is `stem-2.ext` |
| MarkdownSplitter.GroupStartIsLongestSplit | src/url2md/utils/markdown_splitter.py:14 | the matcher takes the split with the longest `\s+` after `#` and a group starting on a non-newline; it fails exactly when no such split exists |
| MarkdownSplitter.FindH1 | src/url2md/utils/markdown_splitter.py:34 | the matches are in text order, do not overlap, each starts at a line start with `#` and has a non-empty group |
| MarkdownSplitter.FindH1Complete | src/url2md/utils/markdown_splitter.py:34 | the scan misses no heading: every line start where the pattern matches, outside the earlier matches, starts a match |
| MarkdownSplitter.NoHeadingsIff | src/url2md/utils/markdown_splitter.py:34-36 | no match is found if and only if no line start admits the pattern |
| MarkdownSplitter.DoubleHashNeverHeading | src/url2md/utils/markdown_splitter.py:14 | every match is `#` followed by whitespace, so a `##` line never opens a section |
| MarkdownSplitter.SplitMarkdown | src/url2md/utils/markdown_splitter.py:17-57 | blank input fails with the empty-content error and input with no heading fails with the no-headings error, each if and only if; otherwise there is one entry per file name of a heading, at most one per heading, and each entry holds the stripped section of the last heading with that name |
| MarkdownSplitter.CollectFiles | src/url2md/utils/markdown_splitter.py:41-55 | the map's keys are exactly the names; each name is bound to the body of its last occurrence |
| MarkdownSplitter.SectionEnd | src/url2md/utils/markdown_splitter.py:47 | a section ends no earlier than its heading's match and no later than the text |
| MarkdownSplitter.Key | src/url2md/utils/markdown_splitter.py:42-44 | a file name ends with `.md`, has no upper-case letter and no other dot |
| MarkdownSplitter.Body | src/url2md/utils/markdown_splitter.py:47-48 | every file's content is non-empty, starts with `#` and has no whitespace at either end |
| MarkdownSplitter.OrderedStarts | src/url2md/utils/markdown_splitter.py:41-47 | the headings, and so the sections, come in text order |
| MarkdownSplitter.SectionsTile | src/url2md/utils/markdown_splitter.py:47-48 | the unstripped sections, concatenated, are the text from the first heading on; text before it is in no section |
| Domain.ReplaceInvalid | src/url2md/utils/domain.py:33 | same length; each character outside `[\w\-\.]` becomes `_` and every other character is kept |
| Domain.MergeHyphenDot | src/url2md/utils/domain.py:35 | every character of the result is a hyphen or a character of the input |
| Domain.MergeIsLeftmostMatch | src/url2md/utils/domain.py:35 | with no match of `-+\.([^.]+)$` the text is unchanged; otherwise the leftmost match is replaced by `-` and its group |
| Domain.SanitizeDomainName | src/url2md/utils/domain.py:20-38 | the result is lower-case, made of `[\w\-\.]`, and has no `_` at either end |
| Domain.SanitizeClean | src/url2md/utils/domain.py:20-38 | a name already lower-case, valid, free of the hyphen-dot pattern and of edge underscores comes back unchanged |
| Domain.SanitizeInvalidExample | src/url2md/utils/domain.py:31-33 | `invalid!name.com` becomes `invalid_name.com` |
| Domain.SanitizeTrailingHyphenExample | src/url2md/utils/domain.py:35 | `trailing-.com` becomes `trailing-com` |
| Domain.BuildDomainPath | src/url2md/utils/domain.py:40-74 | an empty domain gives the fallback, and `localhost` gives `localhost` whatever the other inputs; every other domain is covered by `Domain.PathLevels` |
| Domain.DomainFolder | src/url2md/utils/domain.py:71-72 | the sanitised domain part holds no `/` |
| Domain.PathLevels | src/url2md/utils/domain.py:63-74 | otherwise the path ends with the domain folder; with a subdomain asked for and present it is the sanitised subdomain, one `/` and the domain folder, its only `/` right after the subdomain; else it is the domain folder alone, with no `/` |
| Domain.SlashJoin | src/url2md/utils/domain.py:74 | joining two slash-free names with `/` puts the only slash between them and keeps both |
| TableFormatter.StripStarsRemovesStars | src/url2md/utils/table_formatter.py:41-42 | the two star passes together delete exactly the `*` characters |
| TableFormatter.DeleteRunsKeepsOthers | src/url2md/utils/table_formatter.py:41 | deleting long star runs changes nothing but stars |
| TableFormatter.DeleteAllRuns | src/url2md/utils/table_formatter.py:42 | deleting every star run deletes every star |
| TableFormatter.CodeSpansIdentity | src/url2md/utils/table_formatter.py:54 | the code-span substitution leaves every text unchanged |
| TableFormatter.CleanText | src/url2md/utils/table_formatter.py:31-56 | the result has no whitespace at either end and no whitespace other than single spaces |
| TableFormatter.CleanTextSqueezesMarked | src/url2md/utils/table_formatter.py:41-54 | the result is the star-free, marked text with its whitespace squeezed |
| TableFormatter.PlainCellHasNoStars | src/url2md/utils/table_formatter.py:41-54 | a cell mentioning neither keyword comes back without `*` |
| TableFormatter.RequiredCellShape | src/url2md/utils/table_formatter.py:45-51 | a cell mentioning `required`, in any case, comes back as `**…** required` |
| TableFormatter.OptionalCellShape | src/url2md/utils/table_formatter.py:47-51 | a cell mentioning `optional` but not `required` comes back as `*…* optional` |
| TableFormatter.Mark | src/url2md/utils/table_formatter.py:44-48 | a text mentioning `required`, in any case, becomes `**…** required`; else one mentioning `optional` becomes `*…* optional`; else it is unchanged |
| TableFormatter.Label | src/url2md/utils/table_formatter.py:24 | column `i` is labelled by header `i` when there is one, else by `Field ` and the decimal digits of `i+1` |
| TableFormatter.ItemLineIsOneLine | src/url2md/utils/table_formatter.py:24-26 | each bullet starts with `- **label**: ` and holds no line break |
| TableFormatter.RowItemsAreLines | src/url2md/utils/table_formatter.py:22-27 | with one-line headers, every bullet of a row is a single line |
| TableFormatter.FormatRow | src/url2md/utils/table_formatter.py:22-27 | a row's block: one bullet per cell, in order, joined by `\n`, then `\n` |
| TableFormatter.FormatTable | src/url2md/utils/table_formatter.py:8-29 | the blocks of all rows in order, joined by `\n`, then `\n` |
| TableFormatter.TableLayout | src/url2md/utils/table_formatter.py:21-29 | no rows give `\n`; otherwise the text is each row's bullet lines followed by a blank line, line by line |
| Html.Tags | src/url2md/handlers/html_handler.py:172 | the filter keeps only elements and never lengthens the list |
| Html.TagsAppend | src/url2md/handlers/html_handler.py:171-172 | filtering distributes over concatenation, so order is kept |
| Html.TagsKeepsElements | src/url2md/handlers/html_handler.py:171-172 | every element of the list survives the filter |
| Html.FindFirst | src/url2md/handlers/html_handler.py:47 | a found node has the searched name |
| Html.FindFirstIsFirstInPreorder | src/url2md/handlers/html_handler.py:47 | the search returns the first node with the name in document order |
| HtmlHandler.MissingAttrIsEmpty | src/url2md/handlers/html_handler.py:28-30 | a missing attribute and an empty one give the same image |
| HtmlHandler.ConvertImg | src/url2md/handlers/html_handler.py:28-34 | the image is `![alt](src)`, with ` "title"` before the `)` when the title is non-empty; a missing attribute counts as empty |
| HtmlHandler.ImageRoundTrip | src/url2md/handlers/html_handler.py:28-34 | reading the image text back gives its alt text, source and title, when the alt text has no `]` and the source no space or `)` |
| HtmlHandler.ConvertImgExample | src/url2md/handlers/html_handler.py:32-33 | an image with a title is written `![alt](src "title")` |
| HtmlHandler.FirstHint | src/url2md/handlers/html_handler.py:50-56 | no hint exactly when no class has a `language-`/`lang-` prefix; otherwise the hint of the first such class |
| HtmlHandler.LanguageHint | src/url2md/handlers/html_handler.py:50-56 | the loop leaves at the first hinted class with its hint, which is FirstHint |
| HtmlHandler.PythonHint | src/url2md/handlers/html_handler.py:54-55 | the class `language-python` hints `python` |
| HtmlHandler.HintOfPrefixed | src/url2md/handlers/html_handler.py:54-55 | the classes `language-x` and `lang-x`, with `x` free of hyphens, both hint `x` |
| HtmlHandler.FenceRoundTrip | src/url2md/handlers/html_handler.py:59-61 | reading a fence back gives its info string and its body, when the info string is one line |
| HtmlHandler.ConvertPre | src/url2md/handlers/html_handler.py:36-61 | a fence around the stripped text; its info string is the first hint of the first `code` descendant, or empty without a hint or without a `code` descendant |
| HtmlHandler.Visit | src/url2md/handlers/html_handler.py:171-182 | an `h1` closes the open section (if any) and opens its own; another tag joins the open section; the tags seen stay in order and the sections stay well formed |
| HtmlHandler.SplitByH1 | src/url2md/handlers/html_handler.py:167-192 | without tags the result is `[("index", body)]`; otherwise the sections' contents, one after another, are exactly the body's tags in order, and each section is non-empty and titled by its own `h1` (only the first may be an `index` section that opens with another tag) |
| HtmlSplitter.H1From | src/url2md/utils/html_splitter.py:31 | the positions of exactly the `h1` tags, in increasing order |
| HtmlSplitter.NextH1 | src/url2md/utils/html_splitter.py:38-42 | the first `h1` at or after a position, or the end |
| HtmlSplitter.CollectSection | src/url2md/utils/html_splitter.py:36-42 | the inner walk renders the `h1` and the following tags up to the next `h1` |
| HtmlSplitter.SplitAndSave | src/url2md/utils/html_splitter.py:21-55 | one file per `h1`, in order; file `i` is named after the `i`-th `h1` and the `i`-th clock reading, and holds its section joined by `\n` |
| HtmlSplitter.SectionShape | src/url2md/utils/html_splitter.py:36-42 | a section opens with its own `h1` and holds no other `h1` |
| HtmlSplitter.SectionEnds | src/url2md/utils/html_splitter.py:34-42 | each section ends where the next heading starts, and the last one at the end |
| HtmlSplitter.SectionsTile | src/url2md/utils/html_splitter.py:34-42 | the sections from heading `k` on, concatenated, are the tags from that heading on |
| HtmlSplitter.BeforeFirstHeading | src/url2md/utils/html_splitter.py:31-42 | a tag before the first `h1` lies before every heading |
| HtmlSplitter.Pad2 | src/url2md/utils/html_splitter.py:47 | the index is all digits: two digits below 10, its decimal digits from 10 on |
| HtmlSplitter.Pad2Parses | src/url2md/utils/html_splitter.py:47 | reading the padded digits back gives the number |
| HtmlSplitter.FileTitle | src/url2md/utils/html_splitter.py:46 | the stripped heading text with each character outside `[\w-]` replaced by `_`, cut to its first 50 characters |
| HtmlSplitter.FileNamesDistinct | src/url2md/utils/html_splitter.py:45-47 | files with different indices get different names, whatever their headings and timestamps |
| MarkdownCleanup.CleanMarkdown | src/url2md/handlers/html_handler.py:194-228 | the result has no whitespace at either end and never four newlines in a row |
| MarkdownCleanup.Rewritten | src/url2md/handlers/html_handler.py:204-226 | after the eleven substitutions the text never holds four newlines in a row |
| MarkdownCleanup.RewrittenKeepsText | src/url2md/handlers/html_handler.py:204-226 | on markdown without `<` the whole chain only moves line breaks: without newlines the result equals the input |
| MarkdownCleanup.TagFreeUnchanged | src/url2md/handlers/html_handler.py:213-214 | the `<strong>` and `<em>` rewrites leave a text without `<` unchanged |
| MarkdownCleanup.BlankRunsLeaveNoFour | src/url2md/handlers/html_handler.py:226 | collapsing `\n{4,}` leaves no four newlines in a row |
| MarkdownCleanup.StripKeepsNoFour | src/url2md/handlers/html_handler.py:228 | stripping cannot create a run of four newlines |
| MarkdownCleanup.StrongToBold | src/url2md/handlers/html_handler.py:213 | `<strong>x</strong>` becomes `**x**` when `x` is non-empty and has no `<` |
| MarkdownCleanup.EmToItalic | src/url2md/handlers/html_handler.py:214 | `<em>x</em>` becomes `*x*` when `x` is non-empty and has no `<` |
| MarkdownCleanup.SpacingKeepsText | src/url2md/handlers/html_handler.py:204-226 | each spacing rewrite changes only line breaks: without newlines the text is the same before and after |
| BaseHandler.KeepValid | src/url2md/handlers/base_handler.py:105-106 | only characters of the valid set, all taken from the input; every valid character of the input is kept |
| BaseHandler.KeepValidChar | src/url2md/handlers/base_handler.py:105-106 | one character is kept exactly when it is valid |
| BaseHandler.KeepValidAppend | src/url2md/handlers/base_handler.py:105-106 | the filter works on each part separately, so the kept characters stay in their order |
| BaseHandler.KeepValidOfValid | src/url2md/handlers/base_handler.py:105-106 | a text of valid characters is kept whole |
| BaseHandler.SanitizeFilename | src/url2md/handlers/base_handler.py:95-115 | never empty; only valid characters, no upper-case letter, no space and no other whitespace; its value for every input is stated by `BaseHandler.SanitizeOfAny` |
| BaseHandler.SanitizeOfAny | src/url2md/handlers/base_handler.py:104-115 | for every input: the kept characters, stripped, then lower-cased with each space turned into a hyphen; `unnamed` when nothing is left |
| BaseHandler.SanitizeOfKept | src/url2md/handlers/base_handler.py:104-115 | when the kept characters have no space at either end, the result is those characters in order, lower-cased, with each space turned into a hyphen |
| BaseHandler.SanitizeExample | src/url2md/handlers/base_handler.py:95-115 | `Hello World!` becomes `hello-world` |
| BaseHandler.SanitizeIdempotent | src/url2md/handlers/base_handler.py:95-115 | cleaning a cleaned name changes nothing |
| BaseHandler.PathLeTotal | src/url2md/handlers/base_handler.py:86 | any two paths are ordered one way or the other |
| BaseHandler.PathLeTransitive | src/url2md/handlers/base_handler.py:86 | path order is transitive |
| BaseHandler.Insert | src/url2md/handlers/base_handler.py:86 | inserting into a sorted list keeps it sorted and adds exactly the new path |
| BaseHandler.SortPaths | src/url2md/handlers/base_handler.py:86 | `sorted` returns a sorted permutation of the files |
| BaseHandler.RelativeTo | src/url2md/handlers/base_handler.py:87 | there is a relative path exactly when the directory is a prefix of the file |
| BaseHandler.RelativeToRestores | src/url2md/handlers/base_handler.py:87 | the directory followed by the relative path is the file |
| BaseHandler.StemAndSuffix | src/url2md/handlers/base_handler.py:88 | stem and suffix make up the name; the suffix is empty or a dot and a dot-free rest |
| BaseHandler.StemOfDotted | src/url2md/handlers/base_handler.py:88 | the stem of `base.ext` is `base` |
| BaseHandler.HyphenToSpace | src/url2md/handlers/base_handler.py:88 | the hyphen between two words becomes a space |
| BaseHandler.DisplayNameShape | src/url2md/handlers/base_handler.py:88 | the name has the stem's length, a space exactly where the stem has a hyphen or a space, elsewhere the stem's letter up to case, and a letter is upper-case exactly when it starts a run of letters |
| BaseHandler.DisplayNameExample | src/url2md/handlers/base_handler.py:88 | `first-section.md` is listed as `First Section` |
| BaseHandler.TocLines | src/url2md/handlers/base_handler.py:86-89 | one bullet per file, in order: line `k` is the bullet of file `k` |
| BaseHandler.TocOfSorted | src/url2md/handlers/base_handler.py:86-92 | stops exactly when some file is outside the directory, naming the first such file; otherwise the header and one bullet per file in order, joined by `\n` |
| BaseHandler.GenerateToc | src/url2md/handlers/base_handler.py:75-93 | as TocOfSorted, on the files in sorted order |
| BaseHandler.TocShape | src/url2md/handlers/base_handler.py:84-92 | with files, the text is the header line, a blank line, then the bullets |
| BaseHandler.TocEndsWithBullet | src/url2md/handlers/base_handler.py:89-92 | with files, the text ends with the `)` of the last bullet: no trailing newline |
| Text.SqueezeSqueezed | src/url2md/utils/table_formatter.py:51 | `' '.join(s.split())` leaves no edge whitespace and no whitespace other than single spaces |
| Text.ContainsIff | src/url2md/utils/table_formatter.py:45 | `pat in s` holds exactly when `pat` occurs at some index |
| Text.StripChars | src/url2md/handlers/base_handler.py:109 | every character `strip()` leaves comes from its input |
| Text.ReplaceCharResult | src/url2md/handlers/base_handler.py:109 | after replacing a character, only the new character or other old characters remain |
| Text.NatToStringInjective | src/url2md/utils/sanitizer.py:195 | distinct counters are written as distinct digit strings |
| Text.ParseNatToString | src/url2md/utils/html_splitter.py:47 | reading a rendered number back gives the number |

## Left out

- Network access and page rendering are not modelled: the `aiohttp` and `requests_html` fetch, and the session handling of `BaseHandler`. These are I/O.
- HTML parsing, CSS-selector removal, the `markdownify` base converter and `str(tag)` serialisation are third-party library behaviour. Parsed HTML is the `Html.Node` tree. The serialiser is the `render` parameter of `HtmlSplitter.SplitAndSave`. The text handed to `convert_pre` is a parameter of `HtmlHandler.ConvertPre`.
- HtmlHandler.SplitByH1 walks a snapshot of the body's children. It does not model:
  - how bs4 moves nodes out of the live child list when they are appended elsewhere;
  - the wrapping and re-parsing done when the document has no `body` (html_handler.py:160-165).
- HtmlSplitter.SplitAndSave works on one flat list of sibling tags. `find_all('h1')` also finds nested headings, whose sibling walks are not modelled.
- `tldextract` is not modelled. `Domain.BuildDomainPath` takes the subdomain, domain and suffix as inputs.
- Writing files is not modelled, and neither are `mkdir`, the `README.md` write of `generate_toc`, or the writes of `split_markdown` and `split_and_save`. Each model returns what would be written.
- `datetime.now()` is not called. `HtmlSplitter.SplitAndSave` takes the clock as a parameter `now`, and file `i` is stamped with `now(i)`: one reading per file, so files may differ in timestamp.
- The directory of `get_safe_filename` is the set of names it already holds. The result is the name, not the joined path.
- Paths are lists of components. Roots, drives, `..` and case folding are not modelled. `sorted` compares component by component, each component as a string of code points.
- All text is ASCII:
  - `\w` is `[A-Za-z0-9_]`;
  - whitespace is what Python's `str.isspace` accepts below 128;
  - `lower()` and `title()` change ASCII letters only.

  Non-ASCII characters are neither word characters nor whitespace.
- `UrlSanitizer`, `PathSanitizer`, the CLI, the orchestration in `core.py`, the logger, the `mdformat` wrapper and checksums are not part of this model.
- Text.StripSet: states that the result is a slice of the input with neither end in the strip set. It does not state that only strip-set characters were removed.
- MarkdownCleanup.Match: the matchers of `_clean_markdown` state only that a match is non-empty and in range, plus that a `\n{4,}` match is all newlines. Their agreement with the regexes is argued in their comments, not proved against a declarative regex semantics.
