/**
 * ASCII text primitives shared by every component: Python's `str.isspace`,
 * the regex class `\w`, `lower()`, `title()`, `strip()`, `split()`,
 * `replace()`, `in`, `join` and decimal rendering of integers, all restricted
 * to ASCII (a non-ASCII character is neither a word character nor whitespace).
 */
module Text {

  datatype Option<T> = None | Some(value: T)

  // ---------------------------------------------------------------- classes

  /** Python `str.isspace` / regex `\s` on ASCII: 9..13, 28..31 and space. */
  predicate IsSpace(c: char) {
    c == ' ' || (9 <= c as int <= 13) || (28 <= c as int <= 31)
  }

  predicate IsUpper(c: char) { 'A' <= c <= 'Z' }
  predicate IsLowerLetter(c: char) { 'a' <= c <= 'z' }
  predicate IsLetter(c: char) { IsUpper(c) || IsLowerLetter(c) }
  predicate IsDigit(c: char) { '0' <= c <= '9' }

  /** The regex class `\w` on ASCII. */
  predicate IsWord(c: char) { IsLetter(c) || IsDigit(c) || c == '_' }

  predicate NoUpper(s: string) { forall i :: 0 <= i < |s| ==> !IsUpper(s[i]) }
  predicate NoSpace(s: string) { forall i :: 0 <= i < |s| ==> !IsSpace(s[i]) }
  predicate AllSpace(s: string) { forall i :: 0 <= i < |s| ==> IsSpace(s[i]) }
  predicate Excludes(s: string, c: char) { forall i :: 0 <= i < |s| ==> s[i] != c }

  /** `s` has the character `c` at both `i` and `i + 1`. */
  predicate DoubledAt(s: string, i: nat, c: char)
    requires i + 1 < |s|
  {
    s[i] == c && s[i + 1] == c
  }

  /** No two adjacent copies of `c` in `s`. */
  predicate NoDoubled(s: string, c: char) {
    forall i :: 0 <= i < |s| - 1 ==> !DoubledAt(s, i, c)
  }

  /** Whitespace at both `i` and `i + 1`. */
  predicate SpacePairAt(s: string, i: nat)
    requires i + 1 < |s|
  {
    IsSpace(s[i]) && IsSpace(s[i + 1])
  }

  /** Neither end of `s` is whitespace (the shape `strip()` leaves). */
  predicate Stripped(s: string) { s == [] || (!IsSpace(s[0]) && !IsSpace(s[|s| - 1])) }

  // ------------------------------------------------------------ lower/upper

  function LowerChar(c: char): (r: char)
    ensures !IsUpper(r)
    ensures IsUpper(c) ==> r as int == c as int + 32
    ensures !IsUpper(c) ==> r == c
  {
    if IsUpper(c) then (c as int + 32) as char else c
  }

  function UpperChar(c: char): (r: char)
    ensures IsLowerLetter(c) ==> IsUpper(r) && r as int == c as int - 32
    ensures !IsLowerLetter(c) ==> r == c
  {
    if IsLowerLetter(c) then (c as int - 32) as char else c
  }

  /** `s.lower()` */
  function Lower(s: string): (r: string)
    ensures |r| == |s| && NoUpper(r)
    ensures forall i :: 0 <= i < |s| ==> r[i] == LowerChar(s[i])
  {
    seq(|s|, i requires 0 <= i < |s| => LowerChar(s[i]))
  }

  lemma LowerKeepsChar(s: string, c: char)
    requires !IsUpper(c) && !IsLowerLetter(c)
    ensures c in Lower(s) <==> c in s
  {
    if c in s {
      var i :| 0 <= i < |s| && s[i] == c;
      assert Lower(s)[i] == c;
    }
    if c in Lower(s) {
      var i :| 0 <= i < |s| && Lower(s)[i] == c;
      assert s[i] == c;
    }
  }

  lemma LowerOfNoUpper(s: string)
    requires NoUpper(s)
    ensures Lower(s) == s
  {
  }

  /**
   * `s.title()`: a letter is upper-cased when the character before it is not
   * a letter, and lower-cased otherwise; other characters are unchanged.
   */
  function Title(s: string): (r: string)
    ensures |r| == |s|
    ensures forall i :: 0 <= i < |s| ==> r[i] == TitleAt(s, i)
  {
    seq(|s|, i requires 0 <= i < |s| => TitleAt(s, i))
  }

  /**
   * Title-casing changes only the case of letters: a letter is upper-case
   * exactly when it starts a run of letters.
   */
  lemma TitleShape(s: string)
    ensures var r := Title(s);
      && (forall i :: 0 <= i < |s| ==> LowerChar(r[i]) == LowerChar(s[i]) && (IsLetter(r[i]) <==> IsLetter(s[i])))
      && (forall i :: 0 <= i < |s| && IsLetter(r[i]) ==> (IsUpper(r[i]) <==> i == 0 || !IsLetter(r[i - 1])))
  {
  }

  function TitleAt(s: string, i: nat): char
    requires i < |s|
  {
    if i > 0 && IsLetter(s[i - 1]) then LowerChar(s[i]) else UpperChar(s[i])
  }

  // ------------------------------------------------------------------ strip

  /** The characters `IsSpace` accepts, as the argument of a strip. */
  const Whitespace: set<char> := {' ', 9 as char, 10 as char, 11 as char, 12 as char, 13 as char,
                                  28 as char, 29 as char, 30 as char, 31 as char}

  lemma WhitespaceIsSpace(c: char)
    ensures c in Whitespace <==> IsSpace(c)
  {
  }

  /** Drops the longest prefix of characters in `cs`. */
  function DropWhile(s: string, cs: set<char>): (r: string)
    ensures |r| <= |s| && r == s[|s| - |r|..]
    ensures r != [] ==> r[0] !in cs
  {
    if |s| > 0 && s[0] in cs then DropWhile(s[1..], cs) else s
  }

  /** Drops the longest suffix of characters in `cs`. */
  function DropWhileEnd(s: string, cs: set<char>): (r: string)
    ensures |r| <= |s| && r == s[..|r|]
    ensures r != [] ==> r[|r| - 1] !in cs
  {
    if |s| > 0 && s[|s| - 1] in cs then DropWhileEnd(s[..|s| - 1], cs) else s
  }

  /** Number of characters `StripSet` removes from the front. */
  function StripStart(s: string, cs: set<char>): (n: nat)
    ensures n <= |s|
  {
    |s| - |DropWhile(s, cs)|
  }

  /** `s.strip(chars)` for the set of characters `cs`. */
  function StripSet(s: string, cs: set<char>): (r: string)
    ensures r == [] || (r[0] !in cs && r[|r| - 1] !in cs)
    ensures StripStart(s, cs) + |r| <= |s|
    ensures r == s[StripStart(s, cs)..StripStart(s, cs) + |r|]
  {
    var t := DropWhile(s, cs);
    var r := DropWhileEnd(t, cs);
    StripBounds(s, t, r, cs);
    r
  }

  /** What the two drops leave: a slice of `s` with only `cs` characters cut at either end. */
  lemma StripBounds(s: string, t: string, r: string, cs: set<char>)
    requires |t| <= |s| && t == s[|s| - |t|..] && (t != [] ==> t[0] !in cs)
    requires |r| <= |t| && r == t[..|r|] && (r != [] ==> r[|r| - 1] !in cs)
    ensures r == [] || (r[0] !in cs && r[|r| - 1] !in cs)
    ensures r == s[|s| - |t|..|s| - |t| + |r|]
  {
    var n := |s| - |t|;
    assert r == s[n..][..|r|] == s[n..n + |r|];
  }

  lemma StripSetOfUnmarkedEnds(s: string, cs: set<char>)
    requires s == [] || (s[0] !in cs && s[|s| - 1] !in cs)
    ensures StripSet(s, cs) == s
  {
    assert DropWhile(s, cs) == s;
    assert DropWhileEnd(s, cs) == s;
  }

  /** `s.lstrip()` */
  function TrimStart(s: string): (r: string)
    ensures r == [] || !IsSpace(r[0])
  {
    if |s| > 0 && IsSpace(s[0]) then TrimStart(s[1..]) else s
  }

  /** `s.rstrip()` */
  function TrimEnd(s: string): (r: string)
    ensures |r| <= |s| && r == s[..|r|]
    ensures r == [] || !IsSpace(r[|r| - 1])
  {
    if |s| > 0 && IsSpace(s[|s| - 1]) then TrimEnd(s[..|s| - 1]) else s
  }

  /** `s.strip()` */
  function Strip(s: string): (r: string)
    ensures Stripped(r)
  {
    var t := TrimStart(s);
    var r := TrimEnd(t);
    assert r != [] ==> r[0] == t[0];
    r
  }

  /** Lower-casing and `lstrip()` commute: lower-casing never makes or unmakes whitespace. */
  lemma {:induction false} TrimStartLower(s: string)
    ensures TrimStart(Lower(s)) == Lower(TrimStart(s))
    decreases |s|
  {
    if |s| > 0 {
      assert Lower(s)[1..] == Lower(s[1..]);
      TrimStartLower(s[1..]);
    }
  }

  /** Lower-casing and `rstrip()` commute. */
  lemma {:induction false} TrimEndLower(s: string)
    ensures TrimEnd(Lower(s)) == Lower(TrimEnd(s))
    decreases |s|
  {
    if |s| > 0 {
      assert Lower(s)[..|s| - 1] == Lower(s[..|s| - 1]);
      TrimEndLower(s[..|s| - 1]);
    }
  }

  /** Lower-casing and `strip()` commute. */
  lemma StripLower(s: string)
    ensures Strip(Lower(s)) == Lower(Strip(s))
  {
    TrimStartLower(s);
    TrimEndLower(TrimStart(s));
  }

  lemma {:induction false} TrimEndOfNoSpaceEnd(s: string)
    requires s == [] || !IsSpace(s[|s| - 1])
    ensures TrimEnd(s) == s
  {
  }

  /** A text with no whitespace at either end is its own strip. */
  lemma StripOfStripped(s: string)
    requires Stripped(s)
    ensures Strip(s) == s
  {
    assert TrimStart(s) == s;
    TrimEndOfNoSpaceEnd(s);
  }

  lemma StripOfNoSpace(s: string)
    requires NoSpace(s)
    ensures Strip(s) == s
  {
  }

  /** Stripping a text that starts with a non-space character keeps that character first. */
  lemma StripKeepsHead(s: string)
    requires |s| > 0 && !IsSpace(s[0])
    ensures |Strip(s)| > 0 && Strip(s)[0] == s[0]
  {
    assert TrimStart(s) == s;
    var r := TrimEnd(s);
    if r == [] {
      TrimEndKeepsNonSpace(s, 0);
    }
  }

  /** `rstrip` keeps every character up to the last non-space one. */
  lemma {:induction false} TrimEndKeepsNonSpace(s: string, i: nat)
    requires i < |s| && !IsSpace(s[i])
    ensures i < |TrimEnd(s)|
    decreases |s|
  {
    if IsSpace(s[|s| - 1]) {
      TrimEndKeepsNonSpace(s[..|s| - 1], i);
    }
  }

  /** `lstrip` drops a prefix: what is left is a suffix of `s`. */
  lemma {:induction false} TrimStartSuffix(s: string)
    ensures |TrimStart(s)| <= |s| && TrimStart(s) == s[|s| - |TrimStart(s)|..]
    decreases |s|
  {
    if |s| > 0 && IsSpace(s[0]) {
      TrimStartSuffix(s[1..]);
    }
  }

  /** Every character `strip` leaves comes from `s`. */
  lemma StripChars(s: string)
    ensures forall k :: 0 <= k < |Strip(s)| ==> Strip(s)[k] in s
  {
    var t := TrimStart(s);
    TrimStartSuffix(s);
    assert forall k :: 0 <= k < |t| ==> t[k] == s[|s| - |t| + k];
  }

  // --------------------------------------------------------------- contains

  /** `pat` occurs in `s` starting at index `i`. */
  predicate OccursAt(s: string, pat: string, i: nat) {
    i + |pat| <= |s| && s[i..i + |pat|] == pat
  }

  /** Python's `pat in s`, scanning start positions from the left. */
  predicate Contains(s: string, pat: string)
    decreases |s|
  {
    OccursAt(s, pat, 0) || (|s| > 0 && Contains(s[1..], pat))
  }

  /** `Contains` holds exactly when `pat` occurs at some index of `s`. */
  lemma {:induction false} ContainsIff(s: string, pat: string)
    ensures Contains(s, pat) <==> exists i: nat :: OccursAt(s, pat, i)
    decreases |s|
  {
    if |s| > 0 {
      ContainsIff(s[1..], pat);
      if exists i: nat :: OccursAt(s[1..], pat, i) {
        var i: nat :| OccursAt(s[1..], pat, i);
        assert s[i + 1..i + 1 + |pat|] == s[1..][i..i + |pat|];
        assert OccursAt(s, pat, i + 1);
      }
      if exists i: nat :: OccursAt(s, pat, i) && i > 0 {
        var i: nat :| OccursAt(s, pat, i) && i > 0;
        assert s[i..i + |pat|] == s[1..][i - 1..i - 1 + |pat|];
        assert OccursAt(s[1..], pat, i - 1);
      }
    } else if exists i: nat :: OccursAt(s, pat, i) {
      var i: nat :| OccursAt(s, pat, i);
      assert i == 0;
    }
  }

  // ---------------------------------------------------------------- replace

  /** `s.replace(pat, rep)`: left-to-right, non-overlapping. */
  function ReplaceAll(s: string, pat: string, rep: string): (r: string)
    requires |pat| > 0
    decreases |s|
  {
    if |s| == 0 then []
    else if |pat| <= |s| && s[..|pat|] == pat then rep + ReplaceAll(s[|pat|..], pat, rep)
    else [s[0]] + ReplaceAll(s[1..], pat, rep)
  }

  /** Removing occurrences never adds characters: every character of the result comes from `s`. */
  lemma {:induction false} RemoveAllChars(s: string, pat: string, c: char)
    requires |pat| > 0
    requires c !in s
    ensures c !in ReplaceAll(s, pat, "")
    decreases |s|
  {
    if |s| == 0 {
    } else if |pat| <= |s| && s[..|pat|] == pat {
      RemoveAllChars(s[|pat|..], pat, c);
    } else {
      RemoveAllChars(s[1..], pat, c);
    }
  }

  /** A pattern whose first character never occurs leaves the text alone. */
  lemma {:induction false} ReplaceAllAbsent(s: string, pat: string, rep: string)
    requires |pat| > 0 && pat[0] !in s
    ensures ReplaceAll(s, pat, rep) == s
    decreases |s|
  {
    if |s| > 0 {
      assert |pat| <= |s| ==> s[..|pat|][0] == s[0];
      ReplaceAllAbsent(s[1..], pat, rep);
    }
  }

  /** Replacing one character by another works position by position. */
  lemma {:induction false} ReplaceCharPointwise(s: string, a: char, b: char)
    ensures |ReplaceAll(s, [a], [b])| == |s|
    ensures forall k :: 0 <= k < |s| ==> ReplaceAll(s, [a], [b])[k] == (if s[k] == a then b else s[k])
    decreases |s|
  {
    if |s| > 0 {
      ReplaceCharPointwise(s[1..], a, b);
      var head := if s[0] == a then b else s[0];
      assert s[..1] == [a] <==> s[0] == a;
      assert ReplaceAll(s, [a], [b]) == [head] + ReplaceAll(s[1..], [a], [b]);
    }
  }

  /** A pattern whose last character never occurs cannot match: the text is left alone. */
  lemma {:induction false} ReplaceAllLastAbsent(s: string, pat: string, rep: string)
    requires |pat| > 0 && pat[|pat| - 1] !in s
    ensures ReplaceAll(s, pat, rep) == s
    decreases |s|
  {
    if |s| > 0 {
      assert |pat| <= |s| ==> s[..|pat|][|pat| - 1] == s[|pat| - 1];
      assert pat[|pat| - 1] !in s[1..];
      ReplaceAllLastAbsent(s[1..], pat, rep);
    }
  }

  /** A pattern that occurs nowhere leaves the text alone. */
  lemma {:induction false} ReplaceAllNoMatch(s: string, pat: string, rep: string)
    requires |pat| > 0 && forall i: nat :: !OccursAt(s, pat, i)
    ensures ReplaceAll(s, pat, rep) == s
    decreases |s|
  {
    if |s| > 0 {
      assert !OccursAt(s, pat, 0);
      forall i: nat
        ensures !OccursAt(s[1..], pat, i)
      {
        assert !OccursAt(s, pat, i + 1);
        if i + 1 + |pat| <= |s| {
          assert s[i + 1..i + 1 + |pat|] == s[1..][i..i + |pat|];
        }
      }
      ReplaceAllNoMatch(s[1..], pat, rep);
    }
  }

  /** Replacing one character by another: every character is the new one, or an old one other than the replaced. */
  lemma {:induction false} ReplaceCharResult(s: string, a: char, b: char)
    ensures forall c :: c in ReplaceAll(s, [a], [b]) ==> c == b || (c != a && c in s)
    decreases |s|
  {
    if |s| > 0 {
      ReplaceCharResult(s[1..], a, b);
      var rest := ReplaceAll(s[1..], [a], [b]);
      assert forall c :: c in s[1..] ==> c in s;
      if s[..1] == [a] {
        assert ReplaceAll(s, [a], [b]) == [b] + rest;
      } else {
        assert s[0] != a;
        assert ReplaceAll(s, [a], [b]) == [s[0]] + rest;
      }
    }
  }

  // ------------------------------------------------------------ split, join

  /** `sep.join(parts)` */
  function Join(parts: seq<string>, sep: string): (r: string)
  {
    if |parts| == 0 then []
    else if |parts| == 1 then parts[0]
    else parts[0] + sep + Join(parts[1..], sep)
  }

  /** Concatenation of the lines, each followed by a newline. */
  function UnLines(lines: seq<string>): (r: string)
  {
    if |lines| == 0 then [] else lines[0] + "\n" + UnLines(lines[1..])
  }

  lemma {:induction false} UnLinesAppend(a: seq<string>, b: seq<string>)
    ensures UnLines(a + b) == UnLines(a) + UnLines(b)
  {
    if |a| == 0 {
      assert a + b == b;
    } else {
      assert (a + b)[1..] == a[1..] + b;
      UnLinesAppend(a[1..], b);
    }
  }

  /** Joining non-empty parts with `\n` and adding one `\n` is the same as terminating each part. */
  lemma {:induction false} JoinThenNewline(parts: seq<string>)
    requires |parts| > 0
    ensures Join(parts, "\n") + "\n" == UnLines(parts)
  {
    if |parts| > 1 {
      JoinThenNewline(parts[1..]);
    }
  }

  /** Index of the first whitespace character at or after `i`, or `|s|`. */
  function WordEnd(s: string, i: nat): (e: nat)
    requires i <= |s|
    ensures i <= e <= |s|
    ensures NoSpace(s[i..e])
    ensures e < |s| ==> IsSpace(s[e])
    decreases |s| - i
  {
    if i == |s| || IsSpace(s[i]) then i else WordEnd(s, i + 1)
  }

  /** `s.split()`: the maximal runs of non-whitespace characters. */
  function Words(s: string): (ws: seq<string>)
    ensures forall k :: 0 <= k < |ws| ==> |ws[k]| > 0 && NoSpace(ws[k])
    decreases |s|
  {
    if |s| == 0 then []
    else if IsSpace(s[0]) then Words(s[1..])
    else
      var e := WordEnd(s, 0);
      [s[..e]] + Words(s[e..])
  }

  /** `' '.join(s.split())`: whitespace runs squeezed to one space, ends trimmed. */
  function Squeeze(s: string): (r: string)
  {
    Join(Words(s), " ")
  }

  /** The only whitespace left by `Squeeze` is single spaces between non-spaces. */
  predicate Squeezed(s: string) {
    && Stripped(s)
    && (forall i :: 0 <= i < |s| && IsSpace(s[i]) ==> s[i] == ' ')
    && (forall i :: 0 <= i < |s| - 1 ==> !SpacePairAt(s, i))
  }

  lemma {:induction false} JoinWordsSqueezed(ws: seq<string>)
    requires forall k :: 0 <= k < |ws| ==> |ws[k]| > 0 && NoSpace(ws[k])
    ensures Squeezed(Join(ws, " "))
    ensures |ws| > 0 ==> |Join(ws, " ")| > 0 && Join(ws, " ")[0] == ws[0][0]
  {
    if |ws| > 1 {
      JoinWordsSqueezed(ws[1..]);
      var tail := Join(ws[1..], " ");
      var r := ws[0] + " " + tail;
      assert Join(ws, " ") == r;
      forall i | 0 <= i < |r| - 1
        ensures !SpacePairAt(r, i)
      {
        if i < |ws[0]| - 1 {
          assert r[i] == ws[0][i];
        } else if i == |ws[0]| - 1 {
          assert r[i] == ws[0][|ws[0]| - 1];
        } else if i == |ws[0]| {
          assert r[i + 1] == tail[0];
        } else {
          assert r[i] == tail[i - |ws[0]| - 1];
          assert r[i + 1] == tail[i - |ws[0]|];
          assert !SpacePairAt(tail, i - |ws[0]| - 1);
        }
      }
      forall i | 0 <= i < |r| && IsSpace(r[i])
        ensures r[i] == ' '
      {
        if i > |ws[0]| { assert r[i] == tail[i - |ws[0]| - 1]; }
      }
      assert r[|r| - 1] == tail[|tail| - 1];
    }
  }

  /** Words are pieces of `s`: a character absent from `s` is absent from every word. */
  lemma {:induction false} WordsAvoid(s: string, c: char)
    requires c !in s
    ensures forall k :: 0 <= k < |Words(s)| ==> c !in Words(s)[k]
    decreases |s|
  {
    if |s| > 0 {
      if IsSpace(s[0]) {
        WordsAvoid(s[1..], c);
      } else {
        var e := WordEnd(s, 0);
        WordsAvoid(s[e..], c);
      }
    }
  }

  /** Joining adds only separators. */
  lemma {:induction false} JoinAvoids(parts: seq<string>, sep: string, c: char)
    requires c !in sep
    requires forall k :: 0 <= k < |parts| ==> c !in parts[k]
    ensures c !in Join(parts, sep)
    decreases |parts|
  {
    if |parts| > 1 {
      JoinAvoids(parts[1..], sep, c);
    }
  }

  /** A space always ends a word: the words of `a + " " + b` are those of `a`, then those of `b`. */
  lemma {:induction false} WordsSpaceAppend(a: string, b: string)
    ensures Words(a + " " + b) == Words(a) + Words(b)
    decreases |a|
  {
    var s := a + " " + b;
    if |a| == 0 {
      assert s[1..] == b;
    } else if IsSpace(a[0]) {
      assert s[1..] == a[1..] + " " + b;
      WordsSpaceAppend(a[1..], b);
    } else {
      assert s[..|a|] == a;
      WordEndPrefix(s, a, 0);
      var e := WordEnd(s, 0);
      assert s[..e] == a[..e];
      assert s[e..] == a[e..] + " " + b;
      WordsSpaceAppend(a[e..], b);
    }
  }

  /** `WordEnd` only looks as far as the first space. */
  lemma {:induction false} WordEndPrefix(s: string, a: string, i: nat)
    requires i <= |a| < |s| && s[..|a|] == a && IsSpace(s[|a|])
    ensures WordEnd(s, i) == WordEnd(a, i)
    decreases |a| - i
  {
    if i < |a| {
      assert s[i] == a[i];
      if !IsSpace(a[i]) {
        WordEndPrefix(s, a, i + 1);
      }
    }
  }

  /** `WordEnd` runs over every non-space character. */
  lemma {:induction false} WordEndCovers(s: string, i: nat, n: nat)
    requires i <= n <= |s| && NoSpace(s[i..n])
    ensures n <= WordEnd(s, i)
    decreases n - i
  {
    if i < n {
      assert s[i] == s[i..n][0];
      assert s[i + 1..n] == s[i..n][1..];
      WordEndCovers(s, i + 1, n);
    }
  }

  /** A text that starts with a non-empty space-free `p` squeezes to a text that starts with `p`. */
  lemma SqueezeKeepsHead(p: string, t: string)
    requires |p| > 0 && NoSpace(p)
    ensures |Squeeze(p + t)| >= |p| && Squeeze(p + t)[..|p|] == p
  {
    var s := p + t;
    assert s[..|p|] == p;
    WordEndCovers(s, 0, |p|);
    var e := WordEnd(s, 0);
    assert s[0] == p[0];
    var ws := Words(s);
    assert ws[0] == s[..e];
    JoinStartsWithFirst(ws, " ");
  }

  lemma {:induction false} JoinStartsWithFirst(parts: seq<string>, sep: string)
    requires |parts| > 0
    ensures |Join(parts, sep)| >= |parts[0]| && Join(parts, sep)[..|parts[0]|] == parts[0]
  {
    if |parts| > 1 {
      assert Join(parts, sep) == parts[0] + (sep + Join(parts[1..], sep));
    }
  }

  lemma {:induction false} JoinSnoc(parts: seq<string>, last: string, sep: string)
    requires |parts| > 0
    ensures Join(parts + [last], sep) == Join(parts, sep) + sep + last
    decreases |parts|
  {
    if |parts| > 1 {
      assert (parts + [last])[1..] == parts[1..] + [last];
      JoinSnoc(parts[1..], last, sep);
    }
  }

  lemma {:induction false} JoinEndsWithLast(parts: seq<string>, sep: string)
    requires |parts| > 0
    ensures |Join(parts, sep)| >= |parts[|parts| - 1]|
    ensures Join(parts, sep)[|Join(parts, sep)| - |parts[|parts| - 1]|..] == parts[|parts| - 1]
    decreases |parts|
  {
    if |parts| > 1 {
      JoinEndsWithLast(parts[1..], sep);
      assert Join(parts, sep) == (parts[0] + sep) + Join(parts[1..], sep);
    }
  }

  /** A text that ends with a non-empty space-free `q` squeezes to a text that ends with `q`. */
  lemma {:induction false} SqueezeKeepsTail(t: string, q: string)
    requires |q| > 0 && NoSpace(q)
    ensures |Squeeze(t + q)| >= |q| && Squeeze(t + q)[|Squeeze(t + q)| - |q|..] == q
  {
    WordsEndWith(t, q);
    JoinEndsWithLast(Words(t + q), " ");
  }

  lemma {:induction false} WordsEndWith(t: string, q: string)
    requires |q| > 0 && NoSpace(q)
    ensures |Words(t + q)| > 0
    ensures var w := Words(t + q)[|Words(t + q)| - 1]; |w| >= |q| && w[|w| - |q|..] == q
    decreases |t|
  {
    var s := t + q;
    if |t| == 0 {
      assert s == q;
      WordsOfNoSpace(s);
    } else if IsSpace(t[0]) {
      assert s[1..] == t[1..] + q;
      WordsEndWith(t[1..], q);
    } else {
      var e := WordEnd(s, 0);
      if e == |s| {
        assert s[0..e] == s;
        WordsOfNoSpace(s);
        assert s[|s| - |q|..] == q;
      } else {
        forall j | |t| <= j < |s|
          ensures !IsSpace(s[j])
        {
          assert s[j] == q[j - |t|];
        }
        assert s[e..] == t[e..] + q;
        WordsEndWith(t[e..], q);
      }
    }
  }

  /** A non-empty text without whitespace is one word. */
  lemma WordsOfNoSpace(s: string)
    requires |s| > 0 && NoSpace(s)
    ensures Words(s) == [s]
  {
    WordEndCovers(s, 0, |s|);
    assert s[..|s|] == s && s[|s|..] == [];
  }

  lemma SqueezeSqueezed(s: string)
    ensures Squeezed(Squeeze(s))
  {
    JoinWordsSqueezed(Words(s));
  }

  // ------------------------------------------------------- decimal numbers

  function DigitChar(d: nat): (c: char)
    requires d < 10
    ensures IsDigit(c)
  {
    ('0' as int + d) as char
  }

  /** `str(n)` for a natural number. */
  function NatToString(n: nat): (s: string)
    ensures |s| > 0
    ensures |s| == 1 <==> n < 10
    ensures forall i :: 0 <= i < |s| ==> IsDigit(s[i])
  {
    if n < 10 then [DigitChar(n)] else NatToString(n / 10) + [DigitChar(n % 10)]
  }

  /** Reads a string of digits back as a number (the inverse of `NatToString`). */
  function ParseNat(s: string): nat
    requires forall i :: 0 <= i < |s| ==> IsDigit(s[i])
  {
    if |s| == 0 then 0 else
      assert IsDigit(s[|s| - 1]);
      ParseNat(s[..|s| - 1]) * 10 + (s[|s| - 1] as int - '0' as int)
  }

  lemma {:induction false} ParseNatToString(n: nat)
    ensures ParseNat(NatToString(n)) == n
  {
    if n >= 10 {
      var s := NatToString(n);
      assert s[..|s| - 1] == NatToString(n / 10);
      ParseNatToString(n / 10);
    }
  }

  /** Distinct numbers render to distinct strings. */
  lemma NatToStringInjective(m: nat, n: nat)
    requires m != n
    ensures NatToString(m) != NatToString(n)
  {
    ParseNatToString(m);
    ParseNatToString(n);
  }
}
