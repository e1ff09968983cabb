/**
 * Domain-derived output folders (src/url2md/utils/domain.py).
 *
 * The URL is split into subdomain, registrable domain and public suffix by a
 * third-party library; here those three parts are the inputs.
 */
module Domain {
  import opened Text

  /** Characters `[\w\-\.]` keeps. */
  predicate IsDomainChar(c: char) { IsWord(c) || c == '-' || c == '.' }

  /** Step 2: every character outside `[\w\-\.]` becomes `_`. */
  function ReplaceInvalid(s: string): (r: string)
    ensures |r| == |s|
    ensures forall i :: 0 <= i < |s| ==> r[i] == (if IsDomainChar(s[i]) then s[i] else '_')
  {
    seq(|s|, i requires 0 <= i < |s| => if IsDomainChar(s[i]) then s[i] else '_')
  }

  // --------------------------------------------- `-+\.([^.]+)$` -> `-\1`

  predicate AllHyphens(s: string) { forall i :: 0 <= i < |s| ==> s[i] == '-' }

  /**
   * The pattern `-+\.([^.]+)$` matches `s[p..]`, its dot at `d`: a run of
   * hyphens `s[p..d]`, the dot, then a non-empty dot-free rest of the text.
   */
  predicate Hit(s: string, p: nat, d: nat) {
    && p < d < |s| - 1
    && AllHyphens(s[p..d])
    && s[d] == '.'
    && Excludes(s[d + 1..], '.')
  }

  /** Index of the last `.` in `s`, or -1. */
  function LastDot(s: string): (d: int)
    ensures -1 <= d < |s|
    ensures d >= 0 ==> s[d] == '.'
    ensures forall j :: d < j < |s| ==> s[j] != '.'
  {
    if s == [] then -1
    else if s[|s| - 1] == '.' then |s| - 1
    else LastDot(s[..|s| - 1])
  }

  /** Start of the run of hyphens that ends just before index `d`. */
  function HyphenRunStart(s: string, d: nat): (p: nat)
    requires d <= |s|
    ensures p <= d && AllHyphens(s[p..d])
    ensures p > 0 ==> s[p - 1] != '-'
  {
    if d > 0 && s[d - 1] == '-' then
      var p := HyphenRunStart(s, d - 1);
      assert s[p..d] == s[p..d - 1] + [s[d - 1]];
      p
    else d
  }

  /** Step 3: a run of hyphens before the last dot merges with the dot into one hyphen. */
  function MergeHyphenDot(s: string): (r: string)
    ensures forall i :: 0 <= i < |r| ==> r[i] == '-' || r[i] in s
  {
    var d := LastDot(s);
    if 0 < d < |s| - 1 && s[d - 1] == '-' then
      var p := HyphenRunStart(s, d);
      var r := s[..p] + "-" + s[d + 1..];
      assert forall i :: p < i < |r| ==> r[i] == s[i + d - p];
      r
    else s
  }

  /**
   * `re.sub(r'-+\.([^.]+)$', r'-\1', s)`: the closed form agrees with the
   * regex. When a match exists, the result replaces the leftmost one; when
   * none exists, the text is unchanged.
   */
  lemma MergeIsLeftmostMatch(s: string)
    ensures (forall p: nat, d: nat :: !Hit(s, p, d)) ==> MergeHyphenDot(s) == s
    ensures (exists p: nat, d: nat :: Hit(s, p, d)) ==>
      exists p: nat, d: nat :: Hit(s, p, d)
        && MergeHyphenDot(s) == s[..p] + "-" + s[d + 1..]
        && forall p': nat, d': nat :: Hit(s, p', d') ==> p <= p'
  {
    var d := LastDot(s);
    forall p: nat, d': nat | Hit(s, p, d')
      ensures d' == d && 0 < d < |s| - 1 && s[d - 1] == '-' && HyphenRunStart(s, d) <= p
    {
      assert s[d'] == '.' && forall j :: d' < j < |s| ==> s[j] == s[d' + 1..][j - d' - 1];
      assert s[d - 1] == s[p..d][d - 1 - p];
      HyphenRunCovers(s, p, d);
    }
    if 0 < d < |s| - 1 && s[d - 1] == '-' {
      var p := HyphenRunStart(s, d);
      ExcludesFrom(s, d + 1, '.');
      assert Hit(s, p, d);
    }
  }

  lemma ExcludesFrom(s: string, k: nat, c: char)
    requires k <= |s| && forall j :: k <= j < |s| ==> s[j] != c
    ensures Excludes(s[k..], c)
  {
  }

  /** A run of hyphens ending at `d` starts no earlier than `HyphenRunStart`. */
  lemma {:induction false} HyphenRunCovers(s: string, p: nat, d: nat)
    requires p <= d <= |s| && AllHyphens(s[p..d])
    ensures HyphenRunStart(s, d) <= p
    decreases d - p
  {
    if p < d {
      assert s[d - 1] == s[p..d][d - 1 - p];
      assert s[p..d - 1] == s[p..d][..d - 1 - p];
      HyphenRunCovers(s, p, d - 1);
    }
  }

  // ------------------------------------------------- sanitize_domain_name

  /** `sanitize_domain_name`: lower-case, replace, merge, then `strip('_')`. */
  function SanitizeDomainName(name: string): (r: string)
    ensures forall i :: 0 <= i < |r| ==> IsDomainChar(r[i]) && !IsUpper(r[i])
    ensures r == [] || (r[0] != '_' && r[|r| - 1] != '_')
  {
    var replaced := ReplaceInvalid(Lower(name));
    var merged := MergeHyphenDot(replaced);
    MergedChars(Lower(name), replaced, merged);
    StripSet(merged, {'_'})
  }

  lemma MergedChars(lowered: string, replaced: string, merged: string)
    requires NoUpper(lowered) && replaced == ReplaceInvalid(lowered) && merged == MergeHyphenDot(replaced)
    ensures forall i :: 0 <= i < |merged| ==> IsDomainChar(merged[i]) && !IsUpper(merged[i])
  {
    assert forall i :: 0 <= i < |replaced| ==> IsDomainChar(replaced[i]) && !IsUpper(replaced[i]);
  }

  /** `SanitizeDomainName` as the chain of its steps. */
  lemma SanitizeSteps(name: string, replaced: string, merged: string)
    requires replaced == ReplaceInvalid(Lower(name)) && merged == MergeHyphenDot(replaced)
    ensures SanitizeDomainName(name) == StripSet(merged, {'_'})
  {
  }

  lemma ReplaceInvalidOfValid(s: string)
    requires forall i :: 0 <= i < |s| ==> IsDomainChar(s[i])
    ensures ReplaceInvalid(s) == s
  {
  }

  /** The last dot is the one with no dot after it. */
  lemma LastDotAt(s: string, d: nat)
    requires d < |s| && s[d] == '.' && forall j :: d < j < |s| ==> s[j] != '.'
    ensures LastDot(s) == d
  {
  }

  /**
   * A name that is already lower-case, made of `[\w\-\.]`, free of the
   * hyphen-dot pattern and of `_` at either end comes back unchanged.
   */
  lemma SanitizeClean(name: string)
    requires forall i :: 0 <= i < |name| ==> IsDomainChar(name[i]) && !IsUpper(name[i])
    requires forall p: nat, d: nat :: !Hit(name, p, d)
    requires name == [] || (name[0] != '_' && name[|name| - 1] != '_')
    ensures SanitizeDomainName(name) == name
  {
    LowerOfNoUpper(name);
    ReplaceInvalidOfValid(name);
    MergeIsLeftmostMatch(name);
    StripSetOfUnmarkedEnds(name, {'_'});
    SanitizeSteps(name, name, name);
  }

  /** Characters outside `[\w\-\.]` become `_`. */
  lemma SanitizeInvalidExample()
    ensures SanitizeDomainName("invalid!name.com") == "invalid_name.com"
  {
    InvalidNameReplaced();
    InvalidNameKept();
    SanitizeSteps("invalid!name.com", "invalid_name.com", "invalid_name.com");
  }

  lemma InvalidNameReplaced()
    ensures ReplaceInvalid(Lower("invalid!name.com")) == "invalid_name.com"
  {
    LowerOfNoUpper("invalid!name.com");
  }

  lemma InvalidNameKept()
    ensures MergeHyphenDot("invalid_name.com") == "invalid_name.com"
    ensures StripSet("invalid_name.com", {'_'}) == "invalid_name.com"
  {
    var s := "invalid_name.com";
    assert s[11] == 'e' && s[12] == '.' && forall j :: 12 < j < |s| ==> s[j] != '.';
    LastDotAt(s, 12);
    StripSetOfUnmarkedEnds(s, {'_'});
  }

  /** A hyphen before the last dot merges with it. */
  lemma SanitizeTrailingHyphenExample()
    ensures SanitizeDomainName("trailing-.com") == "trailing-com"
  {
    var s := "trailing-.com";
    LowerOfNoUpper(s);
    ReplaceInvalidOfValid(s);
    TrailingHyphenMerged();
    StripSetOfUnmarkedEnds("trailing-com", {'_'});
    SanitizeSteps(s, s, "trailing-com");
  }

  lemma TrailingHyphenMerged()
    ensures MergeHyphenDot("trailing-.com") == "trailing-com"
  {
    var s := "trailing-.com";
    assert s[9] == '.' && forall j :: 9 < j < |s| ==> s[j] != '.';
    LastDotAt(s, 9);
    assert s[8] == '-' && s[7] != '-';
    assert HyphenRunStart(s, 9) == 8;
    assert s[..8] + "-" + s[10..] == "trailing-com";
  }

  // ---------------------------------------------------- build_domain_path

  /**
   * `build_domain_path` on the parts of an already-split URL: no domain
   * gives the fallback, `localhost` gives `localhost`, anything else the
   * sanitized `domain.suffix`, below the sanitized subdomain when asked for
   * (`"/".join` of one or two components).
   */
  function BuildDomainPath(subdomain: string, domain: string, suffix: string,
                           includeSubdomains: bool, fallback: string): (path: string)
    ensures domain == [] ==> path == fallback
    ensures domain == "localhost" ==> path == "localhost"
  {
    if domain == [] then fallback
    else if domain == "localhost" then "localhost"
    else if includeSubdomains && subdomain != [] then SanitizeDomainName(subdomain) + "/" + DomainFolder(domain, suffix)
    else DomainFolder(domain, suffix)
  }

  /** The sanitized `domain.suffix` (just `domain` without a suffix). */
  function DomainFolder(domain: string, suffix: string): (r: string)
    ensures Excludes(r, '/')
  {
    var r := SanitizeDomainName(if suffix != [] then domain + "." + suffix else domain);
    DomainCharsNoSlash(r);
    r
  }

  lemma DomainCharsNoSlash(r: string)
    requires forall i :: 0 <= i < |r| ==> IsDomainChar(r[i])
    ensures Excludes(r, '/')
  {
  }

  /**
   * Outside the fallback and `localhost`, the path is the subdomain folder,
   * one `/` and the domain folder when a subdomain is present and asked for,
   * and the domain folder alone otherwise.
   */
  lemma PathLevels(subdomain: string, domain: string, suffix: string, includeSubdomains: bool, fallback: string)
    requires domain != [] && domain != "localhost"
    ensures var path := BuildDomainPath(subdomain, domain, suffix, includeSubdomains, fallback);
      && path[|path| - |DomainFolder(domain, suffix)|..] == DomainFolder(domain, suffix)
      && if includeSubdomains && subdomain != [] then
           && |path| == |SanitizeDomainName(subdomain)| + 1 + |DomainFolder(domain, suffix)|
           && path[..|SanitizeDomainName(subdomain)|] == SanitizeDomainName(subdomain)
           && forall i :: 0 <= i < |path| ==> (path[i] == '/' <==> i == |SanitizeDomainName(subdomain)|)
         else path == DomainFolder(domain, suffix) && Excludes(path, '/')
  {
    var folder := DomainFolder(domain, suffix);
    if includeSubdomains && subdomain != [] {
      var sub := SanitizeDomainName(subdomain);
      DomainCharsNoSlash(sub);
      SlashJoin(sub, folder);
    }
  }

  /** Joining two slash-free names with `/` puts the only slash between them. */
  lemma SlashJoin(a: string, b: string)
    requires Excludes(a, '/') && Excludes(b, '/')
    ensures var path := a + "/" + b;
      && path[..|a|] == a && path[|path| - |b|..] == b
      && forall i :: 0 <= i < |path| ==> (path[i] == '/' <==> i == |a|)
  {
    var path := a + "/" + b;
    forall i | 0 <= i < |path|
      ensures path[i] == '/' <==> i == |a|
    {
      if i < |a| {
        assert path[i] == a[i];
      } else if i > |a| {
        assert path[i] == b[i - |a| - 1];
      }
    }
  }
}
