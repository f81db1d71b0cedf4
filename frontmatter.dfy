/**
  `parseFrontmatter` (build.js): the split of a raw content file by the
  regular expression `^---\s*([\s\S]*?)\s*---` into a metadata block and a
  body. The YAML decoding of the block is a parameter (`load`).
*/
module Frontmatter {
  import opened Options
  import opened Text

  /** The two metadata fields the build reads: `type` (here `kind`) and `author`. */
  datatype Metadata = Metadata(kind: Option<string>, author: Option<string>)

  /** The captured block (white space stripped) and the trimmed rest of the file. */
  datatype Split = Split(block: string, body: string)

  datatype Parsed = Parsed(metadata: Metadata, body: string)

  /** The YAML decoder, which is not part of this model. */
  type Loader = string -> Metadata

  /** `---` starts at index `k` of `s`. */
  predicate DelimiterAt(s: string, k: nat) {
    k + 3 <= |s| && s[k] == '-' && s[k + 1] == '-' && s[k + 2] == '-'
  }

  /** The first index at or after `from` where `---` starts. */
  function FindDelimiter(s: string, from: nat): (r: Option<nat>)
    decreases |s| - from
    ensures r.Some? ==> from <= r.value && DelimiterAt(s, r.value)
  {
    if |s| < from + 3 then None
    else if DelimiterAt(s, from) then Some(from)
    else FindDelimiter(s, from + 1)
  }

  /** No `---` starts between `from` and the index found, and none at all when nothing is found. */
  lemma {:induction false} FindDelimiterIsFirst(s: string, from: nat)
    decreases |s| - from
    ensures forall k: nat :: from <= k && DelimiterAt(s, k) ==> FindDelimiter(s, from).Some? && FindDelimiter(s, from).value <= k
  {
    if from + 3 <= |s| && !DelimiterAt(s, from) {
      FindDelimiterIsFirst(s, from + 1);
    }
  }

  /**
    Lines 34-42: the input must start with `---`; the closing delimiter is the
    first `---` starting at index 3 or later (it need not stand on a line of
    its own); the block is what lies between, trimmed; the body is everything
    after the closing delimiter, trimmed.
  */
  function SplitFrontmatter(content: string): (r: Option<Split>)
    ensures r.Some? ==> var b := r.value.body; b == [] || (!IsSpace(b[0]) && !IsSpace(b[|b| - 1]))
  {
    if !DelimiterAt(content, 0) then None
    else
      match FindDelimiter(content, 3)
      case None => None
      case Some(k) => Some(Split(Trim(content[3..k]), Trim(content[k + 3..])))
  }

  /**
    Lines 33-48: the split, then the block decoded by `load`. `None` is the
    "Invalid or missing frontmatter" exception.
  */
  function ParseFrontmatter(content: string, load: Loader): (r: Option<Parsed>)
    ensures r.Some? <==> SplitFrontmatter(content).Some?
    ensures r.Some? ==> r.value.metadata == load(SplitFrontmatter(content).value.block)
    ensures r.Some? ==> r.value.body == SplitFrontmatter(content).value.body
    ensures r.Some? ==> var b := r.value.body; b == [] || (!IsSpace(b[0]) && !IsSpace(b[|b| - 1]))
  {
    match SplitFrontmatter(content)
    case None => None
    case Some(split) => Some(Parsed(load(split.block), split.body))
  }

  /**
    Lines 37-39: parsing fails exactly when the file does not start with
    `---` or no further `---` starts at index 3 or later.
  */
  lemma ParseFailsExactly(content: string, load: Loader)
    ensures ParseFrontmatter(content, load).None? <==>
      !DelimiterAt(content, 0) || forall k: nat :: 3 <= k ==> !DelimiterAt(content, k)
  {
    FindDelimiterIsFirst(content, 3);
  }

  // The regular expression, stated independently of the split above.

  /**
    A way `^---\s*([\s\S]*?)\s*---` can match `s`: `---` at 0, white space in
    `[3, a)`, the group `[a, e)`, white space in `[e, k)`, `---` at `k`.
  */
  ghost predicate RegexMatch(s: string, a: nat, e: nat, k: nat) {
    && DelimiterAt(s, 0) && 3 <= a <= e <= k && DelimiterAt(s, k)
    && AllSpace(s[3..a]) && AllSpace(s[e..k])
  }

  /**
    The match a backtracking engine reports: the first `\s*` as long as
    possible, then the lazy group as short as possible, then the second `\s*`
    as long as possible.
  */
  ghost predicate FirstMatch(s: string, a: nat, e: nat, k: nat) {
    && RegexMatch(s, a, e, k)
    && forall a2: nat, e2: nat, k2: nat :: RegexMatch(s, a2, e2, k2) ==>
         a2 < a || (a2 == a && (e < e2 || (e2 == e && k2 <= k)))
  }

  /** Where the first `\s*` stops when the closing delimiter is at `k`. */
  lemma LeadingSpace(s: string, k: nat) returns (a: nat)
    requires 3 <= k && DelimiterAt(s, k)
    ensures 3 <= a <= k && s[a..k] == TrimLeft(s[3..k], IsSpace)
    ensures AllSpace(s[3..a]) && !IsSpace(s[a])
  {
    var x := s[3..k];
    PrefixRunAll(x, IsSpace);
    var n := PrefixRun(x, IsSpace);
    a := 3 + n;
    assert x[n..] == s[a..k];
    assert forall i :: 0 <= i < n ==> s[3..a][i] == x[..n][i];
    assert s[3..a] == x[..n];
  }

  /** Where the lazy group stops when the first `\s*` stopped at `a`. */
  lemma TrailingSpace(s: string, a: nat, k: nat) returns (e: nat)
    requires a <= k <= |s|
    ensures a <= e <= k && s[a..e] == TrimRight(s[a..k], IsSpace)
    ensures AllSpace(s[e..k]) && (e > a ==> !IsSpace(s[e - 1]))
  {
    var t := s[a..k];
    SuffixRunAll(t, IsSpace);
    e := a + SuffixRunStart(t, IsSpace);
    assert s[e..k] == t[SuffixRunStart(t, IsSpace)..];
  }

  /** Where the group of the match lies when the closing delimiter is at `k`. */
  lemma GroupBounds(s: string, k: nat) returns (a: nat, e: nat)
    requires DelimiterAt(s, 0) && 3 <= k && DelimiterAt(s, k)
    ensures RegexMatch(s, a, e, k) && s[a..e] == Trim(s[3..k])
    ensures !IsSpace(s[a])
    ensures e > a ==> !IsSpace(s[e - 1])
  {
    TrimByRuns(s[3..k], IsSpace);
    a := LeadingSpace(s, k);
    e := TrailingSpace(s, a, k);
  }

  /** A run of white space that starts at or before a non-space character ends by it. */
  lemma SpaceRunStopsAt(s: string, lo: nat, hi: nat, j: nat)
    requires lo <= hi <= |s| && j < |s| && AllSpace(s[lo..hi]) && !IsSpace(s[j])
    ensures lo <= j ==> hi <= j
  {
  }

  /** A match whose group is trimmed on both sides and which closes at the first delimiter is the one reported. */
  lemma TrimmedGroupIsFirst(s: string, a: nat, e: nat, k: nat)
    requires RegexMatch(s, a, e, k)
    requires !IsSpace(s[a]) && (e > a ==> !IsSpace(s[e - 1]))
    requires forall k2: nat :: 3 <= k2 && DelimiterAt(s, k2) ==> k <= k2
    ensures FirstMatch(s, a, e, k)
  {
    forall a2: nat, e2: nat, k2: nat | RegexMatch(s, a2, e2, k2)
      ensures a2 < a || (a2 == a && (e < e2 || (e2 == e && k2 <= k)))
    {
      SpaceRunStopsAt(s, 3, a2, a);
      if e > a {
        SpaceRunStopsAt(s, e2, k2, e - 1);
      }
      SpaceRunStopsAt(s, e2, k2, k);
    }
  }

  /**
    The split agrees with the regular expression: it fails exactly when the
    expression has no match, and otherwise its block is the group of the
    match the engine reports and its body is the trimmed rest.
  */
  lemma SplitIsFirstMatch(s: string)
    ensures SplitFrontmatter(s).None? <==> !exists a: nat, e: nat, k: nat :: RegexMatch(s, a, e, k)
    ensures SplitFrontmatter(s).Some? ==>
      exists a: nat, e: nat, k: nat :: FirstMatch(s, a, e, k) && SplitFrontmatter(s).value == Split(s[a..e], Trim(s[k + 3..]))
  {
    FindDelimiterIsFirst(s, 3);
    if SplitFrontmatter(s).Some? {
      var k := FindDelimiter(s, 3).value;
      var a, e := GroupBounds(s, k);
      TrimmedGroupIsFirst(s, a, e, k);
      assert SplitFrontmatter(s).value == Split(s[a..e], Trim(s[k + 3..]));
    }
  }
}
