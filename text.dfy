/**
  String helpers shared by the pipeline: the JavaScript notion of white space,
  trimming, prefix tests and joining path segments.
*/
module Text {

  /**
    The code points JavaScript's `\s` matches and `String.prototype.trim`
    strips: the WhiteSpace and LineTerminator sets of ECMAScript.
  */
  predicate IsSpace(c: char) {
    || c == '\t' || c == '\n' || c == '\U{000B}' || c == '\U{000C}' || c == '\r' || c == ' '
    || c == '\U{00A0}' || c == '\U{1680}' || ('\U{2000}' <= c <= '\U{200A}')
    || c == '\U{2028}' || c == '\U{2029}' || c == '\U{202F}' || c == '\U{205F}'
    || c == '\U{3000}' || c == '\U{FEFF}'
  }

  predicate AllSpace(s: string) {
    All(s, IsSpace)
  }

  /** Every character of `s` satisfies `p`. */
  predicate All(s: string, p: char -> bool) {
    forall i :: 0 <= i < |s| ==> p(s[i])
  }

  /** The length of the longest prefix of `s` whose characters satisfy `p`. */
  function PrefixRun(s: string, p: char -> bool): (n: nat)
    ensures n <= |s| && (n < |s| ==> !p(s[n]))
  {
    if s != [] && p(s[0]) then PrefixRun(s[1..], p) + 1 else 0
  }

  /** Every character of the run `PrefixRun` measures satisfies `p`. */
  lemma {:induction false} PrefixRunAll(s: string, p: char -> bool)
    ensures All(s[..PrefixRun(s, p)], p)
  {
    if s != [] && p(s[0]) {
      PrefixRunAll(s[1..], p);
      assert s[..PrefixRun(s, p)] == [s[0]] + s[1..][..PrefixRun(s[1..], p)];
    }
  }

  /** A run of `n` characters satisfying `p`, followed by one that does not (or by the end), is the longest prefix. */
  lemma {:induction false} PrefixRunIs(s: string, p: char -> bool, n: nat)
    requires n <= |s| && All(s[..n], p) && (n < |s| ==> !p(s[n]))
    ensures PrefixRun(s, p) == n
  {
    if n > 0 {
      assert s[..n][0] == s[0];
      assert s[1..][..n - 1] == s[..n][1..];
      PrefixRunIs(s[1..], p, n - 1);
    }
  }

  /** Where the longest suffix of `s` whose characters satisfy `p` starts. */
  function SuffixRunStart(s: string, p: char -> bool): (n: nat)
    ensures n <= |s| && (n > 0 ==> !p(s[n - 1]))
  {
    if s != [] && p(s[|s| - 1]) then SuffixRunStart(s[..|s| - 1], p) else |s|
  }

  /** Every character after `SuffixRunStart` satisfies `p`. */
  lemma {:induction false} SuffixRunAll(s: string, p: char -> bool)
    ensures All(s[SuffixRunStart(s, p)..], p)
  {
    if s != [] && p(s[|s| - 1]) {
      var n := SuffixRunStart(s[..|s| - 1], p);
      SuffixRunAll(s[..|s| - 1], p);
      assert s[n..] == s[..|s| - 1][n..] + [s[|s| - 1]];
    }
  }

  /** `replace(/^x+/, '')`: drops the longest prefix of characters satisfying `p`. */
  function TrimLeft(s: string, p: char -> bool): string {
    s[PrefixRun(s, p)..]
  }

  /** `replace(/x+$/, '')`: drops the longest suffix of characters satisfying `p`. */
  function TrimRight(s: string, p: char -> bool): string {
    s[..SuffixRunStart(s, p)]
  }

  /**
    Drops the characters satisfying `p` from both ends. The result neither
    starts nor ends with such a character.
  */
  function TrimBoth(s: string, p: char -> bool): (r: string)
    ensures |r| <= |s|
    ensures r != [] ==> !p(r[0]) && !p(r[|r| - 1])
  {
    if s != [] && p(s[0]) then TrimBoth(s[1..], p)
    else if s != [] && p(s[|s| - 1]) then TrimBoth(s[..|s| - 1], p)
    else s
  }

  /** `String.prototype.trim`: drops white space from both ends. */
  function Trim(s: string): string {
    TrimBoth(s, IsSpace)
  }

  /** Trimming both ends is trimming the front, then the back. */
  lemma {:induction false} TrimByRuns(s: string, p: char -> bool)
    ensures TrimBoth(s, p) == TrimRight(TrimLeft(s, p), p)
  {
    if s != [] && p(s[0]) {
      TrimByRuns(s[1..], p);
      assert s[1..][PrefixRun(s[1..], p)..] == s[PrefixRun(s, p)..];
    } else if s != [] && p(s[|s| - 1]) {
      TrimByRuns(s[..|s| - 1], p);
      assert TrimLeft(s, p) == s;
      assert TrimLeft(s[..|s| - 1], p) == s[..|s| - 1];
    }
  }

  /** `trim` returns the empty string exactly for strings of white space only. */
  lemma TrimEmptyIffAllSpace(s: string)
    ensures Trim(s) == [] <==> AllSpace(s)
  {
    TrimByRuns(s, IsSpace);
    PrefixRunAll(s, IsSpace);
    SuffixRunAll(TrimLeft(s, IsSpace), IsSpace);
    var n := PrefixRun(s, IsSpace);
    assert s == s[..n] + s[n..];
  }

  /** What `Trim` removes is white space on both sides of its result. */
  lemma TrimIsSlice(s: string)
    ensures exists i :: 0 <= i <= |s| - |Trim(s)| && Trim(s) == s[i..i + |Trim(s)|]
                        && AllSpace(s[..i]) && AllSpace(s[i + |Trim(s)|..])
  {
    TrimByRuns(s, IsSpace);
    var i := PrefixRun(s, IsSpace);
    var t := s[i..];
    var j := SuffixRunStart(t, IsSpace);
    PrefixRunAll(s, IsSpace);
    SuffixRunAll(t, IsSpace);
    assert Trim(s) == t[..j] == s[i..i + j];
    assert t[j..] == s[i + j..];
  }

  predicate StartsWith(s: string, prefix: string) {
    |prefix| <= |s| && s[..|prefix|] == prefix
  }

  /** `Array.prototype.join`: the parts with `sep` between neighbours. */
  function Join(parts: seq<string>, sep: string): string {
    if parts == [] then ""
    else if |parts| == 1 then parts[0]
    else parts[0] + sep + Join(parts[1..], sep)
  }

  lemma {:induction false} JoinSnoc(parts: seq<string>, last: string, sep: string)
    requires parts != []
    ensures Join(parts + [last], sep) == Join(parts, sep) + sep + last
  {
    if |parts| > 1 {
      assert (parts + [last])[1..] == parts[1..] + [last];
      JoinSnoc(parts[1..], last, sep);
    }
  }
}
