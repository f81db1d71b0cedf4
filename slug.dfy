/**
  `slugify` (build.js): turns a free-text name into a URL slug by a chain of
  five rewrites. Each rewrite is a function of its own; `Slugify` composes them.
  Letters are lowered over ASCII only.
*/
module Slug {
  import opened Seqs
  import opened Text

  predicate IsUpper(c: char) {
    'A' <= c <= 'Z'
  }

  /** `\w` in a JavaScript regular expression without the `u` flag. */
  predicate IsWordChar(c: char) {
    'a' <= c <= 'z' || 'A' <= c <= 'Z' || '0' <= c <= '9' || c == '_'
  }

  predicate IsHyphen(c: char) {
    c == '-'
  }

  /** The characters a slug is made of: `[a-z0-9_-]`. */
  predicate IsSlugChar(c: char) {
    'a' <= c <= 'z' || '0' <= c <= '9' || c == '_' || c == '-'
  }

  predicate NoDoubleHyphen(s: string) {
    forall i :: 0 <= i < |s| - 1 ==> !(s[i] == '-' && s[i + 1] == '-')
  }

  /** The shape every result of `Slugify` has. */
  predicate IsSlug(s: string) {
    && (forall i :: 0 <= i < |s| ==> IsSlugChar(s[i]))
    && (s != [] ==> s[0] != '-' && s[|s| - 1] != '-')
    && NoDoubleHyphen(s)
  }

  function ToLowerChar(c: char): char {
    if IsUpper(c) then (c as int + 32) as char else c
  }

  /** Stage 1, `toLowerCase()`: A-Z become a-z, every other character is kept. */
  function ToLower(s: string): (r: string)
    ensures |r| == |s|
  {
    if s == [] then [] else [ToLowerChar(s[0])] + ToLower(s[1..])
  }

  lemma {:induction false} ToLowerEffect(s: string)
    ensures forall i :: 0 <= i < |s| ==> !IsUpper(ToLower(s)[i])
    ensures forall i :: 0 <= i < |s| ==>
      if IsUpper(s[i]) then ToLower(s)[i] as int == s[i] as int + 32 else ToLower(s)[i] == s[i]
  {
    if s != [] {
      ToLowerEffect(s[1..]);
    }
  }

  /**
    Stage 2, `replace(/\s+/g, '-')`: every maximal run of white space becomes
    one hyphen (emitted where the run ends).
  */
  function HyphenateSpaces(s: string): string {
    if s == [] then []
    else if IsSpace(s[0]) then
      if |s| > 1 && IsSpace(s[1]) then HyphenateSpaces(s[1..]) else "-" + HyphenateSpaces(s[1..])
    else [s[0]] + HyphenateSpaces(s[1..])
  }

  lemma {:induction false} HyphenateSpacesEffect(s: string)
    ensures forall c :: c in HyphenateSpaces(s) ==> !IsSpace(c) && (c == '-' || c in s)
  {
    if s != [] {
      HyphenateSpacesEffect(s[1..]);
      assert forall c :: c in s[1..] ==> c in s;
    }
  }

  /** Cutting the input after a character that is not white space cuts the output there too. */
  lemma {:induction false} HyphenateSpacesAppend(a: string, b: string)
    requires a != [] ==> !IsSpace(a[|a| - 1])
    ensures HyphenateSpaces(a + b) == HyphenateSpaces(a) + HyphenateSpaces(b)
  {
    if a == [] {
      assert a + b == b;
    } else {
      assert (a + b)[0] == a[0] && (a + b)[1..] == a[1..] + b;
      if |a| > 1 {
        assert (a + b)[1] == a[1];
      }
      HyphenateSpacesAppend(a[1..], b);
    }
  }

  /** A run of white space at the front, followed by anything but white space, becomes one hyphen. */
  lemma {:induction false} HyphenateSpacesLeadingRun(w: string, b: string)
    requires w != [] && AllSpace(w) && (b != [] ==> !IsSpace(b[0]))
    ensures HyphenateSpaces(w + b) == "-" + HyphenateSpaces(b)
  {
    assert (w + b)[0] == w[0] && (w + b)[1..] == w[1..] + b;
    if |w| > 1 {
      assert (w + b)[1] == w[1];
      HyphenateSpacesLeadingRun(w[1..], b);
    } else {
      assert w[1..] + b == b;
    }
  }

  /**
    Every maximal run of white space becomes exactly one hyphen, and what
    stands on either side of it is rewritten on its own.
  */
  lemma HyphenateSpacesRun(a: string, w: string, b: string)
    requires a != [] ==> !IsSpace(a[|a| - 1])
    requires w != [] && AllSpace(w)
    requires b != [] ==> !IsSpace(b[0])
    ensures HyphenateSpaces(a + w + b) == HyphenateSpaces(a) + "-" + HyphenateSpaces(b)
  {
    assert a + w + b == a + (w + b);
    HyphenateSpacesAppend(a, w + b);
    HyphenateSpacesLeadingRun(w, b);
  }

  /** Text without white space passes unchanged, characters in order. */
  lemma {:induction false} HyphenateSpacesKeeps(s: string)
    requires forall i :: 0 <= i < |s| ==> !IsSpace(s[i])
    ensures HyphenateSpaces(s) == s
  {
    if s != [] {
      HyphenateSpacesKeeps(s[1..]);
    }
  }

  /** The characters stage 3 keeps: `[\w-]`. */
  predicate IsWordOrHyphen(c: char) {
    IsWordChar(c) || c == '-'
  }

  /** Stage 3, `replace(/[^\w-]+/g, '')`: keeps exactly the word characters and hyphens. */
  function KeepWordChars(s: string): string {
    if s == [] then []
    else if IsWordOrHyphen(s[0]) then [s[0]] + KeepWordChars(s[1..])
    else KeepWordChars(s[1..])
  }

  /** Stage 3 is the filter of `[\w-]`: the kept characters stay, each as often and in the same order. */
  lemma {:induction false} KeepWordCharsIsFilter(s: string)
    ensures KeepWordChars(s) == Filter(s, IsWordOrHyphen)
  {
    if s != [] {
      KeepWordCharsIsFilter(s[1..]);
    }
  }

  lemma {:induction false} KeepWordCharsEffect(s: string)
    ensures forall c :: c in KeepWordChars(s) <==> c in s && (IsWordChar(c) || c == '-')
  {
    if s != [] {
      KeepWordCharsEffect(s[1..]);
      assert s == [s[0]] + s[1..];
    }
  }

  lemma {:induction false} KeepWordCharsKeeps(s: string)
    requires forall i :: 0 <= i < |s| ==> IsWordChar(s[i]) || s[i] == '-'
    ensures KeepWordChars(s) == s
  {
    if s != [] {
      KeepWordCharsKeeps(s[1..]);
    }
  }

  /** Stage 4, `replace(/--+/g, '-')`: every run of hyphens becomes one hyphen. */
  function CollapseHyphens(s: string): string {
    if s == [] then []
    else if |s| > 1 && s[0] == '-' && s[1] == '-' then CollapseHyphens(s[1..])
    else [s[0]] + CollapseHyphens(s[1..])
  }

  lemma {:induction false} CollapseHyphensEffect(s: string)
    ensures NoDoubleHyphen(CollapseHyphens(s))
    ensures forall c :: c in CollapseHyphens(s) <==> c in s
    ensures s != [] ==> CollapseHyphens(s) != [] && CollapseHyphens(s)[0] == s[0]
  {
    if s != [] {
      CollapseHyphensEffect(s[1..]);
      assert s == [s[0]] + s[1..];
    }
  }

  /** Cutting the input after a character that is not a hyphen cuts the output there too. */
  lemma {:induction false} CollapseHyphensAppend(a: string, b: string)
    requires a != [] ==> a[|a| - 1] != '-'
    ensures CollapseHyphens(a + b) == CollapseHyphens(a) + CollapseHyphens(b)
  {
    if a == [] {
      assert a + b == b;
    } else {
      assert (a + b)[0] == a[0] && (a + b)[1..] == a[1..] + b;
      if |a| > 1 {
        assert (a + b)[1] == a[1];
      }
      CollapseHyphensAppend(a[1..], b);
    }
  }

  /** A run of hyphens at the front, followed by anything but a hyphen, becomes one hyphen. */
  lemma {:induction false} CollapseHyphensLeadingRun(h: string, b: string)
    requires h != [] && All(h, IsHyphen) && (b != [] ==> b[0] != '-')
    ensures CollapseHyphens(h + b) == "-" + CollapseHyphens(b)
  {
    assert (h + b)[0] == h[0] && (h + b)[1..] == h[1..] + b;
    if |h| > 1 {
      assert (h + b)[1] == h[1];
      CollapseHyphensLeadingRun(h[1..], b);
    } else {
      assert h[1..] + b == b;
    }
  }

  /**
    Every maximal run of hyphens becomes exactly one hyphen, and what stands
    on either side of it is rewritten on its own.
  */
  lemma CollapseHyphensRun(a: string, h: string, b: string)
    requires a != [] ==> a[|a| - 1] != '-'
    requires h != [] && All(h, IsHyphen)
    requires b != [] ==> b[0] != '-'
    ensures CollapseHyphens(a + h + b) == CollapseHyphens(a) + "-" + CollapseHyphens(b)
  {
    assert a + h + b == a + (h + b);
    CollapseHyphensAppend(a, h + b);
    CollapseHyphensLeadingRun(h, b);
  }

  /** Text without a doubled hyphen passes unchanged, characters in order. */
  lemma {:induction false} CollapseHyphensKeeps(s: string)
    requires NoDoubleHyphen(s)
    ensures CollapseHyphens(s) == s
  {
    if s != [] {
      CollapseHyphensKeeps(s[1..]);
    }
  }

  /**
    `slugify`: lower-case, hyphenate white space, drop other non-word
    characters, collapse hyphen runs, then trim hyphens at both ends
    (`replace(/^-+/, '')` and `replace(/-+$/, '')`).
  */
  function Slugify(s: string): string {
    TrimBoth(CollapseHyphens(KeepWordChars(HyphenateSpaces(ToLower(s)))), IsHyphen)
  }

  /** The last two stages, run one after the other as the source writes them, strip hyphens from both ends. */
  lemma SlugifyByStages(s: string)
    ensures Slugify(s) == TrimRight(TrimLeft(CollapseHyphens(KeepWordChars(HyphenateSpaces(ToLower(s)))), IsHyphen), IsHyphen)
  {
    TrimByRuns(CollapseHyphens(KeepWordChars(HyphenateSpaces(ToLower(s)))), IsHyphen);
  }

  /** Every result of `Slugify` is in slug shape. */
  lemma SlugifyIsSlug(s: string)
    ensures IsSlug(Slugify(s))
  {
    StagesGiveSlugChars(s);
    TrimHyphensGivesSlug(CollapseHyphens(KeepWordChars(HyphenateSpaces(ToLower(s)))));
  }

  /** After the first four stages only slug characters remain, and no hyphen is doubled. */
  lemma StagesGiveSlugChars(s: string)
    ensures var c := CollapseHyphens(KeepWordChars(HyphenateSpaces(ToLower(s))));
      (forall i :: 0 <= i < |c| ==> IsSlugChar(c[i])) && NoDoubleHyphen(c)
  {
    var lowered := ToLower(s);
    var hyphenated := HyphenateSpaces(lowered);
    var words := KeepWordChars(hyphenated);
    ToLowerEffect(s);
    HyphenateSpacesEffect(lowered);
    KeepWordCharsEffect(hyphenated);
    CollapseHyphensEffect(words);
    var c := CollapseHyphens(words);
    forall i | 0 <= i < |c|
      ensures IsSlugChar(c[i])
    {
      var x := c[i];
      assert x in words;
      assert x in hyphenated;
      if x in lowered {
        var j :| 0 <= j < |lowered| && lowered[j] == x;
      }
    }
  }

  /** Trimming hyphens from a string of slug characters without doubled hyphens gives a slug. */
  lemma TrimHyphensGivesSlug(c: string)
    requires (forall i :: 0 <= i < |c| ==> IsSlugChar(c[i])) && NoDoubleHyphen(c)
    ensures IsSlug(TrimBoth(c, IsHyphen))
  {
    TrimByRuns(c, IsHyphen);
    var n := PrefixRun(c, IsHyphen);
    var t := c[n..];
    var m := SuffixRunStart(t, IsHyphen);
    var r := t[..m];
    assert forall i :: 0 <= i < |r| ==> r[i] == c[n + i];
  }

  lemma ToLowerKeepsLower(s: string)
    requires forall i :: 0 <= i < |s| ==> !IsUpper(s[i])
    ensures ToLower(s) == s
  {
    ToLowerEffect(s);
    var lowered := ToLower(s);
    assert forall i :: 0 <= i < |s| ==> lowered[i] == s[i];
  }

  lemma TrimHyphensKeepsSlug(s: string)
    requires s != [] ==> s[0] != '-' && s[|s| - 1] != '-'
    ensures TrimBoth(s, IsHyphen) == s
  {
  }

  /** A string already in slug shape is left alone by every stage. */
  lemma {:induction false} SlugIsFixpoint(s: string)
    requires IsSlug(s)
    ensures Slugify(s) == s
  {
    ToLowerKeepsLower(s);
    HyphenateSpacesKeeps(s);
    KeepWordCharsKeeps(s);
    CollapseHyphensKeeps(s);
    TrimHyphensKeepsSlug(s);
  }

  /** A lower-case word is left alone by the white-space stage. */
  lemma LowerWordKeeps(s: string)
    requires forall i :: 0 <= i < |s| ==> 'a' <= s[i] <= 'z'
    ensures HyphenateSpaces(s) == s
  {
    HyphenateSpacesKeeps(s);
  }

  lemma JaneKeeps()
    ensures HyphenateSpaces("jane") == "jane"
  {
    LowerWordKeeps("jane");
  }

  lemma DoeKeeps()
    ensures HyphenateSpaces("doe") == "doe"
  {
    LowerWordKeeps("doe");
  }

  lemma HyphenateJaneDoe()
    ensures HyphenateSpaces("jane doe") == "jane-doe"
  {
    assert "jane doe" == "jane" + " " + "doe";
    assert "jane" + "-" + "doe" == "jane-doe";
    HyphenateSpacesRun("jane", " ", "doe");
    JaneKeeps();
    DoeKeeps();
  }

  /** A slug passes the last three stages unchanged. */
  lemma SlugPassesLastStages(s: string)
    requires IsSlug(s)
    ensures TrimBoth(CollapseHyphens(KeepWordChars(s)), IsHyphen) == s
  {
    KeepWordCharsKeeps(s);
    CollapseHyphensKeeps(s);
    TrimHyphensKeepsSlug(s);
  }

  /** Two lower-case words joined by a hyphen are in slug shape. */
  lemma JoinedWordsAreSlug(a: string, b: string)
    requires a != [] && forall i :: 0 <= i < |a| ==> 'a' <= a[i] <= 'z'
    requires b != [] && forall i :: 0 <= i < |b| ==> 'a' <= b[i] <= 'z'
    ensures IsSlug(a + "-" + b)
  {
  }

  lemma JaneDoeIsSlug()
    ensures IsSlug("jane-doe")
  {
    assert "jane" + "-" + "doe" == "jane-doe";
    JoinedWordsAreSlug("jane", "doe");
  }

  lemma JaneDoePassesLastStages()
    ensures TrimBoth(CollapseHyphens(KeepWordChars("jane-doe")), IsHyphen) == "jane-doe"
  {
    JaneDoeIsSlug();
    SlugPassesLastStages("jane-doe");
  }

  /** A display name and the author file name it is meant to match. */
  lemma SlugifyJaneDoe()
    ensures Slugify("Jane Doe") == "jane-doe"
  {
    assert ToLower("Jane Doe") == "jane doe" by {
      ToLowerEffect("Jane Doe");
    }
    HyphenateJaneDoe();
    JaneDoePassesLastStages();
  }

  /** `slugify(slugify(x)) == slugify(x)`. */
  lemma SlugifyIdempotent(s: string)
    ensures Slugify(Slugify(s)) == Slugify(s)
  {
    SlugifyIsSlug(s);
    SlugIsFixpoint(Slugify(s));
  }

  /** The fixed points of `Slugify` are exactly the strings in slug shape. */
  lemma SlugifyFixedIff(s: string)
    ensures Slugify(s) == s <==> IsSlug(s)
  {
    SlugifyIsSlug(s);
    if IsSlug(s) {
      SlugIsFixpoint(s);
    }
  }
}
