/**
  `generateSitemap` (build.js): a `urlset` of the Sitemaps protocol 0.9 with
  one `<url><loc>` entry per page of the site, in a fixed order: the root,
  the authors index (when there are authors), every post, every page, then
  every author page. Locations are written as they are, without escaping.
*/
module Sitemap {
  import opened Options
  import opened Seqs
  import opened Text
  import opened Content
  import opened Collector

  const Header: string := "<?xml version=\"1.0\" encoding=\"UTF-8\"?><urlset xmlns=\"http://www.sitemaps.org/schemas/sitemap/0.9\">"
  const Footer: string := "\n</urlset>"
  const Open: string := "\n  <url><loc>"
  const Close: string := "</loc></url>"

  /** Line 66 (and 68, 75, 81): the text one location adds. */
  function UrlEntry(loc: string): string {
    Open + loc + Close
  }

  function Root(siteUrl: string): string {
    siteUrl + "/"
  }

  function AuthorsIndex(siteUrl: string): string {
    siteUrl + "/authors/"
  }

  /** Lines 73-74: a post or page lives at `category/slug/`, or at `slug/` without a category. */
  function ItemUrl(siteUrl: string, r: ContentRecord): string {
    siteUrl + "/" + ItemPath(r) + "/"
  }

  /** Line 80. */
  function AuthorUrl(siteUrl: string, a: Author): string {
    siteUrl + "/authors/" + a.slug + "/"
  }

  /** The locations of `items`, in order. */
  function ItemUrls(siteUrl: string, items: seq<ContentRecord>): (urls: seq<string>)
    ensures |urls| == |items|
  {
    if items == [] then [] else ItemUrls(siteUrl, items[..|items| - 1]) + [ItemUrl(siteUrl, items[|items| - 1])]
  }

  lemma {:induction false} ItemUrlsAt(siteUrl: string, items: seq<ContentRecord>)
    ensures forall i :: 0 <= i < |items| ==> ItemUrls(siteUrl, items)[i] == ItemUrl(siteUrl, items[i])
  {
    if items != [] {
      ItemUrlsAt(siteUrl, items[..|items| - 1]);
    }
  }

  /** The locations of the author pages, in order. */
  function AuthorUrls(siteUrl: string, authors: seq<Author>): (urls: seq<string>)
    ensures |urls| == |authors|
  {
    if authors == [] then [] else AuthorUrls(siteUrl, authors[..|authors| - 1]) + [AuthorUrl(siteUrl, authors[|authors| - 1])]
  }

  lemma {:induction false} AuthorUrlsAt(siteUrl: string, authors: seq<Author>)
    ensures forall i :: 0 <= i < |authors| ==> AuthorUrls(siteUrl, authors)[i] == AuthorUrl(siteUrl, authors[i])
  {
    if authors != [] {
      AuthorUrlsAt(siteUrl, authors[..|authors| - 1]);
    }
  }

  /** The locations the site map lists, in the order it lists them. */
  function Locs(siteUrl: string, posts: seq<ContentRecord>, pages: seq<ContentRecord>, authors: seq<Author>): seq<string> {
    [Root(siteUrl)] + (if |authors| > 0 then [AuthorsIndex(siteUrl)] else [])
      + ItemUrls(siteUrl, posts + pages) + AuthorUrls(siteUrl, authors)
  }

  /** The entries for `locs`, one after the other. */
  function Entries(locs: seq<string>): string {
    if locs == [] then "" else Entries(locs[..|locs| - 1]) + UrlEntry(locs[|locs| - 1])
  }

  lemma EntriesSnoc(locs: seq<string>, loc: string)
    ensures Entries(locs + [loc]) == Entries(locs) + UrlEntry(loc)
  {
    assert (locs + [loc])[..|locs|] == locs;
  }

  /** Appending one entry to a document that ends with the entries of `locs`. */
  lemma AppendEntry(prefix: string, locs: seq<string>, loc: string)
    ensures prefix + Entries(locs) + UrlEntry(loc) == prefix + Entries(locs + [loc])
  {
    EntriesSnoc(locs, loc);
    AppendAssoc(prefix, Entries(locs), UrlEntry(loc));
  }

  lemma NoEntries(prefix: string)
    ensures prefix + Entries([]) == prefix
  {
  }

  lemma ItemUrlsSnoc(siteUrl: string, items: seq<ContentRecord>, i: nat)
    requires i < |items|
    ensures ItemUrls(siteUrl, items[..i + 1]) == ItemUrls(siteUrl, items[..i]) + [ItemUrl(siteUrl, items[i])]
  {
    assert items[..i + 1][..i] == items[..i];
  }

  lemma AuthorUrlsSnoc(siteUrl: string, authors: seq<Author>, j: nat)
    requires j < |authors|
    ensures AuthorUrls(siteUrl, authors[..j + 1]) == AuthorUrls(siteUrl, authors[..j]) + [AuthorUrl(siteUrl, authors[j])]
  {
    assert authors[..j + 1][..j] == authors[..j];
  }

  /** The document `generateSitemap` returns. */
  function SitemapXml(siteUrl: string, posts: seq<ContentRecord>, pages: seq<ContentRecord>, authors: seq<Author>): string {
    Header + Entries(Locs(siteUrl, posts, pages, authors)) + Footer
  }

  /**
    Lines 61-86: the header, the fixed entries, one entry per post and page
    (line 72), one per author (line 79), and the closing tag.
  */
  method GenerateSitemap(siteUrl: string, posts: seq<ContentRecord>, pages: seq<ContentRecord>, authors: seq<Author>) returns (xml: string)
    ensures xml == SitemapXml(siteUrl, posts, pages, authors)
  {
    var allContent := posts + pages;
    xml := Header;
    ghost var locs: seq<string> := [];
    NoEntries(Header);
    AppendEntry(Header, locs, Root(siteUrl));
    xml := xml + UrlEntry(Root(siteUrl));
    locs := locs + [Root(siteUrl)];
    if |authors| > 0 {
      AppendEntry(Header, locs, AuthorsIndex(siteUrl));
      xml := xml + UrlEntry(AuthorsIndex(siteUrl));
      locs := locs + [AuthorsIndex(siteUrl)];
    }
    ghost var fixed := locs;
    for i := 0 to |allContent|
      invariant xml == Header + Entries(locs)
      invariant locs == fixed + ItemUrls(siteUrl, allContent[..i])
    {
      var fullUrl := ItemUrl(siteUrl, allContent[i]);
      ItemUrlsSnoc(siteUrl, allContent, i);
      AppendAssoc(fixed, ItemUrls(siteUrl, allContent[..i]), [fullUrl]);
      AppendEntry(Header, locs, fullUrl);
      xml := xml + UrlEntry(fullUrl);
      locs := locs + [fullUrl];
    }
    assert allContent[..|allContent|] == allContent;
    ghost var before := locs;
    for j := 0 to |authors|
      invariant xml == Header + Entries(locs)
      invariant locs == before + AuthorUrls(siteUrl, authors[..j])
    {
      var fullUrl := AuthorUrl(siteUrl, authors[j]);
      AuthorUrlsSnoc(siteUrl, authors, j);
      AppendAssoc(before, AuthorUrls(siteUrl, authors[..j]), [fullUrl]);
      AppendEntry(Header, locs, fullUrl);
      xml := xml + UrlEntry(fullUrl);
      locs := locs + [fullUrl];
    }
    assert authors[..|authors|] == authors;
    assert locs == Locs(siteUrl, posts, pages, authors);
    xml := xml + Footer;
  }

  // Reading the document back

  predicate IsNotAngle(c: char) {
    c != '<'
  }

  /**
    The locations of a run of entries, or `None` when the text is not such a
    run: each entry is `Open`, the location up to the next `<`, then `Close`.
  */
  function ParseEntries(s: string): Option<seq<string>>
    decreases |s|
  {
    if s == [] then Some([])
    else if !StartsWith(s, Open) then None
    else
      var rest := s[|Open|..];
      var n := PrefixRun(rest, IsNotAngle);
      if !StartsWith(rest[n..], Close) then None
      else
        match ParseEntries(rest[n + |Close|..])
        case None => None
        case Some(locs) => Some([rest[..n]] + locs)
  }

  /** The locations a site map document lists, or `None` when it is not one. */
  function ParseSitemap(xml: string): Option<seq<string>> {
    if |Header| + |Footer| <= |xml| && xml[..|Header|] == Header && xml[|xml| - |Footer|..] == Footer
    then ParseEntries(xml[|Header|..|xml| - |Footer|])
    else None
  }

  lemma {:induction false} EntriesCons(loc: string, locs: seq<string>)
    ensures Entries([loc] + locs) == UrlEntry(loc) + Entries(locs)
  {
    if locs != [] {
      var init := locs[..|locs| - 1];
      assert ([loc] + locs)[..|locs|] == [loc] + init;
      EntriesCons(loc, init);
    } else {
      assert [loc] + locs == [loc];
    }
  }

  /** A location without `<` is read back whole, up to the `<` that opens `Close`. */
  lemma LocationEnds(loc: string, tail: string)
    requires '<' !in loc
    ensures PrefixRun(loc + Close + tail, IsNotAngle) == |loc|
  {
    var t := loc + Close + tail;
    assert t[..|loc|] == loc;
    PrefixRunIs(t, IsNotAngle, |loc|);
  }

  /** An entry whose location has no `<` is read back as that location, ahead of what follows. */
  lemma ParseOneEntry(loc: string, t: string)
    requires '<' !in loc
    ensures ParseEntries(UrlEntry(loc) + t) ==
      if ParseEntries(t).Some? then Some([loc] + ParseEntries(t).value) else None
  {
    var s := UrlEntry(loc) + t;
    var rest := loc + Close + t;
    assert s == Open + rest;
    assert s[..|Open|] == Open && s[|Open|..] == rest;
    LocationEnds(loc, t);
    assert rest[|loc|..] == Close + t;
    assert rest[|loc|..][..|Close|] == Close;
    assert rest[|loc| + |Close|..] == t;
    assert rest[..|loc|] == loc;
  }

  /** Reading back the entries of locations without `<` gives those locations. */
  lemma {:induction false} ParseEntriesRoundTrip(locs: seq<string>)
    requires forall i :: 0 <= i < |locs| ==> '<' !in locs[i]
    ensures ParseEntries(Entries(locs)) == Some(locs)
  {
    if locs != [] {
      var tail := locs[1..];
      assert locs == [locs[0]] + tail;
      EntriesCons(locs[0], tail);
      ParseEntriesRoundTrip(tail);
      ParseOneEntry(locs[0], Entries(tail));
    }
  }

  /** Every location is the site URL, a `/`, a path, and a closing `/`. */
  predicate IsSiteLoc(siteUrl: string, loc: string) {
    StartsWith(loc, siteUrl + "/") && loc[|loc| - 1] == '/'
  }

  /** No part the locations are made of contains `<`, which the source would write into the XML as it is. */
  predicate FreeOfMarkup(siteUrl: string, items: seq<ContentRecord>, authors: seq<Author>) {
    && '<' !in siteUrl
    && (forall r :: r in items ==> '<' !in r.category && '<' !in r.slug)
    && (forall a :: a in authors ==> '<' !in a.slug)
  }

  lemma ItemUrlFreeOfMarkup(siteUrl: string, r: ContentRecord)
    requires '<' !in siteUrl && '<' !in r.category && '<' !in r.slug
    ensures '<' !in ItemUrl(siteUrl, r)
  {
  }

  lemma AuthorUrlFreeOfMarkup(siteUrl: string, a: Author)
    requires '<' !in siteUrl && '<' !in a.slug
    ensures '<' !in AuthorUrl(siteUrl, a)
  {
  }

  /** The locations hold no `<` when their parts hold none. */
  lemma LocsFreeOfMarkup(siteUrl: string, posts: seq<ContentRecord>, pages: seq<ContentRecord>, authors: seq<Author>)
    requires FreeOfMarkup(siteUrl, posts + pages, authors)
    ensures forall i :: 0 <= i < |Locs(siteUrl, posts, pages, authors)| ==> '<' !in Locs(siteUrl, posts, pages, authors)[i]
  {
    var items := posts + pages;
    var locs := Locs(siteUrl, posts, pages, authors);
    var h := if |authors| > 0 then 2 else 1;
    ItemUrlsAt(siteUrl, items);
    AuthorUrlsAt(siteUrl, authors);
    forall i | 0 <= i < |locs|
      ensures '<' !in locs[i]
    {
      if i < h {
      } else if i < h + |items| {
        assert items[i - h] in items;
        ItemUrlFreeOfMarkup(siteUrl, items[i - h]);
      } else {
        assert authors[i - h - |items|] in authors;
        AuthorUrlFreeOfMarkup(siteUrl, authors[i - h - |items|]);
      }
    }
  }

  /**
    Lines 61-86: the document lists exactly one entry for the root, one for
    the authors index when there are authors, one per post, one per page and
    one per author: it reads back as `Locs`, whose length is that sum.
  */
  lemma SitemapLists(siteUrl: string, posts: seq<ContentRecord>, pages: seq<ContentRecord>, authors: seq<Author>)
    requires FreeOfMarkup(siteUrl, posts + pages, authors)
    ensures ParseSitemap(SitemapXml(siteUrl, posts, pages, authors)) == Some(Locs(siteUrl, posts, pages, authors))
    ensures |Locs(siteUrl, posts, pages, authors)| == 1 + (if |authors| > 0 then 1 else 0) + |posts| + |pages| + |authors|
  {
    var locs := Locs(siteUrl, posts, pages, authors);
    var body := Entries(locs);
    var xml := SitemapXml(siteUrl, posts, pages, authors);
    LocsFreeOfMarkup(siteUrl, posts, pages, authors);
    ParseEntriesRoundTrip(locs);
    assert xml[..|Header|] == Header;
    assert xml[|xml| - |Footer|..] == Footer;
    assert xml[|Header|..|xml| - |Footer|] == body;
  }

  /**
    Lines 65-82: the root comes first, then the authors index when there are
    authors, then the posts, then the pages, then the authors, each group in
    the order given.
  */
  lemma SitemapOrder(siteUrl: string, posts: seq<ContentRecord>, pages: seq<ContentRecord>, authors: seq<Author>)
    ensures var locs := Locs(siteUrl, posts, pages, authors);
      var h := if |authors| > 0 then 2 else 1;
      && |locs| == h + |posts| + |pages| + |authors|
      && locs[0] == siteUrl + "/"
      && (|authors| > 0 ==> locs[1] == siteUrl + "/authors/")
      && (forall i :: 0 <= i < |posts| ==> locs[h + i] == ItemUrl(siteUrl, posts[i]))
      && (forall i :: 0 <= i < |pages| ==> locs[h + |posts| + i] == ItemUrl(siteUrl, pages[i]))
      && (forall i :: 0 <= i < |authors| ==> locs[h + |posts| + |pages| + i] == AuthorUrl(siteUrl, authors[i]))
  {
    ItemUrlsAt(siteUrl, posts + pages);
    AuthorUrlsAt(siteUrl, authors);
  }

  /** Line 74 and 80: every location starts with the site URL and a `/`, and ends with `/`. */
  lemma SitemapLocShape(siteUrl: string, posts: seq<ContentRecord>, pages: seq<ContentRecord>, authors: seq<Author>)
    ensures forall loc :: loc in Locs(siteUrl, posts, pages, authors) ==> IsSiteLoc(siteUrl, loc)
  {
    var locs := Locs(siteUrl, posts, pages, authors);
    ItemUrlsAt(siteUrl, posts + pages);
    AuthorUrlsAt(siteUrl, authors);
    forall i | 0 <= i < |locs|
      ensures IsSiteLoc(siteUrl, locs[i])
    {
      assert locs[i][..|siteUrl| + 1] == siteUrl + "/";
    }
  }
}
