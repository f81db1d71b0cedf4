/**
  `buildSite` (build.js) reduced to what the pipeline computes: the author
  registry, the posts and pages, and the site map. Reading and writing files,
  rendering templates and copying assets are not part of this model; the
  files the globs find are given as sequences.
*/
module Build {
  import opened Options
  import opened Frontmatter
  import opened Content
  import opened Collector
  import opened Graph
  import opened Sitemap

  /** What a finished build has produced, as far as this model follows it. */
  datatype Site = Site(posts: seq<ContentRecord>, pages: seq<ContentRecord>, authors: seq<Author>, sitemap: string)

  /** `Array.from(authorsDataMap.values())` (lines 155 and 186): the entries in key insertion order. */
  function Values(order: seq<string>, entries: map<string, Author>): (authors: seq<Author>)
    requires forall k :: k in order ==> k in entries
    ensures |authors| == |order|
    ensures forall i :: 0 <= i < |order| ==> authors[i] == entries[order[i]]
  {
    if order == [] then []
    else
      var rest := Values(order[1..], entries);
      assert forall i :: 1 <= i < |order| ==> order[i] == order[1..][i - 1];
      [entries[order[0]]] + rest
  }

  /**
    Lines 101-189: registers the authors, collects the content, sorts the
    posts by date (line 149, in place, so the site map sees them sorted) and
    generates the site map. A file without frontmatter aborts the build
    (`None`). The date order is `sortByDate`, any permutation.
  */
  method BuildSite(siteUrl: string, authorFiles: seq<SourceFile>, contentFiles: seq<SourceFile>,
                   load: Loader, render: Renderer, sortByDate: seq<ContentRecord> -> seq<ContentRecord>)
    returns (site: Option<Site>)
    requires AllNonEmptyPaths(authorFiles) && AllContentPaths(contentFiles)
    ensures site.Some? <==> !LoadAuthorFiles(authorFiles, load, render).failed && !Collect(contentFiles, load, render).failed
    ensures site.Some? ==>
      var recs := Collect(contentFiles, load, render).done;
      var reg := LinkAll(SetAll(Registry([], map[]), LoadAuthorFiles(authorFiles, load, render).done), recs);
      && site.value.posts == sortByDate(Posts(recs))
      && site.value.pages == Pages(recs)
      && WellFormed(reg)
      && site.value.authors == Values(reg.order, reg.entries)
      && site.value.sitemap == SitemapXml(siteUrl, site.value.posts, site.value.pages, site.value.authors)
  {
    var graph := new ContentGraph();
    var ok := graph.LoadAuthors(authorFiles, load, render);
    if !ok {
      return None;
    }
    ghost var registered := graph.registry;
    ok := graph.CollectContent(contentFiles, load, render);
    if !ok {
      return None;
    }
    ghost var recs := Collect(contentFiles, load, render).done;
    assert graph.posts == [] + Posts(recs) == Posts(recs);
    assert graph.pages == [] + Pages(recs) == Pages(recs);
    assert graph.registry == LinkAll(registered, recs);
    var sortedPosts := sortByDate(graph.posts);
    var authors := Values(graph.registry.order, graph.registry.entries);
    var xml := GenerateSitemap(siteUrl, sortedPosts, graph.pages, authors);
    site := Some(Site(sortedPosts, graph.pages, authors, xml));
  }

  /**
    Lines 61-86 and 149-187 together: when the date sort is a permutation,
    the site map of a finished build lists the root, the authors index when
    there are authors, and one entry per post, per page and per registered
    author.
  */
  lemma BuildSitemapCount(siteUrl: string, site: Site, sortByDate: seq<ContentRecord> -> seq<ContentRecord>, recs: seq<ContentRecord>)
    requires forall ps :: multiset(sortByDate(ps)) == multiset(ps)
    requires site.posts == sortByDate(Posts(recs)) && site.pages == Pages(recs)
    requires site.sitemap == SitemapXml(siteUrl, site.posts, site.pages, site.authors)
    requires FreeOfMarkup(siteUrl, site.posts + site.pages, site.authors)
    ensures ParseSitemap(site.sitemap).Some?
    ensures |ParseSitemap(site.sitemap).value| == 1 + (if |site.authors| > 0 then 1 else 0) + |recs| + |site.authors|
  {
    SitemapLists(siteUrl, site.posts, site.pages, site.authors);
    assert |site.posts| == |Posts(recs)| by {
      assert |multiset(sortByDate(Posts(recs)))| == |multiset(Posts(recs))|;
    }
    PostsAndPagesPartition(recs);
    assert |multiset(Posts(recs))| + |multiset(Pages(recs))| == |multiset(recs)|;
  }
}
