/**
  The mutable state of `buildSite` (build.js) during its collection pass:
  `authorsDataMap` (line 102) and the arrays `allPosts` and `allPages`
  (lines 119-120), updated by the author loop (lines 104-115) and the
  content loop (lines 122-147). Each method is proved against the
  functions of module Collector.
*/
module Graph {
  import opened Options
  import opened Seqs
  import opened Frontmatter
  import opened Content
  import opened Collector

  class ContentGraph {
    /** `authorsDataMap`: its keys in insertion order and its values. */
    var registry: Registry
    /** `allPosts`, in the order records were pushed. */
    var posts: seq<ContentRecord>
    /** `allPages`, in the order records were pushed. */
    var pages: seq<ContentRecord>

    /**
      The map's key list and entries agree, each author is stored under its
      own slug, pages are records of type `page`, posts are the other
      records, and an author's list only holds posts that name that author.
    */
    ghost predicate Valid()
      reads this
    {
      && WellFormed(registry)
      && (forall r :: r in pages ==> IsPage(r))
      && (forall r :: r in posts ==> IsPost(r))
      && PostsLinked(registry, posts)
    }

    /** Lines 102 and 119-120: an empty map and two empty arrays. */
    constructor ()
      ensures Valid()
      ensures registry == Registry([], map[]) && posts == [] && pages == []
    {
      registry := Registry([], map[]);
      posts := [];
      pages := [];
    }

    /**
      Lines 105-114: parses one author file and sets its entry, or reports
      the missing frontmatter and changes nothing.
    */
    method RegisterAuthorFile(f: SourceFile, load: Loader, render: Renderer) returns (ok: bool)
      requires f.path != []
      requires Valid()
      modifies this
      ensures Valid()
      ensures ok <==> AuthorFromFile(f, load, render).Some?
      ensures ok ==> registry == Set(old(registry), AuthorFromFile(f, load, render).value)
      ensures !ok ==> registry == old(registry)
      ensures posts == old(posts) && pages == old(pages)
    {
      var a := AuthorFromFile(f, load, render);
      if a.None? {
        return false;
      }
      SetKeepsWellFormed(registry, a.value);
      SetKeepsLinks(registry, a.value, posts);
      registry := Set(registry, a.value);
      ok := true;
    }

    /**
      Lines 104-115: registers the author files in order until one has no
      frontmatter; `ok` is false exactly when the build aborts there.
    */
    method LoadAuthors(files: seq<SourceFile>, load: Loader, render: Renderer) returns (ok: bool)
      requires AllNonEmptyPaths(files)
      requires Valid()
      modifies this
      ensures Valid()
      ensures ok <==> !LoadAuthorFiles(files, load, render).failed
      ensures registry == SetAll(old(registry), LoadAuthorFiles(files, load, render).done)
      ensures posts == old(posts) && pages == old(pages)
    {
      ghost var done: seq<Author> := [];
      var i := 0;
      while i < |files|
        invariant 0 <= i <= |files| && |done| == i
        invariant Valid()
        invariant Yielded(files, AuthorStep(load, render), done)
        invariant registry == SetAll(old(registry), done)
        invariant posts == old(posts) && pages == old(pages)
      {
        ok := RegisterAuthorFile(files[i], load, render);
        if !ok {
          RunFromPrefix(files, AuthorStep(load, render), done);
          return;
        }
        YieldedSnoc(files, AuthorStep(load, render), done, AuthorFromFile(files[i], load, render).value);
        done := done + [AuthorFromFile(files[i], load, render).value];
        i := i + 1;
      }
      RunFromPrefix(files, AuthorStep(load, render), done);
      ok := true;
    }

    /**
      Lines 129-138 for a record already made: a page is pushed onto
      `allPages`; a post is pushed onto `allPosts` and onto the list of the
      author its `author` field slugifies to, when that key is registered.
    */
    method AddRecord(r: ContentRecord)
      requires Valid()
      modifies this
      ensures Valid()
      ensures pages == old(pages) + (if IsPage(r) then [r] else [])
      ensures posts == old(posts) + (if IsPost(r) then [r] else [])
      ensures registry == Link(old(registry), r)
    {
      if IsPage(r) {
        pages := pages + [r];
      } else {
        var key := AuthorSlug(r);
        NewPostKeepsLinks(registry, posts, r);
        if key.Some? && key.value != "" && key.value in registry.entries {
          PushKeepsWellFormed(registry, key.value, r);
          PushKeepsLinks(registry, posts, r, key.value);
          registry := Push(registry, key.value, r);
        }
        posts := posts + [r];
      }
    }

    /**
      `AddRecord` seen from the content loop: when the state is the initial
      state plus the records `recs`, adding `r` gives the initial state plus
      `recs + [r]`.
    */
    method AddCollected(r: ContentRecord, ghost recs: seq<ContentRecord>, ghost posts0: seq<ContentRecord>, ghost pages0: seq<ContentRecord>, ghost registry0: Registry)
      requires Valid()
      requires posts == posts0 + Posts(recs) && pages == pages0 + Pages(recs)
      requires registry == LinkAll(registry0, recs)
      modifies this
      ensures Valid()
      ensures posts == posts0 + Posts(recs + [r]) && pages == pages0 + Pages(recs + [r])
      ensures registry == LinkAll(registry0, recs + [r])
    {
      CollectSnoc(recs, r);
      AppendAssoc(posts0, Posts(recs), if IsPost(r) then [r] else []);
      AppendAssoc(pages0, Pages(recs), if IsPage(r) then [r] else []);
      assert (recs + [r])[..|recs|] == recs;
      AddRecord(r);
    }

    /**
      Lines 122-138: runs over the discovered files in order, skipping the
      author profiles, turning each other file into a record and adding it,
      until a file without frontmatter aborts the build (`ok` is false).
    */
    method CollectContent(files: seq<SourceFile>, load: Loader, render: Renderer) returns (ok: bool)
      requires AllContentPaths(files)
      requires Valid()
      modifies this
      ensures Valid()
      ensures ok <==> !Collect(files, load, render).failed
      ensures posts == old(posts) + Posts(Collect(files, load, render).done)
      ensures pages == old(pages) + Pages(Collect(files, load, render).done)
      ensures registry == LinkAll(old(registry), Collect(files, load, render).done)
    {
      ghost var recs: seq<ContentRecord> := [];
      ContentLoopStart(files, load, render);
      var i := 0;
      while i < |files|
        invariant 0 <= i <= |files|
        invariant Valid()
        invariant ContentLoopAt(files, load, render, i, recs)
        invariant posts == old(posts) + Posts(recs) && pages == old(pages) + Pages(recs)
        invariant registry == LinkAll(old(registry), recs)
      {
        if IsAuthorPath(files[i].path) {
          ContentLoopSkip(files, load, render, i, recs);
          i := i + 1;
          continue;
        }
        var rec := Process(files[i], load, render);
        if rec.None? {
          ContentLoopFail(files, load, render, i, recs);
          return false;
        }
        ContentLoopYield(files, load, render, i, recs);
        AddCollected(rec.value, recs, old(posts), old(pages), old(registry));
        recs := recs + [rec.value];
        i := i + 1;
      }
      ContentLoopEnd(files, load, render, recs);
      ok := true;
    }
  }
}
