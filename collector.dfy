/**
  The collection pass of `buildSite` (build.js): the author registry
  (`authorsDataMap`, lines 101-115) and the content loop that sorts records
  into posts and pages and links posts to their authors (lines 118-147).
  Discovered files are given as input sequences; reading them, rendering and
  writing the per-post pages are not part of this model.
*/
module Collector {
  import opened Options
  import opened Seqs
  import opened Text
  import opened Slug
  import opened Frontmatter
  import opened Content

  /** A file a glob discovered, with the text reading it returned. */
  datatype SourceFile = SourceFile(path: seq<string>, text: string)

  /** A value of `authorsDataMap` (lines 109-114). */
  datatype Author = Author(profile: Metadata, content: string, slug: string, posts: seq<ContentRecord>)

  /** The keys of `authorsDataMap` in insertion order, and its entries. */
  datatype Registry = Registry(order: seq<string>, entries: map<string, Author>)

  /** The results a loop produced before it stopped, and whether a step stopped it. */
  datatype Run<T> = Run(done: seq<T>, failed: bool)

  /**
    A `for` loop whose body either yields a value or throws: the values of
    the steps before the first failing one, in order, and whether one failed.
  */
  function RunUntilFailure<S, T>(xs: seq<S>, step: S --> Option<T>): (r: Run<T>)
    requires forall i :: 0 <= i < |xs| ==> step.requires(xs[i])
    ensures |r.done| <= |xs|
    ensures r.failed <==> |r.done| < |xs|
  {
    if xs == [] then Run([], false)
    else
      match step(xs[0])
      case None => Run([], true)
      case Some(x) =>
        var rest := RunUntilFailure(xs[1..], step);
        Run([x] + rest.done, rest.failed)
  }

  /** Each step of the run yielded its value, and the step it stopped at failed. */
  lemma {:induction false} RunSteps<S, T>(xs: seq<S>, step: S --> Option<T>)
    requires forall i :: 0 <= i < |xs| ==> step.requires(xs[i])
    ensures var r := RunUntilFailure(xs, step);
      && (forall i :: 0 <= i < |r.done| ==> step(xs[i]) == Some(r.done[i]))
      && (r.failed ==> step(xs[|r.done|]).None?)
  {
    if xs != [] && step(xs[0]).Some? {
      RunSteps(xs[1..], step);
      var rest := RunUntilFailure(xs[1..], step);
      var done := RunUntilFailure(xs, step).done;
      assert forall i :: 1 <= i < |done| ==> done[i] == rest.done[i - 1] && xs[i] == xs[1..][i - 1];
    }
  }

  /** The first `|done|` steps over `xs` yielded `done`, one value each. */
  ghost predicate Yielded<S, T>(xs: seq<S>, step: S --> Option<T>, done: seq<T>)
    requires forall i :: 0 <= i < |xs| ==> step.requires(xs[i])
    decreases |done|
  {
    && |done| <= |xs|
    && (done != [] ==> Yielded(xs, step, done[..|done| - 1]) && step(xs[|done| - 1]) == Some(done[|done| - 1]))
  }

  lemma {:induction false} YieldedEach<S, T>(xs: seq<S>, step: S --> Option<T>, done: seq<T>)
    requires forall i :: 0 <= i < |xs| ==> step.requires(xs[i])
    requires Yielded(xs, step, done)
    decreases |done|
    ensures forall i :: 0 <= i < |done| ==> step(xs[i]) == Some(done[i])
  {
    if done != [] {
      YieldedEach(xs, step, done[..|done| - 1]);
    }
  }

  /** One more successful step extends what the loop has yielded. */
  lemma YieldedSnoc<S, T>(xs: seq<S>, step: S --> Option<T>, done: seq<T>, x: T)
    requires forall i :: 0 <= i < |xs| ==> step.requires(xs[i])
    requires Yielded(xs, step, done) && |done| < |xs| && step(xs[|done|]) == Some(x)
    ensures Yielded(xs, step, done + [x])
  {
    var d := done + [x];
    assert d[..|d| - 1] == done && d[|d| - 1] == x;
    assert Yielded(xs, step, d[..|d| - 1]) && step(xs[|d| - 1]) == Some(d[|d| - 1]);
  }

  /**
    A loop that has run the first `|done|` steps without failure has produced
    the whole run once it reaches the end, or once the next step fails.
  */
  lemma RunFromPrefix<S, T>(xs: seq<S>, step: S --> Option<T>, done: seq<T>)
    requires forall i :: 0 <= i < |xs| ==> step.requires(xs[i])
    requires Yielded(xs, step, done)
    ensures |done| == |xs| ==> RunUntilFailure(xs, step) == Run(done, false)
    ensures |done| < |xs| && step(xs[|done|]).None? ==> RunUntilFailure(xs, step) == Run(done, true)
  {
    YieldedEach(xs, step, done);
    RunSteps(xs, step);
    var r := RunUntilFailure(xs, step);
    assert |done| <= |r.done|;
    assert r.done[..|done|] == done;
  }

  // ---------------------------------------------------------------------------
  // Classification and linking of one record

  /** Line 131: a record is a page exactly when its `type` is the string `page`. */
  predicate IsPage(r: ContentRecord) {
    r.metadata.kind == Some("page")
  }

  predicate IsPost(r: ContentRecord) {
    !IsPage(r)
  }

  /** Line 129: the slug of the `author` field when that field is a non-empty string. */
  function AuthorSlug(r: ContentRecord): (k: Option<string>)
    ensures k.Some? <==> r.metadata.author.Some? && r.metadata.author.value != ""
    ensures k.Some? ==> k.value == Slugify(r.metadata.author.value)
  {
    match r.metadata.author
    case Some(name) => if name != "" then Some(Slugify(name)) else None
    case None => None
  }

  /** Line 135: the record names `key`, and `key` is truthy. */
  predicate LinksTo(r: ContentRecord, key: string) {
    AuthorSlug(r) == Some(key) && key != ""
  }

  /**
    An author file whose base name is already a slug is matched by every
    display name that slugifies to it; the base name itself is never
    slugified (line 105).
  */
  lemma LinksToSlugName(r: ContentRecord, key: string)
    requires IsSlug(key) && key != ""
    ensures LinksTo(r, key) <==> r.metadata.author.Some? && Slugify(r.metadata.author.value) == key
  {
    SlugifyFixedIff("");
  }

  function NamesAuthor(key: string): ContentRecord -> bool {
    r => LinksTo(r, key)
  }

  /** The posts linked to `key`, in order. */
  function LinkedPosts(key: string, rs: seq<ContentRecord>): seq<ContentRecord> {
    Filter(rs, NamesAuthor(key))
  }

  lemma LinkedPostsMembers(key: string, rs: seq<ContentRecord>)
    ensures forall r :: r in LinkedPosts(key, rs) <==> r in rs && LinksTo(r, key)
  {
    FilterMembers(rs, NamesAuthor(key));
  }

  lemma LinkedPostsAppend(key: string, a: seq<ContentRecord>, b: seq<ContentRecord>)
    ensures LinkedPosts(key, a + b) == LinkedPosts(key, a) + LinkedPosts(key, b)
  {
    FilterAppend(a, b, NamesAuthor(key));
  }

  function Posts(rs: seq<ContentRecord>): seq<ContentRecord> {
    Filter(rs, IsPost)
  }

  function Pages(rs: seq<ContentRecord>): seq<ContentRecord> {
    Filter(rs, IsPage)
  }

  /**
    Posts and pages partition the records: together they hold every record
    exactly as often as the records do, pages are exactly the records of type
    `page`, and no author is ever linked to a page.
  */
  lemma PostsAndPagesPartition(rs: seq<ContentRecord>)
    ensures multiset(Posts(rs)) + multiset(Pages(rs)) == multiset(rs)
    ensures forall r :: r in Pages(rs) <==> r in rs && IsPage(r)
    ensures forall r :: r in Posts(rs) <==> r in rs && !IsPage(r)
    ensures forall key, r :: r in LinkedPosts(key, Posts(rs)) ==> !IsPage(r)
  {
    FilterSplits(rs, IsPost, IsPage);
    FilterMembers(rs, IsPost);
    FilterMembers(rs, IsPage);
    forall key {
      LinkedPostsMembers(key, Posts(rs));
    }
  }

  /** What one more record adds to the posts and to the pages. */
  lemma CollectSnoc(rs: seq<ContentRecord>, r: ContentRecord)
    ensures Posts(rs + [r]) == Posts(rs) + (if IsPost(r) then [r] else [])
    ensures Pages(rs + [r]) == Pages(rs) + (if IsPage(r) then [r] else [])
  {
    FilterAppend(rs, [r], IsPost);
    FilterAppend(rs, [r], IsPage);
  }

  /** A post is linked to at most one author key. */
  lemma LinkedToOneAuthor(rs: seq<ContentRecord>, r: ContentRecord, k1: string, k2: string)
    requires r in LinkedPosts(k1, rs) && r in LinkedPosts(k2, rs)
    ensures k1 == k2 && r.metadata.author.Some? && Slugify(r.metadata.author.value) == k1
  {
    LinkedPostsMembers(k1, rs);
    LinkedPostsMembers(k2, rs);
  }

  // ---------------------------------------------------------------------------
  // The content loop, as a function of the discovered files

  predicate AllContentPaths(files: seq<SourceFile>) {
    forall f :: f in files ==> IsContentPath(f.path)
  }

  predicate IsContentFile(f: SourceFile) {
    !IsAuthorPath(f.path)
  }

  /** Line 123: the files the content loop processes, in discovery order. */
  function ContentFiles(files: seq<SourceFile>): seq<SourceFile> {
    Filter(files, IsContentFile)
  }

  /** Where the content loop stands in the content files after `i` discovered files. */
  lemma ContentFilesAt(files: seq<SourceFile>, i: nat)
    requires i < |files|
    ensures |ContentFiles(files[..i + 1])| == |ContentFiles(files[..i])| + (if IsContentFile(files[i]) then 1 else 0)
    ensures IsContentFile(files[i]) ==>
      |ContentFiles(files[..i])| < |ContentFiles(files)| && ContentFiles(files)[|ContentFiles(files[..i])|] == files[i]
  {
    assert files == files[..i] + files[i..];
    FilterAppend(files[..i], files[i..], IsContentFile);
    assert files[..i + 1] == files[..i] + [files[i]];
    FilterAppend(files[..i], [files[i]], IsContentFile);
    assert files[i..] == [files[i]] + files[i + 1..];
    FilterAppend([files[i]], files[i + 1..], IsContentFile);
  }

  function Process(f: SourceFile, load: Loader, render: Renderer): Option<ContentRecord>
    requires IsContentPath(f.path)
  {
    ProcessMarkdownFile(f.text, f.path, load, render)
  }

  /**
    Lines 122-127: every content file becomes one record, in discovery order,
    until the first file without frontmatter aborts the build.
  */
  function Collect(files: seq<SourceFile>, load: Loader, render: Renderer): (c: Run<ContentRecord>)
    requires AllContentPaths(files)
  {
    FilterMembers(files, IsContentFile);
    RunUntilFailure(ContentFiles(files), ContentStep(load, render))
  }

  /** The loop body of lines 126-127 as a step that may throw. */
  function ContentStep(load: Loader, render: Renderer): SourceFile --> Option<ContentRecord> {
    (f: SourceFile) requires IsContentPath(f.path) => Process(f, load, render)
  }

  /**
    The content loop after `i` discovered files: it has processed the
    content files among them, and they yielded `recs`.
  */
  ghost predicate ContentLoopAt(files: seq<SourceFile>, load: Loader, render: Renderer, i: nat, recs: seq<ContentRecord>)
    requires AllContentPaths(files) && i <= |files|
  {
    FilterMembers(files, IsContentFile);
    |ContentFiles(files[..i])| == |recs| && Yielded(ContentFiles(files), ContentStep(load, render), recs)
  }

  lemma ContentLoopStart(files: seq<SourceFile>, load: Loader, render: Renderer)
    requires AllContentPaths(files)
    ensures ContentLoopAt(files, load, render, 0, [])
  {
    assert files[..0] == [];
  }

  /** Line 123: an author profile moves the loop on without a record. */
  lemma ContentLoopSkip(files: seq<SourceFile>, load: Loader, render: Renderer, i: nat, recs: seq<ContentRecord>)
    requires AllContentPaths(files) && i < |files| && ContentLoopAt(files, load, render, i, recs)
    requires IsAuthorPath(files[i].path)
    ensures ContentLoopAt(files, load, render, i + 1, recs)
  {
    ContentFilesAt(files, i);
  }

  /** Lines 126-127: a content file with frontmatter yields its record. */
  lemma ContentLoopYield(files: seq<SourceFile>, load: Loader, render: Renderer, i: nat, recs: seq<ContentRecord>)
    requires AllContentPaths(files) && i < |files| && ContentLoopAt(files, load, render, i, recs)
    requires !IsAuthorPath(files[i].path) && Process(files[i], load, render).Some?
    ensures ContentLoopAt(files, load, render, i + 1, recs + [Process(files[i], load, render).value])
  {
    FilterMembers(files, IsContentFile);
    ContentFilesAt(files, i);
    YieldedSnoc(ContentFiles(files), ContentStep(load, render), recs, Process(files[i], load, render).value);
  }

  /** Line 126: a content file without frontmatter ends the run, failed. */
  lemma ContentLoopFail(files: seq<SourceFile>, load: Loader, render: Renderer, i: nat, recs: seq<ContentRecord>)
    requires AllContentPaths(files) && i < |files| && ContentLoopAt(files, load, render, i, recs)
    requires !IsAuthorPath(files[i].path) && Process(files[i], load, render).None?
    ensures Collect(files, load, render) == Run(recs, true)
  {
    FilterMembers(files, IsContentFile);
    ContentFilesAt(files, i);
    RunFromPrefix(ContentFiles(files), ContentStep(load, render), recs);
  }

  /** Having passed every file, the loop has made the whole run. */
  lemma ContentLoopEnd(files: seq<SourceFile>, load: Loader, render: Renderer, recs: seq<ContentRecord>)
    requires AllContentPaths(files) && ContentLoopAt(files, load, render, |files|, recs)
    ensures Collect(files, load, render) == Run(recs, false)
  {
    FilterMembers(files, IsContentFile);
    assert files[..|files|] == files;
    RunFromPrefix(ContentFiles(files), ContentStep(load, render), recs);
  }

  // ---------------------------------------------------------------------------
  // The author registry, as a function of the author files

  /** Lines 105-114 for one file: key, parsed profile, rendered bio, no posts yet. */
  function AuthorFromFile(f: SourceFile, load: Loader, render: Renderer): (a: Option<Author>)
    requires f.path != []
    ensures a.Some? <==> ParseFrontmatter(f.text, load).Some?
    ensures a.Some? ==> a.value.slug == AuthorFileSlug(f.path) && a.value.posts == []
    ensures a.Some? ==> a.value.profile == ParseFrontmatter(f.text, load).value.metadata
    ensures a.Some? ==> a.value.content == render(ParseFrontmatter(f.text, load).value.body)
  {
    match ParseFrontmatter(f.text, load)
    case None => None
    case Some(parsed) => Some(Author(parsed.metadata, render(parsed.body), AuthorFileSlug(f.path), []))
  }

  predicate AllNonEmptyPaths(files: seq<SourceFile>) {
    forall i :: 0 <= i < |files| ==> files[i].path != []
  }

  /** Lines 104-115: one author per file, in order, until a file without frontmatter aborts. */
  function LoadAuthorFiles(files: seq<SourceFile>, load: Loader, render: Renderer): (l: Run<Author>)
    requires AllNonEmptyPaths(files)
  {
    RunUntilFailure(files, AuthorStep(load, render))
  }

  /** The loop body of lines 105-113 as a step that may throw. */
  function AuthorStep(load: Loader, render: Renderer): SourceFile --> Option<Author> {
    (f: SourceFile) requires f.path != [] => AuthorFromFile(f, load, render)
  }

  /**
    `authorsDataMap` as the build keeps it: the key list and the entries
    agree, no key repeats, and every author sits under its own slug.
  */
  predicate WellFormed(reg: Registry) {
    && (forall k :: k in reg.entries ==> k in reg.order)
    && (forall k :: k in reg.order ==> k in reg.entries)
    && (forall i, j :: 0 <= i < j < |reg.order| ==> reg.order[i] != reg.order[j])
    && (forall k :: k in reg.entries ==> reg.entries[k].slug == k)
  }

  /** Every author's list holds only records of `posts` that name that author. */
  predicate PostsLinked(reg: Registry, posts: seq<ContentRecord>) {
    forall k, r :: k in reg.entries && r in reg.entries[k].posts ==> r in posts && LinksTo(r, k)
  }

  /** `Map.prototype.set`: a new key goes last, a key already present keeps its place. */
  function Set(reg: Registry, a: Author): Registry {
    if a.slug in reg.entries then Registry(reg.order, reg.entries[a.slug := a])
    else Registry(reg.order + [a.slug], reg.entries[a.slug := a])
  }

  /** `Map.prototype.set` keeps the registry well formed. */
  lemma SetKeepsWellFormed(reg: Registry, a: Author)
    requires WellFormed(reg)
    ensures WellFormed(Set(reg, a))
  {
    var next := Set(reg, a);
    if a.slug !in reg.entries {
      forall i, j | 0 <= i < j < |next.order|
        ensures next.order[i] != next.order[j]
      {
        assert next.order[i] == reg.order[i] && reg.order[i] in reg.entries;
      }
    }
  }

  /** Setting an author with no posts keeps every link valid. */
  lemma SetKeepsLinks(reg: Registry, a: Author, posts: seq<ContentRecord>)
    requires PostsLinked(reg, posts) && a.posts == []
    ensures PostsLinked(Set(reg, a), posts)
  {
    var next := Set(reg, a);
    forall k, r | k in next.entries && r in next.entries[k].posts
      ensures r in posts && LinksTo(r, k)
    {
      assert k != a.slug && next.entries[k] == reg.entries[k];
    }
  }

  /** Line 136: `authorsDataMap.get(key).posts.push(r)`. */
  function Push(reg: Registry, key: string, r: ContentRecord): Registry
    requires key in reg.entries
  {
    var a := reg.entries[key];
    reg.(entries := reg.entries[key := a.(posts := a.posts + [r])])
  }

  /**
    Lines 131-137 on the map: a post whose author slug is a registered key
    is pushed onto that author's list; any other record leaves the map as it is.
  */
  function Link(reg: Registry, r: ContentRecord): Registry {
    var key := AuthorSlug(r);
    if IsPost(r) && key.Some? && key.value != "" && key.value in reg.entries then Push(reg, key.value, r) else reg
  }

  /**
    Linking keeps the keys and their order, and adds `r` to exactly the list
    of the author it names, when that author is registered.
  */
  lemma LinkEffect(reg: Registry, r: ContentRecord)
    ensures Link(reg, r).order == reg.order && Link(reg, r).entries.Keys == reg.entries.Keys
    ensures forall k :: k in reg.entries ==>
      Link(reg, r).entries[k] == reg.entries[k].(posts := reg.entries[k].posts + (if IsPost(r) && LinksTo(r, k) then [r] else []))
    ensures IsPage(r) || AuthorSlug(r).None? || AuthorSlug(r).value !in reg.entries ==> Link(reg, r) == reg
  {
  }

  /** The map after the content loop has linked the records `rs`, in order. */
  function LinkAll(reg: Registry, rs: seq<ContentRecord>): Registry {
    if rs == [] then reg else Link(LinkAll(reg, rs[..|rs| - 1]), rs[|rs| - 1])
  }

  /** The content loop never adds or moves a key of the map. */
  lemma {:induction false} LinkAllKeys(reg: Registry, rs: seq<ContentRecord>)
    ensures LinkAll(reg, rs).order == reg.order && LinkAll(reg, rs).entries.Keys == reg.entries.Keys
  {
    if rs != [] {
      LinkAllKeys(reg, rs[..|rs| - 1]);
      LinkEffect(LinkAll(reg, rs[..|rs| - 1]), rs[|rs| - 1]);
    }
  }

  /** After the loop the list of author `k` has gained exactly the posts naming `k`, in discovery order. */
  lemma {:induction false} LinkAllEntry(reg: Registry, rs: seq<ContentRecord>, k: string)
    requires k in reg.entries
    ensures k in LinkAll(reg, rs).entries
    ensures LinkAll(reg, rs).entries[k] == reg.entries[k].(posts := reg.entries[k].posts + LinkedPosts(k, Posts(rs)))
  {
    if rs == [] {
      assert Posts(rs) == [];
    } else {
      var init := rs[..|rs| - 1];
      var r := rs[|rs| - 1];
      assert rs == init + [r];
      LinkAllEntry(reg, init, k);
      LinkEffect(LinkAll(reg, init), r);
      CollectSnoc(init, r);
      LinkedPostsAppend(k, Posts(init), if IsPost(r) then [r] else []);
      assert LinkedPosts(k, if IsPost(r) then [r] else []) == (if IsPost(r) && LinksTo(r, k) then [r] else []);
      AppendAssoc(reg.entries[k].posts, LinkedPosts(k, Posts(init)), if IsPost(r) && LinksTo(r, k) then [r] else []);
    }
  }

  /**
    After the loop every author keeps its key and place, and its list has
    gained exactly the posts naming it, in discovery order.
  */
  lemma LinkAllEffect(reg: Registry, rs: seq<ContentRecord>)
    ensures LinkAll(reg, rs).order == reg.order && LinkAll(reg, rs).entries.Keys == reg.entries.Keys
    ensures forall k :: k in reg.entries ==>
      LinkAll(reg, rs).entries[k] == reg.entries[k].(posts := reg.entries[k].posts + LinkedPosts(k, Posts(rs)))
  {
    LinkAllKeys(reg, rs);
    forall k | k in reg.entries
      ensures LinkAll(reg, rs).entries[k] == reg.entries[k].(posts := reg.entries[k].posts + LinkedPosts(k, Posts(rs)))
    {
      LinkAllEntry(reg, rs, k);
    }
  }

  /** A new post keeps every link valid. */
  lemma NewPostKeepsLinks(reg: Registry, posts: seq<ContentRecord>, r: ContentRecord)
    requires PostsLinked(reg, posts)
    ensures PostsLinked(reg, posts + [r])
  {
    forall k, x | k in reg.entries && x in reg.entries[k].posts
      ensures x in posts + [r] && LinksTo(x, k)
    {
    }
  }

  /** Pushing onto an author's list keeps the registry well formed. */
  lemma PushKeepsWellFormed(reg: Registry, key: string, r: ContentRecord)
    requires WellFormed(reg) && key in reg.entries
    ensures WellFormed(Push(reg, key, r))
  {
    var next := Push(reg, key, r);
    assert next.order == reg.order && next.entries.Keys == reg.entries.Keys;
  }

  /** Pushing a new post onto the list of the author it names keeps every link valid. */
  lemma PushKeepsLinks(reg: Registry, posts: seq<ContentRecord>, r: ContentRecord, key: string)
    requires PostsLinked(reg, posts) && key in reg.entries && LinksTo(r, key)
    ensures PostsLinked(Push(reg, key, r), posts + [r])
  {
    var next := Push(reg, key, r);
    forall k, x | k in next.entries && x in next.entries[k].posts
      ensures x in posts + [r] && LinksTo(x, k)
    {
      if k != key {
        assert next.entries[k] == reg.entries[k];
      } else if x != r {
        assert x in reg.entries[k].posts;
      }
    }
  }

  function SetAll(reg: Registry, authors: seq<Author>): Registry {
    if authors == [] then reg else Set(SetAll(reg, authors[..|authors| - 1]), authors[|authors| - 1])
  }

  function Slugs(authors: seq<Author>): (slugs: seq<string>)
    ensures |slugs| == |authors| && forall i :: 0 <= i < |authors| ==> slugs[i] == authors[i].slug
  {
    seq(|authors|, i requires 0 <= i < |authors| => authors[i].slug)
  }

  predicate DistinctSlugs(authors: seq<Author>) {
    forall i, j :: 0 <= i < j < |authors| ==> authors[i].slug != authors[j].slug
  }

  /**
    Registering authors with distinct keys into an empty map gives one entry
    per author, keyed by its slug, in registration order.
  */
  lemma {:induction false} SetAllDistinct(authors: seq<Author>)
    requires DistinctSlugs(authors)
    ensures SetAll(Registry([], map[]), authors).order == Slugs(authors)
    ensures forall k :: k in SetAll(Registry([], map[]), authors).entries <==> k in Slugs(authors)
    ensures forall i :: 0 <= i < |authors| ==> SetAll(Registry([], map[]), authors).entries[authors[i].slug] == authors[i]
  {
    if authors != [] {
      var init := authors[..|authors| - 1];
      var last := authors[|authors| - 1];
      SetAllDistinct(init);
      var before := SetAll(Registry([], map[]), init);
      assert Slugs(authors) == Slugs(init) + [last.slug];
      assert last.slug !in before.entries by {
        forall k | k in Slugs(init) ensures k != last.slug {
          var i :| 0 <= i < |init| && Slugs(init)[i] == k;
          assert authors[i] == init[i];
        }
      }
      var after := Registry(before.order + [last.slug], before.entries[last.slug := last]);
      assert SetAll(Registry([], map[]), authors) == after;
      forall i | 0 <= i < |authors|
        ensures after.entries[authors[i].slug] == authors[i]
      {
        if i < |init| {
          assert authors[i] == init[i] && authors[i].slug != last.slug;
        }
      }
    }
  }

  /**
    The registry built from author files with distinct names (as one
    directory's glob yields them) has one entry per file, keyed by the file's
    base name, with no posts.
  */
  lemma RegistryFromAuthorFiles(files: seq<SourceFile>, load: Loader, render: Renderer)
    requires AllNonEmptyPaths(files)
    requires forall i, j :: 0 <= i < j < |files| ==> AuthorFileSlug(files[i].path) != AuthorFileSlug(files[j].path)
    requires !LoadAuthorFiles(files, load, render).failed
    ensures var reg := SetAll(Registry([], map[]), LoadAuthorFiles(files, load, render).done);
      && |reg.order| == |files|
      && (forall i :: 0 <= i < |files| ==> reg.order[i] == AuthorFileSlug(files[i].path))
      && (forall k :: k in reg.entries ==> reg.entries[k].slug == k && reg.entries[k].posts == [])
  {
    var authors := LoadAuthorFiles(files, load, render).done;
    RunSteps(files, AuthorStep(load, render));
    forall i | 0 <= i < |authors|
      ensures authors[i].slug == AuthorFileSlug(files[i].path) && authors[i].posts == []
    {
      assert AuthorStep(load, render)(files[i]) == Some(authors[i]);
    }
    SetAllDistinct(authors);
    var reg := SetAll(Registry([], map[]), authors);
    forall k | k in reg.entries
      ensures reg.entries[k].slug == k && reg.entries[k].posts == []
    {
      var i :| 0 <= i < |authors| && Slugs(authors)[i] == k;
    }
  }
}
