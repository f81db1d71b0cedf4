/**
  `processMarkdownFile` (build.js): a content file becomes a record whose
  `category` and `slug` come from its path relative to the `content` root.
  Paths are sequences of segments joined by `/`, as the globs yield them.
*/
module Content {
  import opened Options
  import opened Text
  import opened Frontmatter

  const ContentRoot: string := "content"
  const MarkdownExt: string := ".md"
  const AuthorsPrefix: string := "content/authors/"

  /** The markdown renderer, which is not part of this model. */
  type Renderer = string -> string

  datatype ContentRecord = ContentRecord(slug: string, category: string, path: seq<string>, metadata: Metadata, content: string)

  /**
    A path segment as `glob` yields it: a non-empty name without `/` that
    does not start with `.` (so never `.` or `..`, and no hidden file).
  */
  predicate IsName(segment: string) {
    segment != "" && segment[0] != '.' && '/' !in segment
  }

  /** A path as `content/**/*.md` yields it: the root and at least one more name. */
  predicate IsContentPath(path: seq<string>) {
    |path| >= 2 && path[0] == ContentRoot && forall i :: 0 <= i < |path| ==> IsName(path[i])
  }

  function PathString(path: seq<string>): string {
    Join(path, "/")
  }

  /** `path.dirname` of a relative path: `.` for a bare file name. */
  function Dirname(rel: seq<string>): string
    requires rel != []
  {
    if |rel| == 1 then "." else Join(rel[..|rel| - 1], "/")
  }

  /** `path.basename(name, ext)`: `name` without the suffix `ext`, unless that would leave nothing. */
  function Basename(name: string, ext: string): (r: string)
    ensures name == r + ext || name == r
    ensures |ext| < |name| && name[|name| - |ext|..] == ext ==> r + ext == name
  {
    if |ext| < |name| && name[|name| - |ext|..] == ext then name[..|name| - |ext|] else name
  }

  /**
    Lines 50-59: parse the frontmatter, render the body, and derive `category`
    (the parent directory relative to `content`, or empty at the root) and
    `slug` (the file name without `.md`).
  */
  function ProcessMarkdownFile(text: string, path: seq<string>, load: Loader, render: Renderer): (r: Option<ContentRecord>)
    requires IsContentPath(path)
    ensures r.None? <==> ParseFrontmatter(text, load).None?
    ensures r.Some? ==> r.value.path == path
    ensures r.Some? ==> (r.value.category == "" <==> |path| == 2)
    ensures r.Some? && |path| > 2 ==> r.value.category == Join(path[1..|path| - 1], "/")
    ensures r.Some? ==> r.value.slug == Basename(path[|path| - 1], MarkdownExt)
    ensures r.Some? ==> r.value.metadata == ParseFrontmatter(text, load).value.metadata
    ensures r.Some? ==> r.value.content == render(ParseFrontmatter(text, load).value.body)
  {
    match ParseFrontmatter(text, load)
    case None => None
    case Some(parsed) =>
      var rel := path[1..];
      var parentDir := Dirname(rel);
      JoinedNamesAreNotDot(rel[..|rel| - 1]);
      assert rel[..|rel| - 1] == path[1..|path| - 1];
      var category := if parentDir != "." then parentDir else "";
      var slug := Basename(rel[|rel| - 1], MarkdownExt);
      Some(ContentRecord(slug, category, path, parsed.metadata, render(parsed.body)))
  }

  /** Lines 73 and 140: where a record lives below the site root, `category/slug` or `slug`. */
  function ItemPath(r: ContentRecord): string {
    if r.category != "" then r.category + "/" + r.slug else r.slug
  }

  /** Line 123: the author profiles, which the content loop skips. */
  predicate IsAuthorPath(path: seq<string>) {
    StartsWith(PathString(path), AuthorsPrefix)
  }

  /** Line 105: an author's key is the base name of its file. */
  function AuthorFileSlug(path: seq<string>): string
    requires path != []
  {
    Basename(path[|path| - 1], MarkdownExt)
  }

  lemma {:induction false} JoinedNamesAreNotDot(names: seq<string>)
    requires forall i :: 0 <= i < |names| ==> IsName(names[i])
    ensures names != [] ==> Join(names, "/") != "." && Join(names, "/") != ""
  {
    if |names| > 1 {
      assert |Join(names, "/")| > 1;
    }
  }

  /**
    A record's item path is its path relative to `content` with `.md` taken
    off the file name: the same form on disk (line 140) and in the site map.
  */
  lemma ItemPathIsRelativePath(text: string, path: seq<string>, load: Loader, render: Renderer)
    requires IsContentPath(path) && ProcessMarkdownFile(text, path, load, render).Some?
    ensures ItemPath(ProcessMarkdownFile(text, path, load, render).value)
         == Join(path[1..|path| - 1] + [Basename(path[|path| - 1], MarkdownExt)], "/")
  {
    var r := ProcessMarkdownFile(text, path, load, render).value;
    var dirs := path[1..|path| - 1];
    if dirs != [] {
      assert path[1..][..|path[1..]| - 1] == dirs;
      JoinedNamesAreNotDot(dirs);
      JoinSnoc(dirs, r.slug, "/");
    }
  }

  /**
    The prefix test of line 123 on the joined path is a test on segments: a
    content path is skipped exactly when it lies below `content/authors`.
  */
  lemma {:induction false} AuthorPathBySegments(path: seq<string>)
    requires IsContentPath(path)
    ensures IsAuthorPath(path) <==> |path| >= 3 && path[1] == "authors"
  {
    var p := PathString(path);
    var rest := Join(path[1..], "/");
    assert p == "content/" + rest;
    if |path| >= 3 {
      assert rest == path[1] + "/" + Join(path[2..], "/");
      assert p == "content/" + path[1] + "/" + Join(path[2..], "/");
      assert AuthorsPrefix == "content/" + "authors" + "/";
      if IsAuthorPath(path) {
        NameBeforeSlash(path[1], Join(path[2..], "/"), "authors");
      }
      assert path[1] == "authors" ==> p[..|AuthorsPrefix|] == AuthorsPrefix;
    } else {
      assert rest == path[1];
      assert |p| >= 16 ==> p[15] == path[1][7];
    }
  }

  /** In `p` = `content/name/tail`, the first `/` after `content/` ends `name`. */
  lemma SlashAfterName(p: string, name: string, tail: string)
    requires '/' !in name && p == "content/" + name + "/" + tail
    ensures forall i :: 8 <= i <= 8 + |name| ==> (p[i] == '/' <==> i == 8 + |name|)
    ensures forall i :: 0 <= i < |name| ==> p[8 + i] == name[i]
  {
  }

  /** `content/name/...` starts with `content/word/` only when `name` is `word`, for names without `/`. */
  lemma NameBeforeSlash(name: string, tail: string, word: string)
    requires '/' !in name && '/' !in word
    requires StartsWith("content/" + name + "/" + tail, "content/" + word + "/")
    ensures name == word
  {
    var p := "content/" + name + "/" + tail;
    var q := "content/" + word + "/";
    SlashAfterName(p, name, tail);
    SlashAfterName(q, word, "");
    var m := if |name| < |word| then |name| else |word|;
    assert p[8 + m] == q[8 + m];
    assert forall i :: 0 <= i < m ==> name[i] == p[8 + i] == q[8 + i] == word[i];
  }
}
