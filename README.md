# Content pipeline of a static-site generator, in Dafny

This project models the content pipeline of `build.js`, a static-site
generator that turns a tree of markdown files into HTML pages and a
`sitemap.xml`. The model covers five parts of that pipeline:

- `slugify`: a free-text name becomes a URL slug. This is `Slug.Slugify`, built from the five rewrite stages.
- `parseFrontmatter`: a file is split by the expression `^---\s*([\s\S]*?)\s*---` into a metadata block and a body. This is `Frontmatter.SplitFrontmatter` and `Frontmatter.ParseFrontmatter`. The split is proved equal to the match a backtracking regular-expression engine reports (`Frontmatter.RegexMatch` and `Frontmatter.FirstMatch`).
- `processMarkdownFile`: each record gets its `category` and `slug` from its path below `content`. This is `Content.ProcessMarkdownFile`.
- The collection pass of `buildSite`:
  - The author loop fills `authorsDataMap`, keyed by file base name.
  - The content loop skips `content/authors/`. It sorts the other records into `allPosts` and `allPages`, and links each post to the author its `author` field slugifies to.
  - This pass is the class `Graph.ContentGraph`. It holds the map (key order and entries) and the two arrays, and its loops are proved against the pure functions of module `Collector` (`LoadAuthorFiles`, `SetAll`, `Collect`, `Posts`, `Pages`, `LinkAll`).
- `generateSitemap`: the method `Sitemap.GenerateSitemap` builds the XML with two loops. It is proved equal to `Sitemap.SitemapXml`. A reader `Sitemap.ParseSitemap` reads the document back, so the properties about its entries are stated over the list of locations.

`Build.BuildSite` ties these parts together in the order `buildSite` runs them.

Files:

| file | contents |
|---|---|
| `options.dfy` | `Option` |
| `seqs.dfy` | order-keeping filter and concatenation |
| `text.dfy` | JavaScript white space, `trim`, prefix tests, `join` |
| `slug.dfy` | `slugify` |
| `frontmatter.dfy` | `parseFrontmatter` |
| `content.dfy` | `processMarkdownFile` and path helpers |
| `collector.dfy` | the collection pass as functions |
| `graph.dfy` | the collection pass as a class |
| `sitemap.dfy` | `generateSitemap` |
| `build.dfy` | `buildSite` |

Some choices in the model:

- **Foreign calls are parameters.** `yaml.load` is a function-typed parameter, `load: string -> Metadata`. `Metadata` keeps only the optional string fields `type` (called `kind` here) and `author`. `md.render` is the parameter `render: string -> string`.
- **The site URL is a parameter.** The content root is the literal `content` that the globs use.
- **Paths are segment sequences.** A path is a sequence of names joined with `/`, as `glob` returns it.
- **The prefix test stays textual.** The test `startsWith('content/authors/')` is kept on the joined string. `Content.AuthorPathBySegments` proves it is the same as the second segment being `authors`.
- **A throw is `None`.** A thrown "Invalid or missing frontmatter" is `None` (or `ok == false`). The state left behind is the part processed before the throw.
- **The date sort is a parameter.** It is `sortByDate`, and `Build.BuildSitemapCount` assumes only that it is a permutation. The sitemap receives the sorted `allPosts`, because line 149 sorts that array in place before line 187 passes it on.
- **The closing delimiter may sit mid-line.** The closing `---` is the first `---` starting at index 3 or later, and it need not stand on its own line: `---a: b---rest` parses. This follows the regular expression in the code, not the "delimiter on its own line" convention described for the format.

## Model

| member | source | states |
|---|---|---|
| Text.TrimEmptyIffAllSpace | build.js:42 | `trim` returns the empty string exactly when the input is all white space |
| Text.TrimIsSlice | build.js:42 | the trimmed string is a contiguous slice of the input, with only white space removed on either side |
| Text.TrimByRuns | build.js:29-30 | trimming both ends at once equals dropping the leading run, then the trailing run |
| Slug.ToLowerEffect | build.js:25 | `toLowerCase` keeps the length, lowers A-Z, and leaves every other character as it is |
| Slug.HyphenateSpacesEffect | build.js:26 | the characters of the output: no white space is left, and every character is a hyphen or came from the input |
| Slug.HyphenateSpacesAppend | build.js:26 | cutting the input after a character that is not white space cuts the output at the same place |
| Slug.HyphenateSpacesRun | build.js:26 | each maximal run of white space becomes exactly one `-`, and the text on either side of it is rewritten on its own |
| Slug.HyphenateSpacesKeeps | build.js:26 | text without white space comes out unchanged, every character in its place; with `HyphenateSpacesRun` this fixes the output of every input |
| Slug.KeepWordCharsEffect | build.js:27 | the characters of the output: a character survives exactly when it is in the input and is a word character or a hyphen |
| Slug.KeepWordCharsIsFilter | build.js:27 | the removal is the order-keeping filter of `[\w-]`: the kept characters stay, each as often as before and in the same order |
| Slug.CollapseHyphensEffect | build.js:28 | the characters of the output: no `--`, the same set of characters, and the same first character |
| Slug.CollapseHyphensAppend | build.js:28 | cutting the input after a character that is not a hyphen cuts the output at the same place |
| Slug.CollapseHyphensRun | build.js:28 | each maximal run of hyphens becomes exactly one `-`, and the text on either side of it is rewritten on its own |
| Slug.CollapseHyphensKeeps | build.js:28 | text without `--` comes out unchanged; with `CollapseHyphensRun` this fixes the output of every input |
| Slug.SlugifyByStages | build.js:29-30 | the final trim is the two separate `replace` calls of the source: leading hyphens, then trailing ones |
| Slug.SlugifyIsSlug | build.js:23-31 | every result contains only `[a-z0-9_-]`, never starts or ends with `-`, and never contains `--` |
| Slug.SlugIsFixpoint | build.js:23-31 | a string already in slug shape is returned unchanged |
| Slug.SlugifyIdempotent | build.js:23-31 | `slugify(slugify(x)) == slugify(x)` |
| Slug.SlugifyFixedIff | build.js:23-31 | `slugify(x) == x` exactly when `x` is in slug shape |
| Slug.SlugifyJaneDoe | build.js:23-31 | the display name `Jane Doe` slugifies to `jane-doe`, the base name of its author file |
| Frontmatter.FindDelimiterIsFirst | build.js:34 | the delimiter search returns the first `---` at or after the start index, and finds one whenever one exists |
| Frontmatter.SplitFrontmatter | build.js:34-42 | on success, the body has no white space at either end |
| Frontmatter.ParseFrontmatter | build.js:33-48 | succeeds exactly when the split succeeds; the metadata is `load` of the block; the body is the split's body, everything after the closing `---`, trimmed |
| Frontmatter.ParseFailsExactly | build.js:35-39 | parsing fails exactly when the input does not start with `---` or no `---` starts at index 3 or later |
| Frontmatter.SplitIsFirstMatch | build.js:34-42 | the split fails exactly when the regular expression has no match; otherwise the block is the group of the match a backtracking engine reports (greedy `\s*`, lazy group), and the body is the trimmed rest |
| Frontmatter.GroupBounds | build.js:34 | for a closing delimiter at `k`, the whitespace-trimmed text between the delimiters is a group that satisfies the regular expression |
| Frontmatter.TrimmedGroupIsFirst | build.js:34 | a match whose group is trimmed and which closes at the first delimiter is the one the engine reports |
| Content.Basename | build.js:57 | `path.basename(name, '.md')` drops the extension exactly when the name ends with it and is longer than it |
| Content.ProcessMarkdownFile | build.js:50-59 | fails exactly when the frontmatter does not parse; `category` is empty exactly for a file directly under `content`, and is otherwise the `/`-joined directories between `content` and the file; `slug` is the base name without `.md`; the path, metadata and rendered body are carried over |
| Content.ItemPathIsRelativePath | build.js:73 | a record's item path (`category/slug`, or `slug`) is its path relative to `content` with `.md` removed, the same form used for the output directory at line 140 |
| Content.AuthorPathBySegments | build.js:123 | the textual prefix test `content/authors/` holds exactly for paths whose second segment is `authors` |
| Collector.RunSteps | build.js:122-147 | a loop whose body may throw yields, for each index it reached, that element's value, and it stops at the first element that throws |
| Collector.RunFromPrefix | build.js:104-115 | a loop that has yielded a prefix of the run has produced the whole run when it reaches the end, or when the next step throws |
| Collector.AuthorSlug | build.js:129 | a key exists exactly when `author` is a non-empty string, and the key is `slugify(author)` |
| Collector.LinksToSlugName | build.js:129-135 | for a registered key already in slug shape, a post links to it exactly when its `author` slugifies to that key |
| Collector.PostsAndPagesPartition | build.js:131-134 | together, posts and pages hold each record exactly as often as the record list does; pages are exactly the records of type `page`; no page is ever linked to an author |
| Collector.CollectSnoc | build.js:131-134 | one more record goes to the end of the pages if it is a page, and to the end of the posts otherwise |
| Collector.LinkedToOneAuthor | build.js:135-136 | a post is in at most one author's list, the one `slugify(author)` names |
| Collector.ContentFilesAt | build.js:122-123 | the content files among the first `i` discovered files grow by one exactly when file `i` is not an author profile |
| Collector.ContentLoopSkip | build.js:123 | an author profile moves the content loop on without producing a record |
| Collector.ContentLoopYield | build.js:126-127 | a content file with frontmatter adds its record to those collected, in discovery order |
| Collector.ContentLoopFail | build.js:126-127 | a content file without frontmatter ends the collection, failed, with the records gathered so far |
| Collector.ContentLoopEnd | build.js:122-147 | after every file, the collected records are the whole run |
| Collector.AuthorFromFile | build.js:105-114 | an author file yields an entry exactly when its frontmatter parses; the entry's key is the file's base name, its profile is the parsed metadata, its content is the rendered body, and its `posts` list is empty |
| Collector.SetKeepsWellFormed | build.js:109 | `Map.set` keeps the key list and entries in agreement, without repeated keys, with each author stored under its own slug |
| Collector.SetKeepsLinks | build.js:109-114 | setting an author with an empty `posts` list keeps every existing link valid |
| Collector.LinkEffect | build.js:131-137 | linking one record keeps the keys and their order; it appends the record to exactly the list of the author it names, if it is a post and that key is registered, and leaves the map unchanged otherwise |
| Collector.LinkAllEffect | build.js:122-147 | after the content loop every author keeps its key and its place, and its list has gained exactly the posts naming it, in discovery order |
| Collector.LinkAllEntry | build.js:135-136 | the list of one registered author after the loop is its old list followed by the posts naming it |
| Collector.NewPostKeepsLinks | build.js:134 | pushing a post onto `allPosts` keeps every author link valid |
| Collector.PushKeepsWellFormed | build.js:136 | pushing onto an author's list keeps the map well formed |
| Collector.PushKeepsLinks | build.js:135-136 | pushing a post onto the list of the author it names keeps every link valid |
| Collector.SetAllDistinct | build.js:104-115 | registering authors with distinct keys gives one entry per author, keyed by its slug, in registration order |
| Collector.RegistryFromAuthorFiles | build.js:101-115 | the map built from files with distinct base names has one key per file, in glob order, equal to the file's base name; each entry sits under its own key with an empty `posts` list |
| Graph.ContentGraph.constructor | build.js:102-120 | an empty map and two empty arrays, satisfying the invariant |
| Graph.ContentGraph.RegisterAuthorFile | build.js:105-114 | the map gains or replaces the file's entry exactly when its frontmatter parses, and is unchanged otherwise; the invariant is kept |
| Graph.ContentGraph.LoadAuthors | build.js:104-115 | `ok` is false exactly when some author file has no frontmatter (line 38); the map is the run of `Map.set` over the authors parsed before that point; the arrays are unchanged; the invariant is kept |
| Graph.ContentGraph.AddRecord | build.js:129-138 | a page goes to the end of `allPages`; a post goes to the end of `allPosts` and onto the list of its author when that key exists; the invariant (partition, well-formed map, valid links) is kept |
| Graph.ContentGraph.AddCollected | build.js:129-138 | adding a record keeps the arrays and map equal to the initial state extended by the collected records |
| Graph.ContentGraph.CollectContent | build.js:122-147 | `ok` is false exactly when a content file has no frontmatter (line 38); `allPosts` and `allPages` gain the posts and the pages of the records collected, in discovery order; the map gains exactly the links of those posts; the invariant is kept |
| Sitemap.ItemUrlsAt | build.js:72-76 | the item locations are, index by index, `SITE_URL/category/slug/` of each item |
| Sitemap.AuthorUrlsAt | build.js:79-82 | the author locations are, index by index, `SITE_URL/authors/slug/` of each author |
| Sitemap.EntriesSnoc | build.js:75 | appending one location to the list appends one `<url><loc>` entry to the text |
| Sitemap.GenerateSitemap | build.js:61-86 | the document is the header, the entries for the root, the authors index when there are authors, every post, every page and every author, in that order, then the closing tag |
| Sitemap.ParseEntriesRoundTrip | build.js:66-82 | reading back the entries of locations without `<` gives exactly those locations |
| Sitemap.ParseOneEntry | build.js:75 | one entry is read back as its location, ahead of whatever follows it |
| Sitemap.LocsFreeOfMarkup | build.js:66-82 | the locations hold no `<` when the site URL, categories and slugs hold none |
| Sitemap.SitemapLists | build.js:61-86 | the document reads back as its locations, and there are exactly `1 + (authors > 0 ? 1 : 0) + posts + pages + authors` of them |
| Sitemap.SitemapOrder | build.js:65-82 | the root comes first, then the authors index if there are authors, then the posts, the pages and the authors, each group in the order given |
| Sitemap.SitemapLocShape | build.js:74-80 | every location starts with `SITE_URL + "/"` and ends with `/` |
| Build.Values | build.js:186 | `Array.from(map.values())` lists one author per key, in key insertion order |
| Build.BuildSite | build.js:101-187 | the build fails exactly when an author file or a content file has no frontmatter (line 38); otherwise posts are the date-sorted posts, pages are the pages, the map is the author registry linked with the posts, the author list is its values in insertion order, and the sitemap is the document for these |
| Build.BuildSitemapCount | build.js:149-187 | when the date sort is a permutation, a finished build's sitemap lists `1 + (authors > 0 ? 1 : 0) + records + authors` entries |

## Left out

- File system and process plumbing are left out: `fse.emptyDir`, `fs.readFile`/`writeFile`, `ensureDir`, the asset copy and console logging. The discovered files are given as sequences of paths with their text. The output directory of line 140 appears only as `Content.ItemPathIsRelativePath`.
- `glob` is not modelled. The caller supplies its results. Its guarantees are preconditions:
  - every path has the `content` root and proper segment names (`Collector.AllContentPaths`);
  - author files have non-empty paths;
  - author files have distinct base names, as one directory yields them (in `Collector.RegistryFromAuthorFiles`).
- `yaml.load` is not modelled. It is the parameter `load`, and only the `type` and `author` fields are kept, as optional strings.
- An empty block would make `yaml.load` return `undefined`, and line 129 would then throw on `metadata.author`. That throw is not modelled: `load` always returns a record.
- A non-string `author` value (a number, a list) is not modelled either.
- `md.render` and the Handlebars templates (lines 96-99, 144, 150, 164, 174) are not modelled. Rendering is the parameter `render`, and template output is not modelled.
- The date sorts of lines 149 and 172 are not modelled. They parse dates with `new Date` and order is unspecified for missing dates. The post sort is the parameter `sortByDate`, assumed in `Build.BuildSitemapCount` to be a permutation. The in-place sort of each author's list at line 172 only reorders lists that the sitemap does not read, so it is not modelled.
- The author listing of lines 155-160 feeds only a template, so it is not modelled beyond `Build.Values`.
- The environment configuration of lines 15-18 is not modelled. `SITE_URL` is a parameter, and the content root is the literal `content` the globs use.
- Full Unicode `toLowerCase` is not modelled. `Slug.ToLower` lowers A-Z only. `\w` is ASCII, as in a regular expression without the `u` flag.
- Node `path` normalisation is not modelled: `..`, `.` and platform separators are excluded by `Content.IsName`. `Content.IsName` also excludes names starting with `.`, which `glob` does not return by default (`dot: false`). On such names `Content.Basename` and Node differ: `path.basename('.md', '.md')` is empty.
- Sitemap.SitemapLists: the read-back and the entry count require that the site URL, categories and slugs contain no `<`. The source writes locations into the XML without escaping, so a `<` in them would make the document list other entries.
- Build.BuildSitemapCount: states the count only under two assumptions. The first is that `sortByDate` is a permutation, since the comparator of line 149 is not modelled. The second is `Sitemap.FreeOfMarkup`: the site URL, categories and slugs contain no `<`, as for `Sitemap.SitemapLists`.
- Graph.ContentGraph.LoadAuthors: the only throw it models is the missing frontmatter of line 38. `load` is total, so exceptions that `yaml.load` raises for malformed YAML (line 45) are not modelled.
- Graph.ContentGraph.CollectContent: like `LoadAuthors`, it models only the missing-frontmatter throw of line 38. It does not model `yaml.load`'s own exceptions (line 45) or the throw at line 129 after an empty block.
- Build.BuildSite: its failure condition covers only the missing frontmatter of line 38. It does not model the exceptions `yaml.load` raises for malformed YAML (line 45). It also does not model the throws that follow an empty block, whose metadata is `undefined`: `fileData.metadata.author` at line 129, and `author.profile.name` at line 156 (after the content loop, before the site map). Where the source aborts for these reasons, `BuildSite` returns a site.
- The asynchronous structure is not modelled. The build awaits each step in turn, so there is no concurrency to model.
