# ultiserve: a Dafny model of the request-handling core

ultiserve is a small HTTP file server. For each `GET` it maps the URL path
onto the served directory and answers with one of five outcomes:
- a directory listing page;
- the file's text as it is (`?raw=true`);
- a rendered file page;
- the file's raw bytes, when the file is not UTF-8;
- a "not found" rejection.

Rendering depends on the extension. `html`/`html5` files are sent unchanged.
Markdown is parsed to a tree, and fenced code blocks are replaced in place by
syntax-highlighted HTML blocks before serialization. Any other file is
highlighted when a grammar exists for its extension, and shown as plain text
otherwise.

The model covers this core:
- the dispatch of `on_get`;
- the enumeration-and-sort loop that builds a listing;
- the extension classification of `render_file_to_reply`;
- the recursive in-place walk over the Markdown arena;
- the records handed to the templates.

Everything the server only calls into is a parameter, bundled in `Records.Tools`:
- the served directory;
- the highlighter (grammar lookup and HTML generation);
- the two templates;
- comrak's parser and HTML formatter;
- path canonicalization.

The filesystem is a `map` from path strings to `Directory(entries)` or `File(bytes)`.
`read_dir` succeeds on a directory, `read` on a file, and every other path is unreadable.

Files and modules:
- `wrappers.dfy` (`Wrappers`): `Option` and `Result`.
- `utf8.dfy` (`Utf8`): UTF-8 per RFC 3629. This stands for `String::from_utf8` and for turning a `String` into bytes. Decoding and encoding are proved inverse.
- `paths.dfy` (`Paths`): `trim_start_matches`, `trim_end_matches`, and the Unix behaviour of `PathBuf::push`/`Path::join`, `Path::file_name` and `Path::extension`.
- `name_order.dfy` (`NameOrder`): the byte-wise order of `String::cmp`, proved total, transitive and antisymmetric.
- `highlight.dfy` (`Highlight`): `syntax_highlight_html` over the highlighter's two oracles.
- `markdown.dfy` (`Markdown`): node values, the document tree, and the closure as `Replacement`/`Step`. `Rewrite` is the functional meaning of the walk. The `Arena` class holds node values that `Visit` and the recursive `IterNodes` overwrite in place.
- `records.dfy` (`Records`): `FileEntry`, `IndexContent`, `FileContent`, `UltiserveReject`, rejections, replies, the tools and the filesystem.
- `listing.dfy` (`Listing`): the tagging loop, an in-place insertion sort standing for `sort_by`, and the index record.
- `render.dfy` (`Render`): `create_file_reply`, the extension match, `render_markdown_to_reply` and `render_file_to_reply`. Each method is proved equal to a specification function.
- `dispatch.dfy` (`Dispatch`): `on_get` and the lemmas about its outcomes.

In four places the code does something a reader might not expect; the model follows the code:
- All leading `/` are removed from the request path, not a single one.
- Nothing confines the served path to the served directory. `..` passes through unchanged, and `Dispatch.DotDotIsKept` shows it.
- `has_parent` compares the raw request path with `"/"`, so `//` has a parent link.
- `html`/`html5` files are not marked pre-escaped and never go through the file template. The reply is the file's text itself.

## Model

| member | source | states |
|---|---|---|
| `Utf8.EncodeDecode` | src/main.rs:199-215 | a byte vector accepted as UTF-8 re-encodes to exactly those bytes: decoding loses and normalises nothing |
| `Utf8.DecodeEncode` | src/main.rs:318-319 | the bytes stored for a highlighted string decode back to that string |
| `Utf8.EncodeInjective` | src/main.rs:172 | two names with equal UTF-8 bytes are the same name |
| `Paths.TrimStartMatches` | src/main.rs:147 | the result is a suffix of the input that does not start with the character, and everything removed was that character |
| `Paths.TrimEndMatches` | src/main.rs:182 | the result is a prefix of the input that does not end with the character, and everything removed was that character |
| `Paths.Push` | src/main.rs:145-147 | an absolute path replaces the base. A relative one is appended after the base, with exactly one `/` between them when the base is non-empty and does not end in `/`, and nothing between them otherwise |
| `Paths.LastNormalSpec` | src/main.rs:232 | of the pieces between `/`s, the result is the last one that is neither empty nor `.`. It is None exactly when that piece is `..` or there is no such piece |
| `Paths.FileName` | src/main.rs:232 | the file name is the last `/`-separated piece of the path that is neither empty nor `.`; None when that piece is `..` or every piece is empty or `.`. A file name never contains `/` |
| `Paths.ExtensionOfName` | src/main.rs:232 | there is no extension exactly for `..` or for a name with no `.` after its first character; otherwise the extension is the dot-free text after the last `.`, with something before that dot |
| `Paths.FileNameOfPush` | src/main.rs:159 | pushing a relative path that names a file onto any base keeps its file name and its extension |
| `NameOrder.BytesLeTotal` | src/main.rs:172 | any two byte strings are comparable |
| `NameOrder.BytesLeTrans` | src/main.rs:172 | the byte order is transitive |
| `NameOrder.NameLeAntisymmetric` | src/main.rs:172 | names that compare equal both ways are the same name |
| `NameOrder.OrdinalExamples` | src/main.rs:171-172 | the order is ordinal: `docs/` before `notes.txt`, and `Zebra` before `apple` |
| `Records.CanonicalName` | src/main.rs:176-181 | the canonical path when canonicalization succeeds, `<unknown>` when it fails |
| `Records.ReadFile` | src/main.rs:197 | reading succeeds exactly on paths that hold a file, and then gives that file's bytes |
| `Highlight.SyntaxHighlightHtml` | src/main.rs:257-262 | HTML exactly when a grammar matches the token, and then the engine's output for the text |
| `Markdown.StepSpec` | src/main.rs:302-328 | a node changes exactly when it is a fenced code block whose info and literal are UTF-8 and whose info names a grammar. It then becomes an HTML block of default type whose literal decodes to the highlighter's output. Non-fenced and non-code nodes are unchanged, and a second pass changes nothing |
| `Markdown.RewriteAt` | src/main.rs:296-299 | the rewritten tree has the same positions (shape and child order), and the node at each position is the original node with the closure applied |
| `Markdown.RewriteIdempotent` | src/main.rs:302-328 | rewriting an already rewritten tree changes nothing |
| `Markdown.ViewAfterWalk` | src/main.rs:326-327 | once each node of the arena has been updated in place, the arena shows the rewritten tree |
| `Markdown.Arena.Visit` | src/main.rs:302-328 | the closure overwrites one node's value with its replacement, keeps it when there is none, and changes nothing else |
| `Markdown.Arena.IterNodes` | src/main.rs:292-300 | the walk visits the nodes in pre-order (node, then each child's subtree in order). Every node of the subtree gets the closure's value, and every other arena node is unchanged |
| `Markdown.Arena.WalkKids` | src/main.rs:296-299 | the loop over the children applies the walk to each child subtree in order. Their nodes get the closure's value, they are visited in sequence, and no other node changes |
| `Listing.SortByName` | src/main.rs:170-172 | the array ends sorted by name and is a permutation of what it held |
| `Listing.ListDirectory` | src/main.rs:151-172 | the entry list is sorted by name and is a permutation of the enumerated names. Each directory name gets `/` and `is_dir` set; each other name is unchanged with `is_dir` clear |
| `Listing.BuildIndex` | src/main.rs:174-184 | the index record holds the sorted, tagged entries; the canonical path or `<unknown>`; the request path without trailing `/`; and a parent link exactly when the request path is not `/` |
| `Listing.ListingEntries` | src/main.rs:155-167 | a listing has one entry per enumerated name, every entry comes from a name tagged as above, and every tagged name is listed |
| `Listing.SortedPermutationUnique` | src/main.rs:172 | two name-sorted permutations of a list with distinct names are equal |
| `Listing.ListingDetermined` | src/main.rs:151-184 | when the tagged names are distinct, the index record is fully determined |
| `Render.FileRecord` | src/main.rs:347-355 | the file template's record carries the content and flag it was given, the canonical path or `<unknown>`, and `url` followed by `?raw=true` |
| `Render.CreateFileReply` | src/main.rs:340-359 | an HTML page exactly when the file template renders the record, `RenderFail` otherwise |
| `Render.Classify` | src/main.rs:232-240 | `html`/`html5` are pages and `md`/`markdown` are Markdown (case-sensitive); everything else, including no extension, is source text |
| `Render.SourceBody` | src/main.rs:240-248 | marked unsafe exactly when there is an extension with a grammar, and then the body is the highlighted text; otherwise the body is the original text |
| `Render.RenderMarkdownToReply` | src/main.rs:265-337 | parsing, walking the arena in place and serializing gives the reply of the rewritten tree: `MarkdownFail` when formatting fails or gives non-UTF-8, otherwise the file template with the HTML marked unsafe |
| `Render.RenderFileToReply` | src/main.rs:226-253 | the reply is the one the extension's branch defines |
| `Render.HtmlPassthrough` | src/main.rs:235 | an `html`/`html5` file is answered with its own text, and the answer depends on no tool (no template) |
| `Render.MarkdownAlwaysUnsafe` | src/main.rs:336 | a Markdown file's HTML always reaches the template with `unsafe_content = true`, and a serialization failure gives `MarkdownFail` |
| `Render.SourceTextHighlighting` | src/main.rs:241-250 | with a grammar, the template gets the highlighter's output marked unsafe; with no grammar or no extension it gets the original text marked safe |
| `Render.MarkdownSerializesRewrittenTree` | src/main.rs:302-334 | the serializer gets a tree with the parsed shape in which exactly the eligible code blocks became HTML blocks, and the page content is exactly the bytes it produced |
| `Render.RenderedFileIsPageOrFailure` | src/main.rs:226-253 | rendering a file yields an HTML page or a custom rejection, never "not found" |
| `Dispatch.OnGet` | src/main.rs:138-223 | a directory gets its index page (or `RenderFail`). A missing or unreadable path gets "not found", and only then. Non-UTF-8 content comes back as its bytes whatever `raw` says. A UTF-8 file comes back as text with `raw` and rendered without it. Each request takes exactly one of the five routes |
| `Dispatch.IndexRoute` | src/main.rs:186-193 | the index reply is an HTML page or `RenderFail` and nothing else (never `MarkdownFail`), which is what the index route allows |
| `Dispatch.FileRoute` | src/main.rs:196-221 | for a path that is not a directory, the reply fits the route: "not found" exactly when it cannot be read, bytes exactly for non-UTF-8 content, text exactly for a raw UTF-8 file, and a page or rendering failure exactly for a rendered file |
| `Dispatch.ServedPathStartsWithDir` | src/main.rs:145-147 | after every leading `/` is removed, the request path is never absolute, so it never replaces the served directory: the served path always starts with the served directory |
| `Dispatch.DotDotIsKept` | src/main.rs:145-147 | for any served directory, a request path `//../x` is served from the directory pushed with `../x`. That is the directory, then `/../x`, or `../x` directly when the directory is empty or ends in `/`. So `..` survives and nothing confines the path |
| `Dispatch.RequestExtension` | src/main.rs:232 | when the request path names a file, the extension that decides rendering is the one in the request path's last component, whatever the served directory |
| `Dispatch.RawTextIsVerbatim` | src/main.rs:202-203 | with `raw=true` a UTF-8 file's reply is text whose encoding is exactly the file's bytes |
| `Dispatch.BinaryIsUnchanged` | src/main.rs:214-215 | content that is not UTF-8 is answered with the original bytes |
| `Dispatch.RootRequestPath` | src/main.rs:182 | the request `/` names `./` under `.` and has an empty display path |
| `Dispatch.RootListingExample` | src/main.rs:151-184 | a root holding a directory `docs` and a file `notes.txt` lists `docs/` first in either enumeration order, and shows no parent link |

## Left out

- warp's server, filters, query parsing and rejection plumbing, and the HTTP content types: network I/O. `raw` is a boolean parameter, and replies are `Html`, `Text` or `Bytes` values.
- tokio's `read_dir`/`next_entry`/`read` and `is_dir`: I/O, replaced by the filesystem map. A directory's entries are the names its enumeration yields before it stops. Entry names are already strings, so `to_string_lossy` on non-UTF-8 names is not modelled.
- The tera templates and `Context::from_serialize`: a foreign engine, modelled as oracles that may fail, giving `RenderFail`.
- syntect grammar lookup, HTML generation and theme loading: a foreign library, modelled as two oracles. A missing `Dracula` theme would panic; that is not modelled.
- comrak parsing, `format_html` and the option set: a foreign library. The parser gives a well-formed arena, and the formatter is an oracle on the tree that may fail, giving `MarkdownFail`. Code block fields other than `fenced`, `info` and `literal`, and HTML block fields other than the block type and literal, are not modelled.
- `iter_nodes` is generic over its closure. The model fixes the one closure the server passes.
- `canonicalize`/`to_string_lossy`: OS path resolution, modelled as an oracle with the `<unknown>` fallback.
- CLI parsing, logging, startup output and request timing (`on_get_timed`): bootstrap and console I/O.
- `Arc<Tools>` sharing and concurrent requests: concurrency, not logic. Each request is one call of `OnGet`.
- The `files` vector is a sequence that the loop appends to. It is copied into an array for the in-place sort, so Vec growth is not modelled.
- One predicate, `IsDir`, stands both for `read_dir` succeeding and for `is_dir()` on an entry, so a directory that can be seen but not listed (answered by the source with "not found" while its parent lists it as `name/`) is not modelled. The filesystem map is keyed by literal path strings, so `./docs` and `./docs/`, which the OS resolves to one directory, are unrelated keys.
- Dispatch.OnGet: the listing is stated as some name-sorted permutation of the tagged entries. When two entries share a name, their relative order is not stated. Rust's stable sort keeps enumeration order there. With distinct names the order is fully determined (`Listing.ListingDetermined`).
