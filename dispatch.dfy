/**
 * Request dispatch (`on_get`): resolve the request path under the served
 * directory, then answer with a directory listing, the raw text, the rendered
 * file, the raw bytes, or a "not found" rejection.
 */
module Dispatch {
  import opened Wrappers
  import opened Utf8
  import opened Paths
  import opened NameOrder
  import opened Records
  import opened Listing
  import opened Render

  /** The filesystem path a request path names: the served directory, pushed with the request path minus every leading `/`. */
  function ServedPath(dir: string, full: string): string {
    Push(dir, TrimStartMatches(full, '/'))
  }

  /** The five outcomes of a request. */
  datatype Route = IndexPage | RawText | RenderedPage | RawBytes | Missing

  /** Which outcome a request at filesystem path `path` takes. */
  function RouteOf(fs: FileSystem, path: string, raw: bool): Route {
    if IsDir(fs, path) then IndexPage
    else match ReadFile(fs, path)
      case None => Missing
      case Some(bytes) =>
        if Decode(bytes).None? then RawBytes
        else if raw then RawText
        else RenderedPage
  }

  /** The rendered index template, or `RenderFail`. */
  function IndexReply(tools: Tools, c: IndexContent): Response {
    match tools.renderIndex(c)
    case Some(page) => Ok(Html(page))
    case None => Err(Custom(RenderFail))
  }

  /** The answer for a path that is not a directory, given what reading it gave. */
  function FileResponse(tools: Tools, path: string, bytes: Option<seq<byte>>, raw: bool, url: string): Response {
    match bytes
    case None => Err(NotFound)
    case Some(b) =>
      match Decode(b)
      case None => Ok(Bytes(b))
      case Some(text) => if raw then Ok(Text(text)) else RenderedFile(tools, path, text, url)
  }

  /** `on_get`: one request at `full` (the URL path), `raw` from the query string. */
  method OnGet(tools: Tools, fs: FileSystem, full: string, raw: bool) returns (r: Response)
    ensures var path := ServedPath(tools.dir, full);
      IsDir(fs, path) ==>
        exists c :: IsIndexFor(c, tools, fs, path, fs[path].entries, full) && r == IndexReply(tools, c)
    ensures var path := ServedPath(tools.dir, full);
      !IsDir(fs, path) ==> r == FileResponse(tools, path, ReadFile(fs, path), raw, TrimEndMatches(full, '/'))
    ensures ReplyFits(RouteOf(fs, ServedPath(tools.dir, full), raw), r)
  {
    var path := Push(tools.dir, TrimStartMatches(full, '/'));
    if IsDir(fs, path) {
      var content := BuildIndex(tools, fs, path, fs[path].entries, full);
      match tools.renderIndex(content) {
        case Some(rendered) => r := Ok(Html(rendered));
        case None => r := Err(Custom(RenderFail));
      }
      assert IsIndexFor(content, tools, fs, path, fs[path].entries, full) && r == IndexReply(tools, content);
      IndexRoute(tools, content);
    } else {
      var bytes := ReadFile(fs, path);
      if bytes.Some? {
        match Decode(bytes.value)
        case Some(fileContent) =>
          if raw {
            r := Ok(Text(fileContent));
          } else {
            var url := TrimEndMatches(full, '/');
            r := RenderFileToReply(tools, path, fileContent, url);
          }
        case None => r := Ok(Bytes(bytes.value));
      } else {
        r := Err(NotFound);
      }
      FileRoute(tools, fs, path, raw, TrimEndMatches(full, '/'));
    }
  }

  /**
   * A reply fits a route: "not found" exactly for a missing path, bytes
   * exactly for non-UTF-8 content, text exactly for a raw UTF-8 file, and an
   * HTML page or a rendering failure exactly for a directory or a rendered
   * file, where a directory never fails in the Markdown formatter.
   */
  predicate ReplyFits(route: Route, r: Response) {
    && (r == Err(NotFound) <==> route == Missing)
    && (r.Ok? && r.value.Bytes? <==> route == RawBytes)
    && (r.Ok? && r.value.Text? <==> route == RawText)
    && (route == IndexPage || route == RenderedPage <==>
          r == Err(Custom(RenderFail)) || r == Err(Custom(MarkdownFail)) || (r.Ok? && r.value.Html?))
    && (route == IndexPage ==> r != Err(Custom(MarkdownFail)))
  }

  /** The index reply is a page or `RenderFail`, which is what the index route allows. */
  lemma IndexRoute(tools: Tools, c: IndexContent)
    ensures ReplyFits(IndexPage, IndexReply(tools, c))
    ensures IndexReply(tools, c) == Err(Custom(RenderFail)) || (IndexReply(tools, c).Ok? && IndexReply(tools, c).value.Html?)
  {
  }

  /** The answer for a path that is not a directory fits the route that path takes. */
  lemma FileRoute(tools: Tools, fs: FileSystem, path: string, raw: bool, url: string)
    requires !IsDir(fs, path)
    ensures ReplyFits(RouteOf(fs, path, raw), FileResponse(tools, path, ReadFile(fs, path), raw, url))
  {
    var bytes := ReadFile(fs, path);
    if bytes.Some? && Decode(bytes.value).Some? && !raw {
      RenderedFileIsPageOrFailure(tools, path, Decode(bytes.value).value, url);
    }
  }

  /**
   * Removing every leading `/` keeps the request from naming an absolute
   * path, so it can never replace the served directory: the served path
   * always starts with it.
   */
  lemma ServedPathStartsWithDir(dir: string, full: string)
    ensures !IsAbsolute(TrimStartMatches(full, '/'))
    ensures |ServedPath(dir, full)| >= |dir| && ServedPath(dir, full)[..|dir|] == dir
  {
    var rest := TrimStartMatches(full, '/');
    assert rest == [] || rest[0] != '/';
  }

  /**
   * `..` is left in place: nothing confines the served path to the served
   * directory, so `//../x` under `srv` names `srv/../x`, and under `/` names
   * `/../x`.
   */
  lemma DotDotIsKept(dir: string, rest: string)
    ensures ServedPath(dir, "//../" + rest) == Push(dir, "../" + rest)
    ensures dir != [] && dir[|dir| - 1] != '/' ==> ServedPath(dir, "//../" + rest) == dir + "/../" + rest
    ensures dir == [] || dir[|dir| - 1] == '/' ==> ServedPath(dir, "//../" + rest) == dir + "../" + rest
  {
    var tail := "../" + rest;
    assert tail[0] == '.';
    assert TrimStartMatches(tail, '/') == tail;
    LeadingSlash(tail);
    LeadingSlash("/" + tail);
    assert "//../" + rest == "/" + ("/" + tail);
    assert dir + "/" + tail == dir + "/../" + rest;
  }

  lemma LeadingSlash(s: string)
    ensures TrimStartMatches("/" + s, '/') == TrimStartMatches(s, '/')
  {
    assert ("/" + s)[1..] == s;
  }

  /** When the request path names a file, the served file's extension is that of the request path's last component. */
  lemma RequestExtension(dir: string, full: string)
    requires FileName(TrimStartMatches(full, '/')).Some?
    ensures Extension(ServedPath(dir, full)) == Extension(TrimStartMatches(full, '/'))
  {
    FileNameOfPush(dir, TrimStartMatches(full, '/'));
  }

  /** With `raw=true` a text file's content comes back exactly as stored. */
  lemma RawTextIsVerbatim(tools: Tools, path: string, bytes: seq<byte>, url: string)
    requires Decode(bytes).Some?
    ensures FileResponse(tools, path, Some(bytes), true, url).Ok?
    ensures FileResponse(tools, path, Some(bytes), true, url).value.Text?
    ensures Encode(FileResponse(tools, path, Some(bytes), true, url).value.text) == bytes
  {
    EncodeDecode(bytes);
  }

  /** Content that is not UTF-8 comes back as the original bytes, whatever `raw` says. */
  lemma BinaryIsUnchanged(tools: Tools, path: string, bytes: seq<byte>, raw: bool, url: string)
    requires Decode(bytes).None?
    ensures FileResponse(tools, path, Some(bytes), raw, url) == Ok(Bytes(bytes))
  {
  }

  /** The request `/` names the served directory `.` as `./`. */
  lemma RootRequestPath()
    ensures ServedPath(".", "/") == "./"
    ensures TrimEndMatches("/", '/') == ""
  {
    var root: string := "/";
    assert root[0] == '/' && root[1..] == "";
    assert TrimStartMatches(root, '/') == "";
    assert root[..0] == "";
  }

  lemma RootTagged(fs: FileSystem)
    requires "./docs" in fs && fs["./docs"].Directory?
    requires "./notes.txt" in fs && fs["./notes.txt"].File?
    ensures Tagged(fs, "./", ["notes.txt", "docs"]) == [FileEntry("notes.txt", false), FileEntry("docs/", true)]
    ensures Tagged(fs, "./", ["docs", "notes.txt"]) == [FileEntry("docs/", true), FileEntry("notes.txt", false)]
  {
    var d: string, n: string := "docs", "notes.txt";
    assert d[0] == 'd' && n[0] == 'n';
    assert Push("./", d) == "./docs";
    assert Push("./", n) == "./notes.txt";
    assert d + "/" == "docs/";
    var t := Tagged(fs, "./", [n, d]);
    assert t[0] == FileEntry(n, false);
    assert t[1] == FileEntry(d + "/", true);
    assert t == [FileEntry("notes.txt", false), FileEntry("docs/", true)];
    var u := Tagged(fs, "./", [d, n]);
    assert u[0] == FileEntry(d + "/", true);
    assert u[1] == FileEntry(n, false);
    assert u == [FileEntry("docs/", true), FileEntry("notes.txt", false)];
  }

  lemma ExpectedSorted()
    ensures SortedByName([FileEntry("docs/", true), FileEntry("notes.txt", false)])
    ensures DistinctNames([FileEntry("docs/", true), FileEntry("notes.txt", false)])
  {
    OrdinalExamples();
    ExpectedDistinct();
  }

  lemma ExpectedDistinct()
    ensures DistinctNames([FileEntry("docs/", true), FileEntry("notes.txt", false)])
  {
    var d: string, n: string := "docs/", "notes.txt";
    assert d[0] != n[0];
  }

  /** The one sorted order of `notes.txt` and `docs/`. */
  lemma OnlySortedOrder(s: seq<FileEntry>)
    requires SortedByName(s)
    requires multiset(s) == multiset([FileEntry("notes.txt", false), FileEntry("docs/", true)])
    ensures s == [FileEntry("docs/", true), FileEntry("notes.txt", false)]
  {
    var expected := [FileEntry("docs/", true), FileEntry("notes.txt", false)];
    assert multiset(expected) == multiset([FileEntry("notes.txt", false), FileEntry("docs/", true)]);
    ExpectedSorted();
    SortedPermutationUnique(expected, s);
  }

  /**
   * The request `/` to a server of `.` lists `./`; when it holds a directory
   * `docs` and a file `notes.txt`, enumerated in either order, `docs/` comes
   * first, and the root has no parent link.
   */
  lemma RootListingExample(tools: Tools, fs: FileSystem, names: seq<string>, c: IndexContent)
    requires "./docs" in fs && fs["./docs"].Directory?
    requires "./notes.txt" in fs && fs["./notes.txt"].File?
    requires names == ["notes.txt", "docs"] || names == ["docs", "notes.txt"]
    requires IsIndexFor(c, tools, fs, "./", names, "/")
    ensures c.files == [FileEntry("docs/", true), FileEntry("notes.txt", false)]
    ensures !c.has_parent && c.current_dir == ""
  {
    RootRequestPath();
    RootEntries(fs, names);
    OnlySortedOrder(c.files);
  }

  /** Either enumeration order yields the same entries. */
  lemma RootEntries(fs: FileSystem, names: seq<string>)
    requires "./docs" in fs && fs["./docs"].Directory?
    requires "./notes.txt" in fs && fs["./notes.txt"].File?
    requires names == ["notes.txt", "docs"] || names == ["docs", "notes.txt"]
    ensures multiset(Tagged(fs, "./", names)) == multiset([FileEntry("notes.txt", false), FileEntry("docs/", true)])
  {
    RootTagged(fs);
    var docs: FileEntry, notes: FileEntry := FileEntry("docs/", true), FileEntry("notes.txt", false);
    assert multiset([docs, notes]) == multiset([notes, docs]);
  }
}
