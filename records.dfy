/**
 * The records the server hands to its templates, its replies and rejections,
 * the shared tools (everything it calls into but does not implement), and the
 * filesystem it serves.
 */
module Records {
  import opened Wrappers
  import opened Utf8
  import opened Highlight
  import opened Markdown

  /** One line of a directory listing. */
  datatype FileEntry = FileEntry(name: string, is_dir: bool)

  /** What the index template renders. */
  datatype IndexContent = IndexContent(
    files: seq<FileEntry>,
    full_current_dir: string,
    current_dir: string,
    has_parent: bool)

  /** What the file template renders. */
  datatype FileContent = FileContent(
    content: string,
    unsafe_content: bool,
    file_name: string,
    raw_url: string)

  datatype UltiserveReject = RenderFail | MarkdownFail

  /** warp's rejections: `reject::reject()` (not found) or a custom one. */
  datatype Rejection = NotFound | Custom(reason: UltiserveReject)

  /** The body of a reply and, through its kind, its content type. */
  datatype Reply =
    | Html(html: string)       // `reply::html`: text/html
    | Text(text: string)       // a `String` reply: text/plain
    | Bytes(data: seq<byte>)   // a `Vec<u8>` reply: application/octet-stream

  type Response = Result<Reply, Rejection>

  /** The placeholder shown when a path cannot be canonicalized. */
  const Unknown: string := "<unknown>"

  /**
   * The shared, read-only tools: the served directory, the highlighter, the
   * two templates (None when serialization or rendering fails), comrak's
   * parser and HTML formatter (None when formatting fails), and path
   * canonicalization followed by `to_string_lossy` (None when it fails).
   */
  datatype Tools = Tools(
    dir: string,
    highlighter: Highlighter,
    renderIndex: IndexContent -> Option<string>,
    renderFile: FileContent -> Option<string>,
    parseDocument: string -> Document,
    formatHtml: Node -> Option<seq<byte>>,
    canonicalize: string -> Option<string>)

  /** `path.canonicalize()` shown as a string, `<unknown>` when it fails. */
  function CanonicalName(tools: Tools, path: string): (r: string)
    ensures tools.canonicalize(path).Some? ==> r == tools.canonicalize(path).value
    ensures tools.canonicalize(path).None? ==> r == Unknown
  {
    tools.canonicalize(path).GetOr(Unknown)
  }

  /** What a path names: a directory with the entries its enumeration yields, or a file's bytes. */
  datatype FsNode = Directory(entries: seq<string>) | File(bytes: seq<byte>)

  /** The filesystem under the served directory; a path it lacks cannot be read. */
  type FileSystem = map<string, FsNode>

  /** `Path::is_dir`, and whether `read_dir` succeeds. */
  predicate IsDir(fs: FileSystem, path: string) {
    path in fs && fs[path].Directory?
  }

  /** `tokio::fs::read`: the file's bytes, or None when it cannot be read. */
  function ReadFile(fs: FileSystem, path: string): (r: Option<seq<byte>>)
    ensures r.Some? <==> path in fs && fs[path].File?
    ensures r.Some? ==> r.value == fs[path].bytes
  {
    if path in fs && fs[path].File? then Some(fs[path].bytes) else None
  }
}
