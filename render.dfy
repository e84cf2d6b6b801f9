/**
 * Rendering a text file: classification by extension, the Markdown path
 * (parse, walk, serialize), highlighting, and the file template's record.
 */
module Render {
  import opened Wrappers
  import opened Utf8
  import opened Paths
  import opened Highlight
  import opened Markdown
  import opened Records

  /** The record `create_file_reply` gives the file template. */
  function FileRecord(tools: Tools, path: string, content: string, unsafeContent: bool, url: string): (r: FileContent)
    ensures r.content == content && r.unsafe_content == unsafeContent
    ensures r.raw_url == url + "?raw=true"
    ensures tools.canonicalize(path).None? ==> r.file_name == Unknown
    ensures tools.canonicalize(path).Some? ==> r.file_name == tools.canonicalize(path).value
  {
    FileContent(content, unsafeContent, CanonicalName(tools, path), url + "?raw=true")
  }

  /** `create_file_reply`: the rendered file template, or `RenderFail`. */
  function CreateFileReply(tools: Tools, path: string, content: string, unsafeContent: bool, url: string): (r: Response)
    ensures r.Ok? <==> tools.renderFile(FileRecord(tools, path, content, unsafeContent, url)).Some?
    ensures r.Ok? ==> r.value == Html(tools.renderFile(FileRecord(tools, path, content, unsafeContent, url)).value)
    ensures r.Err? ==> r.error == Custom(RenderFail)
  {
    match tools.renderFile(FileRecord(tools, path, content, unsafeContent, url))
    case Some(page) => Ok(Html(page))
    case None => Err(Custom(RenderFail))
  }

  /** The three ways `render_file_to_reply` treats a file. */
  datatype Kind = HtmlPage | MarkdownDoc | SourceText(ext: Option<string>)

  /** The `match` on the file extension (case-sensitive). */
  function Classify(ext: Option<string>): (k: Kind)
    ensures k == HtmlPage <==> ext == Some("html") || ext == Some("html5")
    ensures k == MarkdownDoc <==> ext == Some("md") || ext == Some("markdown")
    ensures k.SourceText? ==> k.ext == ext
  {
    match ext
    case Some("html") => HtmlPage
    case Some("html5") => HtmlPage
    case Some("md") => MarkdownDoc
    case Some("markdown") => MarkdownDoc
    case _ => SourceText(ext)
  }

  /**
   * The body and `unsafe_content` flag of the default branch: highlighted
   * (and unsafe) exactly when the extension names a grammar.
   */
  function SourceBody(h: Highlighter, ext: Option<string>, content: string): (r: (string, bool))
    ensures r.1 <==> ext.Some? && h.hasSyntax(ext.value)
    ensures r.1 ==> r.0 == h.highlighted(ext.value, content)
    ensures !r.1 ==> r.0 == content
  {
    if ext.None? then (content, false)
    else match SyntaxHighlightHtml(h, ext.value, content)
      case Some(highlighted) => (highlighted, true)
      case None => (content, false)
  }

  /**
   * The HTML of a Markdown text: its parsed tree, rewritten, serialized and
   * decoded; None when serialization fails or yields malformed UTF-8.
   */
  function MarkdownHtml(tools: Tools, content: string): Option<string> {
    var d := tools.parseDocument(content);
    match tools.formatHtml(Rewrite(tools.highlighter, View(d.root, d.values)))
    case None => None
    case Some(bytes) => Decode(bytes)
  }

  /** What `render_markdown_to_reply` answers. */
  function MarkdownReply(tools: Tools, path: string, content: string, url: string): Response {
    match MarkdownHtml(tools, content)
    case None => Err(Custom(MarkdownFail))
    case Some(html) => CreateFileReply(tools, path, html, true, url)
  }

  /** What `render_file_to_reply` answers. */
  function RenderedFile(tools: Tools, path: string, content: string, url: string): Response {
    match Classify(Extension(path))
    case HtmlPage => Ok(Html(content))
    case MarkdownDoc => MarkdownReply(tools, path, content, url)
    case SourceText(ext) =>
      var (body, unsafeContent) := SourceBody(tools.highlighter, ext, content);
      CreateFileReply(tools, path, body, unsafeContent, url)
  }

  /** `render_markdown_to_reply`: parse, walk the arena in place, serialize. */
  method RenderMarkdownToReply(tools: Tools, path: string, content: string, url: string) returns (r: Response)
    ensures r == MarkdownReply(tools, path, content, url)
  {
    var document := tools.parseDocument(content);
    var arena := new Arena(document.values);
    arena.IterNodes(tools.highlighter, document.root);
    ViewAfterWalk(tools.highlighter, document.root, document.values, arena.values);
    var html := tools.formatHtml(View(document.root, arena.values));
    if html.None? {
      return Err(Custom(MarkdownFail));
    }
    var text := Decode(html.value);
    if text.None? {
      return Err(Custom(MarkdownFail));
    }
    r := CreateFileReply(tools, path, text.value, true, url);
  }

  /** `render_file_to_reply`. */
  method RenderFileToReply(tools: Tools, path: string, content: string, url: string) returns (r: Response)
    ensures r == RenderedFile(tools, path, content, url)
  {
    var fileExt := Extension(path);
    if fileExt == Some("html") || fileExt == Some("html5") {
      r := Ok(Html(content));
    } else if fileExt == Some("md") || fileExt == Some("markdown") {
      r := RenderMarkdownToReply(tools, path, content, url);
    } else {
      var body := content;
      var unsafeContent := false;
      if fileExt.Some? {
        var highlighted := SyntaxHighlightHtml(tools.highlighter, fileExt.value, body);
        if highlighted.Some? {
          body := highlighted.value;
          unsafeContent := true;
        }
      }
      r := CreateFileReply(tools, path, body, unsafeContent, url);
    }
  }

  /** An `html`/`html5` file is sent as it is: no template, no tool involved. */
  lemma HtmlPassthrough(tools: Tools, other: Tools, path: string, content: string, url: string)
    ensures var ext := Extension(path);
      ext == Some("html") || ext == Some("html5") ==>
        && RenderedFile(tools, path, content, url) == Ok(Html(content))
        && RenderedFile(other, path, content, url) == RenderedFile(tools, path, content, url)
  {
  }

  /** A Markdown file's HTML always reaches the template marked unsafe (pre-escaped). */
  lemma MarkdownAlwaysUnsafe(tools: Tools, path: string, content: string, url: string)
    ensures var ext := Extension(path);
      ext == Some("md") || ext == Some("markdown") ==>
        && (MarkdownHtml(tools, content).None? ==> RenderedFile(tools, path, content, url) == Err(Custom(MarkdownFail)))
        && (MarkdownHtml(tools, content).Some? ==>
              RenderedFile(tools, path, content, url) == CreateFileReply(tools, path, MarkdownHtml(tools, content).value, true, url))
  {
  }

  /**
   * Any other file is highlighted and marked unsafe when its extension names
   * a grammar; otherwise (no grammar, no extension) its text is passed as it
   * is and marked safe, to be escaped by the template.
   */
  lemma SourceTextHighlighting(tools: Tools, path: string, content: string, url: string)
    requires Classify(Extension(path)).SourceText?
    ensures var ext := Extension(path);
      if ext.Some? && tools.highlighter.hasSyntax(ext.value)
      then RenderedFile(tools, path, content, url) == CreateFileReply(tools, path, tools.highlighter.highlighted(ext.value, content), true, url)
      else RenderedFile(tools, path, content, url) == CreateFileReply(tools, path, content, false, url)
  {
  }

  /**
   * The Markdown serializer receives the parsed tree with the same shape,
   * every eligible fenced code block replaced by its highlighted HTML block
   * and every other node untouched; when it succeeds, the page's content
   * is exactly the bytes it produced.
   */
  lemma MarkdownSerializesRewrittenTree(tools: Tools, content: string, p: seq<nat>)
    ensures var d := tools.parseDocument(content);
      var parsed := View(d.root, d.values);
      var tree := Rewrite(tools.highlighter, parsed);
      && (ValidPath(tree, p) <==> ValidPath(parsed, p))
      && (ValidPath(parsed, p) && Eligible(tools.highlighter, At(parsed, p)) ==> At(tree, p).HtmlBlock?)
      && (ValidPath(parsed, p) && !Eligible(tools.highlighter, At(parsed, p)) ==> At(tree, p) == At(parsed, p))
      && (MarkdownHtml(tools, content).Some? ==> tools.formatHtml(tree) == Some(Encode(MarkdownHtml(tools, content).value)))
  {
    var d := tools.parseDocument(content);
    var parsed := View(d.root, d.values);
    var tree := Rewrite(tools.highlighter, parsed);
    RewriteAt(tools.highlighter, parsed, p);
    if ValidPath(parsed, p) {
      StepSpec(tools.highlighter, At(parsed, p));
    }
    if MarkdownHtml(tools, content).Some? {
      EncodeDecode(tools.formatHtml(tree).value);
    }
  }

  /** Rendering a file answers with an HTML page or a rendering failure, never "not found". */
  lemma RenderedFileIsPageOrFailure(tools: Tools, path: string, content: string, url: string)
    ensures var r := RenderedFile(tools, path, content, url);
      (r.Ok? && r.value.Html?) || (r.Err? && r.error.Custom?)
  {
  }
}
