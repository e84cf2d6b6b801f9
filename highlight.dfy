/**
 * The highlight adapter. The syntect engine, its bundled grammars and the
 * Dracula theme are two oracles: whether a grammar is found for a token, and
 * the HTML the engine produces for a text with that grammar.
 */
module Highlight {
  import opened Wrappers

  datatype Highlighter = Highlighter(
    /** `find_syntax_by_token(token).is_some()` */
    hasSyntax: string -> bool,
    /** `highlighted_html_for_string(text, ..., grammar of token, Dracula)` */
    highlighted: (string, string) -> string)

  /** `syntax_highlight_html`: highlighted HTML, or None when no grammar matches the token. */
  function SyntaxHighlightHtml(h: Highlighter, token: string, content: string): (r: Option<string>)
    ensures r.Some? <==> h.hasSyntax(token)
    ensures r.Some? ==> r.value == h.highlighted(token, content)
  {
    if h.hasSyntax(token) then Some(h.highlighted(token, content)) else None
  }
}
