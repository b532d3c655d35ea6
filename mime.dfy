/** The MIME type under which a script's output is shown, chosen from the language of the
    notebook's input cell. */
module Mime {

  /** The MIME type of each known language identifier. */
  const LanguageToMime: map<string, string> := map[
    "javascript" := "text/javascript",
    "typescript" := "text/typescript",
    "json" := "application/json",
    "html" := "text/html",
    "css" := "text/css",
    "xml" := "application/xml",
    "markdown" := "text/markdown",
    "plaintext" := "text/plain",
    "text" := "text/plain",
    "python" := "text/x-python",
    "sql" := "text/x-sql",
    "go" := "text/go"
  ]

  const DefaultMime: string := "text/plain"

  /** `LANGUAGE_ID_TO_MIME[languageId] || "text/plain"`: a missing entry reads as the
      empty, falsy value, and a falsy value gives way to the default. */
  function MimeType(languageId: string): (mime: string)
    ensures languageId in LanguageToMime ==> mime == LanguageToMime[languageId]
    ensures languageId !in LanguageToMime ==> mime == DefaultMime
    ensures mime != []
  {
    var entry := if languageId in LanguageToMime then LanguageToMime[languageId] else "";
    if entry != "" then entry else DefaultMime
  }

  /** The twelve entries of the table, `plaintext` and `text` both giving `text/plain`. */
  lemma KnownLanguages()
    ensures MimeType("javascript") == "text/javascript"
    ensures MimeType("typescript") == "text/typescript"
    ensures MimeType("json") == "application/json"
    ensures MimeType("html") == "text/html"
    ensures MimeType("css") == "text/css"
    ensures MimeType("xml") == "application/xml"
    ensures MimeType("markdown") == "text/markdown"
    ensures MimeType("plaintext") == "text/plain"
    ensures MimeType("text") == "text/plain"
    ensures MimeType("python") == "text/x-python"
    ensures MimeType("sql") == "text/x-sql"
    ensures MimeType("go") == "text/go"
  {
  }

  /** Every answer is one of the table's MIME types; only a listed identifier gives anything
      other than `text/plain`. */
  lemma MimeTypeRange(languageId: string)
    ensures MimeType(languageId) in LanguageToMime.Values
    ensures MimeType(languageId) != "text/plain" ==> languageId in LanguageToMime
  {
    assert LanguageToMime["plaintext"] == DefaultMime;
  }
}
