/**
 * The movie record of the static catalogue. Every field may be missing in the
 * JSON, so every field is optional. `year` is held as the text JavaScript would
 * print for it; a falsy year (absent, null, 0 or "") is `None`.
 */
module Movies {
  import opened JsBuiltins

  datatype Movie = Movie(
    title: Option<string>,
    year: Option<string>,
    poster: Option<string>,
    thumbnail: Option<string>,
    link: Option<string>,
    category: Option<string>)

  /** `v || ""`. */
  function OrEmpty(v: Option<string>): string {
    v.GetOr("")
  }

  /** What a template literal or `setAttribute` writes for a value that may be undefined (a JSON `null` would be written `null`; `None` stands for both). */
  function TemplateText(v: Option<string>): string {
    v.GetOr("undefined")
  }
}
