/** A value that may be absent, such as the `None` a PDF page's text extractor can return. */
module Optional {

  datatype Option<+T> = None | Some(value: T) {

    /** A page's `extract_text() or ""`, with `default` as the "": the extracted text when
        the page has one, otherwise `default`. */
    function GetOr(default: T): (r: T)
      ensures this.Some? ==> r == this.value
      ensures this.None? ==> r == default
    {
      match this
      case Some(v) => v
      case None => default
    }
  }
}
