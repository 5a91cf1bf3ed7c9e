/** The output formats the editor's format selector offers. The editor
    keeps the selection as the option's value string, so the string names
    are part of the model. */
module Formats {
  import opened Options

  datatype Format = Jpeg | Png | Webp

  /** The value attribute of the selector option for `f`; it is also the
      extension of the downloaded file. */
  function Name(f: Format): string {
    match f
    case Jpeg => "jpeg"
    case Png => "png"
    case Webp => "webp"
  }

  /** The selector's value string read back as a format; any string that is
      not one of the three option values is none. */
  function FromName(s: string): (r: Option<Format>)
    ensures forall f: Format :: r == Some(f) <==> Name(f) == s
  {
    if s == "jpeg" then Some(Jpeg)
    else if s == "png" then Some(Png)
    else if s == "webp" then Some(Webp)
    else None
  }

  /** A string the selector can hold. */
  predicate IsOption(s: string) {
    FromName(s).Some?
  }

  /** Every option name is a non-empty word without a '.', so it can stand
      as a file extension. */
  lemma NameIsExtension(f: Format)
    ensures |Name(f)| > 0 && '.' !in Name(f)
    ensures IsOption(Name(f)) && FromName(Name(f)) == Some(f)
  {
  }
}
