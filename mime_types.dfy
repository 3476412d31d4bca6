/**
 * How the later layout finds the mime of what the user asks to open
 * (src/common/mime_types.rs): a URL stands for its scheme handler, anything
 * else is a path whose content is inspected; and how it reads a mime the user
 * names, either as `.ext` or as a type.
 *
 * `url::Url::parse` is `urlScheme` (the scheme when the text parses as a URL),
 * `MimeDetective` is `detect`, `mime_db::lookup` is `lookupExt` and
 * `Mime::from_str` is `parseMime`; mimes are their essence strings.
 */
module MimeTypes {
  import opened Wrappers
  import opened Errors

  const SchemePrefix: string := "x-scheme-handler/"
  const OctetStream: string := "application/octet-stream"

  /** `TryFrom<&Path>`: the detected mime, unless detection only found the fallback. */
  function FromPath(path: string, detect: string -> Result<string, Error>): (r: Result<string, Error>)
    ensures detect(path).Err? ==> r == Err(detect(path).error)
    ensures detect(path).Ok? ==> (r.Ok? <==> detect(path).value != OctetStream)
    ensures r.Ok? ==> r == detect(path) && r.value != OctetStream
    ensures detect(path) == Ok(OctetStream) ==> r == Err(Ambiguous(path))
  {
    match detect(path)
    case Err(e) => Err(e)
    case Ok(guess) => if guess == OctetStream then Err(Ambiguous(path)) else Ok(guess)
  }

  /** `TryFrom<&str>`: the scheme handler of a URL, else the mime of the path. */
  function FromArg(arg: string, urlScheme: string -> Option<string>, detect: string -> Result<string, Error>)
    : (r: Result<string, Error>)
    ensures urlScheme(arg).Some? ==> r == Ok(SchemePrefix + urlScheme(arg).value)
    ensures urlScheme(arg).None? ==> r == FromPath(arg, detect)
  {
    match urlScheme(arg)
    case Some(scheme) => Ok(SchemePrefix + scheme)
    case None => FromPath(arg, detect)
  }

  /** Whatever the argument, a mime found for it is never the octet-stream fallback. */
  lemma FromArgNeverOctetStream(arg: string, urlScheme: string -> Option<string>,
                                detect: string -> Result<string, Error>)
    ensures FromArg(arg, urlScheme, detect).Ok? ==> FromArg(arg, urlScheme, detect).value != OctetStream
  {
    if urlScheme(arg).Some? {
      var m := SchemePrefix + urlScheme(arg).value;
      assert m[0] == 'x' && OctetStream[0] == 'a';
    }
  }

  /**
   * `Ambiguous` arises only for a non-URL whose detected mime is the fallback,
   * and names the argument (the detector's own failures are I/O errors).
   */
  lemma AmbiguousOnlyForPaths(arg: string, urlScheme: string -> Option<string>,
                              detect: string -> Result<string, Error>, named: string)
    requires !(detect(arg).Err? && detect(arg).error.Ambiguous?)
    ensures FromArg(arg, urlScheme, detect) == Err(Ambiguous(named))
        <==> urlScheme(arg).None? && named == arg && detect(arg) == Ok(OctetStream)
  {
  }

  /** `MimeOrExtension::from_str`: `.ext` through the extension table, anything else through the parser. */
  function FromUserInput(s: string, lookupExt: string -> Option<string>, parseMime: string -> Option<string>)
    : (r: Result<string, Error>)
    ensures r.Err? && r.error.Ambiguous? <==> |s| > 0 && s[0] == '.' && lookupExt(s[1..]).None?
    ensures r.Err? && r.error.Ambiguous? ==> r.error.input == s
    ensures |s| > 0 && s[0] == '.' && r.Ok? ==>
              lookupExt(s[1..]).Some? && parseMime(lookupExt(s[1..]).value) == Some(r.value)
    ensures !(|s| > 0 && s[0] == '.') ==> (r.Ok? <==> parseMime(s).Some?)
    ensures !(|s| > 0 && s[0] == '.') && r.Ok? ==> r.value == parseMime(s).value
    ensures !(|s| > 0 && s[0] == '.') && r.Err? ==> r.error == BadMimeType
  {
    if |s| > 0 && s[0] == '.' then
      match lookupExt(s[1..])
      case None => Err(Ambiguous(s))
      case Some(known) =>
        match parseMime(known)
        case Some(m) => Ok(m)
        case None => Err(Panic(UnwrapErr))
    else
      match parseMime(s)
      case Some(m) => Ok(m)
      case None => Err(BadMimeType)
  }

  /**
   * The examples of the module's tests, given what the extension table and the
   * mime parser answer for them.
   */
  lemma UserInputExamples(lookupExt: string -> Option<string>, parseMime: string -> Option<string>)
    requires lookupExt("pdf") == Some("application/pdf") && parseMime("application/pdf") == Some("application/pdf")
    requires parseMime("image/jpeg") == Some("image/jpeg")
    requires parseMime("image//jpg").None? && parseMime("image").None?
    ensures FromUserInput(".pdf", lookupExt, parseMime) == Ok("application/pdf")
    ensures FromUserInput("image/jpeg", lookupExt, parseMime) == Ok("image/jpeg")
    ensures FromUserInput("image//jpg", lookupExt, parseMime) == Err(BadMimeType)
    ensures FromUserInput("image", lookupExt, parseMime) == Err(BadMimeType)
  {
    assert ".pdf"[1..] == "pdf";
  }
}
