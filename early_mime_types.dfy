/**
 * Mime checks of the early prototype (src/mime_types.rs): `verify` for a mime
 * the user names and the octet-stream check on a guess from a file.
 *
 * The `mime_db` table of known types is a parameter, as is the shared-mime-info
 * guess for a path.
 */
module EarlyMimeTypes {
  import opened Wrappers
  import opened Errors

  const SchemePrefix: string := "x-scheme-handler/"

  /** `CUSTOM_MIMES`: accepted although absent from the table. */
  const CustomMimes: seq<string> := ["inode/directory", "x-scheme-handler/http", "x-scheme-handler/https"]

  const OctetStream: string := "application/octet-stream"

  /**
   * verify: a scheme handler or a custom mime is accepted at once, any other
   * string only when the table lists it; the accepted value is the input itself.
   */
  function Verify(mime: string, knownTypes: seq<string>): (r: Result<string, Error>)
    ensures r.Ok? <==> SchemePrefix <= mime || mime in CustomMimes || mime in knownTypes
    ensures r.Ok? ==> r.value == mime
    ensures r.Err? ==> r.error == BadMime(mime)
  {
    if SchemePrefix <= mime || mime in CustomMimes then Ok(mime)
    else if exists i | 0 <= i < |knownTypes| :: knownTypes[i] == mime then Ok(mime)
    else Err(BadMime(mime))
  }

  /** Two of the three custom entries are scheme handlers, accepted without the list. */
  lemma CustomBeyondSchemes(mime: string)
    requires mime in CustomMimes && !(SchemePrefix <= mime)
    ensures mime == "inode/directory"
  {
    var http, https := CustomMimes[1], CustomMimes[2];
    assert http == SchemePrefix + "http";
    assert https == SchemePrefix + "https";
    assert http[..|SchemePrefix|] == SchemePrefix && https[..|SchemePrefix|] == SchemePrefix;
  }

  /** Without any table, exactly the scheme handlers and `inode/directory` pass. */
  lemma VerifyWithoutTable(mime: string)
    ensures Verify(mime, []).Ok? <==> SchemePrefix <= mime || mime == "inode/directory"
  {
    if mime in CustomMimes && !(SchemePrefix <= mime) {
      CustomBeyondSchemes(mime);
    }
  }

  /** Every scheme handler is accepted unchanged, whatever the table holds. */
  lemma VerifySchemeAnyTable(scheme: string, knownTypes: seq<string>)
    ensures Verify(SchemePrefix + scheme, knownTypes) == Ok(SchemePrefix + scheme)
  {
    assert (SchemePrefix + scheme)[..|SchemePrefix|] == SchemePrefix;
  }

  /** from_file: the guessed essence, unless the guess is the octet-stream fallback. */
  function FromFile(guess: string): (r: Result<string, Error>)
    ensures r.Ok? <==> guess != OctetStream
    ensures r.Ok? ==> r.value == guess && r.value != OctetStream
    ensures r.Err? ==> r.error == AmbiguousGuess
  {
    if guess == OctetStream then Err(AmbiguousGuess) else Ok(guess)
  }
}
