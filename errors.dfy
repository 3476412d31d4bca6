/**
 * The error values of handlr.  The first group mirrors the `Error` enum of
 * src/error.rs; the second group holds the variants that the earlier iteration
 * of the code (src/mimeapps.rs, src/mime_types.rs, src/common.rs) raises, which
 * carry no payload or a different one.  `Panic` stands for the places where the
 * source calls `unwrap` on an absent value or removes from an empty vector: the
 * real program aborts there, the model returns this value instead.
 */
module Errors {

  datatype Error =
    // src/error.rs
    | Parse                       // pest grammar error (the grammar is not modelled)
    | Io                          // std::io::Error, e.g. a failed spawn or write
    | Xdg                         // xdg::BaseDirectoriesError
    | NotFound(name: string)      // no handler for this mime
    | Ambiguous(input: string)    // mime of a path or extension undetermined
    | BadMimeType                 // mime::FromStrError
    | BadEntry(path: string)      // malformed desktop entry
    | BadRegex                    // regex::Error of a handler's pattern set (src/apps/regex.rs)
    // earlier iteration
    | NoHandler                   // payload-less NotFound of src/mimeapps.rs
    | AmbiguousGuess              // payload-less Ambiguous of src/mime_types.rs
    | BadMime(mime: string)       // rejected user-supplied mime, src/mime_types.rs
    | InvalidEntry                // "Invalid desktop entry" of src/common.rs
    // the program aborts
    | Panic(reason: string)

  /** The messages of the two panics the core can run into. */
  const UnwrapNone: string := "called `Option::unwrap()` on a `None` value"
  const UnwrapErr: string := "called `Result::unwrap()` on an `Err` value"
}
