/**
 * Every way `cat-file` can stop without printing. The source reports most of
 * these through `anyhow` and two of them by panicking; the model turns each
 * into a value so that the abort can be stated and reasoned about.
 */
module Errors {
  import opened Bytes

  datatype Error =
      /** `-p` was not given (the `ensure!` on the mode flag). */
    | MissingPrettyPrint
      /** The identifier cannot be cut after its second byte: it is shorter than
          two bytes, or byte 2 falls inside a multi-byte character. The source
          panics in the string slice. */
    | InvalidIdentifier
      /** No file at the object's path. */
    | NotFound
      /** The stream has no nul byte, so there is no header terminator. The
          source panics in `expect`. */
    | MissingNul
      /** The header bytes before the nul are not well-formed UTF-8. */
    | InvalidUtf8
      /** The header text has no space between kind and size. */
    | MissingSpace(header: seq<byte>)
      /** The kind tag names no kind this reader knows. */
    | UnsupportedKind(tag: seq<byte>)
      /** The size text is not an unsigned machine-word integer. */
    | InvalidSize(text: seq<byte>)
      /** Fewer payload bytes follow the header than it declares. */
    | Truncated
      /** The probe after the payload read `count` more bytes (always 1). */
    | TrailingBytes(count: nat)
}
