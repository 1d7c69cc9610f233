# cat-file: a verified model of the loose-object reader

This project models the `cat-file -p <hash>` command of a minimal Git
reimplementation (`src/main.rs`). The command turns an object identifier into
the path `.git/objects/<first two bytes>/<rest>`, opens the file, decompresses
it, and reads a loose object framed as

    <kind> ' ' <size> NUL <payload>

It accepts only the kind `blob`. The size must be a `usize`, exactly `size`
payload bytes must follow the nul, and nothing may follow them. Only after all
of these checks does it write the payload to standard output.

Modules, one per concern:

- `Bytes` (`bytes.dfy`): bytes, ASCII constants, and UTF-8 well-formedness as `CStr::to_str` checks it.
- `Usize` (`usize.dfy`): `str::parse::<usize>`, and the canonical decimal text used in the round trip.
- `Locator` (`locator.dfy`): the object path and its inverse.
- `LooseObject` (`loose_object.dfy`): the kind dispatch and `read_until`/`split_once`. Also `Decode`, the whole decoder as one function of the decompressed stream, with the lemmas that characterise it.
- `CatFile` (`cat_file.dfy`): the command as it runs. It has a `Reader` (the buffered decompressed stream with a cursor) and a `ByteVec` (the one `Vec<u8>` the command fills with the header, then clears, resizes and overwrites with the payload). It also has `Stdout`, which is written only on success. `ReadObject` is proved equal to `Decode`. `CatFile` is proved equal to `CatFileResult`, and on every error it writes nothing.
- `Errors`, `Wrappers`: the error values and Option/Result.

The main results:

- `DecodeOkIff`: decoding succeeds with payload `p` exactly when the stream is `"blob " + t + NUL + p`, for some size text `t` that parses to `|p|`.
- `DecodeFrame`: the canonical encoding round-trips.
- `TruncatedRejected`: every proper prefix of a valid object is rejected.
- `TrailingRejected`: any extra byte after the payload is rejected.
- `OtherKindRejected`, `BadSizeRejected`, `NoSpaceRejected`, `BadUtf8Rejected`, `NoNulRejected`: each malformed header gets its own error, whatever payload follows.
- `CatFilePrints`: the end-to-end statement of what the command prints.

Behaviour of the code that the model keeps as it is:

- An identifier shorter than two bytes makes the string slice panic. The model reports this as `InvalidIdentifier`.
- A stream with no nul byte makes `expect` panic. The model reports this as `MissingNul`.
- The truncation error carries no byte counts.
- The trailing-bytes error reports the result of a one-byte probe, so it always says 1, however many bytes follow.
- The payload is read into a buffer in full and written after the end-of-stream probe. It is not streamed as it is read.
- Identifier bytes are put into the path unchecked. There is no hex or path-separator validation.

## Model

| member | source | states |
|---|---|---|
| `Locator.ObjectPath` | src/main.rs:48-52 | The path fails with `InvalidIdentifier` exactly when the identifier cannot be cut after byte 2. That is the case when it is shorter than 2 bytes, or byte 2 is inside a multi-byte character, which is where the Rust slice panics. Every ASCII identifier of length ≥ 2 gets a path, whose length is the prefix plus the identifier plus one separator. |
| `Locator.PathRoundTrip` | src/main.rs:48-52 | A path is `.git/objects/`, a two-byte shard directory, `/` and a file name. Shard plus file name give back the identifier. |
| `Locator.PathInjective` | src/main.rs:48-52 | Distinct identifiers give distinct path strings. Distinct strings can still name the same file: `ab/cd` gives `.git/objects/ab//cd`, which POSIX resolves like `.git/objects/ab/cd`. |
| `LooseObject.ParseKind` | src/main.rs:28-30 | Kind dispatch over the closed set `{Blob}`: it yields a kind exactly when the tag is that kind's tag. Any other tag yields no kind. |
| `LooseObject.UntilDelim` | src/main.rs:57 | `read_until` returns a prefix of the stream. The delimiter occurs in it only as its last byte, and it ends in the delimiter exactly when the stream contains one. Without a delimiter it is the whole stream. |
| `LooseObject.UntilDelimAt` | src/main.rs:57 | When the first delimiter is at position k-1, `read_until` returns exactly the first k bytes. |
| `LooseObject.UntilDelimScanned` | src/main.rs:57 | A byte-by-byte scan that stopped just past the first delimiter, or at the end of the stream without meeting one, has read exactly `UntilDelim` of the unread bytes, and what is left is the rest of the stream. |
| `LooseObject.SplitOnce` | src/main.rs:64-68 | `split_once` fails exactly when the separator is absent. Otherwise the text is `before + sep + after`, and `before` contains no separator, so the split is at the first one. |
| `LooseObject.ParseHeader` | src/main.rs:59-75 | Header parsing yields a size within `usize` range. It fails only with an encoding, missing-space, unsupported-kind or invalid-size error, never with a payload error. |
| `LooseObject.TakePayload` | src/main.rs:76-81 | The payload check succeeds exactly when the bytes after the header number `size`, and the result is then those bytes. Fewer bytes give `Truncated`; more bytes give `TrailingBytes(1)`. |
| `LooseObject.Decode` | src/main.rs:57-81 | A decoded payload is always the final bytes of the stream. |
| `LooseObject.DecodeAtNul` | src/main.rs:57-63 | The header is exactly the bytes up to and including the first nul. Decoding then depends only on the header text and on the bytes after it. |
| `LooseObject.SplitAtNul` | src/main.rs:57-60 | A stream that contains a nul is a header text free of nuls, that nul, and the remaining bytes. |
| `LooseObject.BlobHeader` | src/main.rs:59-75 | `"blob " + t` parses as a blob header with size `ParseUsize(t)` whenever `t` parses. |
| `LooseObject.ParsedIsBlob` | src/main.rs:64-75 | A header text parses only if it is `blob`, a space and a size text, and that size text parses to the size returned. |
| `LooseObject.DecodeWellFramed` | src/main.rs:57-81 | Completeness: `"blob " + t + NUL + p` decodes to `p` whenever `t` parses to `|p|`, including texts with leading zeros or a `+`. |
| `LooseObject.DecodeOkIsWellFramed` | src/main.rs:57-81 | Soundness: a stream that decodes is a blob whose header declares exactly the length of the output payload. |
| `LooseObject.DecodeOkIff` | src/main.rs:57-91 | Decoding yields payload `p` if and only if the stream is well-framed with payload `p`. |
| `LooseObject.DecodeFrame` | src/main.rs:57-81 | Round trip: the canonical encoding of any payload of `usize` length decodes back to it. |
| `LooseObject.NoNulRejected` | src/main.rs:57-60 | A stream without a nul byte fails with `MissingNul`. |
| `LooseObject.BadUtf8Rejected` | src/main.rs:61-63 | A header text that is not UTF-8 fails with `InvalidUtf8`, whatever follows it. |
| `LooseObject.NoSpaceRejected` | src/main.rs:64-68 | A UTF-8 header text with no space fails with `MissingSpace`, whatever follows it. |
| `LooseObject.OtherKindRejected` | src/main.rs:69-72 | A tag other than `blob` fails with `UnsupportedKind(tag)` for any size text and any payload. So it fails before the size or the payload are looked at. |
| `LooseObject.BadSizeRejected` | src/main.rs:73-75 | A `blob` header whose size text does not parse fails with `InvalidSize`, whatever payload follows. |
| `LooseObject.BadSizeHeader` | src/main.rs:73-75 | The header text `"blob " + t` fails with `InvalidSize(t)` when `t` is UTF-8 but does not parse. |
| `LooseObject.TruncatedRejected` | src/main.rs:76-79 | Every proper prefix of a well-framed blob fails, so there is never a silent short read. Once the header is complete, the failure is `Truncated`. |
| `LooseObject.TrailingRejected` | src/main.rs:80-81 | A well-framed blob followed by any non-empty extra bytes fails with `TrailingBytes(1)`. |
| `LooseObject.FiveParses` | src/main.rs:73-75 | The size text "5" parses to 5. |
| `LooseObject.HelloDecodes` | src/main.rs:57-91 | `blob 5\0hello` decodes to `hello`. |
| `LooseObject.HellTruncated` | src/main.rs:76-79 | `blob 5\0hell` fails with `Truncated`. |
| `LooseObject.HelloXTrailing` | src/main.rs:80-81 | `blob 5\0helloX` fails with `TrailingBytes(1)`. |
| `LooseObject.TreeUnsupported` | src/main.rs:69-72 | `tree 0\0` fails with `UnsupportedKind("tree")`. |
| `Usize.ParseUsize` | src/main.rs:73-75 | A size that `parse::<usize>` yields is at most 2^64-1, and the text it came from is non-empty and made of digits, except for at most one leading `+`. |
| `Usize.ParseSound` | src/main.rs:73-75 | A text that parses is an empty or `+` sign followed by a non-empty run of digits, and the size is the value of those digits. |
| `Usize.ParseUsizeIff` | src/main.rs:73-75 | `parse::<usize>` yields `v` if and only if the text is an optional `+` and a non-empty run of digits of value `v`, and `v` is at most 2^64-1. |
| `Usize.PlusAloneRejected` | src/main.rs:73-75 | A lone `+` does not parse. |
| `Usize.OverflowRejected` | src/main.rs:73-75 | A run of digits whose value is above 2^64-1 does not parse, with or without a leading `+`. |
| `Usize.ParseDigits` | src/main.rs:73-75 | Every non-empty run of digits whose value is at most 2^64-1 parses to that value, with or without one leading `+`. |
| `Usize.ParseDecimal` | src/main.rs:73-75 | Every `usize` parses back from its canonical decimal text. |
| `Usize.ParseAcceptsPlusAndZeros` | src/main.rs:73-75 | Leading zeros, optionally after a `+`, do not change the parsed size. |
| `Bytes.ValidUtf8` | src/main.rs:61-63 | Well-formed UTF-8 as Table 3-7 of the Unicode Standard defines it: no overlong forms, no surrogates, nothing above U+10FFFF. Its contract states that a well-formed text starts with an ASCII byte or a lead byte from C2 to F4. |
| `Bytes.Utf8Refusals` | src/main.rs:61-63 | An overlong form, an encoded surrogate and a code point above U+10FFFF are refused. The last scalar value below the surrogates and U+10FFFF itself are accepted. |
| `Bytes.AsciiIsUtf8` | src/main.rs:61-63 | ASCII text passes the UTF-8 check. |
| `Bytes.AsciiPrefixUtf8` | src/main.rs:61-63 | ASCII followed by well-formed UTF-8 is well-formed UTF-8. |
| `CatFile.ByteVec.constructor` | src/main.rs:56 | The buffer starts empty. |
| `CatFile.ByteVec.Push` | src/main.rs:57 | Appends one byte to the buffer. |
| `CatFile.ByteVec.Clear` | src/main.rs:76 | Empties the buffer. |
| `CatFile.ByteVec.Resize` | src/main.rs:77 | Sets the length to `n`, keeping the old prefix and padding with the fill byte. |
| `CatFile.ByteVec.Set` | src/main.rs:78 | Overwrites one byte of the buffer in place. |
| `CatFile.Reader.constructor` | src/main.rs:54-55 | The reader starts at the first byte of the decompressed stream. |
| `CatFile.Reader.ReadUntil` | src/main.rs:57-58 | Appends `UntilDelim` of the unread bytes to the buffer, and advances the cursor past exactly those bytes. |
| `CatFile.Reader.ReadExact` | src/main.rs:78-79 | Succeeds exactly when enough bytes remain. It then fills the whole buffer with the next bytes and advances past them. On failure everything remaining is consumed. |
| `CatFile.Reader.Probe` | src/main.rs:80-81 | Reads 0 bytes exactly at the end of the stream, otherwise 1 byte, and advances past it. |
| `CatFile.ReadPayload` | src/main.rs:76-81 | Clear, resize, `read_exact` and the probe together compute `TakePayload` of the unread bytes. |
| `CatFile.ReadHeader` | src/main.rs:56-75 | After `read_until`, the cursor is just past the header. The result is `MissingNul` when the header does not end in a nul. Otherwise it is `ParseHeader` of the text before the nul. |
| `CatFile.ReadObject` | src/main.rs:54-81 | The step-by-step reader computes `Decode` of the stream. For an error in the header it has read only the header, with no payload byte. A success or a truncation consumes the whole stream. |
| `CatFile.CatFileResult` | src/main.rs:43-91 | Without `-p` the command fails with `MissingPrettyPrint`. With `-p`, an identifier that cannot be sharded fails with `InvalidIdentifier` whatever the store holds, so before any file is opened. |
| `CatFile.Render` | src/main.rs:85-91 | The per-kind print: for a blob, the bytes printed are exactly its payload. |
| `CatFile.Stdout.WriteAll` | src/main.rs:83-89 | Appends the bytes to standard output. |
| `CatFile.CatFile` | src/main.rs:43-91 | The command's result is `CatFileResult`. On every error standard output is unchanged. On success exactly the payload is appended. |
| `CatFile.CatFilePrints` | src/main.rs:43-91 | The command prints `out` if and only if `-p` is given, the identifier has a path, and the file there exists and holds a well-framed blob with payload `out`. |
| `CatFile.MissingObjectNotFound` | src/main.rs:48-53 | An identifier whose path is not in the store fails with `NotFound`. |

## Left out

- The `InvalidSize` error carries the size text, which the source does not report. Its message at line 75 is a plain string passed to `context`, not a format macro, so it prints a literal `{size}`. The text is kept so that the rejection lemmas can name what was refused.
- Zlib decompression (`ZlibDecoder`, line 54) is not modelled. The store maps each object path to its already-decompressed bytes, and a corrupt compressed stream is not modelled.
- Reading files from disk is replaced by that map. Every failure to open (line 53) is `NotFound`; permission and other I/O errors are not distinguished. A two-byte identifier names the shard directory itself (`.git/objects/ab/`). On Linux opening that directory succeeds and the source fails at the first read (line 57); the model reports `NotFound` unless the store maps that path. Neither prints anything.
- I/O errors other than end of stream during `read_until`, `read_exact`, the probe or the write to stdout (lines 57, 78, 80, 87-89) are not modelled.
- `BufReader`'s internal chunking (line 55) is not modelled. The reader consumes one byte at a time, with the same observable result.
- `CatFile.Reader.ReadExact`: the contents of the buffer after a failed `read_exact` are left unstated, as Rust leaves them unspecified.
- Allocating the payload buffer (`resize`, line 77) is assumed to succeed. For a declared size too large for memory, the source panics (a size above `isize::MAX` is a capacity overflow) or aborts (a failed allocation), and prints nothing. The model instead reports `Truncated` when fewer than `size` bytes follow and `TrailingBytes(1)` when more follow. When exactly `size` bytes follow, it succeeds and prints them.
- `usize` is taken to be 64 bits wide (a 64-bit target).
- Error message texts and the process exit status are not modelled. Errors are values of `Errors.Error`, and the two panics are among them.
- Command-line parsing with clap (lines 10-26, 33) is not modelled. The `-p` flag is a boolean argument and the identifier is the UTF-8 bytes of its string.
- The `init` command (lines 36-41) only creates directories and a file, and is not modelled.
- There is no check that the content hashes to the identifier. The code has none, and the model adds none.
- `LooseObject.Frame` and `Usize.Decimal` describe the writer side of the format. They are used only to state the round trip; the code has no writer.
