/**
 * Where a loose object lives: `.git/objects/<first two bytes>/<the rest>`.
 * The identifier is the UTF-8 text of the command-line argument, kept as bytes
 * so that the source's byte-offset slicing can be stated exactly.
 */
module Locator {
  import opened Bytes
  import opened Wrappers
  import opened Errors

  /** The path prefix ".git/objects/". */
  const OBJECTS_DIR: seq<byte> :=
    [0x2E, 0x67, 0x69, 0x74, 0x2F, 0x6F, 0x62, 0x6A, 0x65, 0x63, 0x74, 0x73, 0x2F]

  /**
   * Whether the identifier can be cut after its second byte: it has at least
   * two bytes and byte 2 starts a character (or is the end). Otherwise the
   * slices `[..2]` and `[2..]` of a Rust string panic.
   */
  predicate Splittable(hash: seq<byte>)
  {
    2 <= |hash| && (|hash| == 2 || !IsContinuation(hash[2]))
  }

  /** The path of the object named `hash`, or the error for an identifier that cannot be sharded. */
  function ObjectPath(hash: seq<byte>): (r: Result<seq<byte>, Error>)
    ensures r.Err? <==> !Splittable(hash)
    ensures r.Err? ==> r.error == InvalidIdentifier
    ensures 2 <= |hash| && AllAscii(hash) ==> r.Ok?
    ensures r.Ok? ==> |r.value| == |OBJECTS_DIR| + |hash| + 1
  {
    if Splittable(hash) then Ok(OBJECTS_DIR + hash[..2] + [SLASH] + hash[2..])
    else Err(InvalidIdentifier)
  }

  /** Reads the identifier back out of an object path: shard directory then file name. */
  function IdentifierOf(path: seq<byte>): seq<byte>
    requires |OBJECTS_DIR| + 3 <= |path|
  {
    path[|OBJECTS_DIR|..|OBJECTS_DIR| + 2] + path[|OBJECTS_DIR| + 3..]
  }

  /**
   * An object path is the objects directory, a two-byte shard directory and a
   * file name, and the shard and the file name put together give back the
   * identifier.
   */
  lemma PathRoundTrip(hash: seq<byte>)
    requires ObjectPath(hash).Ok?
    ensures var path := ObjectPath(hash).value;
      && path[..|OBJECTS_DIR|] == OBJECTS_DIR
      && path[|OBJECTS_DIR| + 2] == SLASH
      && IdentifierOf(path) == hash
  {
    var path := ObjectPath(hash).value;
    assert path == OBJECTS_DIR + hash[..2] + [SLASH] + hash[2..];
    assert path[|OBJECTS_DIR|..|OBJECTS_DIR| + 2] == hash[..2];
    assert path[|OBJECTS_DIR| + 3..] == hash[2..];
    assert hash[..2] + hash[2..] == hash;
  }

  /**
   * Distinct identifiers give distinct path strings. The file system may still
   * resolve two of them to one file: "ab/cd" gives ".git/objects/ab//cd".
   */
  lemma PathInjective(h1: seq<byte>, h2: seq<byte>)
    requires ObjectPath(h1).Ok? && ObjectPath(h1) == ObjectPath(h2)
    ensures h1 == h2
  {
    PathRoundTrip(h1);
    PathRoundTrip(h2);
  }
}
