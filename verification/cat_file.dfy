/**
 * `cat-file -p <hash>`, step by step as the command runs it: a reader with a
 * cursor over the decompressed object, one byte buffer that is filled with the
 * header, cleared, resized and overwritten with the payload, and standard
 * output, written only after every check has passed.
 */
module CatFile {
  import opened Bytes
  import opened Wrappers
  import opened Errors
  import opened Usize
  import opened Locator
  import opened LooseObject

  /** The growable byte buffer (a `Vec<u8>`) the command reuses for header and payload. */
  class ByteVec {
    var contents: seq<byte>

    constructor ()
      ensures contents == []
    {
      contents := [];
    }

    method Push(b: byte)
      modifies this
      ensures contents == old(contents) + [b]
    {
      contents := contents + [b];
    }

    method Set(i: nat, b: byte)
      requires i < |contents|
      modifies this
      ensures contents == old(contents)[i := b]
    {
      contents := contents[i := b];
    }

    method Clear()
      modifies this
      ensures contents == []
    {
      contents := [];
    }

    /** `Vec::resize`: cut to `n` bytes, or pad with `fill` up to `n` bytes. */
    method Resize(n: nat, fill: byte)
      modifies this
      ensures |contents| == n
      ensures n <= |old(contents)| ==> contents == old(contents)[..n]
      ensures n > |old(contents)| ==>
        contents[..|old(contents)|] == old(contents)
        && forall i :: |old(contents)| <= i < n ==> contents[i] == fill
    {
      if n <= |contents| {
        contents := contents[..n];
      } else {
        contents := contents + seq(n - |contents|, _ => fill);
      }
    }
  }

  /**
   * The decompressed object as a buffered reader: the bytes the decompressor
   * yields and a cursor at the first byte not yet consumed.
   */
  class Reader {
    const data: seq<byte>
    var pos: nat

    ghost predicate Valid()
      reads this
    {
      pos <= |data|
    }

    /** The bytes still to be read. */
    function Remaining(): seq<byte>
      reads this
      requires Valid()
    {
      data[pos..]
    }

    constructor (stream: seq<byte>)
      ensures Valid() && data == stream && pos == 0
    {
      data := stream;
      pos := 0;
    }

    /**
     * `read_until`: appends to `buf` the bytes up to and including the next
     * `delim`, or all remaining bytes when there is none.
     */
    method ReadUntil(delim: byte, buf: ByteVec)
      requires Valid()
      modifies this, buf
      ensures Valid()
      ensures buf.contents == old(buf.contents) + UntilDelim(old(Remaining()), delim)
      ensures Remaining() == old(Remaining())[|UntilDelim(old(Remaining()), delim)|..]
      ensures pos == old(pos) + |UntilDelim(old(Remaining()), delim)|
    {
      ghost var start := pos;
      var done := false;
      while !done && pos < |data|
        invariant start <= pos <= |data|
        invariant buf.contents == old(buf.contents) + data[start..pos]
        invariant forall i :: start <= i < pos - 1 ==> data[i] != delim
        invariant done <==> start < pos && data[pos - 1] == delim
        decreases |data| - pos
      {
        var b := data[pos];
        buf.Push(b);
        assert data[start..pos + 1] == data[start..pos] + [b];
        pos := pos + 1;
        done := b == delim;
      }
      UntilDelimScanned(data, start, pos, delim, done);
    }

    /**
     * `read_exact`: fills all of `buf` from the stream, or fails with
     * UnexpectedEof after consuming everything that was left.
     */
    method ReadExact(buf: ByteVec) returns (ok: bool)
      requires Valid()
      modifies this, buf
      ensures Valid()
      ensures ok <==> |old(buf.contents)| <= |old(Remaining())|
      ensures ok ==> buf.contents == old(Remaining())[..|old(buf.contents)|]
      ensures ok ==> Remaining() == old(Remaining())[|old(buf.contents)|..]
      ensures !ok ==> Remaining() == []
    {
      var n := |buf.contents|;
      var i := 0;
      while i < n && pos < |data|
        invariant 0 <= i <= n && pos <= |data|
        invariant pos == old(pos) + i
        invariant |buf.contents| == n
        invariant buf.contents[..i] == data[old(pos)..pos]
      {
        buf.Set(i, data[pos]);
        assert buf.contents[..i + 1] == buf.contents[..i] + [data[pos]];
        assert data[old(pos)..pos + 1] == data[old(pos)..pos] + [data[pos]];
        i := i + 1;
        pos := pos + 1;
      }
      ok := i == n;
      assert i == n ==> buf.contents == buf.contents[..i];
      assert data[old(pos)..][i..] == data[pos..];
    }

    /** `read` into a one-byte buffer: how many bytes it got, 0 only at end of stream. */
    method Probe() returns (n: nat)
      requires Valid()
      modifies this
      ensures Valid()
      ensures n == if old(Remaining()) == [] then 0 else 1
      ensures Remaining() == old(Remaining())[n..]
    {
      if pos < |data| {
        pos := pos + 1;
        n := 1;
      } else {
        n := 0;
      }
    }
  }

  /**
   * The payload steps: reuse `buf` as a zeroed buffer of `size` bytes, fill it
   * with `read_exact`, then probe one more byte, which must find the end of
   * the stream.
   */
  method ReadPayload(z: Reader, buf: ByteVec, kind: Kind, size: nat) returns (r: Result<Object, Error>)
    requires z.Valid()
    modifies z, buf
    ensures z.Valid()
    ensures r == TakePayload(kind, size, old(z.Remaining()))
    ensures r.Ok? || r == Err(Truncated) ==> z.pos == |z.data|
  {
    ghost var body := z.Remaining();
    buf.Clear();
    buf.Resize(size, 0);
    var ok := z.ReadExact(buf);
    if !ok {
      return Err(Truncated);
    }
    assert buf.contents == body[..size] && z.Remaining() == body[size..];
    var n := z.Probe();
    if n != 0 {
      return Err(TrailingBytes(n));
    }
    assert body == body[..size];
    match kind {
      case Blob =>
        r := Ok(Object(Blob, buf.contents));
    }
  }

  /**
   * The header steps: `read_until` the nul into `buf`, check that the nul is
   * there, then parse the text before it.
   */
  method ReadHeader(z: Reader, buf: ByteVec) returns (parsed: Result<(Kind, nat), Error>)
    requires z.Valid() && buf.contents == []
    modifies z, buf
    ensures z.Valid()
    ensures var header := UntilDelim(old(z.Remaining()), NUL);
      && z.Remaining() == old(z.Remaining())[|header|..]
      && z.pos == old(z.pos) + |header|
      && parsed == if |header| == 0 || header[|header| - 1] != NUL then Err(MissingNul)
                   else ParseHeader(header[..|header| - 1])
  {
    ghost var rest := z.Remaining();
    z.ReadUntil(NUL, buf);
    var header := buf.contents;
    assert [] + UntilDelim(rest, NUL) == UntilDelim(rest, NUL);
    assert header == UntilDelim(rest, NUL);
    if |header| == 0 || header[|header| - 1] != NUL {
      return Err(MissingNul);
    }
    parsed := ParseHeader(header[..|header| - 1]);
  }

  /**
   * Decodes one decompressed object the way the command does, stopping at the
   * first failed check. `consumed` counts the stream bytes read: an error in
   * the header stops right after the header, before any payload byte.
   */
  method ReadObject(stream: seq<byte>) returns (r: Result<Object, Error>, ghost consumed: nat)
    ensures r == Decode(stream)
    ensures consumed <= |stream|
    ensures r.Ok? || r == Err(Truncated) ==> consumed == |stream|
    ensures r.Err? && !r.error.Truncated? && !r.error.TrailingBytes? ==>
      consumed == |UntilDelim(stream, NUL)|
  {
    var z := new Reader(stream);
    var buf := new ByteVec();
    assert z.Remaining() == stream;
    var parsed := ReadHeader(z, buf);
    consumed := z.pos;
    if parsed.Err? {
      return Err(parsed.error), consumed;
    }
    var (kind, size) := parsed.value;
    r := ReadPayload(z, buf, kind, size);
    consumed := z.pos;
  }

  /** What `cat-file -p` prints for an object: for a blob, its payload bytes. */
  function Render(obj: Object): (r: seq<byte>)
    ensures obj.kind == Blob ==> r == obj.payload && |r| == |obj.payload|
  {
    match obj.kind
    case Blob => obj.payload
  }

  /**
   * The whole command as a function of its arguments and of the object store,
   * given as a map from object path to the object's decompressed bytes:
   * what it prints, or why it stops.
   */
  function CatFileResult(prettyPrint: bool, hash: seq<byte>, store: map<seq<byte>, seq<byte>>)
    : (r: Result<seq<byte>, Error>)
    ensures !prettyPrint ==> r == Err(MissingPrettyPrint)
    ensures prettyPrint && !Splittable(hash) ==> r == Err(InvalidIdentifier)
  {
    if !prettyPrint then Err(MissingPrettyPrint)
    else match ObjectPath(hash)
      case Err(e) => Err(e)
      case Ok(path) =>
        if path !in store then Err(NotFound)
        else match Decode(store[path])
          case Err(e) => Err(e)
          case Ok(obj) => Ok(Render(obj))
  }

  /** Standard output, as the bytes written to it so far. */
  class Stdout {
    var written: seq<byte>

    constructor ()
      ensures written == []
    {
      written := [];
    }

    method WriteAll(bytes: seq<byte>)
      modifies this
      ensures written == old(written) + bytes
    {
      written := written + bytes;
    }
  }

  /**
   * `cat-file -p <hash>`: looks the object up, decodes it and, only once every
   * check has passed, writes its payload to standard output. On any error
   * nothing is written.
   */
  method CatFile(prettyPrint: bool, hash: seq<byte>, store: map<seq<byte>, seq<byte>>, stdout: Stdout)
    returns (r: Result<(), Error>)
    modifies stdout
    ensures r.Err? <==> CatFileResult(prettyPrint, hash, store).Err?
    ensures r.Err? ==> r.error == CatFileResult(prettyPrint, hash, store).error
    ensures r.Err? ==> stdout.written == old(stdout.written)
    ensures r.Ok? ==> stdout.written == old(stdout.written) + CatFileResult(prettyPrint, hash, store).value
  {
    if !prettyPrint {
      return Err(MissingPrettyPrint);
    }
    var path := ObjectPath(hash);
    if path.Err? {
      return Err(path.error);
    }
    if path.value !in store {
      return Err(NotFound);
    }
    var obj, _ := ReadObject(store[path.value]);
    if obj.Err? {
      return Err(obj.error);
    }
    match obj.value.kind {
      case Blob =>
        stdout.WriteAll(obj.value.payload);
    }
    r := Ok(());
  }

  /**
   * End to end: the command prints `out` exactly when `-p` is given, the
   * identifier can be sharded, its object file exists and holds a well-framed
   * blob whose payload is `out`.
   */
  lemma CatFilePrints(prettyPrint: bool, hash: seq<byte>, store: map<seq<byte>, seq<byte>>, out: seq<byte>)
    ensures CatFileResult(prettyPrint, hash, store) == Ok(out) <==>
      prettyPrint && ObjectPath(hash).Ok? && ObjectPath(hash).value in store
      && WellFramed(store[ObjectPath(hash).value], out)
  {
    if prettyPrint && ObjectPath(hash).Ok? && ObjectPath(hash).value in store {
      var s := store[ObjectPath(hash).value];
      DecodeOkIff(s, out);
      if CatFileResult(prettyPrint, hash, store) == Ok(out) {
        assert Decode(s).value.kind == Blob;
        assert Decode(s) == Ok(Object(Blob, out));
      }
    }
  }

  /** A hash that names no file is reported as not found. */
  lemma MissingObjectNotFound(hash: seq<byte>, store: map<seq<byte>, seq<byte>>)
    requires ObjectPath(hash).Ok? && ObjectPath(hash).value !in store
    ensures CatFileResult(true, hash, store) == Err(NotFound)
  {
  }
}
