/**
 * The loose-object framing read by `cat-file`, after decompression:
 *
 *     <kind> ' ' <size> NUL <payload>
 *
 * `Decode` states, as one function of the whole decompressed stream, what the
 * reader in module CatFile computes step by step. The lemmas characterise when
 * it succeeds and which error each malformed stream gets.
 */
module LooseObject {
  import opened Bytes
  import opened Wrappers
  import opened Errors
  import opened Usize

  /** The closed set of kinds this reader can print. */
  datatype Kind = Blob

  /** A decoded object: its kind and its payload bytes. */
  datatype Object = Object(kind: Kind, payload: seq<byte>)

  /** The header tag "blob". */
  const BLOB_TAG: seq<byte> := [0x62, 0x6C, 0x6F, 0x62]

  /** The tag each kind is written with in a header. */
  function TagOf(kind: Kind): seq<byte>
  {
    match kind
    case Blob => BLOB_TAG
  }

  /** Kind dispatch: the kind whose tag is `tag`, if there is one. */
  function ParseKind(tag: seq<byte>): (r: Option<Kind>)
    ensures r.Some? ==> TagOf(r.value) == tag
    ensures r.None? ==> forall k: Kind :: TagOf(k) != tag
  {
    if tag == BLOB_TAG then Some(Blob) else None
  }

  /**
   * `BufRead::read_until`: the bytes of `s` up to and including the first
   * `delim`, or all of `s` when it holds none.
   */
  function UntilDelim(s: seq<byte>, delim: byte): (r: seq<byte>)
    ensures r <= s
    ensures forall i :: 0 <= i < |r| - 1 ==> r[i] != delim
    ensures delim in s <==> 0 < |r| && r[|r| - 1] == delim
    ensures delim !in s ==> r == s
    decreases |s|
  {
    if |s| == 0 then []
    else if s[0] == delim then [delim]
    else [s[0]] + UntilDelim(s[1..], delim)
  }

  /** The bytes through the first `delim` are `s[..k]` when that delim is at `k - 1`. */
  lemma {:induction false} UntilDelimAt(s: seq<byte>, k: nat, delim: byte)
    requires 0 < k <= |s| && s[k - 1] == delim
    requires forall i :: 0 <= i < k - 1 ==> s[i] != delim
    ensures UntilDelim(s, delim) == s[..k]
    decreases k
  {
    if 1 < k {
      assert s[0] != delim;
      UntilDelimAt(s[1..], k - 1, delim);
      assert s[..k] == [s[0]] + s[1..][..k - 1];
    }
  }

  /**
   * A scan of `data` from `start` that stopped at `pos`, either just past the
   * first `delim` or at the end of `data` without meeting one, has read
   * exactly `UntilDelim` of what was left at `start`.
   */
  lemma UntilDelimScanned(data: seq<byte>, start: nat, pos: nat, delim: byte, found: bool)
    requires start <= pos <= |data|
    requires forall i :: start <= i < pos - 1 ==> data[i] != delim
    requires found <==> start < pos && data[pos - 1] == delim
    requires !found ==> pos == |data|
    ensures UntilDelim(data[start..], delim) == data[start..pos]
    ensures data[start..][pos - start..] == data[pos..]
  {
    var s := data[start..];
    var k := pos - start;
    assert s[..k] == data[start..pos];
    assert forall i :: 0 <= i < k - 1 ==> s[i] == data[start + i];
    if found {
      UntilDelimAt(s, k, delim);
    } else {
      assert forall i :: 0 <= i < |s| ==> s[i] != delim;
      assert s[..k] == s;
    }
  }

  /** `str::split_once`: the text before and after the first `sep`. */
  function SplitOnce(s: seq<byte>, sep: byte): (r: Option<(seq<byte>, seq<byte>)>)
    ensures r.None? <==> sep !in s
    ensures r.Some? ==> s == r.value.0 + [sep] + r.value.1 && sep !in r.value.0
    decreases |s|
  {
    if |s| == 0 then None
    else if s[0] == sep then Some(([], s[1..]))
    else match SplitOnce(s[1..], sep)
      case None => None
      case Some((before, after)) => Some(([s[0]] + before, after))
  }

  /**
   * The header text (the bytes before the nul): it must be UTF-8 and split at
   * its first space into a known kind tag and a `usize` size, checked in that
   * order.
   */
  function ParseHeader(text: seq<byte>): (r: Result<(Kind, nat), Error>)
    ensures r.Ok? ==> r.value.1 <= USIZE_MAX
    ensures r.Err? ==>
      (r.error.InvalidUtf8? || r.error.MissingSpace? || r.error.UnsupportedKind? || r.error.InvalidSize?)
  {
    if !ValidUtf8(text) then Err(InvalidUtf8)
    else match SplitOnce(text, SPACE)
      case None => Err(MissingSpace(text))
      case Some((tag, sizeText)) =>
        match ParseKind(tag)
        case None => Err(UnsupportedKind(tag))
        case Some(kind) =>
          match ParseUsize(sizeText)
          case None => Err(InvalidSize(sizeText))
          case Some(size) => Ok((kind, size))
  }

  /** What follows the header must be exactly `size` bytes long. */
  function TakePayload(kind: Kind, size: nat, body: seq<byte>): (r: Result<Object, Error>)
    ensures r.Ok? <==> |body| == size
    ensures r.Ok? ==> r.value == Object(kind, body)
    ensures |body| < size ==> r == Err(Truncated)
    ensures |body| > size ==> r == Err(TrailingBytes(1))
  {
    if |body| < size then Err(Truncated)
    else if |body| > size then Err(TrailingBytes(1))
    else Ok(Object(kind, body))
  }

  /**
   * What `cat-file` makes of a decompressed stream: the header is everything
   * through the first nul, and exactly the declared number of bytes follow.
   */
  function Decode(s: seq<byte>): (r: Result<Object, Error>)
    ensures r.Ok? ==> |r.value.payload| <= |s| && r.value.payload == s[|s| - |r.value.payload|..]
  {
    var header := UntilDelim(s, NUL);
    if |header| == 0 || header[|header| - 1] != NUL then Err(MissingNul)
    else match ParseHeader(header[..|header| - 1])
      case Err(e) => Err(e)
      case Ok((kind, size)) => TakePayload(kind, size, s[|header|..])
  }

  /** The header a writer puts in front of a payload. */
  function Header(tag: seq<byte>, sizeText: seq<byte>): seq<byte>
  {
    tag + [SPACE] + sizeText + [NUL]
  }

  /** The canonical encoding of a blob, as a writer produces it. */
  function Frame(payload: seq<byte>): seq<byte>
  {
    Header(BLOB_TAG, Decimal(|payload|)) + payload
  }

  /**
   * `s` is a blob carrying `payload`: "blob", a space, any size text the
   * parser reads as `|payload|`, a nul, then the payload and nothing else.
   */
  ghost predicate WellFramed(s: seq<byte>, payload: seq<byte>)
  {
    exists sizeText :: ParseUsize(sizeText) == Some(|payload|)
      && s == Header(BLOB_TAG, sizeText) + payload
  }

  /** The header ends at its own nul, whatever follows it. */
  lemma {:induction false} UntilNul(text: seq<byte>, rest: seq<byte>)
    requires NUL !in text
    ensures UntilDelim(text + [NUL] + rest, NUL) == text + [NUL]
    decreases |text|
  {
    var s := text + [NUL] + rest;
    if |text| == 0 {
      assert s[0] == NUL;
    } else {
      assert s[0] == text[0];
      assert s[1..] == text[1..] + [NUL] + rest;
      UntilNul(text[1..], rest);
    }
  }

  /** A header text split at its first space gives back its tag and size text. */
  lemma {:induction false} SplitHeader(tag: seq<byte>, sizeText: seq<byte>)
    requires SPACE !in tag
    ensures SplitOnce(tag + [SPACE] + sizeText, SPACE) == Some((tag, sizeText))
    decreases |tag|
  {
    var s := tag + [SPACE] + sizeText;
    if |tag| == 0 {
      assert s[0] == SPACE;
      assert s[1..] == sizeText;
    } else {
      assert s[0] == tag[0];
      assert s[1..] == tag[1..] + [SPACE] + sizeText;
      SplitHeader(tag[1..], sizeText);
      assert tag == [tag[0]] + tag[1..];
    }
  }

  /**
   * A stream whose header text holds no nul decodes as its header text says,
   * the rest of the stream being the payload.
   */
  lemma DecodeAtNul(text: seq<byte>, rest: seq<byte>)
    requires NUL !in text
    ensures Decode(text + [NUL] + rest) ==
      match ParseHeader(text)
      case Err(e) => Err(e)
      case Ok((kind, size)) => TakePayload(kind, size, rest)
  {
    var s := text + [NUL] + rest;
    UntilNul(text, rest);
    assert (text + [NUL])[..|text|] == text;
    assert s[|text| + 1..] == rest;
  }

  /** "blob", a space and a size text that parses make a blob header of that size. */
  lemma BlobHeader(sizeText: seq<byte>)
    requires ParseUsize(sizeText).Some?
    ensures NUL !in BLOB_TAG + [SPACE] + sizeText
    ensures ParseHeader(BLOB_TAG + [SPACE] + sizeText) == Ok((Blob, ParseUsize(sizeText).value))
  {
    SizeTextPlain(sizeText);
    var text := BLOB_TAG + [SPACE] + sizeText;
    assert text == (BLOB_TAG + [SPACE]) + sizeText;
    AsciiIsUtf8(text);
    SplitHeader(BLOB_TAG, sizeText);
  }

  /** A size text that parses holds neither a nul nor a space, and is ASCII. */
  lemma SizeTextPlain(sizeText: seq<byte>)
    requires ParseUsize(sizeText).Some?
    ensures NUL !in sizeText && SPACE !in sizeText && AllAscii(sizeText)
  {
  }

  /**
   * Completeness: every well-framed blob decodes to its payload, whatever
   * size text (leading zeros, a '+') its header spells the length with.
   */
  lemma DecodeWellFramed(sizeText: seq<byte>, payload: seq<byte>)
    requires ParseUsize(sizeText) == Some(|payload|)
    ensures Decode(Header(BLOB_TAG, sizeText) + payload) == Ok(Object(Blob, payload))
  {
    var text := BLOB_TAG + [SPACE] + sizeText;
    BlobHeader(sizeText);
    DecodeAtNul(text, payload);
  }

  /** A stream holding a nul is its header text, the nul, and the rest. */
  lemma SplitAtNul(s: seq<byte>) returns (text: seq<byte>, rest: seq<byte>)
    requires NUL in s
    ensures NUL !in text && s == text + [NUL] + rest
  {
    var header := UntilDelim(s, NUL);
    text := header[..|header| - 1];
    rest := s[|header|..];
    assert header == text + [NUL];
    assert s == header + rest;
  }

  /** A header text that parses is "blob", a space and a size text that parses to the size. */
  lemma ParsedIsBlob(text: seq<byte>) returns (sizeText: seq<byte>)
    requires ParseHeader(text).Ok?
    ensures ParseHeader(text).value.0 == Blob
    ensures ParseUsize(sizeText) == Some(ParseHeader(text).value.1)
    ensures text == BLOB_TAG + [SPACE] + sizeText
  {
    var tag;
    tag, sizeText := SplitOnce(text, SPACE).value.0, SplitOnce(text, SPACE).value.1;
    assert ParseKind(tag).Some?;
  }

  /**
   * Soundness: a stream decodes only if it is a well-framed blob, and then
   * the result is its payload.
   */
  lemma DecodeOkIsWellFramed(s: seq<byte>)
    requires Decode(s).Ok?
    ensures Decode(s).value.kind == Blob
    ensures WellFramed(s, Decode(s).value.payload)
  {
    var text, payload := SplitAtNul(s);
    DecodeAtNul(text, payload);
    var sizeText := ParsedIsBlob(text);
    assert Decode(s) == Ok(Object(Blob, payload));
    assert s == Header(BLOB_TAG, sizeText) + payload;
  }

  /** Decoding succeeds exactly on well-framed blobs. */
  lemma DecodeOkIff(s: seq<byte>, payload: seq<byte>)
    ensures Decode(s) == Ok(Object(Blob, payload)) <==> WellFramed(s, payload)
  {
    if Decode(s) == Ok(Object(Blob, payload)) {
      DecodeOkIsWellFramed(s);
    }
    if WellFramed(s, payload) {
      var sizeText :| ParseUsize(sizeText) == Some(|payload|)
        && s == Header(BLOB_TAG, sizeText) + payload;
      DecodeWellFramed(sizeText, payload);
    }
  }

  /** Round trip: decoding the canonical encoding of a payload gives it back. */
  lemma DecodeFrame(payload: seq<byte>)
    requires |payload| <= USIZE_MAX
    ensures Decode(Frame(payload)) == Ok(Object(Blob, payload))
  {
    ParseDecimal(|payload|);
    DecodeWellFramed(Decimal(|payload|), payload);
  }

  /** A stream without any nul byte is rejected: it has no header. */
  lemma NoNulRejected(s: seq<byte>)
    requires NUL !in s
    ensures Decode(s) == Err(MissingNul)
  {
  }

  /** A header text that is not UTF-8 is rejected, whatever follows it. */
  lemma BadUtf8Rejected(text: seq<byte>, rest: seq<byte>)
    requires NUL !in text && !ValidUtf8(text)
    ensures Decode(text + [NUL] + rest) == Err(InvalidUtf8)
  {
    DecodeAtNul(text, rest);
  }

  /** A header text without a space is rejected, whatever follows it. */
  lemma NoSpaceRejected(text: seq<byte>, rest: seq<byte>)
    requires NUL !in text && SPACE !in text && ValidUtf8(text)
    ensures Decode(text + [NUL] + rest) == Err(MissingSpace(text))
  {
    DecodeAtNul(text, rest);
  }

  /**
   * A tag other than "blob" is rejected naming the tag, before the size is
   * looked at and whatever payload follows.
   */
  lemma OtherKindRejected(tag: seq<byte>, sizeText: seq<byte>, rest: seq<byte>)
    requires tag != BLOB_TAG && SPACE !in tag
    requires NUL !in tag + [SPACE] + sizeText
    requires ValidUtf8(tag + [SPACE] + sizeText)
    ensures Decode(Header(tag, sizeText) + rest) == Err(UnsupportedKind(tag))
  {
    var text := tag + [SPACE] + sizeText;
    assert Header(tag, sizeText) + rest == text + [NUL] + rest;
    DecodeAtNul(text, rest);
    SplitHeader(tag, sizeText);
  }

  /** "blob", a space and a size text that does not parse make a header that fails on its size. */
  lemma BadSizeHeader(sizeText: seq<byte>)
    requires ValidUtf8(sizeText) && ParseUsize(sizeText).None?
    ensures ParseHeader(BLOB_TAG + [SPACE] + sizeText) == Err(InvalidSize(sizeText))
  {
    var text := BLOB_TAG + [SPACE] + sizeText;
    assert text == (BLOB_TAG + [SPACE]) + sizeText;
    AsciiPrefixUtf8(BLOB_TAG + [SPACE], sizeText);
    SplitHeader(BLOB_TAG, sizeText);
    assert ParseKind(BLOB_TAG) == Some(Blob);
  }

  /** A "blob" header whose size does not parse is rejected, whatever payload follows. */
  lemma BadSizeRejected(sizeText: seq<byte>, rest: seq<byte>)
    requires NUL !in sizeText && ValidUtf8(sizeText)
    requires ParseUsize(sizeText).None?
    ensures Decode(Header(BLOB_TAG, sizeText) + rest) == Err(InvalidSize(sizeText))
  {
    var text := BLOB_TAG + [SPACE] + sizeText;
    assert Header(BLOB_TAG, sizeText) + rest == text + [NUL] + rest;
    assert NUL !in BLOB_TAG + [SPACE];
    assert NUL !in text;
    BadSizeHeader(sizeText);
    DecodeAtNul(text, rest);
  }

  /**
   * No short read: every proper prefix of a well-framed blob is rejected,
   * with Truncated once the whole header is there.
   */
  lemma TruncatedRejected(sizeText: seq<byte>, payload: seq<byte>, k: nat)
    requires ParseUsize(sizeText) == Some(|payload|)
    requires k < |Header(BLOB_TAG, sizeText) + payload|
    ensures Decode((Header(BLOB_TAG, sizeText) + payload)[..k]).Err?
    ensures |Header(BLOB_TAG, sizeText)| <= k ==>
      Decode((Header(BLOB_TAG, sizeText) + payload)[..k]) == Err(Truncated)
  {
    var header := Header(BLOB_TAG, sizeText);
    var text := BLOB_TAG + [SPACE] + sizeText;
    var cut := (header + payload)[..k];
    BlobHeader(sizeText);
    if k < |header| {
      assert cut == text[..k];
      assert NUL !in cut;
    } else {
      var short := payload[..k - |header|];
      assert cut == text + [NUL] + short;
      DecodeAtNul(text, short);
    }
  }

  /** No trailing garbage: bytes after the declared payload are rejected. */
  lemma TrailingRejected(sizeText: seq<byte>, payload: seq<byte>, extra: seq<byte>)
    requires ParseUsize(sizeText) == Some(|payload|)
    requires 0 < |extra|
    ensures Decode(Header(BLOB_TAG, sizeText) + payload + extra) == Err(TrailingBytes(1))
  {
    var text := BLOB_TAG + [SPACE] + sizeText;
    assert Header(BLOB_TAG, sizeText) + payload + extra == text + [NUL] + (payload + extra);
    BlobHeader(sizeText);
    DecodeAtNul(text, payload + extra);
  }

  /** "hello" and the tag "tree", for the worked examples below. */
  const HELLO: seq<byte> := [0x68, 0x65, 0x6C, 0x6C, 0x6F]
  const TREE_TAG: seq<byte> := [0x74, 0x72, 0x65, 0x65]

  /** The size text "5". */
  lemma FiveParses()
    ensures ParseUsize([0x35]) == Some(5)
  {
    assert DigitsValue([0x35]) == 10 * DigitsValue([]) + 5;
  }

  /** Worked example: "blob 5\0hello" prints "hello". */
  lemma HelloDecodes()
    ensures Decode(Header(BLOB_TAG, [0x35]) + HELLO) == Ok(Object(Blob, HELLO))
  {
    FiveParses();
    DecodeWellFramed([0x35], HELLO);
  }

  /** Worked example: "blob 5\0hell" is truncated. */
  lemma HellTruncated()
    ensures Decode(Header(BLOB_TAG, [0x35]) + HELLO[..4]) == Err(Truncated)
  {
    var header := Header(BLOB_TAG, [0x35]);
    FiveParses();
    TruncatedRejected([0x35], HELLO, |header| + 4);
    assert (header + HELLO)[..|header| + 4] == header + HELLO[..4];
  }

  /** Worked example: "blob 5\0helloX" has a trailing byte. */
  lemma HelloXTrailing()
    ensures Decode(Header(BLOB_TAG, [0x35]) + HELLO + [0x58]) == Err(TrailingBytes(1))
  {
    FiveParses();
    TrailingRejected([0x35], HELLO, [0x58]);
  }

  /** Worked example: "tree 0\0" names a kind this reader does not print. */
  lemma TreeUnsupported()
    ensures Decode(Header(TREE_TAG, [0x30])) == Err(UnsupportedKind(TREE_TAG))
  {
    var text := TREE_TAG + [SPACE] + [0x30];
    assert AllAscii(text);
    AsciiIsUtf8(text);
    OtherKindRejected(TREE_TAG, [0x30], []);
    assert Header(TREE_TAG, [0x30]) + [] == Header(TREE_TAG, [0x30]);
  }
}
