/** `read`: the scheme byte that opens every sector payload picks the
    decompressor, and the rest of the payload is the compressed stream. The
    decompressors themselves are library code and stay abstract. */
module Compression {
  import opened Common

  datatype Scheme = Gzip | Zlib

  /** The scheme a payload's first byte names, if any. */
  function SchemeOf(tag: byte): (s: Option<Scheme>)
    ensures s == Some(Gzip) <==> tag == 1
    ensures s == Some(Zlib) <==> tag == 2
  {
    if tag == 1 then Some(Gzip)
    else if tag == 2 then Some(Zlib)
    else None
  }

  /** The byte a payload compressed with `s` starts with. */
  function TagOf(s: Scheme): byte {
    match s
    case Gzip => 1
    case Zlib => 2
  }

  lemma TagRoundTrip(s: Scheme, tag: byte)
    ensures SchemeOf(TagOf(s)) == Some(s)
    ensures SchemeOf(tag).Some? ==> TagOf(SchemeOf(tag).value) == tag
  {
  }

  /** The reader the NBT decoder pulls from: the bare bytes when no scheme was
      recognised, a decompressor over the compressed bytes when its
      constructor succeeded, and the nil reader a failed constructor returns. */
  datatype Stream =
    | Uncompressed(bytes: seq<byte>)
    | Decompressing(scheme: Scheme, bytes: seq<byte>)
    | NilReader(scheme: Scheme)

  /** `nbt.NewDecoder(reader)`: decoding itself is library code. */
  datatype Decoder = Decoder(source: Stream)

  /** `read` returns a decoder and an error; the decoder is there in every case. */
  datatype ReadResult = ReadResult(decoder: Decoder, err: Option<Failure>)

  /** `read(data)`. `readerError(s, b)` is the error `gzip.NewReader` or
      `zlib.NewReader` returns over `b`: they parse a header eagerly, and on
      failure give a message and a nil reader; None means the constructor
      succeeded. The payload must be non-empty:
      the source slices `data[1:]` and indexes `data[0]` before anything else. */
  function Read(data: seq<byte>, readerError: (Scheme, seq<byte>) -> Option<string>): (r: ReadResult)
    requires |data| > 0
    ensures r.err == Some(UnknownCompression) <==> SchemeOf(data[0]).None?
    ensures r.err.None? <==> SchemeOf(data[0]).Some? && readerError(SchemeOf(data[0]).value, data[1..]).None?
    ensures SchemeOf(data[0]).Some? && readerError(SchemeOf(data[0]).value, data[1..]).Some? ==>
              r.err == Some(NewReaderFailed(readerError(SchemeOf(data[0]).value, data[1..]).value))
    ensures r.decoder.source.NilReader? <==> r.err.Some? && r.err != Some(UnknownCompression)
    ensures !r.decoder.source.NilReader? ==> r.decoder.source.bytes == data[1..]
    ensures r.err.None? ==> r.decoder.source == Decompressing(SchemeOf(data[0]).value, data[1..])
  {
    var rest := data[1..];
    match SchemeOf(data[0])
    case None => ReadResult(Decoder(Uncompressed(rest)), Some(UnknownCompression))
    case Some(s) =>
      match readerError(s, rest)
      case None => ReadResult(Decoder(Decompressing(s, rest)), None)
      case Some(m) => ReadResult(Decoder(NilReader(s)), Some(NewReaderFailed(m)))
  }

  /** A payload tagged with a known scheme is handed, without its tag byte, to
      that scheme's decompressor. It fails exactly when the decompressor's
      constructor does, with that constructor's error and a nil reader. */
  lemma ReadKnownScheme(s: Scheme, body: seq<byte>, readerError: (Scheme, seq<byte>) -> Option<string>)
    ensures var r := Read([TagOf(s)] + body, readerError);
            && (readerError(s, body).None? ==> r == ReadResult(Decoder(Decompressing(s, body)), None))
            && (readerError(s, body).Some? ==>
                  r == ReadResult(Decoder(NilReader(s)), Some(NewReaderFailed(readerError(s, body).value))))
  {
    assert ([TagOf(s)] + body)[1..] == body;
  }

  /** Every other tag byte is the "unknown compression" error, and the decoder
      returned beside it reads the bare remaining bytes. */
  lemma ReadUnknownScheme(tag: byte, body: seq<byte>, readerError: (Scheme, seq<byte>) -> Option<string>)
    requires tag != 1 && tag != 2
    ensures var r := Read([tag] + body, readerError);
            && r.err == Some(UnknownCompression)
            && r.decoder == Decoder(Uncompressed(body))
  {
    assert ([tag] + body)[1..] == body;
  }

  /** Nothing of the payload is lost: unless a constructor failed, the tag byte
      followed by the stream's bytes is the payload again. */
  lemma ReadSplitsPayload(data: seq<byte>, readerError: (Scheme, seq<byte>) -> Option<string>)
    requires |data| > 0
    ensures var src := Read(data, readerError).decoder.source;
            !src.NilReader? ==> [data[0]] + src.bytes == data
  {
    assert [data[0]] + data[1..] == data;
  }
}
