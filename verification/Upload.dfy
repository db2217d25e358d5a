/**
Staging a pushed pack in object storage while hashing it:
`src/worker/git/receive/r2Upload.ts`.
 */
module Upload {
  import opened Bytes

  const MULTIPART_PART_BYTES: nat := 8 * 1024 * 1024
  const PACK_HEADER_BYTES: nat := 12
  const PACK_TRAILER_BYTES: nat := 20

  datatype StageError =
    PackSizeLimit | BadHeader | LengthMismatch | TooShort | EmptyPack | DigestMismatch | StreamOverrun

  datatype Part = Part(number: nat, bytes: seq<byte>)

  datatype Staged = Staged(packBytes: nat, parts: seq<Part>) | Rejected(error: StageError)

  // ---------- What staging is for ----------

  predicate FitsLimit(totalBytes: nat, maxBytes: Option<nat>) {
    maxBytes.None? || totalBytes <= maxBytes.value
  }

  /** `PACK` and version 2; a shorter prefix is not judged yet. */
  predicate HeaderAccepted(prefix: seq<byte>) {
    |prefix| >= PACK_HEADER_BYTES ==>
      prefix[0] == 0x50 && prefix[1] == 0x41 && prefix[2] == 0x43 && prefix[3] == 0x4b && GetUint32(prefix, 4) == 2
  }

  /** The signature and the version of a pack, in its first eight bytes. */
  lemma {:induction false} HeaderIsSignature(prefix: seq<byte>)
    ensures HeaderAccepted(prefix) <==> |prefix| < 12 || prefix[..8] == Ascii("PACK") + [0, 0, 0, 2]
  {
    if |prefix| >= 12 {
      var signature := Ascii("PACK") + [0, 0, 0, 2];
      assert prefix[..8] == signature <==> forall i :: 0 <= i < 8 ==> prefix[i] == signature[i];
    }
  }

  function HeaderPrefix(body: seq<byte>): (prefix: seq<byte>)
    ensures |prefix| <= PACK_HEADER_BYTES && prefix <= body
  {
    if |body| < PACK_HEADER_BYTES then body else body[..PACK_HEADER_BYTES]
  }

  predicate LongEnough(body: seq<byte>) {
    |body| >= 32
  }

  /** The last twenty bytes are the digest of all the others. */
  predicate TrailerMatches(sha1: seq<byte> -> seq<byte>, body: seq<byte>)
    requires LongEnough(body)
  {
    sha1(body[..|body| - 20]) == body[|body| - 20..]
  }

  /** A pack that may be staged. */
  predicate Acceptable(sha1: seq<byte> -> seq<byte>, body: seq<byte>, maxBytes: Option<nat>) {
    && FitsLimit(|body|, maxBytes) && HeaderAccepted(HeaderPrefix(body))
    && LongEnough(body) && TrailerMatches(sha1, body)
  }

  /** The error an unacceptable pack may be rejected with. */
  predicate Explains(error: StageError, sha1: seq<byte> -> seq<byte>, body: seq<byte>, maxBytes: Option<nat>) {
    match error
    case PackSizeLimit => !FitsLimit(|body|, maxBytes)
    case BadHeader => !HeaderAccepted(HeaderPrefix(body))
    case TooShort => !LongEnough(body)
    case DigestMismatch => LongEnough(body) && !TrailerMatches(sha1, body)
    case _ => false
  }

  /** The error a pack that was announced with a length may be rejected with. */
  predicate ExplainsKnown(error: StageError, sha1: seq<byte> -> seq<byte>, body: seq<byte>, expectedLength: nat,
                          maxBytes: Option<nat>) {
    match error
    case EmptyPack => expectedLength == 0
    case PackSizeLimit => !FitsLimit(expectedLength, maxBytes)
    case StreamOverrun => |body| > expectedLength
    case LengthMismatch => |body| < expectedLength
    case _ => Explains(error, sha1, body, maxBytes)
  }

  // ---------- The trailer window ----------

  /** All bytes read so far are hashed, except the last twenty. */
  ghost predicate Windowed(read: seq<byte>, hashed: seq<byte>, tail: seq<byte>) {
    read == hashed + tail && |tail| == if |read| < PACK_TRAILER_BYTES then |read| else PACK_TRAILER_BYTES
  }

  method UpdateTrailerWindow(hashed: seq<byte>, previousTail: seq<byte>, nextChunk: seq<byte>, ghost read: seq<byte>)
    returns (digested: seq<byte>, tail: seq<byte>)
    requires Windowed(read, hashed, previousTail)
    ensures Windowed(read + nextChunk, digested, tail)
  {
    var combined := previousTail + nextChunk;
    AppendAssociates(hashed, previousTail, nextChunk);
    if |combined| <= PACK_TRAILER_BYTES {
      return hashed, combined;
    }
    var cut := |combined| - PACK_TRAILER_BYTES;
    var digestBytes := combined[..cut];
    assert combined == digestBytes + combined[cut..];
    AppendAssociates(hashed, digestBytes, combined[cut..]);
    return hashed + digestBytes, combined[cut..];
  }

  /** The window over a whole body is its trailer. */
  lemma {:induction false} WindowIsTrailer(sha1: seq<byte> -> seq<byte>, body: seq<byte>, hashed: seq<byte>,
                                           tail: seq<byte>)
    requires Windowed(body, hashed, tail) && LongEnough(body)
    ensures TrailerMatches(sha1, body) <==> sha1(hashed) == tail
  {
    AppendParts(hashed, tail);
  }

  /** Extends the header prefix with what a chunk brings, and judges it once it is complete. */
  method CheckHeader(headerPrefix: seq<byte>, chunk: seq<byte>, ghost read: seq<byte>)
    returns (accepted: bool, prefix: seq<byte>)
    requires headerPrefix == HeaderPrefix(read) && HeaderAccepted(headerPrefix)
    ensures prefix == HeaderPrefix(read + chunk) && accepted == HeaderAccepted(prefix)
  {
    if |headerPrefix| >= PACK_HEADER_BYTES {
      assert (read + chunk)[..PACK_HEADER_BYTES] == read[..PACK_HEADER_BYTES];
      return true, headerPrefix;
    }
    var headerNeeded := PACK_HEADER_BYTES - |headerPrefix|;
    prefix := headerPrefix + if |chunk| < headerNeeded then chunk else chunk[..headerNeeded];
    if |prefix| < PACK_HEADER_BYTES {
      return true, prefix;
    }
    assert prefix == (read + chunk)[..PACK_HEADER_BYTES];
    accepted := prefix[0] == 0x50 && prefix[1] == 0x41 && prefix[2] == 0x43 && prefix[3] == 0x4b
                && GetUint32(prefix, 4) == 2;
  }

  /** A header that has been refused stays refused. */
  lemma {:induction false} RefusalIsFinal(read: seq<byte>, more: seq<byte>)
    requires !HeaderAccepted(HeaderPrefix(read))
    ensures !HeaderAccepted(HeaderPrefix(read + more))
  {
    assert (read + more)[..PACK_HEADER_BYTES] == read[..PACK_HEADER_BYTES];
  }

  // ---------- Multipart upload ----------

  /** A body cut into full parts and a shorter last one, which may be empty. */
  function Cut(body: seq<byte>): (pieces: seq<seq<byte>>)
    ensures |pieces| >= 1
    decreases |body|
  {
    if |body| < MULTIPART_PART_BYTES then [body]
    else [body[..MULTIPART_PART_BYTES]] + Cut(body[MULTIPART_PART_BYTES..])
  }

  function Numbered(pieces: seq<seq<byte>>): (parts: seq<Part>)
    ensures |parts| == |pieces|
  {
    seq(|pieces|, i requires 0 <= i < |pieces| => Part(i + 1, pieces[i]))
  }

  /** The pieces of a body conserve it; every piece but the last is full and the last is not. */
  lemma {:induction false} CutConserves(body: seq<byte>)
    ensures Flatten(Cut(body)) == body
    ensures forall i :: 0 <= i < |Cut(body)| - 1 ==> |Cut(body)[i]| == MULTIPART_PART_BYTES
    ensures |Cut(body)[|Cut(body)| - 1]| < MULTIPART_PART_BYTES
    decreases |body|
  {
    if |body| < MULTIPART_PART_BYTES {
      assert Flatten([body]) == body + [];
    } else {
      CutConserves(body[MULTIPART_PART_BYTES..]);
      assert Cut(body)[1..] == Cut(body[MULTIPART_PART_BYTES..]);
    }
  }

  /** The pieces are full, and with what is buffered they are all that was read. */
  ghost predicate Uploading(read: seq<byte>, pieces: seq<seq<byte>>, buffered: seq<byte>) {
    && (forall i :: 0 <= i < |pieces| ==> |pieces[i]| == MULTIPART_PART_BYTES)
    && read == Flatten(pieces) + buffered
  }

  lemma {:induction false} UploadingCuts(read: seq<byte>, pieces: seq<seq<byte>>, buffered: seq<byte>)
    requires Uploading(read, pieces, buffered) && |buffered| < MULTIPART_PART_BYTES
    ensures Cut(read) == pieces + [buffered]
    decreases |pieces|
  {
    if pieces == [] {
      assert read == buffered;
    } else {
      var rest := Flatten(pieces[1..]) + buffered;
      AppendAssociates(pieces[0], Flatten(pieces[1..]), buffered);
      AppendParts(pieces[0], rest);
      UploadingCuts(rest, pieces[1..], buffered);
      assert [pieces[0]] + (pieces[1..] + [buffered]) == pieces + [buffered];
    }
  }

  lemma {:induction false} NumberedSnoc(pieces: seq<seq<byte>>, piece: seq<byte>)
    ensures Numbered(pieces + [piece]) == Numbered(pieces) + [Part(|pieces| + 1, piece)]
  {
  }

  /** Uploads every full part that is buffered. */
  method UploadFullParts(parts: seq<Part>, buffer: seq<byte>, number: nat, ghost read: seq<byte>,
                         ghost pieces: seq<seq<byte>>)
    returns (uploadedParts: seq<Part>, buffered: seq<byte>, partNumber: nat, ghost cut: seq<seq<byte>>)
    requires Uploading(read, pieces, buffer) && parts == Numbered(pieces) && number == |pieces| + 1
    ensures Uploading(read, cut, buffered) && |buffered| < MULTIPART_PART_BYTES
    ensures uploadedParts == Numbered(cut) && partNumber == |cut| + 1
  {
    uploadedParts, buffered, partNumber, cut := parts, buffer, number, pieces;
    while |buffered| >= MULTIPART_PART_BYTES
      invariant Uploading(read, cut, buffered) && uploadedParts == Numbered(cut) && partNumber == |cut| + 1
    {
      var partBytes := buffered[..MULTIPART_PART_BYTES];
      assert buffered == partBytes + buffered[MULTIPART_PART_BYTES..];
      buffered := buffered[MULTIPART_PART_BYTES..];
      FlattenSnoc(cut, partBytes);
      AppendAssociates(Flatten(cut), partBytes, buffered);
      NumberedSnoc(cut, partBytes);
      uploadedParts := uploadedParts + [Part(partNumber, partBytes)];
      partNumber := partNumber + 1;
      cut := cut + [partBytes];
    }
  }

  /** The trailer checks that end both ways of staging. */
  method CheckTrailer(sha1: seq<byte> -> seq<byte>, hashed: seq<byte>, tail: seq<byte>, ghost body: seq<byte>)
    returns (matches: bool)
    requires Windowed(body, hashed, tail) && LongEnough(body)
    ensures matches == TrailerMatches(sha1, body)
  {
    WindowIsTrailer(sha1, body, hashed, tail);
    matches := sha1(hashed) == tail;
  }

  /** What was read before chunk `i`. */
  function ReadBefore(chunks: seq<seq<byte>>, i: nat): seq<byte>
    requires i <= |chunks|
  {
    Flatten(chunks[..i])
  }

  lemma {:induction false} ReadMore(chunks: seq<seq<byte>>, i: nat)
    requires i < |chunks|
    ensures ReadBefore(chunks, i + 1) == ReadBefore(chunks, i) + chunks[i]
  {
    var before, more := chunks[..i], chunks[..i + 1];
    assert more == before + [chunks[i]];
    FlattenSnoc(before, chunks[i]);
  }

  lemma {:induction false} SplitRead(chunks: seq<seq<byte>>, i: nat)
    requires i <= |chunks|
    ensures Flatten(chunks) == ReadBefore(chunks, i) + Flatten(chunks[i..])
  {
    var before, after := chunks[..i], chunks[i..];
    assert chunks == before + after;
    FlattenAppend(before, after);
  }

  /** A header refused after some chunks is the header of the whole body. */
  lemma {:induction false} RefusedForGood(chunks: seq<seq<byte>>, i: nat)
    requires i <= |chunks| && !HeaderAccepted(HeaderPrefix(ReadBefore(chunks, i)))
    ensures !HeaderAccepted(HeaderPrefix(Flatten(chunks)))
  {
    SplitRead(chunks, i);
    RefusalIsFinal(ReadBefore(chunks, i), Flatten(chunks[i..]));
  }

  lemma {:induction false} ReadAll(chunks: seq<seq<byte>>)
    ensures ReadBefore(chunks, 0) == [] && ReadBefore(chunks, |chunks|) == Flatten(chunks)
  {
    assert chunks[..|chunks|] == chunks;
  }

  /**
  A stream of unknown length is staged exactly when its bytes are acceptable, and the parts
  completed depend on those bytes alone, not on the chunks they came in.
   */
  method StageMultipartPack(sha1: seq<byte> -> seq<byte>, packStream: seq<seq<byte>>, maxBytes: Option<nat>)
    returns (r: Staged)
    ensures r.Staged? <==> Acceptable(sha1, Flatten(packStream), maxBytes)
    ensures r.Staged? ==> r.packBytes == |Flatten(packStream)| && r.parts == Numbered(Cut(Flatten(packStream)))
    ensures r.Rejected? ==> Explains(r.error, sha1, Flatten(packStream), maxBytes)
  {
    ghost var body := Flatten(packStream);
    ghost var pieces: seq<seq<byte>> := [];
    var uploadedParts: seq<Part> := [];
    var buffered: seq<byte>, headerPrefix: seq<byte>, hashed: seq<byte>, tail: seq<byte> := [], [], [], [];
    var totalBytes, partNumber := 0, 1;
    ReadAll(packStream);
    for i := 0 to |packStream|
      invariant totalBytes == |ReadBefore(packStream, i)| && (i > 0 ==> FitsLimit(totalBytes, maxBytes))
      invariant headerPrefix == HeaderPrefix(ReadBefore(packStream, i)) && HeaderAccepted(headerPrefix)
      invariant Windowed(ReadBefore(packStream, i), hashed, tail)
      invariant Uploading(ReadBefore(packStream, i), pieces, buffered) && |buffered| < MULTIPART_PART_BYTES
      invariant uploadedParts == Numbered(pieces) && partNumber == |pieces| + 1
    {
      var chunk := packStream[i];
      ghost var read := ReadBefore(packStream, i);
      ReadMore(packStream, i);
      totalBytes := totalBytes + |chunk|;
      if maxBytes.Some? && totalBytes > maxBytes.value {
        SplitRead(packStream, i + 1);
        return Rejected(PackSizeLimit);
      }
      var accepted;
      accepted, headerPrefix := CheckHeader(headerPrefix, chunk, read);
      if !accepted {
        RefusedForGood(packStream, i + 1);
        return Rejected(BadHeader);
      }
      hashed, tail := UpdateTrailerWindow(hashed, tail, chunk, read);
      AppendAssociates(Flatten(pieces), buffered, chunk);
      uploadedParts, buffered, partNumber, pieces :=
        UploadFullParts(uploadedParts, buffered + chunk, partNumber, read + chunk, pieces);
    }
    r := CompleteMultipart(sha1, body, maxBytes, pieces, totalBytes, uploadedParts, buffered, partNumber, hashed, tail);
  }

  /** The checks after the last chunk, and the last part. */
  method CompleteMultipart(sha1: seq<byte> -> seq<byte>, ghost body: seq<byte>, ghost maxBytes: Option<nat>,
                           ghost pieces: seq<seq<byte>>, totalBytes: nat, parts: seq<Part>, buffered: seq<byte>,
                           partNumber: nat, hashed: seq<byte>, tail: seq<byte>)
    returns (r: Staged)
    requires totalBytes == |body| && (body != [] ==> FitsLimit(|body|, maxBytes))
    requires HeaderAccepted(HeaderPrefix(body)) && Windowed(body, hashed, tail)
    requires Uploading(body, pieces, buffered) && |buffered| < MULTIPART_PART_BYTES
    requires parts == Numbered(pieces) && partNumber == |pieces| + 1
    ensures r.Staged? <==> Acceptable(sha1, body, maxBytes)
    ensures r.Staged? ==> r.packBytes == |body| && r.parts == Numbered(Cut(body))
    ensures r.Rejected? ==> Explains(r.error, sha1, body, maxBytes)
  {
    UploadingCuts(body, pieces, buffered);
    NumberedSnoc(pieces, buffered);
    if totalBytes < PACK_HEADER_BYTES + PACK_TRAILER_BYTES {
      return Rejected(TooShort);
    }
    if |buffered| == 0 && |parts| == 0 {
      return Rejected(EmptyPack);
    }
    var matches := CheckTrailer(sha1, hashed, tail, body);
    if !matches {
      return Rejected(DigestMismatch);
    }
    return Staged(totalBytes, parts + [Part(partNumber, buffered)]);
  }

  function PieceBytes(parts: seq<Part>): (pieces: seq<seq<byte>>)
    ensures |pieces| == |parts|
  {
    seq(|parts|, i requires 0 <= i < |parts| => parts[i].bytes)
  }

  /**
  The parts of a staged pack join to the pack; they are numbered from 1, all but the last
  hold exactly 8 MiB, and the last holds the remainder, which may be empty.
   */
  lemma {:induction false} PartsConserve(body: seq<byte>)
    ensures var parts := Numbered(Cut(body));
            && Flatten(PieceBytes(parts)) == body
            && |parts| == |body| / 8_388_608 + 1
            && (forall i :: 0 <= i < |parts| ==> parts[i].number == i + 1)
            && (forall i :: 0 <= i < |parts| - 1 ==> |parts[i].bytes| == 8_388_608)
            && |parts[|parts| - 1].bytes| == |body| % 8_388_608
  {
    CutConserves(body);
    CutLength(body);
    assert PieceBytes(Numbered(Cut(body))) == Cut(body);
  }

  lemma {:induction false} CutLength(body: seq<byte>)
    ensures |Cut(body)| == |body| / MULTIPART_PART_BYTES + 1
    ensures |Cut(body)[|Cut(body)| - 1]| == |body| % MULTIPART_PART_BYTES
    decreases |body|
  {
    if |body| >= MULTIPART_PART_BYTES {
      CutLength(body[MULTIPART_PART_BYTES..]);
      OneMore(|body| - MULTIPART_PART_BYTES, MULTIPART_PART_BYTES);
    } else {
      ModOfSum(0, |body|, MULTIPART_PART_BYTES);
    }
  }

  lemma {:induction false} OneMore(n: nat, m: nat)
    requires m > 0
    ensures (n + m) / m == n / m + 1 && (n + m) % m == n % m
  {
    assert n + m == (n / m + 1) * m + n % m;
    ModOfSum(n / m + 1, n % m, m);
  }

  // ---------- Upload of a known length ----------

  /** A stream that accepts exactly `expectedLength` bytes. */
  class FixedLengthStream {
    const expectedLength: nat
    var written: seq<byte>

    constructor (expectedLength: nat)
      ensures this.expectedLength == expectedLength && written == []
    {
      this.expectedLength := expectedLength;
      written := [];
    }

    method Write(chunk: seq<byte>) returns (accepted: bool)
      modifies this
      ensures accepted == (|old(written)| + |chunk| <= expectedLength)
      ensures written == if accepted then old(written) + chunk else old(written)
    {
      accepted := |written| + |chunk| <= expectedLength;
      if accepted {
        written := written + chunk;
      }
    }
  }

  /** A pack of announced length is staged exactly when its bytes are acceptable and of that length. */
  method StageKnownLengthPack(sha1: seq<byte> -> seq<byte>, expectedLength: nat, packStream: seq<seq<byte>>,
                              maxBytes: Option<nat>)
    returns (r: Staged)
    ensures r.Staged? <==> Acceptable(sha1, Flatten(packStream), maxBytes) && |Flatten(packStream)| == expectedLength
    ensures r.Staged? ==> r.packBytes == expectedLength && r.parts == [Part(1, Flatten(packStream))]
    ensures r.Rejected? ==> ExplainsKnown(r.error, sha1, Flatten(packStream), expectedLength, maxBytes)
  {
    ghost var body := Flatten(packStream);
    if expectedLength <= 0 {
      return Rejected(EmptyPack);
    }
    if maxBytes.Some? && expectedLength > maxBytes.value {
      return Rejected(PackSizeLimit);
    }
    var fixedLengthStream := new FixedLengthStream(expectedLength);
    var headerPrefix: seq<byte>, hashed: seq<byte>, tail: seq<byte> := [], [], [];
    var totalBytes := 0;
    ReadAll(packStream);
    for i := 0 to |packStream|
      invariant totalBytes == |ReadBefore(packStream, i)| <= expectedLength
      invariant fixedLengthStream.expectedLength == expectedLength
      invariant fixedLengthStream.written == ReadBefore(packStream, i)
      invariant headerPrefix == HeaderPrefix(ReadBefore(packStream, i)) && HeaderAccepted(headerPrefix)
      invariant Windowed(ReadBefore(packStream, i), hashed, tail)
    {
      var chunk := packStream[i];
      ghost var read := ReadBefore(packStream, i);
      ReadMore(packStream, i);
      totalBytes := totalBytes + |chunk|;
      var accepted;
      accepted, headerPrefix := CheckHeader(headerPrefix, chunk, read);
      if !accepted {
        RefusedForGood(packStream, i + 1);
        return Rejected(BadHeader);
      }
      hashed, tail := UpdateTrailerWindow(hashed, tail, chunk, read);
      accepted := fixedLengthStream.Write(chunk);
      if !accepted {
        SplitRead(packStream, i + 1);
        return Rejected(StreamOverrun);
      }
    }
    if totalBytes != expectedLength {
      return Rejected(LengthMismatch);
    }
    if totalBytes < PACK_HEADER_BYTES + PACK_TRAILER_BYTES {
      return Rejected(TooShort);
    }
    var matches := CheckTrailer(sha1, hashed, tail, body);
    if !matches {
      return Rejected(DigestMismatch);
    }
    return Staged(totalBytes, [Part(1, fixedLengthStream.written)]);
  }

  /** The pack bytes a request announces, when its `Content-Length` is usable. */
  function RemainingBodyLength(contentLength: Option<int>, bytesConsumed: nat): Option<nat> {
    if contentLength.None? || contentLength.value < 0 || contentLength.value < bytesConsumed then None
    else Some(contentLength.value - bytesConsumed)
  }

  /**
  Either way of staging accepts the same packs, except that an announced length must be
  right; and what is stored is the pack.
   */
  method StagePackToR2(sha1: seq<byte> -> seq<byte>, contentLength: Option<int>, bytesConsumed: nat,
                       packStream: seq<seq<byte>>, maxBytes: Option<nat>)
    returns (r: Staged)
    ensures r.Staged? <==> Acceptable(sha1, Flatten(packStream), maxBytes)
                           && (contentLength.None? || contentLength.value < bytesConsumed
                               || contentLength.value - bytesConsumed == |Flatten(packStream)|)
    ensures r.Staged? ==> r.packBytes == |Flatten(packStream)| && Flatten(PieceBytes(r.parts)) == Flatten(packStream)
  {
    var remaining := RemainingBodyLength(contentLength, bytesConsumed);
    if remaining.Some? {
      r := StageKnownLengthPack(sha1, remaining.value, packStream, maxBytes);
      if r.Staged? {
        assert PieceBytes(r.parts) == [Flatten(packStream)];
        FlattenSnoc([], Flatten(packStream));
      }
      return;
    }
    r := StageMultipartPack(sha1, packStream, maxBytes);
    PartsConserve(Flatten(packStream));
  }
}
