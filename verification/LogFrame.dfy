/**
The byte layout of `active.wlog`: a 16-byte file header followed by frames of
a 24-byte checksummed header and a payload.

A crash leaves a prefix of the file. `CutFrameStops` says what the reader makes
of every proper prefix of a frame, and `WholeFrameParses` that a complete frame
is read back exactly, whatever follows it.
*/
module LogFrame {
  import opened ByteCodec

  const DATABASE_MAGIC: Bytes := [0x46, 0x54, 0x57, 0x44, 0x42, 0x30, 0x30, 0x31]
  const DATABASE_HEADER_BYTES: nat := 16
  const FRAME_MAGIC: Bytes := [0x57, 0x42, 0x41, 0x54]
  const FRAME_HEADER_BYTES: nat := 24

  // What is wrong with a frame that a reader refuses.
  datatype Fault =
    | InvalidFrameMagic
    | UnsupportedFrameVersion
    | FrameHeaderChecksumMismatch
    | InvalidLegacyFrameSize
    | InvalidLegacyPoint
    | TransactionFrameTooLarge
    | IdentifiedTransactionTooShort
    | IngressTransactionTooShort
    | UnknownFrameKind
    | PayloadChecksumMismatch
    | DuplicateCommitId
    | DuplicateIngressSequence
    | InvalidIngressSequence
    | InvalidTransaction
    | TransactionPointCountTooLarge
    | InvalidCatalogTransaction
    | SealCheckpointInvalid
    | IdentityIndexInvalid

  // Why a scan went no further: the end of the file, a torn tail, or damage.
  datatype Stop =
    | CleanEof
    | IncompleteFrameHeader
    | IncompleteFramePayload
    | Damaged(fault: Fault)

  // How frames are checked: a checksum, and the size rules per frame kind.
  datatype Format = Format(crc: Bytes -> u32, refuse: (u16, u32, nat) -> Option<Fault>)

  datatype Frame = Frame(kind: u16, items: u32, payload: Bytes)

  predicate FrameFits(f: Frame) {
    |f.payload| <= U32_MAX
  }

  function FrameBytes(f: Frame): nat {
    FRAME_HEADER_BYTES + |f.payload|
  }

  // The first twenty header bytes, given the payload's length and checksum.
  function RawPrefix(kind: u16, items: u32, length: u32, payloadCrc: u32): (r: Bytes)
    ensures |r| == 20
  {
    FRAME_MAGIC + LE(1, 2) + LE(kind, 2) + LE(items, 4) + LE(length, 4) + LE(payloadCrc, 4)
  }

  function RawHeader(crc: Bytes -> u32, kind: u16, items: u32, length: u32, payloadCrc: u32): (r: Bytes)
    ensures |r| == FRAME_HEADER_BYTES
  {
    var prefix := RawPrefix(kind, items, length, payloadCrc);
    prefix + LE(crc(prefix), 4)
  }

  function HeaderPrefix(format: Format, f: Frame): (r: Bytes)
    requires FrameFits(f)
    ensures |r| == 20
  {
    RawPrefix(f.kind, f.items, |f.payload|, format.crc(f.payload))
  }

  function EncodeHeader(format: Format, f: Frame): (r: Bytes)
    requires FrameFits(f)
    ensures |r| == FRAME_HEADER_BYTES
  {
    RawHeader(format.crc, f.kind, f.items, |f.payload|, format.crc(f.payload))
  }

  function EncodeFrame(format: Format, f: Frame): (r: Bytes)
    requires FrameFits(f)
    ensures |r| == FrameBytes(f)
  {
    EncodeHeader(format, f) + f.payload
  }

  datatype Parsed = Stopped(reason: Stop) | Whole(frame: Frame)

  // Reads one frame from the front of the remaining, non-empty bytes.
  function ParseFrame(format: Format, rest: Bytes): (r: Parsed)
    requires rest != []
    ensures r.Whole? ==>
              && Admissible(format, r.frame)
              && FrameBytes(r.frame) <= |rest|
    ensures r.Stopped? ==> r.reason != CleanEof
  {
    if |rest| < FRAME_HEADER_BYTES then Stopped(IncompleteFrameHeader)
    else if rest[..4] != FRAME_MAGIC then Stopped(Damaged(InvalidFrameMagic))
    else if FromLE(rest[4..6]) != 1 then Stopped(Damaged(UnsupportedFrameVersion))
    else if format.crc(rest[..20]) != ReadU32(rest, 20) then Stopped(Damaged(FrameHeaderChecksumMismatch))
    else
      Pow256Values();
      var kind := FromLE(rest[6..8]);
      var items := ReadU32(rest, 8);
      var length := ReadU32(rest, 12);
      match format.refuse(kind, items, length)
      case Some(fault) => Stopped(Damaged(fault))
      case None =>
        if |rest| < FRAME_HEADER_BYTES + length then Stopped(IncompleteFramePayload)
        else
          var payload := rest[FRAME_HEADER_BYTES..FRAME_HEADER_BYTES + length];
          if format.crc(payload) != ReadU32(rest, 16) then Stopped(Damaged(PayloadChecksumMismatch))
          else Whole(Frame(kind, items, payload))
  }

  // Every header field is read back from its own bytes.
  lemma HeaderSlices(format: Format, f: Frame, after: Bytes)
    requires FrameFits(f)
    ensures var rest := EncodeHeader(format, f) + after;
            && rest[..4] == FRAME_MAGIC
            && FromLE(rest[4..6]) == 1
            && FromLE(rest[6..8]) == f.kind
            && ReadU32(rest, 8) == f.items
            && ReadU32(rest, 12) == |f.payload|
            && ReadU32(rest, 16) == format.crc(f.payload)
            && rest[..20] == HeaderPrefix(format, f)
            && ReadU32(rest, 20) == format.crc(rest[..20])
  {
    var prefix := HeaderPrefix(format, f);
    var rest := EncodeHeader(format, f) + after;
    Pow256Values();
    assert rest[..20] == prefix;
    assert rest[20..24] == LE(format.crc(prefix), 4);
    FromLEOfLE(format.crc(prefix), 4);
    HeaderFieldSlices(format, f);
    assert rest[..4] == prefix[..4];
    assert rest[4..6] == prefix[4..6];
    assert rest[6..8] == prefix[6..8];
    assert rest[8..12] == prefix[8..12];
    assert rest[12..16] == prefix[12..16];
    assert rest[16..20] == prefix[16..20];
    FromLEOfLE(1, 2);
    FromLEOfLE(f.kind, 2);
    FromLEOfLE(f.items, 4);
    FromLEOfLE(|f.payload|, 4);
    FromLEOfLE(format.crc(f.payload), 4);
  }

  lemma HeaderFieldSlices(format: Format, f: Frame)
    requires FrameFits(f)
    ensures var prefix := HeaderPrefix(format, f);
            && prefix[..4] == FRAME_MAGIC
            && prefix[4..6] == LE(1, 2)
            && prefix[6..8] == LE(f.kind, 2)
            && prefix[8..12] == LE(f.items, 4)
            && prefix[12..16] == LE(|f.payload|, 4)
            && prefix[16..20] == LE(format.crc(f.payload), 4)
  {
  }

  // The size rules accept the frame.
  predicate Admissible(format: Format, f: Frame) {
    FrameFits(f) && format.refuse(f.kind, f.items, |f.payload|).None?
  }

  lemma WholeFrameParses(format: Format, f: Frame, after: Bytes)
    requires Admissible(format, f)
    ensures ParseFrame(format, EncodeFrame(format, f) + after) == Whole(f)
    ensures (EncodeFrame(format, f) + after)[FrameBytes(f)..] == after
  {
    var rest := EncodeFrame(format, f) + after;
    assert rest == EncodeHeader(format, f) + (f.payload + after);
    HeaderSlices(format, f, f.payload + after);
    assert rest[FRAME_HEADER_BYTES..FRAME_HEADER_BYTES + |f.payload|] == f.payload;
  }

  // A frame cut anywhere short of its end is recognised as incomplete.
  lemma CutFrameStops(format: Format, f: Frame, n: nat)
    requires Admissible(format, f)
    requires 0 < n < FrameBytes(f)
    ensures ParseFrame(format, EncodeFrame(format, f)[..n])
         == Stopped(if n < FRAME_HEADER_BYTES then IncompleteFrameHeader else IncompleteFramePayload)
  {
    if n >= FRAME_HEADER_BYTES {
      var cut := EncodeFrame(format, f)[..n];
      var part := f.payload[..n - FRAME_HEADER_BYTES];
      assert cut == EncodeHeader(format, f) + part;
      HeaderSlices(format, f, part);
    }
  }

  // A frame is read from its own bytes alone.
  lemma ParseIsLocal(format: Format, rest: Bytes, n: nat)
    requires rest != [] && ParseFrame(format, rest).Whole?
    requires FrameBytes(ParseFrame(format, rest).frame) <= n <= |rest|
    ensures n > 0 && ParseFrame(format, rest[..n]) == ParseFrame(format, rest)
  {
    var cut := rest[..n];
    var end := FrameBytes(ParseFrame(format, rest).frame);
    assert cut[..4] == rest[..4] && cut[4..6] == rest[4..6] && cut[6..8] == rest[6..8];
    assert cut[8..12] == rest[8..12] && cut[12..16] == rest[12..16] && cut[16..20] == rest[16..20];
    assert cut[20..24] == rest[20..24] && cut[..20] == rest[..20];
    assert cut[FRAME_HEADER_BYTES..end] == rest[FRAME_HEADER_BYTES..end];
  }

  // Accepted bytes are exactly the encoding of the frame they were read as.
  lemma ParseIsCanonical(format: Format, rest: Bytes)
    requires rest != [] && ParseFrame(format, rest).Whole?
    ensures var f := ParseFrame(format, rest).frame;
            rest == EncodeFrame(format, f) + rest[FrameBytes(f)..]
  {
    var f := ParseFrame(format, rest).frame;
    hide LE, FromLE;
    LEOfFromLE(rest[4..6]);
    LEOfFromLE(rest[6..8]);
    LEOfFromLE(rest[8..12]);
    LEOfFromLE(rest[12..16]);
    LEOfFromLE(rest[16..20]);
    LEOfFromLE(rest[20..24]);
    assert rest[..20] == rest[..4] + rest[4..6] + rest[6..8] + rest[8..12] + rest[12..16] + rest[16..20];
    assert rest[..20] == HeaderPrefix(format, f);
    assert rest[..24] == rest[..20] + rest[20..24];
    assert rest == rest[..24] + rest[24..FrameBytes(f)] + rest[FrameBytes(f)..];
  }

  // ---- File header ----

  function DatabaseHeaderPrefix(): (r: Bytes)
    ensures |r| == 12
  {
    DATABASE_MAGIC + LE(1, 2) + LE(0, 2)
  }

  function DatabaseHeader(format: Format): (r: Bytes)
    ensures |r| == DATABASE_HEADER_BYTES
  {
    DatabaseHeaderPrefix() + LE(format.crc(DatabaseHeaderPrefix()), 4)
  }

  predicate DatabaseHeaderOk(format: Format, file: Bytes) {
    && |file| >= DATABASE_HEADER_BYTES
    && file[..8] == DATABASE_MAGIC
    && FromLE(file[8..10]) == 1
    && format.crc(file[..12]) == ReadU32(file, 12)
    && file[10..12] == [0, 0]
  }

  // Why a file header is refused: cut short, of another version, or otherwise not one of ours.
  datatype HeaderFault = ShortFile | UnsupportedVersion(version: nat) | InvalidHeader

  function HeaderFaultOf(format: Format, file: Bytes): (fault: Option<HeaderFault>)
    ensures fault.None? <==> DatabaseHeaderOk(format, file)
  {
    if |file| < DATABASE_HEADER_BYTES then Some(ShortFile)
    else if file[..8] != DATABASE_MAGIC then Some(InvalidHeader)
    else if FromLE(file[8..10]) != 1 then Some(UnsupportedVersion(FromLE(file[8..10])))
    else if format.crc(file[..12]) != ReadU32(file, 12) || file[10..12] != [0, 0] then Some(InvalidHeader)
    else None
  }

  lemma WrittenHeaderOk(format: Format, after: Bytes)
    ensures DatabaseHeaderOk(format, DatabaseHeader(format) + after)
    ensures (DatabaseHeader(format) + after)[DATABASE_HEADER_BYTES..] == after
  {
    var prefix := DatabaseHeaderPrefix();
    var file := DatabaseHeader(format) + after;
    Pow256Values();
    FromLEOfLE(1, 2);
    FromLEOfLE(format.crc(prefix), 4);
    TwoZeroBytes();
    assert file[..12] == prefix;
    assert file[..8] == prefix[..8] && file[8..10] == prefix[8..10] && file[10..12] == prefix[10..12];
    assert file[12..16] == LE(format.crc(prefix), 4);
  }

  // An accepted file header is the one the writer writes.
  lemma HeaderIsCanonical(format: Format, file: Bytes)
    requires DatabaseHeaderOk(format, file)
    ensures file[..DATABASE_HEADER_BYTES] == DatabaseHeader(format)
  {
    hide LE, FromLE;
    LEOfFromLE(file[8..10]);
    LEOfFromLE(file[12..16]);
    TwoZeroBytes();
    assert file[..12] == file[..8] + file[8..10] + file[10..12];
    assert file[..12] == DatabaseHeaderPrefix();
    assert file[..16] == file[..12] + file[12..16];
  }
}
