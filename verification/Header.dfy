/** The 64-byte section header. */
module Header {
  import opened Common
  import opened LittleEndian

  type u16 = x: int | 0 <= x <= 0xFFFF

  const MAGIC: Bytes := [0x44, 0x57, 0x41, 0x52, 0x46, 0x53]
  const HEADER_LEN: nat := 64
  const SUPPORTED_MAJOR: byte := 2
  const SUPPORTED_MINOR: byte := 6

  // Values the reader does not know are kept, not refused.
  datatype SectionType = Block | MetadataV2Schema | MetadataV2 | SectionIndex | History | UnknownSection(raw: u16)

  datatype Compression = NoCompression | Lzma | Zstd | Lz4 | Lz4Hc | Brotli | Flac | Ricepp | UnknownCodec(raw: u16)

  function SectionTypeOf(v: u16): SectionType {
    match v
    case 0 => Block
    case 7 => MetadataV2Schema
    case 8 => MetadataV2
    case 9 => SectionIndex
    case 10 => History
    case _ => UnknownSection(v)
  }

  function SectionTypeCode(t: SectionType): u16 {
    match t
    case Block => 0
    case MetadataV2Schema => 7
    case MetadataV2 => 8
    case SectionIndex => 9
    case History => 10
    case UnknownSection(v) => v
  }

  function CompressionOf(v: u16): Compression {
    match v
    case 0 => NoCompression
    case 1 => Lzma
    case 2 => Zstd
    case 3 => Lz4
    case 4 => Lz4Hc
    case 5 => Brotli
    case 6 => Flac
    case 7 => Ricepp
    case _ => UnknownCodec(v)
  }

  function CompressionCode(c: Compression): u16 {
    match c
    case NoCompression => 0
    case Lzma => 1
    case Zstd => 2
    case Lz4 => 3
    case Lz4Hc => 4
    case Brotli => 5
    case Flac => 6
    case Ricepp => 7
    case UnknownCodec(v) => v
  }

  datatype SectionHeader = SectionHeader(
    major: byte, minor: byte, sha: Bytes, xxh: u64, number: u32,
    sectionType: SectionType, compression: Compression, payloadLen: u64)

  datatype Error =
    | TruncatedHeader(offset: nat)
    | BadMagic(offset: nat)
    | UnsupportedVersion(major: byte, minor: byte)
    | TruncatedSection(number: u32, offset: nat)
    | CorruptIndex
    | NotADwarfsImage
    | SourceOutOfBounds(offset: nat, len: nat)

  // A field read at a fixed place.
  function Field(bytes: Bytes, at: nat, n: nat): nat
    requires at + n <= |bytes|
  {
    Le(bytes[at..at + n])
  }

  lemma FieldBounds(bytes: Bytes, at: nat)
    requires at + 8 <= |bytes|
    ensures Field(bytes, at, 2) <= 0xFFFF && Field(bytes, at, 4) <= U32_MAX && Field(bytes, at, 8) <= U64_MAX
  {
    Powers();
    LeBound(bytes[at..at + 2]);
    LeBound(bytes[at..at + 4]);
    LeBound(bytes[at..at + 8]);
  }

  function Parse(bytes: Bytes, offset: nat): (r: Result<SectionHeader, Error>) {
    if |bytes| < HEADER_LEN then Err(TruncatedHeader(offset))
    else if bytes[0..6] != MAGIC then Err(BadMagic(offset))
    else if bytes[6] != SUPPORTED_MAJOR || bytes[7] > SUPPORTED_MINOR then Err(UnsupportedVersion(bytes[6], bytes[7]))
    else
      FieldBounds(bytes, 0x28);
      FieldBounds(bytes, 0x30);
      FieldBounds(bytes, 0x34);
      FieldBounds(bytes, 0x36);
      FieldBounds(bytes, 0x38);
      Ok(SectionHeader(bytes[6], bytes[7], bytes[0x08..0x28], Field(bytes, 0x28, 8), Field(bytes, 0x30, 4),
                       SectionTypeOf(Field(bytes, 0x34, 2)), CompressionOf(Field(bytes, 0x36, 2)),
                       Field(bytes, 0x38, 8)))
  }

  // Bytes parse exactly when they start as a header of a supported version does; a header of another version is told
  // apart from what is no header.
  lemma ParsesIff(bytes: Bytes, offset: nat)
    requires |bytes| >= 64
    ensures var magic := bytes[..6] == [0x44, 0x57, 0x41, 0x52, 0x46, 0x53];
            && (Parse(bytes, offset).Ok? <==> magic && bytes[6] == 2 && bytes[7] <= 6)
            && (magic && !(bytes[6] == 2 && bytes[7] <= 6) <==>
                  Parse(bytes, offset) == Err(UnsupportedVersion(bytes[6], bytes[7])))
            && (!magic ==> Parse(bytes, offset) == Err(BadMagic(offset)))
  {
    assert bytes[0..6] == bytes[..6];
    hide Field, SectionTypeOf, CompressionOf;
  }

  // Header plus payload; saturates, and callers reject what does not fit.
  function SectionLen(h: SectionHeader): nat {
    Min(U64_MAX, HEADER_LEN + h.payloadLen)
  }

  // The on-disk form, field by field in order.
  function Serialized(h: SectionHeader): Bytes {
    MAGIC + [h.major, h.minor] + h.sha + LeBytes(h.xxh, 8) + LeBytes(h.number, 4)
    + LeBytes(SectionTypeCode(h.sectionType), 2) + LeBytes(CompressionCode(h.compression), 2) + LeBytes(h.payloadLen, 8)
  }

  // A header a writer could produce: supported version, whole hash, no known code filed as unknown.
  predicate Writable(h: SectionHeader) {
    && h.major == SUPPORTED_MAJOR && h.minor <= SUPPORTED_MINOR && |h.sha| == 32
    && SectionTypeOf(SectionTypeCode(h.sectionType)) == h.sectionType
    && CompressionOf(CompressionCode(h.compression)) == h.compression
  }

  // Writing fills a zeroed 64-byte buffer place by place.
  method Write(h: SectionHeader) returns (buf: array<byte>)
    requires |h.sha| == 32
    ensures fresh(buf) && buf[..] == Serialized(h)
  {
    buf := new byte[64](_ => 0);
    CopyAt(buf, 0, MAGIC);
    buf[6] := h.major;
    buf[7] := h.minor;
    assert buf[..8] == MAGIC + [h.major, h.minor];
    CopyAt(buf, 0x08, h.sha);
    CopyAt(buf, 0x28, LeBytes(h.xxh, 8));
    CopyAt(buf, 0x30, LeBytes(h.number, 4));
    CopyAt(buf, 0x34, LeBytes(SectionTypeCode(h.sectionType), 2));
    CopyAt(buf, 0x36, LeBytes(CompressionCode(h.compression), 2));
    CopyAt(buf, 0x38, LeBytes(h.payloadLen, 8));
    assert buf[..] == buf[..64];
  }

  method CopyAt(buf: array<byte>, at: nat, bytes: Bytes)
    requires at + |bytes| <= buf.Length
    modifies buf
    ensures buf[..at + |bytes|] == old(buf[..at]) + bytes
  {
    forall k | 0 <= k < |bytes| {
      buf[at + k] := bytes[k];
    }
  }

  // Where each field of a serialized header lies.
  lemma SerializedFields(h: SectionHeader)
    requires |h.sha| == 32
    ensures |Serialized(h)| == HEADER_LEN && Serialized(h)[0..6] == MAGIC
    ensures Serialized(h)[6] == h.major && Serialized(h)[7] == h.minor && Serialized(h)[0x08..0x28] == h.sha
    ensures Field(Serialized(h), 0x28, 8) == h.xxh && Field(Serialized(h), 0x30, 4) == h.number
    ensures Field(Serialized(h), 0x34, 2) == SectionTypeCode(h.sectionType)
    ensures Field(Serialized(h), 0x36, 2) == CompressionCode(h.compression)
    ensures Field(Serialized(h), 0x38, 8) == h.payloadLen
  {
    Powers();
    LeOfBytes(h.xxh, 8);
    LeOfBytes(h.number, 4);
    LeOfBytes(SectionTypeCode(h.sectionType), 2);
    LeOfBytes(CompressionCode(h.compression), 2);
    LeOfBytes(h.payloadLen, 8);
    Pieces(MAGIC, [h.major, h.minor], h.sha, LeBytes(h.xxh, 8), LeBytes(h.number, 4),
           LeBytes(SectionTypeCode(h.sectionType), 2), LeBytes(CompressionCode(h.compression), 2),
           LeBytes(h.payloadLen, 8));
    hide Le, LeBytes, Pow;
  }

  // Where pieces of the header's sizes lie once they are put together.
  lemma Pieces(magic: Bytes, version: Bytes, sha: Bytes, xxh: Bytes, number: Bytes, kind: Bytes, codec: Bytes,
               len: Bytes)
    requires |magic| == 6 && |version| == 2 && |sha| == 32 && |xxh| == 8 && |number| == 4
    requires |kind| == 2 && |codec| == 2 && |len| == 8
    ensures var b := magic + version + sha + xxh + number + kind + codec + len;
            && |b| == HEADER_LEN && b[0..6] == magic && b[6..8] == version && b[0x08..0x28] == sha
            && b[0x28..0x30] == xxh
            && b[0x30..0x34] == number && b[0x34..0x36] == kind && b[0x36..0x38] == codec && b[0x38..0x40] == len
            && b[6] == version[0] && b[7] == version[1]
  {
  }

  // Parsing gives back every writable header, whatever follows it.
  lemma ParseInvertsWrite(h: SectionHeader, rest: Bytes, offset: nat)
    requires Writable(h)
    ensures Parse(Serialized(h) + rest, offset) == Ok(h)
  {
    SerializedFields(h);
    var b := Serialized(h) + rest;
    assert b[..64] == Serialized(h);
    assert b[0..6] == Serialized(h)[0..6] && b[0x08..0x28] == Serialized(h)[0x08..0x28];
    assert b[0x28..0x30] == Serialized(h)[0x28..0x30] && b[0x30..0x34] == Serialized(h)[0x30..0x34];
    assert b[0x34..0x36] == Serialized(h)[0x34..0x36] && b[0x36..0x38] == Serialized(h)[0x36..0x38];
    assert b[0x38..0x40] == Serialized(h)[0x38..0x40];
  }

  lemma FieldBack(bytes: Bytes, at: nat, n: nat)
    requires at + n <= |bytes|
    ensures LeBytes(Field(bytes, at, n), n) == bytes[at..at + n]
  {
    BytesOfLe(bytes[at..at + n]);
  }

  lemma Join(bytes: Bytes, i: nat, j: nat)
    requires i <= j <= |bytes|
    ensures bytes[..i] + bytes[i..j] == bytes[..j]
  {
  }

  lemma CodesBack(v: u16)
    ensures SectionTypeCode(SectionTypeOf(v)) == v && CompressionCode(CompressionOf(v)) == v
  {
  }

  // And writing gives back every 64 bytes that parse.
  lemma WriteInvertsParse(bytes: Bytes, offset: nat)
    requires |bytes| == HEADER_LEN && Parse(bytes, offset).Ok?
    ensures Writable(Parse(bytes, offset).value) && Serialized(Parse(bytes, offset).value) == bytes
  {
    hide Field, LeBytes, SectionTypeOf, SectionTypeCode, CompressionOf, CompressionCode;
    FieldBack(bytes, 0x28, 8);
    FieldBack(bytes, 0x30, 4);
    FieldBack(bytes, 0x34, 2);
    FieldBack(bytes, 0x36, 2);
    FieldBack(bytes, 0x38, 8);
    FieldBounds(bytes, 0x34);
    FieldBounds(bytes, 0x36);
    CodesBack(Field(bytes, 0x34, 2));
    CodesBack(Field(bytes, 0x36, 2));
    assert bytes[..6] == MAGIC && bytes[6..8] == [bytes[6], bytes[7]];
    Join(bytes, 6, 8);
    Join(bytes, 0x08, 0x28);
    Join(bytes, 0x28, 0x30);
    Join(bytes, 0x30, 0x34);
    Join(bytes, 0x34, 0x36);
    Join(bytes, 0x36, 0x38);
    Join(bytes, 0x38, 0x40);
    assert bytes[..0x40] == bytes;
  }
}
