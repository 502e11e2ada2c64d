/** The fixed 264-byte header of logic.py that precedes every hidden payload:

      offset 0        flags (bit 0 compressed, bit 1 encrypted)
      offset 1..255   filename, UTF-8, right-padded with zero bytes
      offset 256..259 original size, big-endian
      offset 260..263 payload size after compression/encryption, big-endian

    The header travels in the LSBs of the first 264 * 8 frames. */
module HeaderCodec {
  import opened Bits
  import opened Results
  import opened LsbCodec
  import Utf8

  const HEADER_SIZE: nat := 264
  const HEADER_BITS: nat := HEADER_SIZE * 8
  const NAME_FIELD_SIZE: nat := 255
  const FLAG_COMPRESSED: byte := 1
  const FLAG_ENCRYPTED: byte := 2

  datatype Header = Header(
    filename: seq<byte>,
    originalSize: nat,
    payloadSize: nat,
    compressed: bool,
    encrypted: bool)

  /** The filename can be recovered from its zero-padded field. */
  predicate NoTrailingNul(name: seq<byte>) {
    |name| == 0 || name[|name| - 1] != 0
  }

  function Zeros(n: nat): (z: seq<byte>)
    ensures |z| == n
  {
    seq(n, _ => 0)
  }

  /** `ljust(255, b'\0')`: pads a short name with zeros, never truncates. */
  function PadName(name: seq<byte>): (field: seq<byte>)
    ensures |field| == if |name| < NAME_FIELD_SIZE then NAME_FIELD_SIZE else |name|
    ensures field[..|name|] == name
    ensures forall i :: |name| <= i < |field| ==> field[i] == 0
  {
    if |name| >= NAME_FIELD_SIZE then name else name + Zeros(NAME_FIELD_SIZE - |name|)
  }

  predicate FieldsFit(originalSize: int, payloadSize: int, flags: int) {
    0 <= flags < 0x100 && 0 <= originalSize < UINT32_LIMIT && 0 <= payloadSize < UINT32_LIMIT
  }

  /** `create_header` exactly as written: `to_bytes` rejects out-of-range
      fields, but a name longer than the field makes the header longer. */
  function CreateHeaderAsWritten(name: seq<byte>, originalSize: int, payloadSize: int, flags: int): (r: Result<seq<byte>>)
    ensures r.Success? <==> FieldsFit(originalSize, payloadSize, flags)
    ensures r.Failure? ==> r.error == FieldOverflow
    ensures r.Success? ==> |r.value| == 1 + |PadName(name)| + 8
  {
    if !FieldsFit(originalSize, payloadSize, flags) then Failure(FieldOverflow)
    else Success([ByteOf(flags)] + PadName(name) + UInt32ToBytes(originalSize) + UInt32ToBytes(payloadSize))
  }

  /** Where the four parts of a header land in its 264 bytes. */
  lemma LayoutSlices(flags: byte, field: seq<byte>, orig: seq<byte>, pay: seq<byte>)
    requires |field| == NAME_FIELD_SIZE && |orig| == 4 && |pay| == 4
    ensures var hb := [flags] + field + orig + pay;
      && |hb| == HEADER_SIZE && hb[0] == flags && hb[1..256] == field
      && hb[256..260] == orig && hb[260..264] == pay
  {
  }

  /** A name padded into bytes 1..255 occupies the front of that field and
      zeros fill the rest. */
  lemma NameInField(hb: seq<byte>, name: seq<byte>)
    requires |hb| == HEADER_SIZE && |name| <= NAME_FIELD_SIZE && hb[1..256] == PadName(name)
    ensures hb[1..1 + |name|] == name
    ensures forall i :: 1 + |name| <= i < 1 + NAME_FIELD_SIZE ==> hb[i] == 0
  {
    var field := hb[1..256];
    assert hb[1..1 + |name|] == field[..|name|];
    forall i | 1 + |name| <= i < 1 + NAME_FIELD_SIZE
      ensures hb[i] == 0
    {
      assert hb[i] == field[i - 1];
    }
  }

  /** `create_header` with the length check the format needs: a name whose
      encoding does not fit the 255-byte field is rejected. */
  function CreateHeader(name: seq<byte>, originalSize: int, payloadSize: int, flags: int): (r: Result<seq<byte>>)
    ensures r.Success? <==> |name| <= NAME_FIELD_SIZE && FieldsFit(originalSize, payloadSize, flags)
    ensures |name| > NAME_FIELD_SIZE ==> r == Failure(FilenameTooLong)
    ensures |name| <= NAME_FIELD_SIZE && !FieldsFit(originalSize, payloadSize, flags) ==> r == Failure(FieldOverflow)
    ensures r.Success? ==> |r.value| == HEADER_SIZE
    ensures r.Success? ==> ByteValue(r.value[0]) == flags
    ensures r.Success? ==> r.value[1..1 + |name|] == name
    ensures r.Success? ==> forall i :: 1 + |name| <= i < 1 + NAME_FIELD_SIZE ==> r.value[i] == 0
    ensures r.Success? ==> BytesToUInt32(r.value[256..260]) == originalSize
    ensures r.Success? ==> BytesToUInt32(r.value[260..264]) == payloadSize
  {
    if |name| > NAME_FIELD_SIZE then Failure(FilenameTooLong)
    else
      var r := CreateHeaderAsWritten(name, originalSize, payloadSize, flags);
      if r.Failure? then r
      else
        var orig, pay := UInt32ToBytes(originalSize), UInt32ToBytes(payloadSize);
        LayoutSlices(ByteOf(flags), PadName(name), orig, pay);
        NameInField(r.value, name);
        UInt32RoundTrip(originalSize);
        UInt32RoundTrip(payloadSize);
        ByteValueOf(flags);
        r
  }

  /** `rstrip(b'\0')`: drops every trailing zero byte. */
  function StripTrailingZeros(s: seq<byte>): (t: seq<byte>)
    ensures |t| <= |s| && t == s[..|t|]
    ensures NoTrailingNul(t)
    ensures forall i :: |t| <= i < |s| ==> s[i] == 0
    decreases |s|
  {
    if |s| > 0 && s[|s| - 1] == 0 then StripTrailingZeros(s[..|s| - 1]) else s
  }

  /** Stripping the padded field gives back a name without a trailing NUL. */
  lemma StripPadded(name: seq<byte>, field: seq<byte>)
    requires NoTrailingNul(name)
    requires |name| <= |field| && field[..|name|] == name
    requires forall i :: |name| <= i < |field| ==> field[i] == 0
    ensures StripTrailingZeros(field) == name
  {
    var t := StripTrailingZeros(field);
    if |name| > 0 {
      // the name's last byte is not zero, so it is not stripped
      assert field[|name| - 1] == name[|name| - 1];
    }
    if |t| > 0 {
      // the last kept byte is not zero, so it is not padding
      assert field[|t| - 1] == t[|t| - 1];
    }
  }

  /** Splits the 264 header bytes into their fields and decodes the name. */
  function ParseHeaderBytes(hb: seq<byte>): (r: Result<Header>)
    requires |hb| == HEADER_SIZE
    ensures r.Success? <==> Utf8.WellFormed(StripTrailingZeros(hb[1..256]))
    ensures r.Failure? ==> r.error == FilenameNotUtf8
    ensures r.Success? ==> r.value.filename == StripTrailingZeros(hb[1..256])
    ensures r.Success? ==> Utf8.WellFormed(r.value.filename) && NoTrailingNul(r.value.filename)
    ensures r.Success? ==> |r.value.filename| <= NAME_FIELD_SIZE
    ensures r.Success? ==> r.value.filename == hb[1..1 + |r.value.filename|]
    ensures r.Success? ==> forall i :: 1 + |r.value.filename| <= i < 1 + NAME_FIELD_SIZE ==> hb[i] == 0
    ensures r.Success? ==> r.value.compressed == (hb[0] & FLAG_COMPRESSED == FLAG_COMPRESSED)
    ensures r.Success? ==> r.value.encrypted == (hb[0] & FLAG_ENCRYPTED == FLAG_ENCRYPTED)
    ensures r.Success? ==> r.value.originalSize == BytesToUInt32(hb[256..260])
    ensures r.Success? ==> r.value.payloadSize == BytesToUInt32(hb[260..264])
  {
    var flags := hb[0];
    var field := hb[1..256];
    var name := StripTrailingZeros(field);
    assert name == hb[1..1 + |name|] by {
      assert field[..|name|] == hb[1..1 + |name|];
    }
    assert forall i :: 1 + |name| <= i < 1 + NAME_FIELD_SIZE ==> hb[i] == field[i - 1];
    if !Utf8.WellFormed(name) then Failure(FilenameNotUtf8)
    else Success(Header(
      name,
      BytesToUInt32(hb[256..260]),
      BytesToUInt32(hb[260..264]),
      flags & FLAG_COMPRESSED == FLAG_COMPRESSED,
      flags & FLAG_ENCRYPTED == FLAG_ENCRYPTED))
  }

  /** `parse_header`: refuses fewer frames than header bits, otherwise
      repacks the LSBs of the first 2112 frames and parses them. */
  function ParseHeader(frames: seq<byte>): (r: Result<Header>)
    ensures r == Failure(StegoTooSmall) <==> |frames| < HEADER_BITS
    ensures r.Failure? ==> r.error in {StegoTooSmall, FilenameNotUtf8}
    ensures |frames| >= HEADER_BITS ==>
      (r.Success? <==> Utf8.WellFormed(StripTrailingZeros(Pack(ReadLsbs(frames, 0, HEADER_BITS))[1..256])))
  {
    if |frames| < HEADER_BITS then Failure(StegoTooSmall)
    else ParseHeaderBytes(Pack(ReadLsbs(frames, 0, HEADER_BITS)))
  }

  /** A name field starting with byte 0xFF, which no UTF-8 text contains,
      fails to decode. */
  lemma NonUtf8NameRejected(hb: seq<byte>)
    requires |hb| == HEADER_SIZE && hb[1] == 0xFF
    ensures ParseHeaderBytes(hb) == Failure(FilenameNotUtf8)
  {
    var field := hb[1..256];
    assert field[0] == 0xFF;
    var name := StripTrailingZeros(field);
    assert name[0] == 0xFF;
  }

  /** The parse of header bytes laid out as `create_header` lays them out. */
  lemma ParseLayout(hb: seq<byte>, name: seq<byte>, originalSize: int, payloadSize: int)
    requires |hb| == HEADER_SIZE && |name| <= NAME_FIELD_SIZE
    requires hb[1..1 + |name|] == name
    requires forall i :: 1 + |name| <= i < 1 + NAME_FIELD_SIZE ==> hb[i] == 0
    requires BytesToUInt32(hb[256..260]) == originalSize && BytesToUInt32(hb[260..264]) == payloadSize
    requires Utf8.WellFormed(name) && NoTrailingNul(name)
    ensures ParseHeaderBytes(hb)
         == Success(Header(name, originalSize, payloadSize,
                           hb[0] & FLAG_COMPRESSED == FLAG_COMPRESSED, hb[0] & FLAG_ENCRYPTED == FLAG_ENCRYPTED))
  {
    StripNameField(hb, name);
    var h := ParseHeaderBytes(hb).value;
    assert h.filename == name;
  }

  /** The name field of a header laid out with `name` strips to `name`. */
  lemma StripNameField(hb: seq<byte>, name: seq<byte>)
    requires |hb| == HEADER_SIZE && |name| <= NAME_FIELD_SIZE
    requires hb[1..1 + |name|] == name
    requires forall i :: 1 + |name| <= i < 1 + NAME_FIELD_SIZE ==> hb[i] == 0
    requires NoTrailingNul(name)
    ensures StripTrailingZeros(hb[1..256]) == name
  {
    var field := hb[1..256];
    assert |field| == NAME_FIELD_SIZE;
    assert forall i :: 0 <= i < |name| ==> field[i] == hb[1 + i] == name[i];
    assert field[..|name|] == name;
    assert forall i :: |name| <= i < |field| ==> field[i] == hb[i + 1];
    StripPadded(name, field);
  }

  /** Parsing a freshly created header returns its name, sizes and flag bits. */
  lemma HeaderRoundTrip(name: seq<byte>, originalSize: int, payloadSize: int, flags: int)
    requires CreateHeader(name, originalSize, payloadSize, flags).Success?
    requires Utf8.WellFormed(name) && NoTrailingNul(name)
    ensures var fb := ByteOf(flags);
      ParseHeaderBytes(CreateHeader(name, originalSize, payloadSize, flags).value)
      == Success(Header(name, originalSize, payloadSize,
                        fb & FLAG_COMPRESSED == FLAG_COMPRESSED, fb & FLAG_ENCRYPTED == FLAG_ENCRYPTED))
  {
    var hb := CreateHeader(name, originalSize, payloadSize, flags).value;
    ParseLayout(hb, name, originalSize, payloadSize);
    ByteOfValue(hb[0]);
  }

  /** The header read from frames that carry a freshly created header. */
  lemma ParseCarriedHeader(frames: seq<byte>, name: seq<byte>, originalSize: int, payloadSize: int, flags: int)
    requires CreateHeader(name, originalSize, payloadSize, flags).Success?
    requires Carries(frames, 0, CreateHeader(name, originalSize, payloadSize, flags).value)
    requires Utf8.WellFormed(name) && NoTrailingNul(name)
    ensures var fb := ByteOf(flags);
      ParseHeader(frames)
      == Success(Header(name, originalSize, payloadSize,
                        fb & FLAG_COMPRESSED == FLAG_COMPRESSED, fb & FLAG_ENCRYPTED == FLAG_ENCRYPTED))
  {
    var hb := CreateHeader(name, originalSize, payloadSize, flags).value;
    PackExpand(hb);
    HeaderRoundTrip(name, originalSize, payloadSize, flags);
  }

  /** The parse depends on nothing but the LSBs of the first 2112 frames. */
  lemma ParseReadsOnlyHeaderFrames(f: seq<byte>, g: seq<byte>)
    requires |f| >= HEADER_BITS && |g| >= HEADER_BITS
    requires forall i :: 0 <= i < HEADER_BITS ==> Lsb(f[i]) == Lsb(g[i])
    ensures ParseHeader(f) == ParseHeader(g)
  {
    assert ReadLsbs(f, 0, HEADER_BITS) == ReadLsbs(g, 0, HEADER_BITS);
  }

  /** Finding: a 256-byte name (here 256 letters "a") passes the as-written
      header builder, which then yields 265 bytes. The parser reads the first
      264 of them, and the original size it reports has the name's last byte
      as its top byte, so it is at least 2^24 whatever size was written. */
  lemma LongNameMisparsed(name: seq<byte>, originalSize: int, payloadSize: int, flags: int)
    requires |name| == NAME_FIELD_SIZE + 1 && forall i :: 0 <= i < |name| ==> name[i] == 0x61
    requires FieldsFit(originalSize, payloadSize, flags)
    ensures var r := CreateHeaderAsWritten(name, originalSize, payloadSize, flags);
      && r.Success? && |r.value| == HEADER_SIZE + 1
      && ParseHeaderBytes(r.value[..HEADER_SIZE]).Success?
      && ParseHeaderBytes(r.value[..HEADER_SIZE]).value.originalSize >= 0x100_0000
  {
    var h := CreateHeaderAsWritten(name, originalSize, payloadSize, flags).value;
    assert h[1..1 + |name|] == name;
    var hb := h[..HEADER_SIZE];
    assert hb[1..HEADER_SIZE - 7] == name;
    LongNameParse(hb, name);
  }

  /** The parse of 264 bytes whose name field and first size byte hold the
      256 letters of the long name. */
  lemma LongNameParse(hb: seq<byte>, name: seq<byte>)
    requires |hb| == HEADER_SIZE && |name| == NAME_FIELD_SIZE + 1
    requires forall i :: 0 <= i < |name| ==> name[i] == 0x61
    requires hb[1..HEADER_SIZE - 7] == name
    ensures ParseHeaderBytes(hb).Success?
    ensures ParseHeaderBytes(hb).value.originalSize >= 0x100_0000
  {
    var field := hb[1..256];
    assert forall i :: 0 <= i < |field| ==> field[i] == name[i];
    assert StripTrailingZeros(field) == field;
    Utf8.AsciiWellFormed(field);
    var size := hb[256..260];
    assert size[0] == name[NAME_FIELD_SIZE] == 0x61;
    BytesToUInt32Digits(size);
    ByteValueZero(0x61);
  }

  /** A name that ends in a NUL byte comes back without it. */
  lemma TrailingNulDropped(name: seq<byte>, originalSize: int, payloadSize: int, flags: int)
    requires CreateHeader(name + [0], originalSize, payloadSize, flags).Success?
    requires Utf8.WellFormed(name) && NoTrailingNul(name)
    ensures var fb := ByteOf(flags);
      ParseHeaderBytes(CreateHeader(name + [0], originalSize, payloadSize, flags).value)
      == Success(Header(name, originalSize, payloadSize,
                        fb & FLAG_COMPRESSED == FLAG_COMPRESSED, fb & FLAG_ENCRYPTED == FLAG_ENCRYPTED))
  {
    var hb := CreateHeader(name + [0], originalSize, payloadSize, flags).value;
    NulNameLayout(hb, name);
    ParseLayout(hb, name, originalSize, payloadSize);
    ByteOfValue(hb[0]);
  }

  /** The field holding a name plus one NUL holds the name followed by zeros. */
  lemma NulNameLayout(hb: seq<byte>, name: seq<byte>)
    requires |hb| == HEADER_SIZE && |name| < NAME_FIELD_SIZE
    requires hb[1..2 + |name|] == name + [0]
    requires forall i :: 2 + |name| <= i < 1 + NAME_FIELD_SIZE ==> hb[i] == 0
    ensures hb[1..1 + |name|] == name
    ensures forall i :: 1 + |name| <= i < 1 + NAME_FIELD_SIZE ==> hb[i] == 0
  {
    assert hb[1..1 + |name|] == hb[1..2 + |name|][..|name|];
    assert hb[1 + |name|] == hb[1..2 + |name|][|name|];
  }
}
