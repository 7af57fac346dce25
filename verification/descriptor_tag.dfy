/** The tag identifiers of read_udf.py (`class TagIdentifier`): the values of
    the 16-bit identifier field that begins every UDF structural descriptor
    (ECMA-167 Part 3 section 7.2.1 and Part 4 section 7.2.1). */
module TagIdentifier {
  const None: nat := 0
  const PrimaryVolumeDescriptor: nat := 1
  const AnchorVolumeDescriptorPointer: nat := 2
  const ImplementationUseVolumeDescriptor: nat := 4
  const PartitionDescriptor: nat := 5
  const LogicalVolumeDescriptor: nat := 6
  const UnallocatedSpaceDescriptor: nat := 7
  const TerminatingDescriptor: nat := 8
  const LogicalVolumeIntegrityDescriptor: nat := 9
  const FileSetDescriptor: nat := 256
  const FileIdentifierDescriptor: nat := 257
  const FileEntry: nat := 261
  const ExtendedAttributeHeaderDescriptor: nat := 262
}

/** The 16-byte descriptor tag (ECMA-167 Part 3 section 7.2) as decoded and
    validated by `DescriptorTag.__init__`.

    The validity rule is the one the code applies, which is narrower than the
    standard's: a tag is valid exactly when its reduced checksum equals byte 4.
    The identifier is not required to be non-zero (the early rejection is
    overwritten by the checksum comparison), the reserved byte 5 is not
    required to be zero, and the reduction subtracts 256 only while the sum is
    strictly greater than 256, so a positive multiple of 256 reduces to 256
    rather than to 0. */
module DescriptorTags {
  import opened Bytes
  import TagIdentifier

  /** Bytes a tag occupies, and the offset of its checksum byte. */
  const TagSize: nat := 16
  const ChecksumOffset: nat := 4

  /** The decoded fields, named after the attributes the source sets. */
  datatype TagFields = TagFields(
    identifier: nat,     // u16 at offset 0 (`descriptor_tag`)
    version: nat,        // u16 at offset 2
    checksum: nat,       // u8 at offset 4
    reserved: nat,       // u8 at offset 5
    serialNumber: nat,   // u16 at offset 6
    crc: nat,            // u16 at offset 8
    crcLength: nat,      // u16 at offset 10
    location: nat)       // u32 at offset 12

  /** Every field fits the width it is decoded from. */
  predicate WellFormed(f: TagFields) {
    && f.identifier < 0x1_0000
    && f.version < 0x1_0000
    && f.checksum < 0x100
    && f.reserved < 0x100
    && f.serialNumber < 0x1_0000
    && f.crc < 0x1_0000
    && f.crcLength < 0x1_0000
    && f.location < 0x1_0000_0000
  }

  /** A tag read from a buffer: a buffer shorter than 16 bytes is invalid and
      no field is decoded; otherwise all fields are decoded and `valid` records
      the checksum comparison. */
  datatype DescriptorTag =
    | Truncated
    | Decoded(fields: TagFields, valid: bool)
  {
    /** The `is_valid` property. */
    predicate IsValid() {
      Decoded? && valid
    }
  }

  /** The checksum loop: the sum of the bytes at indices below `n`, skipping
      the checksum byte itself. */
  function ChecksumSum(buf: seq<Byte>, n: nat): nat
    requires n <= |buf|
    decreases n
  {
    if n == 0 then 0
    else ChecksumSum(buf, n - 1) + (if n - 1 == ChecksumOffset then 0 else ToInt(buf[n - 1]))
  }

  /** The "truncate to uint8" loop: subtract 256 while the value exceeds 256.
      The result is the unique value in 1..256 congruent to `s` modulo 256,
      or 0 when `s` is 0; in particular it is 256, not 0, for a positive
      multiple of 256. */
  function TruncateToUint8(s: nat): (r: nat)
    ensures r <= 0x100
    ensures r % 0x100 == s % 0x100
    ensures r == 0 <==> s == 0
    ensures s <= 0x100 ==> r == s
    decreases s
  {
    if s > 0x100 then TruncateToUint8(s - 0x100) else s
  }

  /** `DescriptorTag(buffer)`. */
  function ParseTag(buf: seq<Byte>): (t: DescriptorTag)
    ensures t.Truncated? <==> |buf| < TagSize
    ensures t.Decoded? ==> WellFormed(t.fields)
  {
    if |buf| < TagSize then Truncated
    else
      var f := TagFields(
        ToUint16(buf, 0), ToUint16(buf, 2), ToInt(buf[4]), ToInt(buf[5]),
        ToUint16(buf, 6), ToUint16(buf, 8), ToUint16(buf, 10), ToUint32(buf, 12));
      Decoded(f, TruncateToUint8(ChecksumSum(buf, TagSize)) == f.checksum)
  }

  /** The checksum byte the code expects for the first 16 bytes of `buf`, in
      closed form: the plain sum when it is at most 256, otherwise the sum
      reduced into 1..256. */
  function ReducedChecksum(buf: seq<Byte>): (c: nat)
    requires |buf| >= TagSize
  {
    var s := ChecksumSum(buf, TagSize);
    if s <= 0x100 then s else (s - 1) % 0x100 + 1
  }

  // ---------------------------------------------------------------------
  // Properties of the checksum

  /** Two buffers that agree on every byte below `n` except the checksum
      byte have the same checksum sum over those bytes. */
  lemma {:induction false} ChecksumSumAgrees(a: seq<Byte>, b: seq<Byte>, n: nat)
    requires n <= |a| && n <= |b|
    requires forall i :: 0 <= i < n && i != ChecksumOffset ==> a[i] == b[i]
    ensures ChecksumSum(a, n) == ChecksumSum(b, n)
  {
    if n > 0 {
      ChecksumSumAgrees(a, b, n - 1);
    }
  }

  /** Overwriting the checksum byte never changes the sum it is compared
      against. */
  lemma ChecksumIgnoresChecksumByte(buf: seq<Byte>, v: Byte)
    requires |buf| >= TagSize
    ensures ChecksumSum(buf[ChecksumOffset := v], TagSize) == ChecksumSum(buf, TagSize)
  {
    ChecksumSumAgrees(buf[ChecksumOffset := v], buf, TagSize);
  }

  /** Each of the bytes summed is at most 255, and byte 4 is not summed. */
  lemma {:induction false} ChecksumSumBound(buf: seq<Byte>, n: nat)
    requires n <= |buf|
    ensures ChecksumSum(buf, n) <= 0xFF * (if n > ChecksumOffset then n - 1 else n)
  {
    if n > 0 {
      ChecksumSumBound(buf, n - 1);
    }
  }

  /** The reduction loop computes the closed form. */
  lemma TruncateClosedForm(s: nat)
    ensures TruncateToUint8(s) == if s <= 0x100 then s else (s - 1) % 0x100 + 1
  {
    var r := TruncateToUint8(s);
    if s > 0x100 {
      assert 1 <= r <= 0x100;
      assert (r - 1) % 0x100 == (s - 1) % 0x100;
    }
  }

  /** A tag is valid exactly when the buffer holds 16 bytes and the reduced
      checksum equals byte 4. Nothing else is checked: not the identifier,
      not the reserved byte, not the location. */
  lemma TagValidity(buf: seq<Byte>)
    ensures ParseTag(buf).IsValid() <==> |buf| >= TagSize && ReducedChecksum(buf) == ToInt(buf[ChecksumOffset])
  {
    if |buf| >= TagSize {
      TruncateClosedForm(ChecksumSum(buf, TagSize));
    }
  }

  /** A buffer of fewer than 16 bytes yields an invalid tag with no fields. */
  lemma ShortBufferInvalid(buf: seq<Byte>)
    requires |buf| < TagSize
    ensures !ParseTag(buf).IsValid()
    ensures ParseTag(buf) == Truncated
  {
  }

  /** A non-zero checksum sum that is a multiple of 256 reduces to 256, which
      no byte can equal, so such a tag is never valid. */
  lemma MultipleOf256NeverValid(buf: seq<Byte>)
    requires |buf| >= TagSize
    requires ChecksumSum(buf, TagSize) > 0 && ChecksumSum(buf, TagSize) % 0x100 == 0
    ensures !ParseTag(buf).IsValid()
  {
    assert TruncateToUint8(ChecksumSum(buf, TagSize)) == 0x100;
  }

  /** Validity depends on the buffer only through the checksum sum and byte
      4: two buffers that agree on those agree on validity, whatever their
      identifiers, reserved bytes or locations. */
  lemma ValidityIsChecksumOnly(a: seq<Byte>, b: seq<Byte>)
    requires |a| >= TagSize && |b| >= TagSize
    requires ChecksumSum(a, TagSize) == ChecksumSum(b, TagSize)
    requires a[ChecksumOffset] == b[ChecksumOffset]
    ensures ParseTag(a).IsValid() == ParseTag(b).IsValid()
  {
  }

  /** Two buffers that agree on their first 16 bytes give the same tag. */
  lemma ParseTagAgrees(a: seq<Byte>, b: seq<Byte>)
    requires |a| >= TagSize && |b| >= TagSize
    requires forall i :: 0 <= i < TagSize ==> a[i] == b[i]
    ensures ParseTag(a) == ParseTag(b)
  {
    ChecksumSumAgrees(a, b, TagSize);
  }

  /** Bytes from offset 16 on affect neither the fields nor validity. */
  lemma TagIgnoresTrailingBytes(buf: seq<Byte>)
    requires |buf| >= TagSize
    ensures ParseTag(buf) == ParseTag(buf[..TagSize])
  {
    ParseTagAgrees(buf, buf[..TagSize]);
  }

  /** The checksum sum written out term by term. */
  lemma ChecksumSumExpanded(buf: seq<Byte>)
    requires |buf| >= TagSize
    ensures ChecksumSum(buf, TagSize)
         == ToInt(buf[0]) + ToInt(buf[1]) + ToInt(buf[2]) + ToInt(buf[3]) + ToInt(buf[5]) + ToInt(buf[6]) + ToInt(buf[7]) + ToInt(buf[8])
          + ToInt(buf[9]) + ToInt(buf[10]) + ToInt(buf[11]) + ToInt(buf[12]) + ToInt(buf[13]) + ToInt(buf[14]) + ToInt(buf[15])
  {
    assert ChecksumSum(buf, 4) == ToInt(buf[0]) + ToInt(buf[1]) + ToInt(buf[2]) + ToInt(buf[3]);
    assert ChecksumSum(buf, 5) == ChecksumSum(buf, 4);
    assert ChecksumSum(buf, 8) == ChecksumSum(buf, 5) + ToInt(buf[5]) + ToInt(buf[6]) + ToInt(buf[7]);
    assert ChecksumSum(buf, 12) == ChecksumSum(buf, 8) + ToInt(buf[8]) + ToInt(buf[9]) + ToInt(buf[10]) + ToInt(buf[11]);
    assert ChecksumSum(buf, 16) == ChecksumSum(buf, 12) + ToInt(buf[12]) + ToInt(buf[13]) + ToInt(buf[14]) + ToInt(buf[15]);
  }

  /** Sixteen zero bytes form a valid tag with identifier 0: the zero
      identifier is not rejected. */
  lemma ZeroIdentifierAccepted()
    ensures ParseTag(seq(TagSize, _ => 0)).IsValid()
    ensures ParseTag(seq(TagSize, _ => 0)).fields.identifier == TagIdentifier.None
  {
    var z: seq<Byte> := seq(TagSize, _ => 0);
    ZeroSum(z, TagSize);
  }

  lemma {:induction false} ZeroSum(buf: seq<Byte>, n: nat)
    requires n <= |buf|
    requires forall i :: 0 <= i < n ==> buf[i] == 0
    ensures ChecksumSum(buf, n) == 0
  {
    if n > 0 {
      ZeroSum(buf, n - 1);
    }
  }

  // ---------------------------------------------------------------------
  // The byte layout, stated through the inverse encoder

  /** The 16 bytes a tag with fields `f` occupies. */
  function EncodeTag(f: TagFields): (buf: seq<Byte>)
    requires WellFormed(f)
    ensures |buf| == TagSize
  {
    EncodeUint16(f.identifier) + EncodeUint16(f.version) + [f.checksum, f.reserved]
      + EncodeUint16(f.serialNumber) + EncodeUint16(f.crc) + EncodeUint16(f.crcLength)
      + EncodeUint32(f.location)
  }

  /** Decoding an encoded tag recovers every field. */
  lemma TagRoundTrip(f: TagFields)
    requires WellFormed(f)
    ensures ParseTag(EncodeTag(f)).Decoded?
    ensures ParseTag(EncodeTag(f)).fields == f
  {
    var buf := EncodeTag(f);
    DecodeEncode16(f.identifier);
    DecodeEncode16(f.version);
    DecodeEncode16(f.serialNumber);
    DecodeEncode16(f.crc);
    DecodeEncode16(f.crcLength);
    DecodeEncode32(f.location);
    assert buf[0..2] == EncodeUint16(f.identifier);
    assert buf[2..4] == EncodeUint16(f.version);
    assert buf[6..8] == EncodeUint16(f.serialNumber);
    assert buf[8..10] == EncodeUint16(f.crc);
    assert buf[10..12] == EncodeUint16(f.crcLength);
    assert buf[12..16] == EncodeUint32(f.location);
  }

  /** Re-encoding the fields decoded from a buffer gives back its first 16
      bytes: each byte of the tag is read into exactly one field. */
  lemma TagDecodeEncode(buf: seq<Byte>)
    requires |buf| >= TagSize
    ensures EncodeTag(ParseTag(buf).fields) == buf[..TagSize]
  {
    assert buf[..TagSize] == buf[0..2] + buf[2..4] + buf[4..6] + buf[6..8] + buf[8..10] + buf[10..12] + buf[12..16];
    EncodeDecode16(buf, 0);
    EncodeDecode16(buf, 2);
    EncodeDecode16(buf, 6);
    EncodeDecode16(buf, 8);
    EncodeDecode16(buf, 10);
    EncodeDecode32(buf, 12);
  }

  /** Storing the reduced checksum of a buffer's first 16 bytes into its
      byte 4 makes it a valid tag, whatever the other bytes hold, provided
      the reduced value fits a byte (it is 256 exactly when the sum is a
      positive multiple of 256). */
  lemma SealedTagIsValid(buf: seq<Byte>)
    requires |buf| >= TagSize
    requires TruncateToUint8(ChecksumSum(buf, TagSize)) < 0x100
    ensures ParseTag(buf[ChecksumOffset := TruncateToUint8(ChecksumSum(buf, TagSize))]).IsValid()
  {
    var c := TruncateToUint8(ChecksumSum(buf, TagSize));
    ChecksumIgnoresChecksumByte(buf, c);
  }
}
