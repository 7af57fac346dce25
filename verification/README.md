# py-read-udf metadata reader, modelled in Dafny

`read_udf.py` reads the first structures of a UDF (ECMA-167) disc image. This
project models its reading logic. The image is an immutable sequence of bytes.
`seek` followed by `read(n)` becomes a clamped slice of that sequence. The file
size is a separate parameter, as in the source.

The model has six modules in five files:

- `Bytes` (bytes.dfy): a byte type, `to_int`, clamped Python slices and reads,
  and the little-endian decoders `to_uint16` and `to_uint32`. It also has their
  inverse encoders, so that round trips can be stated.
- `TagIdentifier` and `DescriptorTags` (descriptor_tag.dfy): the tag identifier
  constants and the 16-byte descriptor tag (ECMA-167 Part 3 section 7.2) with
  the source's checksum rule.
- `Anchors` (anchor.dfy): the fixed-offset split of an
  Anchor Volume Descriptor Pointer (ECMA-167 Part 3 section 10.2).
- `VolumeRecognition` (recognition.dfy): `is_valid_udf`, the scan of the Volume
  Recognition Sequence (ECMA-167 Part 2 section 9).
- `SectorSizes` (sector_size.dfy): `get_sector_size`, which probes candidate
  sector sizes for the anchor at logical sector 256.

The model follows the code as written. Two of its choices are not set by any
standard and are stated here as facts about the code:

- **Candidate order.** `get_sector_size` tries the sector sizes 2048, 512,
  4096 and 1024, in that order, and returns the first that passes
  (`GetSectorSizeFirst`, `PreferenceOrder`). When none passes it returns 0
  (`GetSectorSizeZero`). Each probe reads 512 bytes, of which only the first
  16 affect the result (`ProbeReadsTagBytes`).
- **Anchor.** The anchor descriptor is reported valid whatever its tag holds.
  Its extents are kept as raw bytes.

In two places the code departs from ECMA-167:

- **Tag validity.** Section 7.2.3 of ECMA-167 Part 3 defines the tag checksum
  as the sum of bytes 0-3 and 5-15 modulo 256, and section 7.2.4 requires the
  reserved byte 5 to be #00. The code subtracts 256 only while the sum is
  greater than 256. A positive multiple of 256 therefore reduces to 256, not
  0, and such a tag can never be valid (`MultipleOf256NeverValid`). The
  reserved byte is never checked (`ValidityIsChecksumOnly`). The early
  rejection of identifier 0 is overwritten by the checksum comparison
  (`ZeroIdentifierAccepted`).
- **Recognition.** Section 9.2 of ECMA-167 Part 2 brackets the extended area,
  where the NSR descriptor is recorded, between a `BEA01` and a `TEA01`
  descriptor. The code accepts as soon as any sector of the scanned run
  carries `NSR02` or `NSR03` and does not require `BEA01` or `TEA01`
  (`LoneMarkerAccepted`).

## Model

| member | source | states |
|---|---|---|
| Bytes.ToInt | read_udf.py:16-18 | an unpacked unsigned byte lies in 0..255 |
| Bytes.Slice | read_udf.py:55-57 | a Python slice clamps both ends to the length: past the end it is shorter or empty, never an error, and element i is the source's element lo+i |
| Bytes.Read | read_udf.py:202-205 | a seek-then-read returns exactly min(off+n, size) - min(off, size) bytes, so n exactly when the image holds them and fewer at the end, and they are the image's bytes from the offset on |
| Bytes.ShiftMaskOr16 | read_udf.py:20-23 | a bit-vector identity: for operands below 256 the shift, mask and or of `to_uint16` equal high*256 + low, the arithmetic form `ToUint16` is written in |
| Bytes.ShiftMaskOr32 | read_udf.py:25-30 | a bit-vector identity: for operands below 256 the shifts, masks and ors of `to_uint32` equal the base-256 value with the byte at offset+3 most significant, the arithmetic form `ToUint32` is written in |
| Bytes.ToUint16 | read_udf.py:20-23 | the decoded 16-bit value is below 2^16 |
| Bytes.ToUint32 | read_udf.py:25-30 | the decoded 32-bit value is below 2^32 |
| Bytes.DecodeEncode16 | read_udf.py:20-23 | decoding the little-endian encoding of any v < 2^16 gives v |
| Bytes.EncodeDecode16 | read_udf.py:20-23 | re-encoding a decoded value gives back the two bytes, so distinct byte pairs decode to distinct values |
| Bytes.DecodeEncode32 | read_udf.py:25-30 | decoding the little-endian encoding of any v < 2^32 gives v |
| Bytes.EncodeDecode32 | read_udf.py:25-30 | re-encoding a decoded 32-bit value gives back the four bytes |
| DescriptorTags.TruncateToUint8 | read_udf.py:91-93 | the reduction loop yields a value of at most 256, congruent to the sum modulo 256, zero only for a zero sum, and the sum itself when that is at most 256 |
| DescriptorTags.TruncateClosedForm | read_udf.py:91-93 | the reduction is the sum when it is at most 256, else (sum-1) mod 256 + 1 |
| DescriptorTags.ParseTag | read_udf.py:64-95 | a buffer of fewer than 16 bytes gives the undecoded tag; otherwise every decoded field fits its on-disk width |
| DescriptorTags.ShortBufferInvalid | read_udf.py:68-70 | a buffer of fewer than 16 bytes gives an invalid tag with no fields decoded |
| DescriptorTags.TagValidity | read_udf.py:72-95 | a tag is valid iff the buffer has 16 bytes and the reduced checksum over bytes 0..15 except byte 4 equals byte 4 |
| DescriptorTags.ChecksumSumAgrees | read_udf.py:85-89 | the checksum sum depends only on bytes 0..15 other than byte 4 |
| DescriptorTags.ChecksumIgnoresChecksumByte | read_udf.py:86-88 | overwriting byte 4 never changes the sum it is compared against |
| DescriptorTags.ChecksumSumBound | read_udf.py:85-89 | the sum over the first n bytes is at most 255 per byte summed, byte 4 not counted |
| DescriptorTags.ChecksumSumExpanded | read_udf.py:85-89 | the sum is bytes 0,1,2,3 and 5 to 15 added up |
| DescriptorTags.MultipleOf256NeverValid | read_udf.py:91-95 | a tag whose checksum sum is a positive multiple of 256 is never valid |
| DescriptorTags.ValidityIsChecksumOnly | read_udf.py:72-95 | two buffers with equal checksum sums and equal byte 4 are equally valid, whatever their identifiers or reserved bytes |
| DescriptorTags.ParseTagAgrees | read_udf.py:64-95 | two buffers of 16 bytes or more that agree on their first 16 bytes give the same tag, fields and validity alike |
| DescriptorTags.TagIgnoresTrailingBytes | read_udf.py:75-95 | bytes from offset 16 on change neither the fields nor validity |
| DescriptorTags.ZeroIdentifierAccepted | read_udf.py:72-95 | sixteen zero bytes form a valid tag with identifier 0: the zero-identifier rejection does not survive |
| DescriptorTags.TagRoundTrip | read_udf.py:75-82 | decoding the bytes of any well-formed tag recovers every field from its fixed offset |
| DescriptorTags.TagDecodeEncode | read_udf.py:75-82 | re-encoding the decoded fields gives back the first 16 bytes, so each byte feeds exactly one field |
| DescriptorTags.SealedTagIsValid | read_udf.py:84-95 | storing the reduced checksum of any 16 bytes in byte 4 makes them a valid tag whenever that value fits a byte |
| Anchors.ParseAnchor | read_udf.py:50-57 | the anchor is valid for every buffer; its tag is the tag of the first 16 bytes, undecoded when there are fewer; the main extent, reserve extent and reserved tail have the clamped lengths of bytes [16, 24), [24, 32) and [32, 512), so at most 8, 8 and 480 |
| Anchors.AnchorSlicesTile | read_udf.py:55-57 | main extent, reserve extent and reserved tail concatenate to exactly bytes [16, 512) of the buffer, short buffers included |
| Anchors.FullAnchorLayout | read_udf.py:54-57 | a buffer of 512 bytes or more splits as tag 0..16 (the tag is parsed from exactly those bytes), main 16..24, reserve 24..32 and reserved 32..512 |
| VolumeRecognition.ScanFrom | read_udf.py:162-190 | the loop never loses a marker once found, and it finds one only when a full sector can be read from its starting position |
| VolumeRecognition.ScanFromMeaning | read_udf.py:162-190 | the loop from a sector reports a marker iff one was already found or a sector it reaches carries NSR02/NSR03, every earlier sector being full and recognised |
| VolumeRecognition.IsValidUdf | read_udf.py:151-192 | the result is true iff file_size >= 32768 + 2048 and some sector of the run that starts at byte 32768 carries NSR02/NSR03 at bytes 1..6 |
| VolumeRecognition.ScanStopsAtUnrecognised | read_udf.py:185-190 | sectors after the first unrecognised identifier never affect the result |
| VolumeRecognition.LoneMarkerAccepted | read_udf.py:185-192 | an image whose single recognition sector is NSR02 is accepted without BEA01 or TEA01 |
| SectorSizes.ProbeTag | read_udf.py:202-207 | the tag read at byte 256*s from a 512-byte read is decoded exactly when the image holds the 16 tag bytes there |
| SectorSizes.ProbeReadsTagBytes | read_udf.py:202-207 | of the 512 bytes read only the first 16 matter: a decoded probe is the tag of the image's 16 bytes at 256*s |
| SectorSizes.FirstAccepted | read_udf.py:196-226 | for any per-candidate test, the loop from candidate i returns 0 iff no later candidate passes; otherwise it returns a passing candidate before which every candidate failed |
| SectorSizes.GetSectorSize | read_udf.py:194-226 | the result is 0 or one of 2048, 512, 4096, 1024 |
| SectorSizes.AcceptedAnchorBytes | read_udf.py:198-224 | a candidate s passes the loop body's test iff file_size >= 257*s and the image's 16 bytes at 256*s carry identifier 2, location 256 and a matching checksum byte |
| SectorSizes.GetSectorSizeSound | read_udf.py:197-224 | a non-zero result s implies file_size >= 257*s and a valid anchor tag at byte 256*s with location 256 |
| SectorSizes.GetSectorSizeFirst | read_udf.py:195-224 | the result is the first passing candidate in the order 2048, 512, 4096, 1024 |
| SectorSizes.GetSectorSizeZero | read_udf.py:195-226 | the result is 0 iff no candidate passes |
| SectorSizes.PreferenceOrder | read_udf.py:195-224 | an anchor at 2048-byte sectors wins over any other; one at 512 wins unless there is one at 2048 |
| SectorSizes.DetectsExampleImage | read_udf.py:194-226 | a zero-filled image of 257 sectors of 2048 bytes with an anchor tag at sector 256 is detected as 2048 |

## Left out

- `go` (read_udf.py:228-272): a debug loop. Its only effects are printing and building an anchor that is thrown away, so it has no result to state.
- `PrimaryVolumeDescriptor` (read_udf.py:103-148): it follows the ISO 9660 layout rather than UDF's and is never called. Its `volume_sequence_number` and `logical_block_size` both take bytes 124..128, so there is no coherent behaviour to state.
- The module-level script (read_udf.py:275-280): a hard-coded image path, `open`, `os.path.getsize` and `print`. This is all I/O. The image contents and the file size are parameters instead.
- The file handle's position is not modelled. Each read is a slice at an absolute offset, which is what the source's seek-then-read sequences amount to.
- In `is_valid_udf`, the structure type (byte 0), structure version (byte 6) and structure data are read but never used. They are not modelled.
- `TagIdentifier` is modelled as constants only, because the source only compares against them.
- The volume descriptor sequence walk, partition maps, extent resolution and the File Set Descriptor location are not implemented in the source. They are not part of this model.
- Python 3 behaviour is not modelled. There `to_int` on an indexed byte string fails, because indexing already yields an int. The model follows Python 2, where the byte is a one-character string that `to_int` unpacks.
- Bytes.ToUint16: the contract states only the bound, because the arithmetic value is the body itself. What the decoder means is stated by the round-trip lemmas. `ShiftMaskOr16` is the bit-vector identity behind writing the source's shift, mask and or arithmetically; it is stated on 32-bit bit-vectors and is not a proved equation with `ToUint16` itself.
- Bytes.ToUint32: as for `ToUint16`, with `ShiftMaskOr32`.
