/** `get_sector_size` of read_udf.py: the logical sector size is found by
    probing candidate sizes for the Anchor Volume Descriptor Pointer, which
    ECMA-167 records at logical sector 256.

    The candidates are tried in the order 2048, 512, 4096, 1024. A candidate
    `s` is skipped when the file is shorter than 257 sectors of that size;
    otherwise 512 bytes are read at byte `256 * s` and the candidate is
    accepted when they begin with a valid tag whose identifier is the anchor's
    (2) and whose recorded location is 256. The first accepted candidate is
    the result, and 0 means that none was accepted. */
module SectorSizes {
  import opened Bytes
  import opened DescriptorTags
  import TagIdentifier

  const Candidates: seq<nat> := [2048, 512, 4096, 1024]
  /** The logical sector that holds the anchor. */
  const AnchorSector: nat := 256
  /** Bytes read at each probe. */
  const ProbeLength: nat := 512

  /** Whether the 16 image bytes at `off` are an anchor tag the code accepts:
      identifier 2, recorded location 256 and a checksum byte equal to the
      reduced checksum of the other fifteen. */
  predicate AnchorTagAt(data: seq<Byte>, off: nat) {
    && off + TagSize <= |data|
    && var tag := data[off .. off + TagSize];
       && ToUint16(tag, 0) == TagIdentifier.AnchorVolumeDescriptorPointer
       && ToUint32(tag, 12) == AnchorSector
       && ReducedChecksum(tag) == ToInt(tag[ChecksumOffset])
  }

  /** The tag read at logical sector 256 for sector size `size`: it is
      decoded exactly when the image holds the 16 tag bytes there, however
      many of the 512 bytes requested it holds. */
  function ProbeTag(data: seq<Byte>, size: nat): (t: DescriptorTag)
    ensures t.Decoded? <==> AnchorSector * size + TagSize <= |data|
  {
    ParseTag(Read(data, AnchorSector * size, ProbeLength))
  }

  /** Of the 512 bytes the probe reads only the first 16 matter: a decoded
      probe is the tag of the image's 16 bytes at byte `256 * size`. */
  lemma ProbeReadsTagBytes(data: seq<Byte>, size: nat)
    requires AnchorSector * size + TagSize <= |data|
    ensures ProbeTag(data, size) == ParseTag(data[AnchorSector * size .. AnchorSector * size + TagSize])
  {
    var off := AnchorSector * size;
    var buf := Read(data, off, ProbeLength);
    TagIgnoresTrailingBytes(buf);
    assert buf[..TagSize] == data[off .. off + TagSize];
  }

  /** The loop body's test of one candidate size; `AcceptedAnchorBytes`
      below states what it means for the image's bytes. */
  predicate Accepts(data: seq<Byte>, fileSize: nat, size: nat) {
    && fileSize >= (AnchorSector + 1) * size
    && var tag := ProbeTag(data, size);
       && tag.IsValid()
       && tag.fields.identifier == TagIdentifier.AnchorVolumeDescriptorPointer
       && tag.fields.location == AnchorSector
  }

  /** The test, read in terms of the image's bytes: a candidate passes
      exactly when the file holds 257 sectors of that size and the image
      carries an anchor tag at byte `256 * size`. */
  lemma AcceptedAnchorBytes(data: seq<Byte>, fileSize: nat, size: nat)
    ensures Accepts(data, fileSize, size)
        <==> fileSize >= (AnchorSector + 1) * size && AnchorTagAt(data, AnchorSector * size)
  {
    var off := AnchorSector * size;
    if off + TagSize <= |data| {
      ProbeReadsTagBytes(data, size);
      TagValidity(data[off .. off + TagSize]);
    }
  }

  /** The `for` loop from candidate `i` on, with `passes` the loop body's
      test: the first passing candidate at or after `i`, or 0 when none
      passes. */
  function FirstAccepted(passes: nat -> bool, i: nat): (r: nat)
    requires i <= |Candidates|
    ensures r == 0 <==> forall j :: i <= j < |Candidates| ==> !passes(Candidates[j])
    ensures r != 0 ==> exists j :: i <= j < |Candidates| && r == Candidates[j]
                                   && passes(Candidates[j])
                                   && forall l :: i <= l < j ==> !passes(Candidates[l])
    decreases |Candidates| - i
  {
    if i == |Candidates| then 0
    else if passes(Candidates[i]) then Candidates[i]
    else FirstAccepted(passes, i + 1)
  }

  /** `get_sector_size(file, file_size)` on an image whose contents are
      `data`. */
  function GetSectorSize(data: seq<Byte>, fileSize: nat): (r: nat)
    ensures r in {0, 2048, 512, 4096, 1024}
  {
    FirstAccepted((size: nat) => Accepts(data, fileSize, size), 0)
  }

  /** A non-zero result `s` means: the file holds at least 257 sectors of
      size `s`, and the image carries an anchor tag at byte `256 * s`. */
  lemma GetSectorSizeSound(data: seq<Byte>, fileSize: nat)
    ensures var s := GetSectorSize(data, fileSize);
      s != 0 ==> fileSize >= (AnchorSector + 1) * s && AnchorTagAt(data, AnchorSector * s)
  {
    var s := GetSectorSize(data, fileSize);
    if s != 0 {
      AcceptedAnchorBytes(data, fileSize, s);
    }
  }

  /** The result is the first candidate, in the order 2048, 512, 4096, 1024,
      that passes the test: every earlier one failed it. */
  lemma GetSectorSizeFirst(data: seq<Byte>, fileSize: nat, j: nat)
    requires j < |Candidates|
    requires GetSectorSize(data, fileSize) == Candidates[j]
    ensures Accepts(data, fileSize, Candidates[j])
    ensures forall l :: 0 <= l < j ==> !Accepts(data, fileSize, Candidates[l])
  {
    var k :| 0 <= k < |Candidates| && Candidates[k] == Candidates[j]
             && Accepts(data, fileSize, Candidates[k])
             && forall l :: 0 <= l < k ==> !Accepts(data, fileSize, Candidates[l]);
    assert k == j;
  }

  /** 0 is returned exactly when no candidate passes. */
  lemma GetSectorSizeZero(data: seq<Byte>, fileSize: nat)
    ensures GetSectorSize(data, fileSize) == 0 <==> forall s :: s in Candidates ==> !Accepts(data, fileSize, s)
  {
    if GetSectorSize(data, fileSize) == 0 {
      forall s | s in Candidates
        ensures !Accepts(data, fileSize, s)
      {
        var j :| 0 <= j < |Candidates| && Candidates[j] == s;
      }
    }
  }

  /** An anchor at 2048-byte sectors wins whatever else the image holds, and
      one at 512-byte sectors wins unless there is one at 2048. */
  lemma PreferenceOrder(data: seq<Byte>, fileSize: nat)
    ensures Accepts(data, fileSize, 2048) ==> GetSectorSize(data, fileSize) == 2048
    ensures !Accepts(data, fileSize, 2048) && Accepts(data, fileSize, 512) ==> GetSectorSize(data, fileSize) == 512
  {
  }

  /** The anchor tag used by the example below: identifier 2, version 3,
      location 256, checksum 2 + 3 + 1 = 6. */
  const ExampleAnchorTag: TagFields := TagFields(2, 3, 6, 0, 0, 0, 0, 256)

  /** The example tag's bytes decode to a valid anchor tag at sector 256. */
  lemma ExampleTagValid()
    ensures ParseTag(EncodeTag(ExampleAnchorTag)).IsValid()
    ensures ParseTag(EncodeTag(ExampleAnchorTag)).fields == ExampleAnchorTag
  {
    TagRoundTrip(ExampleAnchorTag);
    ChecksumSumExpanded(EncodeTag(ExampleAnchorTag));
  }

  /** An image of 257 sectors of 2048 bytes, zero except for a valid anchor
      tag at sector 256, is detected as having 2048-byte sectors. */
  lemma DetectsExampleImage()
    ensures var tag := EncodeTag(ExampleAnchorTag);
      var image := seq(257 * 2048, i => if 256 * 2048 <= i < 256 * 2048 + TagSize then tag[i - 256 * 2048] else 0);
      GetSectorSize(image, |image|) == 2048
  {
    var tag := EncodeTag(ExampleAnchorTag);
    var image := seq(257 * 2048, i => if 256 * 2048 <= i < 256 * 2048 + TagSize then tag[i - 256 * 2048] else 0);
    assert image[256 * 2048 .. 256 * 2048 + TagSize] == tag;
    ProbeReadsTagBytes(image, 2048);
    ExampleTagValid();
    assert Accepts(image, |image|, 2048);
    PreferenceOrder(image, |image|);
  }
}
