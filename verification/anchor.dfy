/** `AnchorVolumeDescriptorPointer.__init__` of read_udf.py: the fixed-offset
    split of a buffer into the descriptor tag (ECMA-167 Part 3 section 10.2),
    the main and reserve Volume Descriptor Sequence extents, and the reserved
    tail. The extents are kept as raw bytes, as in the source, and the
    descriptor is valid unconditionally: its `is_valid` is set once and never
    cleared, whatever the tag says. */
module Anchors {
  import opened Bytes
  import opened DescriptorTags

  /** Size of the descriptor the slices cover. */
  const AnchorSize: nat := 512

  datatype AnchorVolumeDescriptorPointer = AnchorVolumeDescriptorPointer(
    tag: DescriptorTag,
    mainExtent: seq<Byte>,      // bytes [16, 24)
    reserveExtent: seq<Byte>,   // bytes [24, 32)
    reserved: seq<Byte>,        // bytes [32, 512)
    valid: bool)

  /** `AnchorVolumeDescriptorPointer(buffer)`: the tag is the tag of the
      first 16 bytes (undecoded when there are fewer), and each slice has
      the length Python's clamping gives it, so a short buffer fills the
      fields in order and leaves the later ones short or empty. */
  function ParseAnchor(buf: seq<Byte>): (a: AnchorVolumeDescriptorPointer)
    ensures a.valid
    ensures a.tag == if |buf| < TagSize then Truncated else ParseTag(buf[..TagSize])
    ensures |a.mainExtent| == Min(24, |buf|) - Min(16, |buf|)
    ensures |a.reserveExtent| == Min(32, |buf|) - Min(24, |buf|)
    ensures |a.reserved| == Min(AnchorSize, |buf|) - Min(32, |buf|)
    ensures |a.mainExtent| <= 8 && |a.reserveExtent| <= 8 && |a.reserved| <= 480
  {
    if |buf| >= TagSize then
      TagIgnoresTrailingBytes(buf);
      AnchorVolumeDescriptorPointer(
        ParseTag(buf), Slice(buf, 16, 24), Slice(buf, 24, 32), Slice(buf, 32, AnchorSize), true)
    else
      AnchorVolumeDescriptorPointer(
        ParseTag(buf), Slice(buf, 16, 24), Slice(buf, 24, 32), Slice(buf, 32, AnchorSize), true)
  }

  /** The three slices tile the bytes after the tag: concatenated they are
      exactly the buffer's bytes [16, 512), for a full buffer and for a short
      one alike, so no byte is dropped or read twice. */
  lemma AnchorSlicesTile(buf: seq<Byte>)
    ensures var a := ParseAnchor(buf);
      a.mainExtent + a.reserveExtent + a.reserved == Slice(buf, 16, AnchorSize)
  {
    var a := ParseAnchor(buf);
    var whole := Slice(buf, 16, AnchorSize);
    var parts := a.mainExtent + a.reserveExtent + a.reserved;
    assert |parts| == |whole|;
    forall i | 0 <= i < |parts|
      ensures parts[i] == whole[i]
    {
      if i < |a.mainExtent| {
      } else if i < |a.mainExtent| + |a.reserveExtent| {
      } else {
      }
    }
  }

  /** A buffer of at least 512 bytes splits into 8 + 8 + 480 bytes at the
      offsets of the standard's layout. */
  lemma FullAnchorLayout(buf: seq<Byte>)
    requires |buf| >= AnchorSize
    ensures var a := ParseAnchor(buf);
      && a.tag == ParseTag(buf[..TagSize])
      && a.mainExtent == buf[16..24]
      && a.reserveExtent == buf[24..32]
      && a.reserved == buf[32..AnchorSize]
      && buf[..AnchorSize] == buf[..TagSize] + a.mainExtent + a.reserveExtent + a.reserved
  {
    var a := ParseAnchor(buf);
    assert buf[..AnchorSize] == buf[..16] + buf[16..24] + buf[24..32] + buf[32..AnchorSize];
  }
}
