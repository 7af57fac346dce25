/** `is_valid_udf` of read_udf.py: the Volume Recognition Sequence scan
    (ECMA-167 Part 2 section 9, with the NSR descriptor of Part 3 section 9.1).

    From byte 32768 the image is read in 2048-byte sectors. Each sector's
    standard identifier (bytes 1 to 5) is classified: `NSR02`/`NSR03` marks a
    UDF volume, `BEA01`, `BOOT2`, `CD001`, `CDW02` and `TEA01` are passed over,
    and anything else ends the scan. The scan also ends at the first short
    read. The result is whether a marker was seen; `BEA01` and `TEA01` are not
    required. */
module VolumeRecognition {
  import opened Bytes

  /** `HEADER_SIZE`: the system area skipped before the sequence. */
  const HeaderSize: nat := 1024 * 32
  /** `SECTOR_SIZE`: the sector size used by the scan. */
  const SectorSize: nat := 1024 * 2

  /** The bytes of an ASCII string literal. */
  function Ascii(s: string): (r: seq<Byte>)
    requires forall i :: 0 <= i < |s| ==> s[i] as int < 0x100
    ensures |r| == |s|
    ensures forall i :: 0 <= i < |s| ==> r[i] == s[i] as int
  {
    seq(|s|, i requires 0 <= i < |s| => s[i] as int)
  }

  const NSR02: seq<Byte> := Ascii("NSR02")
  const NSR03: seq<Byte> := Ascii("NSR03")
  const BEA01: seq<Byte> := Ascii("BEA01")
  const BOOT2: seq<Byte> := Ascii("BOOT2")
  const CD001: seq<Byte> := Ascii("CD001")
  const CDW02: seq<Byte> := Ascii("CDW02")
  const TEA01: seq<Byte> := Ascii("TEA01")

  /** An identifier that marks a UDF volume. */
  predicate IsNsrMarker(id: seq<Byte>) {
    id == NSR02 || id == NSR03
  }

  /** An identifier the scan passes over. */
  predicate IsPassedOver(id: seq<Byte>) {
    id in [BEA01, BOOT2, CD001, CDW02, TEA01]
  }

  /** The `while` loop from file position `pos`, with `found` the value of
      `has_found_marker` on entry. A marker once found is never lost, and a
      marker can only be found in a full sector read from `pos` on. */
  function ScanFrom(data: seq<Byte>, pos: nat, found: bool): (r: bool)
    ensures found ==> r
    ensures r && !found ==> pos + SectorSize <= |data|
    decreases |data| - pos
  {
    var buffer := Read(data, pos, SectorSize);
    if |buffer| < SectorSize then found
    else
      var id := buffer[1..6];
      if IsNsrMarker(id) then ScanFrom(data, pos + SectorSize, true)
      else if IsPassedOver(id) then ScanFrom(data, pos + SectorSize, found)
      else found
  }

  // ---------------------------------------------------------------------
  // A description of the result that does not follow the loop: the scanned
  // run of sectors, and whether it contains a marker.

  /** Sector `k` of the recognition area: a read of 2048 bytes at its start. */
  function Sector(data: seq<Byte>, k: nat): seq<Byte> {
    Read(data, HeaderSize + k * SectorSize, SectorSize)
  }

  /** Whether sector `k` lies wholly inside the image. */
  predicate Full(data: seq<Byte>, k: nat) {
    |Sector(data, k)| == SectorSize
  }

  function SectorIdentifier(data: seq<Byte>, k: nat): seq<Byte>
    requires Full(data, k)
  {
    Sector(data, k)[1..6]
  }

  /** Whether the scan goes on past sector `k`. */
  predicate Continues(data: seq<Byte>, k: nat) {
    Full(data, k) && (IsNsrMarker(SectorIdentifier(data, k)) || IsPassedOver(SectorIdentifier(data, k)))
  }

  /** Sector `k` is read by a scan started at sector `i` and carries a
      marker: it is full, and every sector from `i` up to it let the scan go
      on. */
  predicate MarkerReached(data: seq<Byte>, i: nat, k: nat) {
    && i <= k
    && Full(data, k)
    && (forall j :: i <= j < k ==> Continues(data, j))
    && IsNsrMarker(SectorIdentifier(data, k))
  }

  /** A scan that stops at sector `i` without a marker there reaches no
      marker from `i` on. */
  lemma NoMarkerFromStop(data: seq<Byte>, i: nat)
    requires !Continues(data, i)
    requires !(Full(data, i) && IsNsrMarker(SectorIdentifier(data, i)))
    ensures forall k: nat :: !MarkerReached(data, i, k)
  {
    forall k: nat
      ensures !MarkerReached(data, i, k)
    {
      if i < k {
        assert !Continues(data, i);
      }
    }
  }

  /** Passing over sector `i` neither adds nor loses a reachable marker. */
  lemma MarkerPassedOver(data: seq<Byte>, i: nat, next: nat)
    requires next == i + 1
    requires Continues(data, i) && !IsNsrMarker(SectorIdentifier(data, i))
    ensures (exists k: nat :: MarkerReached(data, i, k)) <==> exists k: nat :: MarkerReached(data, next, k)
  {
    if exists k: nat :: MarkerReached(data, i, k) {
      var k: nat :| MarkerReached(data, i, k);
      assert k != i;
      assert MarkerReached(data, next, k);
    }
    if exists k: nat :: MarkerReached(data, next, k) {
      var k: nat :| MarkerReached(data, next, k);
      assert MarkerReached(data, i, k);
    }
  }

  /** The loop from sector `i` reports a marker exactly when one was already
      found or some sector it reads carries one. */
  lemma {:induction false} ScanFromMeaning(data: seq<Byte>, i: nat, found: bool)
    ensures ScanFrom(data, HeaderSize + i * SectorSize, found)
        <==> found || exists k: nat :: MarkerReached(data, i, k)
    decreases |data| - (HeaderSize + i * SectorSize)
  {
    var pos := HeaderSize + i * SectorSize;
    assert Sector(data, i) == Read(data, pos, SectorSize);
    if !Full(data, i) {
      NoMarkerFromStop(data, i);
    } else {
      var id := SectorIdentifier(data, i);
      assert pos + SectorSize == HeaderSize + (i + 1) * SectorSize;
      if IsNsrMarker(id) {
        ScanFromMeaning(data, i + 1, true);
        assert MarkerReached(data, i, i);
      } else if IsPassedOver(id) {
        ScanFromMeaning(data, i + 1, found);
        MarkerPassedOver(data, i, i + 1);
      } else {
        NoMarkerFromStop(data, i);
      }
    }
  }

  /** `is_valid_udf(file, file_size)` on an image whose contents are `data`.
      It holds exactly when the file is large enough for the header and one
      sector and some sector of the scanned run carries `NSR02` or `NSR03`. */
  function IsValidUdf(data: seq<Byte>, fileSize: nat): (r: bool)
    ensures r <==> fileSize >= HeaderSize + SectorSize && exists k: nat :: MarkerReached(data, 0, k)
  {
    if fileSize < HeaderSize + SectorSize then false
    else
      ScanFromMeaning(data, 0, false);
      ScanFrom(data, HeaderSize, false)
  }

  /** Sectors after the first unrecognised identifier are never looked at:
      if sector `u` is unrecognised, the result depends only on the markers
      among sectors 0 to `u - 1`. */
  lemma ScanStopsAtUnrecognised(data: seq<Byte>, fileSize: nat, u: nat)
    requires Full(data, u)
    requires !IsNsrMarker(SectorIdentifier(data, u)) && !IsPassedOver(SectorIdentifier(data, u))
    ensures IsValidUdf(data, fileSize)
        <==> fileSize >= HeaderSize + SectorSize && exists k: nat :: k < u && MarkerReached(data, 0, k)
  {
    forall k: nat | u <= k
      ensures !MarkerReached(data, 0, k)
    {
      if u < k {
        assert !Continues(data, u);
      }
    }
  }

  /** An image whose only recognition sector is an `NSR02` descriptor is
      accepted: neither `BEA01` nor `TEA01` is required. */
  lemma LoneMarkerAccepted()
    ensures var image := seq(HeaderSize + SectorSize, i => if HeaderSize + 1 <= i < HeaderSize + 6 then NSR02[i - HeaderSize - 1] else 0);
      IsValidUdf(image, |image|)
  {
    var image := seq(HeaderSize + SectorSize, i => if HeaderSize + 1 <= i < HeaderSize + 6 then NSR02[i - HeaderSize - 1] else 0);
    assert Sector(image, 0)[1..6] == NSR02;
    assert MarkerReached(image, 0, 0);
  }
}
