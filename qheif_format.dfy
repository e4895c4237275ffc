/**
 * Container format detection of the current handler (QHeifHandler::canReadFrom
 * and canRead): the first 12 bytes of a stream are read as the start of an
 * ISO-BMFF file type box, byte 0..4 box size, 4..8 box type, 8..12 major brand.
 */
module QHeifFormat {
  import opened Primitives
  import opened Wrappers
  import opened LibHeif

  /** QHeifHandler::Format. */
  datatype Format = None | Heif | HeifSequence | Heic | HeicSequence

  /** kHeaderSize: the number of bytes canReadFrom peeks. */
  const HEADER_SIZE: nat := 12

  /** The brand table: what each major brand makes of the stream. */
  function BrandFormat(brand: seq<byte>): Format {
    if brand == MIF1 then Heif
    else if brand == MSF1 then HeifSequence
    else if brand == HEIC || brand == HEIX then Heic
    else if brand == HEVC || brand == HEVX then HeicSequence
    else Format.None
  }

  /**
   * canReadFrom over the bytes that `device.peek(12)` returned: anything but
   * exactly 12 bytes, or a box type other than "ftyp", is not recognised; the
   * box size is never looked at.
   */
  function CanReadFrom(header: seq<byte>): (f: Format)
    ensures f != Format.None ==> |header| == HEADER_SIZE && header[4..8] == FTYP
    ensures f != Format.None ==> header[8..12] in {MIF1, MSF1, HEIC, HEIX, HEVC, HEVX}
  {
    if |header| != HEADER_SIZE then Format.None
    else if header[4..8] != FTYP then Format.None
    else BrandFormat(header[8..12])
  }

  /** The label canRead records with setFormat for each recognised format. */
  function FormatLabel(f: Format): (name: Option<string>)
    ensures name.None? <==> f == Format.None
  {
    match f
    case None => Option.None
    case Heif => Some("heif")
    case HeifSequence => Some("heifs")
    case Heic => Some("heic")
    case HeicSequence => Some("heics")
  }

  /** The format a label stands for; `None` for any other string. */
  function LabelFormat(s: string): Format {
    if s == "heif" then Heif
    else if s == "heifs" then HeifSequence
    else if s == "heic" then Heic
    else if s == "heics" then HeicSequence
    else Format.None
  }

  /**
   * canRead: true exactly when the handler has a device whose header is
   * recognised. The result is the label it records (`Some`) or that it returns
   * false without recording one (`None`).
   */
  function CanRead(device: Option<DeviceId>, header: seq<byte>): (name: Option<string>)
    ensures name.Some? <==> device.Some? && CanReadFrom(header) != Format.None
    ensures name.Some? ==> LabelFormat(name.value) == CanReadFrom(header)
  {
    if device.None? then Option.None
    else
      LabelRoundTrip(CanReadFrom(header));
      FormatLabel(CanReadFrom(header))
  }

  /** LabelFormat inverts FormatLabel, and accepts no other string. */
  lemma LabelRoundTrip(f: Format)
    ensures FormatLabel(f).Some? ==> LabelFormat(FormatLabel(f).value) == f
  {
  }

  lemma LabelOnlyForLabels(s: string)
    ensures LabelFormat(s) != Format.None <==> s in {"heif", "heifs", "heic", "heics"}
    ensures LabelFormat(s) != Format.None ==> FormatLabel(LabelFormat(s)) == Some(s)
  {
  }

  /** A well-formed file type box header with the given box size bytes and brand. */
  function FtypHeader(boxSize: seq<byte>, brand: seq<byte>): (h: seq<byte>)
    requires |boxSize| == 4 && |brand| == 4
    ensures |h| == HEADER_SIZE && h[..4] == boxSize && h[4..8] == FTYP && h[8..] == brand
  {
    boxSize + FTYP + brand
  }

  /** Every recognised header is an ftyp header of its own box size and brand. */
  lemma {:induction false} RecognisedIsFtypHeader(header: seq<byte>)
    requires CanReadFrom(header) != Format.None
    ensures header == FtypHeader(header[..4], header[8..12])
  {
    var h := FtypHeader(header[..4], header[8..12]);
    assert header == header[..4] + header[4..8] + header[8..12];
  }

  /** The brands that select each format. */
  function Brands(f: Format): (bs: set<seq<byte>>)
    ensures forall b :: b in bs ==> |b| == 4 && BrandFormat(b) == f
  {
    match f
    case None => {}
    case Heif => {MIF1}
    case HeifSequence => {MSF1}
    case Heic => {HEIC, HEIX}
    case HeicSequence => {HEVC, HEVX}
  }

  /**
   * The brand table read both ways: a header with an ftyp box is classified as
   * `f` exactly when its brand is one of `f`'s brands, whatever its box size.
   */
  lemma BrandTable(boxSize: seq<byte>, brand: seq<byte>, f: Format)
    requires |boxSize| == 4 && |brand| == 4 && f != Format.None
    ensures CanReadFrom(FtypHeader(boxSize, brand)) == f <==> brand in Brands(f)
  {
    var h := FtypHeader(boxSize, brand);
    assert h[8..12] == h[8..] == brand;
  }

  /** An unknown brand is never recognised. */
  lemma UnknownBrand(boxSize: seq<byte>, brand: seq<byte>)
    requires |boxSize| == 4 && |brand| == 4
    requires brand !in {MIF1, MSF1, HEIC, HEIX, HEVC, HEVX}
    ensures CanReadFrom(FtypHeader(boxSize, brand)) == Format.None
  {
    var h := FtypHeader(boxSize, brand);
    assert h[8..12] == h[8..] == brand;
  }

  /** The first four bytes (box size) have no influence on the classification. */
  lemma BoxSizeIgnored(h1: seq<byte>, h2: seq<byte>)
    requires |h1| == |h2| >= 4 && h1[4..] == h2[4..]
    ensures CanReadFrom(h1) == CanReadFrom(h2)
  {
    if |h1| == HEADER_SIZE {
      assert h1[4..8] == h1[4..][..4] && h2[4..8] == h2[4..][..4];
      assert h1[8..12] == h1[4..][4..] && h2[8..12] == h2[4..][4..];
    }
  }
}
