/** Machine integers and the four-character codes of an ISO-BMFF file type box. */
module Primitives {

  newtype byte = x: int | 0 <= x < 0x100

  /** The C++ `int` of the code base (32-bit two's complement). */
  newtype int32 = x: int | -0x8000_0000 <= x < 0x8000_0000

  const INT32_MIN: int := -0x8000_0000
  const INT32_MAX: int := 0x7fff_ffff

  /** A string whose characters all fit in one byte, as in a C string literal. */
  predicate IsAscii(s: string) {
    forall i :: 0 <= i < |s| ==> s[i] as int < 0x80
  }

  /** The bytes of an ASCII literal, as QByteArray compares them. */
  function Ascii(s: string): (r: seq<byte>)
    requires IsAscii(s)
    ensures |r| == |s|
    ensures forall i :: 0 <= i < |s| ==> r[i] as int == s[i] as int
  {
    if s == [] then [] else [s[0] as int as byte] + Ascii(s[1..])
  }

  /** Box type of the file type box (ISO/IEC 14496-12, section 4.3). */
  const FTYP: seq<byte> := [0x66, 0x74, 0x79, 0x70]

  /** Brands of ISO/IEC 23008-12 that the handlers recognise. */
  const MIF1: seq<byte> := [0x6d, 0x69, 0x66, 0x31]
  const MSF1: seq<byte> := [0x6d, 0x73, 0x66, 0x31]
  const HEIC: seq<byte> := [0x68, 0x65, 0x69, 0x63]
  const HEIX: seq<byte> := [0x68, 0x65, 0x69, 0x78]
  const HEVC: seq<byte> := [0x68, 0x65, 0x76, 0x63]
  const HEVX: seq<byte> := [0x68, 0x65, 0x76, 0x78]

  /** The literal "mifi" that the older handler compares against (not a registered brand). */
  const MIFI: seq<byte> := [0x6d, 0x69, 0x66, 0x69]

  /** The byte constants spell the text of the current handler's literals. */
  lemma FourCCSpelling()
    ensures Ascii("ftyp") == FTYP
    ensures Ascii("mif1") == MIF1 && Ascii("msf1") == MSF1
    ensures Ascii("heic") == HEIC && Ascii("heix") == HEIX
    ensures Ascii("hevc") == HEVC && Ascii("hevx") == HEVX
  {
  }

  /** The byte constants spell the text of the older handler's literals. */
  lemma LegacyFourCCSpelling()
    ensures Ascii("ftyp") == FTYP
    ensures Ascii("heic") == HEIC && Ascii("heix") == HEIX
    ensures Ascii("mifi") == MIFI
  {
  }

  /** a * c <= b * c for a <= b and non-negative c. */
  lemma MulLeftMono(a: int, b: int, c: nat)
    requires a <= b
    ensures a * c <= b * c
  {
    assert b * c - a * c == (b - a) * c;
  }
}
