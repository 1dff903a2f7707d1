/** The .zcm capture file: a 16-byte header and a run of frames. */
module ZcmFile {
  import opened Bytes
  import opened WireFrame

  const ZCM_MAGIC: U32 := 0x314D_435A
  const ZCM_VERSION: U16 := 1
  const HEADER_SIZE := 16

  /** Magic, version, a reserved zero, and the frame count, little-endian. */
  function Header(frameCount: U64): (r: seq<Byte>)
    ensures |r| == 16
  {
    LittleEndian(ZCM_MAGIC, 4) + LittleEndian(ZCM_VERSION, 2) + LittleEndian(0, 2) + LittleEndian(frameCount, 8)
  }

  // ----- reading it back -----

  function HeaderMagic(file: seq<Byte>): (r: nat)
    requires |file| >= 16
  {
    FromLittleEndian(file[0..4])
  }

  function HeaderVersion(file: seq<Byte>): (r: nat)
    requires |file| >= 16
  {
    FromLittleEndian(file[4..6])
  }

  function HeaderCount(file: seq<Byte>): (r: U64)
    requires |file| >= 16
  {
    Pow256Values();
    FromLittleEndianBound(file[8..16]);
    FromLittleEndian(file[8..16])
  }

  /** A header reads back as what was written. */
  lemma HeaderReads(count: U64, body: seq<Byte>)
    ensures var file := Header(count) + body;
      && HeaderMagic(file) == ZCM_MAGIC && HeaderVersion(file) == ZCM_VERSION && HeaderCount(file) == count
      && file[16..] == body
  {
    hide LittleEndian, FromLittleEndian;
    HeaderParts(count, body);
    Pow256Values();
    LittleEndianRoundTrip(ZCM_MAGIC, 4);
    LittleEndianRoundTrip(ZCM_VERSION, 2);
    LittleEndianRoundTrip(count, 8);
  }

  lemma HeaderParts(count: U64, body: seq<Byte>)
    ensures var file := Header(count) + body;
      && file[0..4] == LittleEndian(ZCM_MAGIC, 4) && file[4..6] == LittleEndian(ZCM_VERSION, 2)
      && file[8..16] == LittleEndian(count, 8) && file[16..] == body
  {
    hide LittleEndian;
  }

  // ----- writing in place -----

  /** Writing at a position inside or at the end of a file. */
  function Overwrite(file: seq<Byte>, at: nat, bytes: seq<Byte>): (r: seq<Byte>)
    requires at <= |file|
  {
    file[..at] + bytes + (if at + |bytes| <= |file| then file[at + |bytes|..] else [])
  }
}
