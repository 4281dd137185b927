/** The 16-byte PKM header as `read_etc_header` reads it: a magic number,
    a version, a texture type and four big-endian signed 16-bit dimensions.
    Each failure of the parser is a distinct error value. */
module PkmHeader {
  import opened Bits

  /** The only texture type with a decoder: ETC1_RGB_NO_MIPMAPS. */
  const ETC1_RGB_NO_MIPMAPS: Byte := 0
  const IMPLEMENTED_FORMATS: seq<Byte> := [ETC1_RGB_NO_MIPMAPS]

  /** "PKM " and "10" in ASCII. */
  const MAGIC: seq<Byte> := [0x50, 0x4B, 0x4D, 0x20]
  const VERSION_10: seq<Byte> := [0x31, 0x30]

  datatype HeaderError =
    | NotPkm                                      // bad magic
    | UnsupportedVersion                          // version bytes other than "10"
    | UnsupportedTextureType(textureType: Byte)   // type byte not implemented
    | Truncated                                   // fewer bytes than a field needs

  datatype Result<T> = Ok(value: T) | Err(error: HeaderError)

  /** The tuple `(texture_type, width, height, active_width, active_height)`. */
  datatype Header = Header(textureType: Byte, width: int, height: int, activeWidth: int, activeHeight: int)

  /** Python's slice `data[lo:hi]`, which is shorter (or empty) when the
      data ends early. */
  function Slice(data: seq<Byte>, lo: nat, hi: nat): (r: seq<Byte>)
    requires lo < hi
    ensures |data| >= hi ==> r == data[lo..hi]
    ensures |data| < hi ==> |r| < hi - lo
  {
    if |data| <= lo then [] else if |data| < hi then data[lo..] else data[lo..hi]
  }

  /** `struct.unpack(">h", [hi, lo])`: a big-endian 16-bit two's-complement
      number. */
  function SignedBE16(hi: Byte, lo: Byte): (r: int)
    ensures -32768 <= r < 32768
    ensures (r + 65536) % 65536 == hi * 256 + lo
  {
    var u := hi * 256 + lo;
    if u >= 32768 then u - 65536 else u
  }

  /** `struct.pack(">h", v)`, used to state what the parser recovers. */
  function EncodeBE16(v: int): (bytes: seq<Byte>)
    requires -32768 <= v < 32768
    ensures |bytes| == 2
  {
    var u := if v < 0 then v + 65536 else v;
    [u / 256, u % 256]
  }

  lemma BE16RoundTrip(v: int)
    requires -32768 <= v < 32768
    ensures SignedBE16(EncodeBE16(v)[0], EncodeBE16(v)[1]) == v
  {
  }

  lemma BE16RoundTripBytes(hi: Byte, lo: Byte)
    ensures EncodeBE16(SignedBE16(hi, lo)) == [hi, lo]
  {
  }

  predicate HasMagic(data: seq<Byte>)
  {
    |data| >= 4 && data[..4] == MAGIC
  }

  predicate HasVersion10(data: seq<Byte>)
  {
    |data| >= 6 && data[4..6] == VERSION_10
  }

  /** A complete PKM header of an implemented texture type. */
  predicate IsEtc1Pkm(data: seq<Byte>)
  {
    |data| >= 16 && HasMagic(data) && HasVersion10(data) && data[7] in IMPLEMENTED_FORMATS
  }

  /** `read_etc_header`. Byte 6 and everything after byte 15 are ignored. */
  function ReadEtcHeader(data: seq<Byte>): (r: Result<Header>)
    ensures r.Ok? <==> IsEtc1Pkm(data)
    ensures r == Err(NotPkm) <==> !HasMagic(data)
    ensures r == Err(UnsupportedVersion) <==> HasMagic(data) && !HasVersion10(data)
    ensures (r.Err? && r.error.UnsupportedTextureType?) <==>
      HasMagic(data) && HasVersion10(data) && |data| >= 8 && data[7] !in IMPLEMENTED_FORMATS
    ensures r == Err(Truncated) <==>
      HasMagic(data) && HasVersion10(data) &&
      (|data| < 8 || (data[7] in IMPLEMENTED_FORMATS && |data| < 16))
    ensures r.Ok? ==> r.value.textureType == ETC1_RGB_NO_MIPMAPS
    ensures r.Ok? ==> r.value == Header(data[7],
      SignedBE16(data[8], data[9]), SignedBE16(data[10], data[11]),
      SignedBE16(data[12], data[13]), SignedBE16(data[14], data[15]))
  {
    if Slice(data, 0, 4) != MAGIC then Err(NotPkm)
    else if Slice(data, 4, 6) != VERSION_10 then Err(UnsupportedVersion)
    else if |data| < 8 then Err(Truncated)
    else if data[7] !in IMPLEMENTED_FORMATS then Err(UnsupportedTextureType(data[7]))
    else if |data| < 16 then Err(Truncated)
    else
      Ok(Header(data[7],
                SignedBE16(data[8], data[9]), SignedBE16(data[10], data[11]),
                SignedBE16(data[12], data[13]), SignedBE16(data[14], data[15])))
  }

  predicate InRange(h: Header)
  {
    -32768 <= h.width < 32768 && -32768 <= h.height < 32768 &&
    -32768 <= h.activeWidth < 32768 && -32768 <= h.activeHeight < 32768
  }

  /** The header bytes a PKM writer produces for h, with 0 in byte 6. */
  function FormatHeader(h: Header): (data: seq<Byte>)
    requires InRange(h)
    ensures |data| == 16
  {
    MAGIC + VERSION_10 + [0, h.textureType] +
    EncodeBE16(h.width) + EncodeBE16(h.height) +
    EncodeBE16(h.activeWidth) + EncodeBE16(h.activeHeight)
  }

  /** Every header of ETC1 type is read back exactly; any other type is
      refused with that type in the error. */
  lemma ReadFormattedHeader(h: Header)
    requires InRange(h)
    ensures ReadEtcHeader(FormatHeader(h)) ==
      if h.textureType in IMPLEMENTED_FORMATS then Ok(h)
      else Err(UnsupportedTextureType(h.textureType))
  {
    var d := FormatHeader(h);
    assert d[..4] == MAGIC && d[4..6] == VERSION_10 && d[7] == h.textureType;
    BE16RoundTrip(h.width);
    BE16RoundTrip(h.height);
    BE16RoundTrip(h.activeWidth);
    BE16RoundTrip(h.activeHeight);
  }

  /** A header that parses is determined by its result, up to byte 6 and
      the bytes after the 16th. */
  lemma ParsedHeaderDeterminesBytes(data: seq<Byte>, h: Header)
    requires ReadEtcHeader(data) == Ok(h)
    ensures InRange(h)
    ensures data[..16] == FormatHeader(h)[6 := data[6]]
  {
    BE16RoundTripBytes(data[8], data[9]);
    BE16RoundTripBytes(data[10], data[11]);
    BE16RoundTripBytes(data[12], data[13]);
    BE16RoundTripBytes(data[14], data[15]);
    var f := FormatHeader(h)[6 := data[6]];
    assert data[..4] == MAGIC;
    assert data[4..6] == VERSION_10;
    forall i | 0 <= i < 16
      ensures data[i] == f[i]
    {
      if i < 4 {
        assert data[i] == data[..4][i];
      } else if i < 6 {
        assert data[i] == data[4..6][i - 4];
      }
    }
  }
}
