/**
  The first byte of an NTP packet (RFC 5905, section 7.3) packs three fields:
  the leap indicator in bits 7-6, the version number in bits 5-3 and the
  association mode in bits 2-0.
 */
module Header {

  // The association modes, numbered as in the source's constant block.
  const Reserved: bv8 := 0
  const SymmetricActive: bv8 := 1
  const SymmetricPassive: bv8 := 2
  const Client: bv8 := 3
  const Server: bv8 := 4
  const Broadcast: bv8 := 5
  const ControlMessage: bv8 := 6
  const ReservedPrivate: bv8 := 7

  function LeapBits(b: bv8): bv8 { b >> 6 }

  function VersionBits(b: bv8): bv8 { (b >> 3) & 7 }

  function ModeBits(b: bv8): bv8 { b & 7 }

  /** The byte whose three fields are `leap`, `version` and `mode`. */
  function Pack(leap: bv8, version: bv8, mode: bv8): (b: bv8)
    requires leap < 4 && version < 8 && mode < 8
    ensures LeapBits(b) == leap && VersionBits(b) == version && ModeBits(b) == mode
  {
    (leap << 6) | (version << 3) | mode
  }

  /** The three fields determine the byte. */
  lemma PackFields(b: bv8)
    ensures Pack(LeapBits(b), VersionBits(b), ModeBits(b)) == b
  {
  }

  /** `(b & 0xf8) | mode`: replaces the mode and keeps leap indicator and version. */
  function WithMode(b: bv8, mode: bv8): (r: bv8)
    requires mode < 8
    ensures ModeBits(r) == mode
    ensures LeapBits(r) == LeapBits(b) && VersionBits(r) == VersionBits(b)
  {
    (b & 0xF8) | mode
  }

  /** Go's `byte(version)`: the conversion keeps the low eight bits. */
  function VersionByte(version: nat): (v: bv8)
    ensures version < 256 ==> v == version as bv8
  {
    (version % 256) as bv8
  }

  /** The conversion wraps around: versions 256 apart give the same byte. */
  lemma VersionByteWraps(version: nat)
    ensures VersionByte(version + 256) == VersionByte(version)
  {
    var n := version % 256;
    assert (version + 256) % 256 == n;
  }


  /**
    `(b & 0xc7) | byte(version) << 3`. For a version below 8 it replaces the
    version and keeps the other two fields.
   */
  function WithVersion(b: bv8, version: nat): (r: bv8)
    ensures version < 8 ==> VersionBits(r) == version as bv8
    ensures version < 8 ==> LeapBits(r) == LeapBits(b) && ModeBits(r) == ModeBits(b)
  {
    (b & 0xC7) | (VersionByte(version) << 3)
  }

  /** The two steps with which the client prepares the first byte of its request. */
  function ClientHeader(b: bv8, version: nat): (r: bv8)
    ensures version < 8 ==> ModeBits(r) == Client && VersionBits(r) == version as bv8
    ensures version < 8 ==> LeapBits(r) == LeapBits(b)
  {
    WithVersion(WithMode(b, Client), version)
  }

  /** Preparing the header a second time changes nothing, whatever the version. */
  lemma ClientHeaderIdempotent(b: bv8, version: nat)
    ensures ClientHeader(ClientHeader(b, version), version) == ClientHeader(b, version)
  {
  }

  /** On a zeroed byte: 0x1B (version 3, client) and 0x23 (version 4, client). */
  lemma ClientHeaderOfZero()
    ensures ClientHeader(0, 3) == 0x1B
    ensures ClientHeader(0, 4) == 0x23
  {
  }

  /**
    Without the callers' version check the shifted version byte would reach
    the leap indicator: version 8 sets bit 6.
   */
  lemma VersionEightSpills()
    ensures LeapBits(ClientHeader(0, 8)) == 1
  {
  }
}
