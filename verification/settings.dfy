/** The first header byte, which packs the leap indicator (2 bits), the
    version number (3 bits) and the association mode (3 bits), most
    significant bits first. */
module Settings {
  import opened Bytes

  type uint2 = x: int | 0 <= x < 4
  type uint3 = x: int | 0 <= x < 8

  datatype Settings = Settings(leap: uint2, version: uint3, mode: uint3)

  const NoWarning: uint2 := 0
  const Version3: uint3 := 3
  const ModeClient: uint3 := 3

  /** The settings byte every request carries: binary 00 011 011. */
  const ClientRequest: uint8 := 0x1B

  /** The byte holding the three sub-fields: leap in bits 7-6, version in
      bits 5-3, mode in bits 2-0. */
  function Pack(s: Settings): (b: uint8)
    ensures b % 8 == s.mode
    ensures (b % 64) / 8 == s.version
    ensures b / 64 == s.leap
  {
    var low := s.version * 8 + s.mode;
    assert low / 8 == s.version && low % 8 == s.mode;
    var b := s.leap * 64 + low;
    assert b / 64 == s.leap && b % 64 == low;
    b
  }

  /** The three sub-fields a settings byte holds. */
  function Unpack(b: uint8): (s: Settings)
    ensures s.leap * 64 + s.version * 8 + s.mode == b
  {
    var low := b % 64;
    Settings(b / 64, low / 8, low % 8)
  }

  lemma UnpackPack(s: Settings)
    ensures Unpack(Pack(s)) == s
  {
  }

  lemma PackUnpack(b: uint8)
    ensures Pack(Unpack(b)) == b
  {
  }

  /** The request byte says: no leap warning, version 3, client mode. */
  lemma ClientRequestFields()
    ensures Unpack(ClientRequest) == Settings(NoWarning, Version3, ModeClient)
    ensures Pack(Settings(NoWarning, Version3, ModeClient)) == ClientRequest
  {
  }
}
