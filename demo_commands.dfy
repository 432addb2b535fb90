/** The rp2040 demo's command handlers: the configuration handshake the host
    runs on connecting (`get_config`, `config_reset`, `finalize_config`) and
    the handlers that do nothing. */
module DemoCommands {
  import opened Types

  /** The arguments of the `config` reply. */
  datatype ConfigReply = ConfigReply(isConfig: bool, crc: u32, isShutdown: bool, moveCount: u16)

  /** The `config` reply for a stored configuration checksum: configured exactly
      when a checksum is stored, reporting it (0 when there is none), never shut
      down, and no move queue. */
  function ConfigReplyOf(stored: Option<u32>): (r: ConfigReply)
    ensures r.isConfig <==> stored.Some?
    ensures r.crc == stored.GetOr(0)
    ensures !r.isShutdown && r.moveCount == 0
  {
    ConfigReply(stored.Some?, stored.GetOr(0), false, 0)
  }

  /** What the host reads back from a `config` reply. */
  function StoredOf(r: ConfigReply): Option<u32>
  {
    if r.isConfig then Some(r.crc) else None
  }

  /** The reply tells the host exactly what is stored, so distinct states give
      distinct replies. */
  lemma ConfigReplyRoundTrip(stored: Option<u32>)
    ensures StoredOf(ConfigReplyOf(stored)) == stored
  {
  }

  lemma ConfigReplyInjective(a: Option<u32>, b: Option<u32>)
    requires ConfigReplyOf(a) == ConfigReplyOf(b)
    ensures a == b
  {
    ConfigReplyRoundTrip(a);
    ConfigReplyRoundTrip(b);
  }

  /** The demo's `State`, as far as these handlers use it. */
  class State {
    var configCrc: Option<u32>

    /** The board starts unconfigured. */
    constructor()
      ensures configCrc == None
    {
      configCrc := None;
    }

    /** `get_config`: reports the stored checksum and changes nothing. */
    method GetConfig() returns (r: ConfigReply)
      ensures r == ConfigReplyOf(configCrc)
    {
      var crc := configCrc;
      r := ConfigReply(crc.Some?, crc.GetOr(0), false, 0);
    }

    /** `config_reset`: forgets the stored checksum. */
    method ConfigReset()
      modifies this
      ensures configCrc == None
      ensures ConfigReplyOf(configCrc) == ConfigReply(false, 0, false, 0)
    {
      configCrc := None;
    }

    /** `finalize_config`: stores the host's checksum, after which `get_config`
        reports the board as configured with that checksum. */
    method FinalizeConfig(crc: u32)
      modifies this
      ensures configCrc == Some(crc)
      ensures ConfigReplyOf(configCrc) == ConfigReply(true, crc, false, 0)
    {
      configCrc := Some(crc);
    }
  }

  /** `debug_nop`. */
  method DebugNop()
  {
  }

  /** `emergency_stop`: the demo has nothing to stop. */
  method EmergencyStop()
  {
  }

  /** `allocate_oids`: the demo keeps no objects, so the count is ignored. */
  method AllocateOids(count: u8)
  {
  }
}
