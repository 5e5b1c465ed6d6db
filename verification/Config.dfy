/** The parts of the server's configuration that limit what clients may do. */
module Config {
  import opened Numbers
  import opened Times

  datatype ServerConfig = ServerConfig(
    maxDuration: i64, minInterval: i64, maxLength: i64, timeout: i64, packetBurst: i64,
    allowFills: seq<bytes>, allowStamp: AllowStamp, allowDSCP: bool, dscpSupport: bool)

  const MAX_DURATION_GRACE: int := 2_000_000_000

  /** Whether a test that was first used at `first` has run past its limit. */
  predicate Expired(cfg: ServerConfig, first: int, now: int) {
    cfg.maxDuration > 0 && now - first > cfg.maxDuration + MAX_DURATION_GRACE
  }

  /** Whether a request of this length is refused. */
  predicate TooLarge(cfg: ServerConfig, length: int) { cfg.maxLength > 0 && length > cfg.maxLength }
}
