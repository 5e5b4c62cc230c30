/** Limits and lifetimes of the gateway, in milliseconds, entries and bytes (gateway/src/constants.ts). */
module Constants {
  const MINUTE_MS := 60 * 1000
  const CAPABILITY_TTL_MS := 30 * MINUTE_MS
  const DEVICE_AUTHORIZATION_TTL_MS := 30 * 24 * 60 * MINUTE_MS
  const PAIRING_CODE_TTL_MS := 10 * MINUTE_MS
  const PAIRING_CODE_MAX_FAILURES := 5
  const PAIRING_IP_MAX_ATTEMPTS := 20
  const PAIRING_IP_WINDOW_MS := 15 * MINUTE_MS
  const CLOCK_SKEW_MS := MINUTE_MS
  const SIGNED_REQUEST_MAX_LIFETIME_MS := 30 * MINUTE_MS
  const NONCE_RETENTION_MS := 35 * MINUTE_MS
  const MAX_RECENT_NONCES := 128
  const MAX_RECENT_RELAYS := 256
  const MAX_MCP_RESPONSE_COMPRESSED_BYTES := 768 * 1024
  const MAX_MCP_RESPONSE_DECODED_BYTES := 4 * 1024 * 1024
  const MAX_MCP_RESPONSE_ENCODED_CHARACTERS := (MAX_MCP_RESPONSE_COMPRESSED_BYTES * 4 + 2) / 3

  /** The same, worked out. */
  lemma LimitsAre()
    ensures CAPABILITY_TTL_MS == SIGNED_REQUEST_MAX_LIFETIME_MS == 1_800_000 && CLOCK_SKEW_MS == 60_000
    ensures DEVICE_AUTHORIZATION_TTL_MS == 2_592_000_000 && NONCE_RETENTION_MS == 2_100_000
    ensures PAIRING_CODE_TTL_MS == 600_000 && PAIRING_IP_WINDOW_MS == 900_000
    ensures PAIRING_CODE_MAX_FAILURES == 5 && PAIRING_IP_MAX_ATTEMPTS == 20
    ensures MAX_RECENT_NONCES == 128 && MAX_RECENT_RELAYS == 256
    ensures MAX_MCP_RESPONSE_COMPRESSED_BYTES == 786_432 && MAX_MCP_RESPONSE_DECODED_BYTES == 4_194_304
    ensures MAX_MCP_RESPONSE_ENCODED_CHARACTERS == 1_048_576
  {
  }
}
