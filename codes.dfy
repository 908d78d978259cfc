/** The frame type codes shared by host and firmware: commands the host sends
    (0x01..0x07) and responses the device returns (0x80..0x86, 0xFF). */
module Codes {
  import opened Bytes

  const ENABLE_DISABLE: byte := 0x01
  const PING: byte := 0x02
  const GET_CONFIG: byte := 0x03
  const GET_STATUS: byte := 0x04
  const SET_STIMULATION: byte := 0x05
  const SET_PHASES: byte := 0x06
  const SET_DEMO: byte := 0x07

  const ACK: byte := 0x80
  const NACK: byte := 0x81
  const PING_ACK: byte := 0x82
  const RETURN_CONFIG: byte := 0x83
  const RETURN_STATUS: byte := 0x84
  const SACK: byte := 0x85
  const DEMO_ACK: byte := 0x86
  const ERROR: byte := 0xFF

  /** The responses the session forwards as a generic acknowledgement. */
  predicate IsAckCode(t: byte)
  {
    t == ACK || t == NACK || t == SACK || t == DEMO_ACK || t == ERROR
  }
}
