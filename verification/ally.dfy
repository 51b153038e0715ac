/**
  The records exchanged with the vendor API (src/main.rs lines 11-42), after JSON decoding.
  JSON decoding itself is not modelled: a reply is either a decoded record or a `CallError`.
 */
module Ally {

  /** Rust's `i64`, the width of the API's epoch timestamps. */
  newtype I64 = x: int | -0x8000_0000_0000_0000 <= x < 0x8000_0000_0000_0000

  /** The bearer token; the API delivers `expires_in` as a string of seconds, kept unparsed. */
  datatype Token = Token(accessToken: string, tokenType: string, expiresIn: string)

  /**
    One telemetry reading. `value` is arbitrary JSON in the API; here it is the text that
    `serde_json::Value`'s `Display` produces, which is what both the logger and the writer use.
   */
  datatype Status = Status(code: string, value: string)

  datatype Device = Device(
    activeTime: I64,
    createTime: I64,
    id: string,
    name: string,
    online: bool,
    status: seq<Status>,
    sub: bool,
    timeZone: string,
    updateTime: I64,
    deviceType: string)

  /** The envelope of the device listing: the devices and a server timestamp `t`. */
  datatype DevicesResponse = DevicesResponse(result: seq<Device>, t: I64)

  /** Why an HTTP call produced no record: the request failed, or its body did not decode. */
  datatype CallError = Transport | Decode
}
