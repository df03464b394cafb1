/**
 * CAN (TWAI) frames as the firmware sees them: an identifier, the extended
 * and remote-request flags, a data length code and the fixed 8-byte data array
 * of `twai_message_t`.
 */
module Frames {

  newtype byte = n: int | 0 <= n < 256

  /** Identifiers are 11-bit (standard) or 29-bit (extended). */
  type Identifier = n: int | 0 <= n < 0x2000_0000

  /** Data length code of a classic CAN frame. */
  type Dlc = n: int | 0 <= n <= 8

  /** The data array always has 8 slots, whatever the data length code says. */
  type Payload = s: seq<byte> | |s| == 8 witness [0, 0, 0, 0, 0, 0, 0, 0]

  /** An `esp_err_t` other than `ESP_OK` (which is 0): the driver's report of a failed call. */
  type ErrorCode = e: int | e != 0 witness -1

  datatype Frame = Frame(identifier: Identifier, extended: bool, remote: bool, dlc: Dlc, data: Payload)
  {
    /** The bytes the data length code says are meaningful. */
    function Shown(): (bs: seq<byte>)
      ensures |bs| == dlc
      ensures forall i :: 0 <= i < dlc ==> bs[i] == data[i]
    {
      data[..dlc]
    }
  }
}
