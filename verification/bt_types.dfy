/**
 * The value types shared by every part of the library: bytes, the 6-byte
 * Bluetooth address, the 16-byte UUID, the error enumeration of bterror.h
 * and a mutable cell standing for a C out-pointer.
 */
module BtTypes {

  /** One octet (`uint8_t`). */
  type Byte = x: int | 0 <= x < 256

  /** `bt_addr_t`: six bytes, `b[0]` least significant. */
  type Addr = s: seq<Byte> | |s| == 6 witness [0, 0, 0, 0, 0, 0]

  /** `bt_uuid_t`: sixteen bytes in the order they are printed. */
  type Uuid = s: seq<Byte> | |s| == 16 witness [0, 0, 0, 0, 0, 0, 0, 0, 0, 0, 0, 0, 0, 0, 0, 0]

  datatype Option<+T> = None | Some(value: T)

  /** A value, or the error code a C function would have returned instead. */
  datatype Result<+T> = Ok(value: T) | Err(err: BtErr)

  /** The number whose big-endian (most significant first) bytes are `bs`. */
  function BigEndian(bs: seq<Byte>): nat
  {
    if bs == [] then 0 else BigEndian(bs[..|bs| - 1]) * 256 + bs[|bs| - 1]
  }

  /** `bt_err_t`, in the order of its enumeration. */
  datatype BtErr =
    | Success
    | ErrUnknown
    | ErrWtf
    | ErrBadParam
    | ErrUnsupported
    | ErrUninitialised
    | ErrDeviceNotFound
    | ErrServiceNotFound
    | ErrEndOfEnum
    | ErrSdpBadRecord
    | ErrFileNotFound
    | ErrAllocatingSocket
    | ErrConnectionFailure
    | SocketClosed
    | ErrTimeout

  /**
   * A caller-owned location the library writes through: a non-null
   * `Ref<T>` is a valid pointer, `null` is a NULL pointer.
   */
  class Ref<T> {
    var value: T

    constructor (v: T)
      ensures value == v
    {
      value := v;
    }
  }
}
