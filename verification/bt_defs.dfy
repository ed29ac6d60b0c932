/**
 * The constants and class-of-device field macros of btmain.h.
 *
 * A class-of-device (CoD) value is 24 bits wide: bits 13-23 hold the
 * service classes, bits 8-12 the major class, bits 2-7 the minor class and
 * bits 0-1 the format type.
 */
module BtDefs {

  /** Length of the text `xx:xx:xx:xx:xx:xx` plus its terminating nil. */
  const ADDRESS_LENGTH: nat := 18
  /** Length of the text `xxxxxxxx-xxxx-xxxx-xxxx-xxxxxxxxxxxx` plus its terminating nil. */
  const UUID_LENGTH: nat := 37

  /** `BT_COD_SERVICE(x)`: the eleven service-class bits. */
  function CodService(x: bv32): (r: bv32)
    ensures r < 0x800
    ensures r == (x & 0xFF_E000) >> 13
  {
    (x >> 13) & 0x7ff
  }

  /** `BT_COD_MAJOR(x)`: the five major-class bits. */
  function CodMajor(x: bv32): (r: bv32)
    ensures r < 0x20
    ensures r == (x & 0x1F00) >> 8
  {
    (x >> 8) & 0x1f
  }

  /** `BT_COD_MINOR(x)`: the six minor-class bits. */
  function CodMinor(x: bv32): (r: bv32)
    ensures r < 0x40
    ensures r == (x & 0xFC) >> 2
  {
    (x >> 2) & 0x3f
  }

  /** `BT_COD_FORMAT(x)`: the two format bits. */
  function CodFormat(x: bv32): (r: bv32)
    ensures r < 4
  {
    x & 3
  }

  /**
   * The four fields partition the 24 CoD bits: putting them back at their
   * positions rebuilds the value.
   */
  lemma CodFieldsPartition(x: bv32)
    requires x < 0x100_0000
    ensures (CodService(x) << 13) | (CodMajor(x) << 8) | (CodMinor(x) << 2) | CodFormat(x) == x
  {
  }

  /** Two 24-bit CoD values with the same four fields are the same value. */
  lemma CodFieldsDetermineValue(x: bv32, y: bv32)
    requires x < 0x100_0000 && y < 0x100_0000
    requires CodService(x) == CodService(y) && CodMajor(x) == CodMajor(y)
    requires CodMinor(x) == CodMinor(y) && CodFormat(x) == CodFormat(y)
    ensures x == y
  {
    CodFieldsPartition(x);
    CodFieldsPartition(y);
  }
}
