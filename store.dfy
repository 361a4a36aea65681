/** The converter's bit store: a 4-byte `ArrayBuffer` seen through a `DataView`,
    written and read as one unsigned 32-bit integer in either byte order. */
module Store {
  import opened Binary

  type Byte = x: int | 0 <= x < 256

  /** The value of four bytes, lowest-order byte first. */
  function Compose(b0: Byte, b1: Byte, b2: Byte, b3: Byte): (v: Word)
    ensures v % 256 == b0 && v / 0x100_0000 == b3
  {
    b0 + 256 * (b1 + 256 * (b2 + 256 * b3))
  }

  class DataView {
    /** The four bytes of the underlying `ArrayBuffer`, at offsets 0 to 3. */
    const bytes: array<Byte>

    ghost predicate Valid() {
      bytes.Length == 4
    }

    /** `new DataView(new ArrayBuffer(4))`: a fresh buffer is zero-filled. */
    constructor ()
      ensures Valid() && fresh(bytes)
      ensures Read(true) == 0 && Read(false) == 0
    {
      bytes := new Byte[4](_ => 0);
    }

    /** What `getUint32(0, littleEndian)` returns for the current bytes. */
    function Read(littleEndian: bool): Word
      reads bytes
      requires Valid()
    {
      if littleEndian then Compose(bytes[0], bytes[1], bytes[2], bytes[3])
      else Compose(bytes[3], bytes[2], bytes[1], bytes[0])
    }

    /** `setUint32(0, value, littleEndian)`: the value is wrapped to 32 bits
        (ToUint32) and its four bytes replace the whole buffer. */
    method SetUint32(value: nat, littleEndian: bool)
      requires Valid()
      modifies bytes
      ensures Read(littleEndian) == value % 0x1_0000_0000
    {
      var v := value % 0x1_0000_0000;
      var b0, b1, b2, b3 := v % 256, (v / 256) % 256, (v / 256 / 256) % 256, v / 256 / 256 / 256;
      assert v == Compose(b0, b1, b2, b3);
      if littleEndian {
        bytes[0], bytes[1], bytes[2], bytes[3] := b0, b1, b2, b3;
      } else {
        bytes[0], bytes[1], bytes[2], bytes[3] := b3, b2, b1, b0;
      }
    }

    /** `getUint32(0, littleEndian)`. */
    method GetUint32(littleEndian: bool) returns (v: Word)
      requires Valid()
      ensures v == Read(littleEndian)
    {
      if littleEndian {
        v := Compose(bytes[0], bytes[1], bytes[2], bytes[3]);
      } else {
        v := Compose(bytes[3], bytes[2], bytes[1], bytes[0]);
      }
    }
  }

  /** Writing and reading in the same byte order gives back the word
      written, in either order; the converter uses little-endian for both. */
  method WriteThenRead(view: DataView, value: Word, littleEndian: bool) returns (r: Word)
    requires view.Valid()
    modifies view.bytes
    ensures r == value
  {
    view.SetUint32(value, littleEndian);
    r := view.GetUint32(littleEndian);
  }
}
