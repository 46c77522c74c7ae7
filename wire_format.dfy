/**
  The fixed-width and variable-size encoders every wire format shares
  (WireFormat::to_wire overloads of migmsg.cpp): each appends the value's
  bytes at the buffer's cursor through `put`.
*/
module WireFormat {
  import opened Bytes
  import opened Cursor

  datatype ByteOrder = LittleEndian | BigEndianOrder

  /** ByteOrder::Network is the big-endian order. */
  const Network: ByteOrder := BigEndianOrder

  /** The bytes of `v` in little-endian order, least significant first. */
  function LittleEndian(width: nat, v: nat): (s: seq<Byte>)
    ensures |s| == width
  {
    if width == 0 then [] else [v % 256] + LittleEndian(width - 1, v / 256)
  }

  /** What to_wire(uint64_t) puts on a little-endian host as written: line 71
      swaps the already swapped low word back instead of swapping the high
      word, so the low 32 bits appear twice (little-endian, then big-endian)
      and the high 32 bits are lost. */
  function U64AsWritten(v: nat): (s: seq<Byte>)
    ensures |s| == 8
  {
    var low := v % 0x1_0000_0000;
    LittleEndian(4, low) + BigEndian(4, low)
  }

  /** 2^32 and 0 are put as the same eight bytes. */
  lemma U64AsWrittenLosesHighWord()
    ensures U64AsWritten(0x1_0000_0000) == U64AsWritten(0)
    ensures BigEndian(8, 0x1_0000_0000) != BigEndian(8, 0)
  {
    assert Modulus(8) == 0x1_0000_0000_0000_0000 by {
      assert Modulus(4) == 0x1_0000_0000;
    }
    if BigEndian(8, 0x1_0000_0000) == BigEndian(8, 0) {
      BigEndianInjective(8, 0x1_0000_0000, 0);
    }
  }

  /** No reader can recover a 64-bit value from what as-written to_wire(uint64_t)
      puts: two different values share an encoding. */
  lemma U64AsWrittenNotInjective()
    ensures exists v: nat, w: nat ::
              v != w && v < 0x1_0000_0000_0000_0000 && w < 0x1_0000_0000_0000_0000 && U64AsWritten(v) == U64AsWritten(w)
  {
    U64AsWrittenLosesHighWord();
    assert U64AsWritten(0x1_0000_0000) == U64AsWritten(0);
  }

  /** The corrected 64-bit encoding is read back to the value. */
  lemma U64RoundTrip(v: nat)
    requires v < 0x1_0000_0000_0000_0000
    ensures FromBigEndian(BigEndian(8, v)) == v
  {
    BigEndianRoundTrip(8, v);
    assert Modulus(8) == 0x1_0000_0000_0000_0000 by {
      assert Modulus(4) == 0x1_0000_0000;
    }
  }

  /** An int16_t is put as the uint16_t of the same bits: -12345 as 53191. */
  lemma Int16Example()
    ensures ToUnsigned(2, -12345) == 53191 && BigEndian(2, ToUnsigned(2, -12345)) == [0xCF, 0xC7]
  {
    assert Modulus(2) == 65536;
  }

  /** The fields every wire format has: its buffer, the encoded message size
      and the byte order (Network unless changed). */
  class WireFormat {
    var buf: MsgBuf
    var size: int
    var byteOrder: ByteOrder

    ghost predicate Valid()
      reads this, buf
    {
      buf.Valid()
    }

    constructor (b: MsgBuf)
      requires b.Valid()
      ensures Valid() && buf == b && size == 0 && byteOrder == Network
    {
      buf := b;
      size := 0;
      byteOrder := Network;
    }

    /** set_byteorder */
    method SetByteOrder(o: ByteOrder)
      modifies this
      ensures byteOrder == o && buf == old(buf) && size == old(size)
    {
      byteOrder := o;
    }

    /** set_buf: the previous buffer is dropped. */
    method SetBuf(b: MsgBuf)
      modifies this
      ensures buf == b && size == old(size) && byteOrder == old(byteOrder)
    {
      buf := b;
    }

    /** set_size */
    method SetSize(n: int)
      modifies this
      ensures size == n && buf == old(buf) && byteOrder == old(byteOrder)
    {
      size := n;
    }

    /** to_wire(uint8_t): one byte, the value itself. */
    method PutU8(v: Byte) returns (r: int)
      requires Valid()
      modifies buf, buf.data
      ensures Valid() && buf.data == old(buf.data) && buf.size == old(buf.size)
      ensures Appended(old(buf.Contents()), old(buf.next), buf.Contents(), buf.next, [v])
      ensures r == 0 <==> old(buf.next) < buf.size
    {
      r := buf.PutC(v);
    }

    /** The byte-order switch of the 16-, 32- and 64-bit encoders: the
        big-endian bytes under Network order; any other order is not
        implemented, returns -1 and puts nothing. */
    method PutBigEndian(width: nat, v: nat) returns (r: int)
      requires Valid()
      modifies buf, buf.data
      ensures Valid() && buf.data == old(buf.data) && buf.size == old(buf.size)
      ensures byteOrder == Network ==>
        Appended(old(buf.Contents()), old(buf.next), buf.Contents(), buf.next, BigEndian(width, v)) &&
        (r == 0 <==> old(buf.next) + width <= buf.size)
      ensures byteOrder != Network ==> r == -1 && buf.next == old(buf.next) && buf.Contents() == old(buf.Contents())
    {
      if byteOrder == Network {
        r := buf.PutP(BigEndian(width, v));
      } else {
        r := -1;
      }
    }

    /** to_wire(uint16_t) */
    method PutU16(v: nat) returns (r: int)
      requires Valid() && v < 0x1_0000
      modifies buf, buf.data
      ensures Valid() && buf.data == old(buf.data) && buf.size == old(buf.size)
      ensures byteOrder == Network ==>
        Appended(old(buf.Contents()), old(buf.next), buf.Contents(), buf.next, BigEndian(2, v)) &&
        (r == 0 <==> old(buf.next) + 2 <= buf.size)
      ensures byteOrder != Network ==> r == -1 && buf.next == old(buf.next) && buf.Contents() == old(buf.Contents())
    {
      r := PutBigEndian(2, v);
    }

    /** to_wire(uint32_t) */
    method PutU32(v: nat) returns (r: int)
      requires Valid() && v < 0x1_0000_0000
      modifies buf, buf.data
      ensures Valid() && buf.data == old(buf.data) && buf.size == old(buf.size)
      ensures byteOrder == Network ==>
        Appended(old(buf.Contents()), old(buf.next), buf.Contents(), buf.next, BigEndian(4, v)) &&
        (r == 0 <==> old(buf.next) + 4 <= buf.size)
      ensures byteOrder != Network ==> r == -1 && buf.next == old(buf.next) && buf.Contents() == old(buf.Contents())
    {
      r := PutBigEndian(4, v);
    }

    /** to_wire(uint64_t) as evidently intended: all eight bytes, most
        significant first. */
    method PutU64(v: nat) returns (r: int)
      requires Valid() && v < 0x1_0000_0000_0000_0000
      modifies buf, buf.data
      ensures Valid() && buf.data == old(buf.data) && buf.size == old(buf.size)
      ensures byteOrder == Network ==>
        Appended(old(buf.Contents()), old(buf.next), buf.Contents(), buf.next, BigEndian(8, v)) &&
        (r == 0 <==> old(buf.next) + 8 <= buf.size)
      ensures byteOrder != Network ==> r == -1 && buf.next == old(buf.next) && buf.Contents() == old(buf.Contents())
    {
      r := PutBigEndian(8, v);
    }

    /** to_wire(bool): the uint8_t 0 or 1. */
    method PutBool(b: bool) returns (r: int)
      requires Valid()
      modifies buf, buf.data
      ensures Valid() && buf.data == old(buf.data) && buf.size == old(buf.size)
      ensures Appended(old(buf.Contents()), old(buf.next), buf.Contents(), buf.next, [if b then 1 else 0])
      ensures r == 0 <==> old(buf.next) < buf.size
    {
      r := PutU8(if b then 1 else 0);
    }

    /** to_wire(int8_t/int16_t/int32_t/int64_t): the value cast to the unsigned
        type of the same width, then put by that type's encoder. */
    method PutSigned(width: nat, v: int) returns (r: int)
      requires Valid() && (width == 1 || width == 2 || width == 4 || width == 8)
      modifies buf, buf.data
      ensures Valid() && buf.data == old(buf.data) && buf.size == old(buf.size)
      ensures width == 1 || byteOrder == Network ==>
        Appended(old(buf.Contents()), old(buf.next), buf.Contents(), buf.next, BigEndian(width, ToUnsigned(width, v))) &&
        (r == 0 <==> old(buf.next) + width <= buf.size)
      ensures width != 1 && byteOrder != Network ==> r == -1 && buf.next == old(buf.next) && buf.Contents() == old(buf.Contents())
    {
      var u := ToUnsigned(width, v);
      if width == 1 {
        assert Modulus(1) == 256;
        assert BigEndian(1, u) == [u];
        r := PutU8(u);
      } else {
        r := PutBigEndian(width, u);
      }
    }

    /** to_wire(const std::string&): the characters and the terminating NUL,
        size() + 1 bytes. */
    method PutString(s: seq<Byte>) returns (r: int)
      requires Valid()
      modifies buf, buf.data
      ensures Valid() && buf.data == old(buf.data) && buf.size == old(buf.size)
      ensures Appended(old(buf.Contents()), old(buf.next), buf.Contents(), buf.next, s + [0])
      ensures r == 0 <==> old(buf.next) + |s| + 1 <= buf.size
    {
      r := buf.PutP(s + [0]);
    }

    /** to_wire(const blob_t&): exactly the blob's bytes. */
    method PutBlob(b: seq<Byte>) returns (r: int)
      requires Valid()
      modifies buf, buf.data
      ensures Valid() && buf.data == old(buf.data) && buf.size == old(buf.size)
      ensures Appended(old(buf.Contents()), old(buf.next), buf.Contents(), buf.next, b)
      ensures r == 0 <==> old(buf.next) + |b| <= buf.size
    {
      r := buf.PutP(b);
    }
  }
}
