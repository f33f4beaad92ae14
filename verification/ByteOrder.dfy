/**
 Bytes, fixed-width unsigned integers and their two in-memory layouts.

 `Load`/`Store` are what `std::memcpy` between a byte buffer and an integer variable does on a host
 of the given byte order; `Ntohs`/`Ntohl` are the conversions of the same names (each is its own
 inverse, so they stand for `htons`/`htonl` as well).  Network order is written out independently
 as `U16`/`U32` and `Put16`/`Put32`.
 */
module ByteOrder {

  type byte = b: int | 0 <= b < 0x100
  type uint16 = n: int | 0 <= n < 0x1_0000
  type uint32 = n: int | 0 <= n < 0x1_0000_0000
  type Bytes = seq<byte>

  datatype Order = LittleEndian | BigEndian

  // ----- Network (big-endian) order -----

  function U16(s: Bytes, at: nat): uint16
    requires at + 2 <= |s|
  {
    0x100 * (s[at] as int) + s[at + 1]
  }

  function Put16(n: uint16): (s: Bytes)
    ensures |s| == 2
  {
    [n / 0x100, n % 0x100]
  }

  function U32(s: Bytes, at: nat): uint32
    requires at + 4 <= |s|
  {
    0x100_0000 * (s[at] as int) + 0x1_0000 * (s[at + 1] as int) + 0x100 * (s[at + 2] as int) + s[at + 3]
  }

  function Put32(n: uint32): (s: Bytes)
    ensures |s| == 4
  {
    [n / 0x100_0000, n / 0x1_0000 % 0x100, n / 0x100 % 0x100, n % 0x100]
  }

  lemma PutGet16(n: uint16)
    ensures U16(Put16(n), 0) == n
  {
  }

  lemma GetPut16(s: Bytes, at: nat)
    requires at + 2 <= |s|
    ensures Put16(U16(s, at)) == s[at..at + 2]
  {
    assert U16(s, at) / 0x100 == s[at];
    assert U16(s, at) % 0x100 == s[at + 1];
  }

  lemma PutGet32(n: uint32)
    ensures U32(Put32(n), 0) == n
  {
    assert n / 0x1_0000 == n / 0x100_0000 * 0x100 + n / 0x1_0000 % 0x100;
    assert n / 0x100 == n / 0x1_0000 * 0x100 + n / 0x100 % 0x100;
  }

  lemma GetPut32(s: Bytes, at: nat)
    requires at + 4 <= |s|
    ensures Put32(U32(s, at)) == s[at..at + 4]
  {
    var n := U32(s, at);
    assert n / 0x100_0000 == s[at];
    assert n / 0x1_0000 == 0x100 * (s[at] as int) + s[at + 1];
    assert n / 0x100 == 0x1_0000 * (s[at] as int) + 0x100 * (s[at + 1] as int) + s[at + 2];
  }

  // ----- Host order -----

  function Load16(order: Order, s: Bytes, at: nat): uint16
    requires at + 2 <= |s|
  {
    match order
    case BigEndian => 0x100 * (s[at] as int) + s[at + 1]
    case LittleEndian => 0x100 * (s[at + 1] as int) + s[at]
  }

  function Store16(order: Order, n: uint16): (s: Bytes)
    ensures |s| == 2
  {
    match order
    case BigEndian => [n / 0x100, n % 0x100]
    case LittleEndian => [n % 0x100, n / 0x100]
  }

  function Load32(order: Order, s: Bytes, at: nat): uint32
    requires at + 4 <= |s|
  {
    match order
    case BigEndian =>
      0x100_0000 * (s[at] as int) + 0x1_0000 * (s[at + 1] as int) + 0x100 * (s[at + 2] as int) + s[at + 3]
    case LittleEndian =>
      0x100_0000 * (s[at + 3] as int) + 0x1_0000 * (s[at + 2] as int) + 0x100 * (s[at + 1] as int) + s[at]
  }

  function Store32(order: Order, n: uint32): (s: Bytes)
    ensures |s| == 4
  {
    match order
    case BigEndian => [n / 0x100_0000, n / 0x1_0000 % 0x100, n / 0x100 % 0x100, n % 0x100]
    case LittleEndian => [n % 0x100, n / 0x100 % 0x100, n / 0x1_0000 % 0x100, n / 0x100_0000]
  }

  function Ntohs(order: Order, n: uint16): uint16 {
    match order
    case BigEndian => n
    case LittleEndian => n % 0x100 * 0x100 + n / 0x100
  }

  function Ntohl(order: Order, n: uint32): uint32 {
    match order
    case BigEndian => n
    case LittleEndian =>
      n % 0x100 * 0x100_0000 + n / 0x100 % 0x100 * 0x1_0000 + n / 0x1_0000 % 0x100 * 0x100 + n / 0x100_0000
  }

  lemma LoadStore16(order: Order, n: uint16)
    ensures Load16(order, Store16(order, n), 0) == n
  {
  }

  lemma StoreLoad16(order: Order, s: Bytes, at: nat)
    requires at + 2 <= |s|
    ensures Store16(order, Load16(order, s, at)) == s[at..at + 2]
  {
    GetPut16(s, at);
    GetPut16([s[at + 1], s[at]], 0);
    assert Load16(order, s, at) == if order.BigEndian? then U16(s, at) else U16([s[at + 1], s[at]], 0);
  }

  /** Copying two bytes out and converting from network order gives the big-endian value on either host. */
  lemma NetworkLoad16(order: Order, s: Bytes, at: nat)
    requires at + 2 <= |s|
    ensures Ntohs(order, Load16(order, s, at)) == U16(s, at)
  {
    var n := Load16(order, s, at);
    if order.LittleEndian? {
      assert n % 0x100 == s[at] && n / 0x100 == s[at + 1];
    }
  }

  lemma NetworkLoad32(order: Order, s: Bytes, at: nat)
    requires at + 4 <= |s|
    ensures Ntohl(order, Load32(order, s, at)) == U32(s, at)
  {
    if order.LittleEndian? {
      var r := [s[at + 3], s[at + 2], s[at + 1], s[at]];
      GetPut32(r, 0);
      var p := Put32(U32(r, 0));
      assert Load32(order, s, at) == U32(r, 0);
      assert p[0] == s[at + 3] && p[1] == s[at + 2] && p[2] == s[at + 1] && p[3] == s[at];
    }
  }

  /** Converting to network order and copying the bytes out writes the big-endian bytes on either host. */
  lemma NetworkStore16(order: Order, n: uint16)
    ensures Store16(order, Ntohs(order, n)) == Put16(n)
  {
    if order.LittleEndian? {
      var m := Ntohs(order, n);
      assert m % 0x100 == n / 0x100 && m / 0x100 == n % 0x100;
    }
  }

  lemma NetworkStore32(order: Order, n: uint32)
    ensures Store32(order, Ntohl(order, n)) == Put32(n)
  {
    if order.LittleEndian? {
      var s := Put32(n);
      var r := [s[3], s[2], s[1], s[0]];
      GetPut32(r, 0);
      assert Ntohl(order, n) == U32(r, 0);
    }
  }

  // ----- Writing into a buffer -----

  /** The buffer after `std::memcpy` of `src` to the given offset. */
  function Overwrite(s: Bytes, offset: nat, src: Bytes): (r: Bytes)
    requires offset + |src| <= |s|
    ensures |r| == |s|
  {
    s[..offset] + src + s[offset + |src|..]
  }
}
