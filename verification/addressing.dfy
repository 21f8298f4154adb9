/** Splitting a logical address into a page number and an offset.

    The simulator reads addresses as C `int`s (32-bit, two's complement).  It
    shifts the signed `int` left (`address << 16` for the page number,
    `address << 24` for the offset), stores the result in an `unsigned int`
    and shifts that right by 24.  The left shift overflows `int` for most
    addresses, which C leaves undefined; the model gives it the wrap-around
    meaning, a multiplication modulo 2^32, and the unsigned right shift is a
    division.
 */
module Addressing {

  /** Bytes per page (and per frame). */
  const PageSize: nat := 256
  /** Number of pages in the logical address space. */
  const PageAmount: nat := 256

  const Word: int := 0x1_0000_0000

  /** The range of a C `int`. */
  type Int32 = x: int | -0x8000_0000 <= x < 0x8000_0000

  /** The bit pattern of `x << k`, wrapped to 32 bits and read as unsigned, for a
      shift amount given as its power of two `scale == 2^k`.  Dafny's `%` is
      Euclidean, so a negative `x` gives its two's-complement pattern. */
  function ShiftLeft(x: int, scale: nat): (r: int)
    ensures 0 <= r < Word
  {
    (x * scale) % Word
  }

  /** The page number of an address: bits 15..8. */
  function GetNumber(address: Int32): (r: nat)
    ensures r < PageAmount
  {
    ShiftLeft(address, 0x1_0000) / 0x100_0000
  }

  /** The offset of an address within its page: bits 7..0. */
  function GetOffset(address: Int32): (r: nat)
    ensures r < PageSize
  {
    ShiftLeft(address, 0x100_0000) / 0x100_0000
  }

  /** `x == q * m + r` with `0 <= r < m` pins down both `x / m` and `x % m`. */
  lemma DivModUnique(x: int, m: int, q: int, r: int)
    requires 0 < m && 0 <= r < m && x == q * m + r
    ensures x / m == q && x % m == r
  {
    var q', r' := x / m, x % m;
    assert (q - q') * m == r' - r by {
      assert (q - q') * m == q * m - q' * m;
    }
    if q' != q {
      MulAtLeast(if q' < q then q - q' else q' - q, m);
    }
  }

  lemma MulAtLeast(a: int, m: int)
    requires a >= 1 && m > 0
    ensures a * m >= m
  {
  }

  /** The page number is the second-lowest byte of the address. */
  lemma GetNumberIsSecondByte(address: Int32)
    ensures GetNumber(address) == (address % 0x1_0000) / 256
  {
    var low := address % 0x1_0000;
    var high := address / 0x1_0000;
    assert address == high * 0x1_0000 + low;
    var shifted := address * 0x1_0000;
    assert shifted == high * Word + low * 0x1_0000;
    DivModUnique(shifted, Word, high, low * 0x1_0000);
    assert ShiftLeft(address, 0x1_0000) == low * 0x1_0000;
    DivModUnique(low, 256, low / 256, low % 256);
    assert low * 0x1_0000 == (low / 256) * 0x100_0000 + (low % 256) * 0x1_0000;
    DivModUnique(low * 0x1_0000, 0x100_0000, low / 256, (low % 256) * 0x1_0000);
  }

  /** The offset is the lowest byte of the address. */
  lemma GetOffsetIsLowByte(address: Int32)
    ensures GetOffset(address) == address % 256
  {
    var low := address % 256;
    var high := address / 256;
    assert address == high * 256 + low;
    var shifted := address * 0x100_0000;
    assert shifted == high * Word + low * 0x100_0000;
    DivModUnique(shifted, Word, high, low * 0x100_0000);
    assert ShiftLeft(address, 0x100_0000) == low * 0x100_0000;
    DivModUnique(low * 0x100_0000, 0x100_0000, low, 0);
  }

  /** Page number and offset together recover the low 16 bits of the address;
      for an address in the 64 KiB logical space that is the address itself. */
  lemma Decompose(address: Int32)
    ensures GetNumber(address) * PageSize + GetOffset(address) == address % 0x1_0000
    ensures 0 <= address < 0x1_0000 ==> address == GetNumber(address) * PageSize + GetOffset(address)
  {
    GetNumberIsSecondByte(address);
    GetOffsetIsLowByte(address);
    var low := address % 0x1_0000;
    assert address == (address / 0x1_0000) * 0x1_0000 + low;
    assert address == ((address / 0x1_0000) * 256 + low / 256) * 256 + low % 256;
    DivModUnique(address, 256, (address / 0x1_0000) * 256 + low / 256, low % 256);
  }

  /** Composing a page number and an offset, then splitting, is the identity. */
  lemma Compose(page: nat, offset: nat)
    requires page < PageAmount && offset < PageSize
    ensures GetNumber(page * PageSize + offset) == page
    ensures GetOffset(page * PageSize + offset) == offset
  {
    var address: Int32 := page * PageSize + offset;
    GetNumberIsSecondByte(address);
    GetOffsetIsLowByte(address);
    DivModUnique(address, 0x1_0000, 0, address);
    DivModUnique(address, 256, page, offset);
  }
}
