/** The backing store: a flat byte image read one page at a time from byte
    offset `page * 256`.  Reading past the end of the image yields the byte
    0xFF, which is what `getc`'s end-of-file value becomes once stored in a
    `char`.
 */
module BackingStore {
  import opened Addressing

  type Byte = x: int | 0 <= x < 256

  /** The low byte of `getc`'s end-of-file value -1. */
  const EofByte: Byte := 0xFF

  /** The byte at position `i` of the image, or `EofByte` past its end. */
  function StoreByte(store: seq<Byte>, i: nat): Byte {
    if i < |store| then store[i] else EofByte
  }

  /** The 256 bytes of `page`, read one after another. */
  function ReadPage(store: seq<Byte>, page: nat): (r: seq<Byte>)
    ensures |r| == PageSize
    ensures forall i :: 0 <= i < PageSize ==> r[i] == StoreByte(store, page * PageSize + i)
  {
    seq<Byte>(PageSize, i requires 0 <= i < PageSize => StoreByte(store, page * PageSize + i))
  }

  /** With a full image (at least 64 KiB) a page read is exactly the slice
      `[page * 256, page * 256 + 256)` of the image. */
  lemma ReadPageIsSlice(store: seq<Byte>, page: nat)
    requires |store| >= PageAmount * PageSize && page < PageAmount
    ensures page * PageSize + PageSize <= |store|
    ensures ReadPage(store, page) == store[page * PageSize .. page * PageSize + PageSize]
  {
    assert page * PageSize + PageSize <= PageAmount * PageSize;
  }
}
