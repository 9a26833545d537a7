/** The pages an index or a table works on: a buffer pool over an allocator. Reading returns
    the bytes last written; allocation returns a page nobody uses. PoolFile says when the real
    pool and allocator behave so. */
module PageStore {
  import opened ByteCodec
  import opened RowIds

  class PageStore {
    var pages: map<PageId, Bytes>
    var next: PageId

    ghost predicate Valid()
      reads this
    {
      && 1 <= next <= U32_LIMIT
      && forall p :: p in pages ==> 0 < p < next && |pages[p]| == PAGE_SIZE
    }

    /** Page ids are packed into 4 bytes, so at most 2^32 of them exist. */
    ghost predicate Room(n: nat)
      reads this
    {
      next + n <= U32_LIMIT
    }

    constructor ()
      ensures Valid() && pages == map[] && next == 1
    {
      pages, next := map[], 1;
    }

    method Alloc() returns (p: PageId)
      requires Valid() && Room(1)
      modifies this
      ensures Valid() && p !in old(pages) && 0 < p < U32_LIMIT
      ensures pages == old(pages)[p := Zeros(PAGE_SIZE)] && next == old(next) + 1
    {
      p := next;
      pages, next := pages[p := Zeros(PAGE_SIZE)], next + 1;
    }

    method Read(p: PageId) returns (data: Bytes)
      requires Valid() && p in pages
      ensures data == pages[p]
    {
      data := pages[p];
    }

    method Write(p: PageId, data: Bytes)
      requires Valid() && p in pages && |data| == PAGE_SIZE
      modifies this
      ensures Valid() && pages == old(pages)[p := data] && next == old(next)
    {
      pages := pages[p := data];
    }
  }
}
