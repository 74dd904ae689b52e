/** `paginate_users` and `lazy_paginate`: pages are fetched with
    `LIMIT page_size OFFSET offset` at offsets 0, page_size, 2 * page_size,
    ... until the first empty page. */
module Pagination {
  import opened Users
  import Batches
  import Arith

  /** The `user_data` table as the page queries see it: its rows in the
      order the query returns them, and the offsets at which the query
      raises a database error (an unreachable server, a failing statement). */
  datatype UserTable = UserTable(rows: seq<StoredRow>, failsAt: set<int>)

  function Min(a: int, b: int): int { if a <= b then a else b }

  /** `paginate_users(page_size, offset)`.  `SELECT *` hands the rows over
      without coercing their ages.  A negative LIMIT or OFFSET is a syntax
      error; like every other database error it is caught and turned into
      an empty page.  Otherwise the page is the slice of the table that
      `LIMIT … OFFSET …` selects. */
  function PaginateUsers(t: UserTable, pageSize: int, offset: int): (page: seq<StoredRow>)
    ensures pageSize < 0 || offset < 0 || offset in t.failsAt ==> page == []
    ensures pageSize >= 0 && offset >= 0 && offset !in t.failsAt ==>
      |page| == (if offset >= |t.rows| then 0 else Min(pageSize, |t.rows| - offset))
    ensures forall i | 0 <= i < |page| :: 0 <= offset + i < |t.rows| && page[i] == t.rows[offset + i]
  {
    if pageSize < 0 || offset < 0 || offset in t.failsAt then []
    else
      var n := |t.rows|;
      t.rows[Min(offset, n)..Min(offset + pageSize, n)]
  }

  /** What `lazy_paginate(page_size)` yields: page `k` is the fetch at
      offset `k * page_size`, every yielded page is non-empty, and the
      fetch right after the last yielded page came back empty. */
  predicate IsPagination(t: UserTable, pageSize: int, pages: seq<seq<StoredRow>>)
  {
    && (forall k | 0 <= k < |pages| :: pages[k] == PaginateUsers(t, pageSize, k * pageSize))
    && (forall k | 0 <= k < |pages| :: pages[k] != [])
    && PaginateUsers(t, pageSize, |pages| * pageSize) == []
  }

  /** `lazy_paginate(page_size)`.  The ghost `offsets` records the offset
      of every fetch, the final empty one included. */
  method LazyPaginate(t: UserTable, pageSize: int) returns (pages: seq<seq<StoredRow>>, ghost offsets: seq<int>)
    ensures IsPagination(t, pageSize, pages)
    ensures |offsets| == |pages| + 1
    ensures forall k | 0 <= k < |offsets| :: offsets[k] == k * pageSize
    ensures pageSize <= 0 || t.rows == [] ==> pages == []
  {
    pages, offsets := [], [];
    var offset := 0;
    while true
      invariant offset == |pages| * pageSize
      invariant pages != [] ==> pageSize > 0 && t.rows != []
      invariant offset >= 0
      invariant |offsets| == |pages|
      invariant forall k | 0 <= k < |offsets| :: offsets[k] == k * pageSize
      invariant forall k | 0 <= k < |pages| :: pages[k] == PaginateUsers(t, pageSize, k * pageSize)
      invariant forall k | 0 <= k < |pages| :: pages[k] != []
      decreases |t.rows| - offset
    {
      var page := PaginateUsers(t, pageSize, offset);
      offsets := offsets + [offset];
      if page == [] {
        break;
      }
      Arith.MulSucc(|pages|, pageSize);
      pages := pages + [page];
      offset := offset + pageSize;
    }
  }

  /** The fetches decide the pages: two page sequences that both satisfy
      `IsPagination` for the same table and page size are equal. */
  lemma PaginationIsUnique(t: UserTable, pageSize: int, p1: seq<seq<StoredRow>>, p2: seq<seq<StoredRow>>)
    requires IsPagination(t, pageSize, p1) && IsPagination(t, pageSize, p2)
    ensures p1 == p2
  {
  }

  /** A non-empty page fetched at `offset` continues the table right after
      its first `offset` rows. */
  lemma PageContinuesTable(t: UserTable, pageSize: int, offset: int)
    requires pageSize > 0 && offset >= 0
    requires PaginateUsers(t, pageSize, offset) != []
    ensures offset < |t.rows|
    ensures t.rows[..offset] + PaginateUsers(t, pageSize, offset) == t.rows[..Min(offset + pageSize, |t.rows|)]
  {
    var page := PaginateUsers(t, pageSize, offset);
    assert page == t.rows[offset..Min(offset + pageSize, |t.rows|)];
  }

  /** With a positive page size the first `k` pages are the table's first
      `k * page_size` rows (fewer if the table ends sooner). */
  lemma {:induction false} PagesArePrefix(t: UserTable, pageSize: int, pages: seq<seq<StoredRow>>, k: nat)
    requires pageSize > 0 && IsPagination(t, pageSize, pages) && k <= |pages|
    ensures Flatten(pages[..k]) == t.rows[..Min(k * pageSize, |t.rows|)]
  {
    if k == 0 {
      assert pages[..0] == [];
    } else {
      var off := (k - 1) * pageSize;
      PagesArePrefix(t, pageSize, pages, k - 1);
      FlattenPrefixStep(pages, k - 1);
      Arith.MulNonNegative(k - 1, pageSize);
      Arith.MulSucc(k - 1, pageSize);
      assert pages[k - 1] == PaginateUsers(t, pageSize, off);
      PageContinuesTable(t, pageSize, off);
    }
  }

  /** Every page holds between 1 and `page_size` rows and every page but
      the last is full, so the pages form a batching of what they hold. */
  lemma PagesAreBatches(t: UserTable, pageSize: int, pages: seq<seq<StoredRow>>)
    requires pageSize > 0 && IsPagination(t, pageSize, pages)
    ensures Batches.IsBatching(pages, Flatten(pages), pageSize)
  {
    forall k | 0 <= k < |pages| ensures |pages[k]| <= pageSize {
      assert pages[k] == PaginateUsers(t, pageSize, k * pageSize);
    }
    forall k | 0 <= k < |pages| - 1 ensures |pages[k]| == pageSize {
      var off := k * pageSize;
      Arith.MulSucc(k, pageSize);
      assert off >= 0 by { Arith.MulNonNegative(k, pageSize); }
      assert pages[k] == PaginateUsers(t, pageSize, off);
      assert pages[k + 1] == PaginateUsers(t, pageSize, off + pageSize);
    }
  }

  /** A failed query looks like the end of the data: the stream yields a
      prefix of the table, and when it stops short of the end it is
      because the fetch at the next offset raised an error. */
  lemma ErrorLooksLikeEnd(t: UserTable, pageSize: int, pages: seq<seq<StoredRow>>)
    requires pageSize > 0 && IsPagination(t, pageSize, pages)
    ensures Flatten(pages) == t.rows[..Min(|pages| * pageSize, |t.rows|)]
    ensures |pages| * pageSize < |t.rows| ==> |pages| * pageSize in t.failsAt
  {
    PagesArePrefix(t, pageSize, pages, |pages|);
    assert pages[..|pages|] == pages;
    Arith.MulNonNegative(|pages|, pageSize);
  }

  /** Without database errors inside the table, the pages concatenate to
      the whole table, and they are exactly its chunking into page_size
      rows. */
  lemma PaginationReconstructs(t: UserTable, pageSize: int, pages: seq<seq<StoredRow>>)
    requires pageSize > 0 && IsPagination(t, pageSize, pages)
    requires forall off | 0 <= off < |t.rows| :: off !in t.failsAt
    ensures Flatten(pages) == t.rows
    ensures pages == Batches.Chunks(t.rows, pageSize)
  {
    var n := |t.rows|;
    ErrorLooksLikeEnd(t, pageSize, pages);
    assert |pages| * pageSize >= n;
    assert Min(|pages| * pageSize, n) == n;
    assert t.rows[..n] == t.rows;
    PagesAreBatches(t, pageSize, pages);
    Batches.BatchingIsUnique(pages, t.rows, pageSize);
  }

  /** Without database errors inside the table, ceil(N / page_size) pages
      are yielded. */
  lemma PageCount(t: UserTable, pageSize: int, pages: seq<seq<StoredRow>>)
    requires pageSize > 0 && IsPagination(t, pageSize, pages)
    requires forall off | 0 <= off < |t.rows| :: off !in t.failsAt
    ensures |pages| == (|t.rows| + pageSize - 1) / pageSize
  {
    PaginationReconstructs(t, pageSize, pages);
    Batches.ChunksCount(t.rows, pageSize);
  }
}
