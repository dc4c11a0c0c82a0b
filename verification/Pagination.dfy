/**
  The two page fetchers over one fixed ordered query result, and the pagination DTO.
  LIMIT / OFFSET is a slice; the ordering and the query are the database's.
*/
module Pagination {

  datatype Page<T> = Page(
    items: seq<T>,
    current: int,
    totalPages: int,
    totalResults: int,
    pageSize: int,
    hasNext: bool,
    hasPrevious: bool)

  /** SELECT ... LIMIT limit OFFSET offset */
  function LimitOffset<T>(rows: seq<T>, limit: nat, offset: nat): (r: seq<T>)
    ensures |r| == if offset >= |rows| then 0 else if |rows| - offset < limit then |rows| - offset else limit
    ensures forall i :: 0 <= i < |r| ==> r[i] == rows[offset + i]
  {
    if offset >= |rows| then [] else if |rows| - offset < limit then rows[offset..] else rows[offset..offset + limit]
  }

  lemma OffsetIsNat(page: int, size: int)
    requires page >= 1 && size >= 1
    ensures (page - 1) * size >= 0
  {
  }

  /** paginated_select_with_metadata: a count query and a page query. */
  function Counted<T>(rows: seq<T>, size: int, page: int): Page<T>
    requires page >= 1 && size >= 1
  {
    OffsetIsNat(page, size);
    var totalPages := if |rows| > 0 then (|rows| + size - 1) / size else 1;
    Page(LimitOffset(rows, size, (page - 1) * size), page, totalPages, |rows|, size, page < totalPages, page > 1)
  }

  /** paginated_select_fast: one row more than the page, and no count. */
  function Fast<T>(rows: seq<T>, size: int, page: int): Page<T>
    requires page >= 1 && size >= 1
  {
    OffsetIsNat(page, size);
    var fetched := LimitOffset(rows, size + 1, (page - 1) * size);
    var hasNext := |fetched| > size;
    Page(if hasNext then fetched[..size] else fetched, page, -1, -1, size, hasNext, page > 1)
  }

  datatype Meta = Meta(page: int, perPage: int, total: int, totalPages: int, hasNext: bool, hasPrev: bool)

  /** PaginationMeta.create */
  function CreateMeta(page: int, perPage: int, total: int): Meta {
    var totalPages := if perPage > 0 then (total + perPage - 1) / perPage else 0;
    Meta(page, perPage, total, totalPages, page < totalPages, page > 1)
  }

  // ------------------------------------------------------------------ agreement

  /** Rounding up: page is not the last of ceil(total / size) pages exactly when rows are left after it. */
  lemma CeilingMeansRowsLeft(total: nat, size: int, page: int)
    requires size >= 1 && page >= 1
    ensures page < (total + size - 1) / size <==> total > page * size
  {
    var q, r := (total + size - 1) / size, (total + size - 1) % size;
    assert total + size - 1 == q * size + r;
    Scale(page + 1, q, size);
    Scale(q, page, size);
    assert (page + 1) * size == page * size + size;
  }

  lemma Scale(a: int, b: int, size: int)
    requires size >= 1
    ensures a <= b ==> a * size <= b * size
  {
    if a <= b {
      assert (b - a) * size >= 0;
      assert b * size == a * size + (b - a) * size;
    }
  }

  /** The page after this one starts at page * size. */
  lemma NextOffset(page: int, size: int)
    ensures (page - 1) * size + size == page * size
  {
  }

  /** A next page is announced exactly when rows are left after this page. */
  lemma HasNextMeansRowsLeft<T>(rows: seq<T>, size: int, page: int)
    requires page >= 1 && size >= 1
    ensures Counted(rows, size, page).hasNext <==> |rows| > page * size
    ensures Fast(rows, size, page).hasNext <==> |rows| > page * size
  {
    CeilingMeansRowsLeft(|rows|, size, page);
    NextOffset(page, size);
    Scale(1, page, size);
  }

  /**
    Fetching one extra row is as good as counting: items, has_next and has_previous agree on
    every page of every result.
  */
  lemma FastAgreesWithCounted<T>(rows: seq<T>, size: int, page: int)
    requires page >= 1 && size >= 1
    ensures
      var f, c := Fast(rows, size, page), Counted(rows, size, page);
      f.items == c.items && f.hasNext == c.hasNext && f.hasPrevious == c.hasPrevious
  {
    HasNextMeansRowsLeft(rows, size, page);
    OffsetIsNat(page, size);
    NextOffset(page, size);
  }

  /**
    The DTO agrees with the repository on has_next and has_prev, and on the number of pages
    except when there are no rows.
  */
  lemma MetaAgreesWithCounted<T>(rows: seq<T>, size: int, page: int)
    requires page >= 1 && size >= 1
    ensures
      var m, c := CreateMeta(page, size, |rows|), Counted(rows, size, page);
      && m.hasNext == c.hasNext && m.hasPrev == c.hasPrevious
      && (m.totalPages == c.totalPages <==> |rows| > 0)
  {
    if |rows| == 0 {
      assert (size - 1) / size == 0;
    }
  }

  /** What a page says of itself: where it is, how long the result is, and whether rows stand before it. */
  lemma PagesDescribeThemselves<T>(rows: seq<T>, size: int, page: int)
    requires page >= 1 && size >= 1
    ensures
      var c, f := Counted(rows, size, page), Fast(rows, size, page);
      && c.current == f.current == page && c.pageSize == f.pageSize == size
      && c.totalResults == |rows| && f.totalResults == f.totalPages == -1
      && (c.hasPrevious <==> (page - 1) * size > 0) && (f.hasPrevious <==> (page - 1) * size > 0)
  {
    if page > 1 {
      Scale(1, page - 1, size);
    }
  }

  /** The number of pages is the least that holds all rows, and one for an empty result. */
  lemma PagesAreJustEnough<T>(rows: seq<T>, size: int, page: int)
    requires page >= 1 && size >= 1
    ensures
      var n := Counted(rows, size, page).totalPages;
      n >= 1 && |rows| <= n * size && (n == 1 || (n - 1) * size < |rows|)
  {
    var n := Counted(rows, size, page).totalPages;
    if |rows| > 0 {
      DivisionOfAtLeast(|rows| + size - 1, size);
      CeilingMeansRowsLeft(|rows|, size, n);
      if n > 1 {
        CeilingMeansRowsLeft(|rows|, size, n - 1);
      }
    }
  }

  /** The DTO carries its arguments, and has no pages at all when the page size is not positive. */
  lemma MetaDescribesItself(page: int, perPage: int, total: int)
    ensures
      var m := CreateMeta(page, perPage, total);
      && m.page == page && m.perPage == perPage && m.total == total && (m.hasPrev <==> page > 1)
      && (perPage <= 0 ==> m.totalPages == 0 && (m.hasNext <==> page < 0))
  {
  }

  // ------------------------------------------------------------------ visiting every page

  /** What a client sees that follows has_next from `page` on. */
  function Follow<T>(rows: seq<T>, size: int, page: int): seq<T>
    requires page >= 1 && size >= 1
    decreases if page <= Counted(rows, size, 1).totalPages then Counted(rows, size, 1).totalPages - page else 0
  {
    var p := Counted(rows, size, page);
    p.items + if p.hasNext then Follow(rows, size, page + 1) else []
  }

  lemma {:induction false} FollowSeesTheRest<T>(rows: seq<T>, size: int, page: int)
    requires page >= 1 && size >= 1 && (page - 1) * size <= |rows|
    ensures Follow(rows, size, page) == rows[(page - 1) * size..]
    decreases |rows| - (page - 1) * size
  {
    OffsetIsNat(page, size);
    HasNextMeansRowsLeft(rows, size, page);
    NextOffset(page, size);
    var from := (page - 1) * size;
    if Counted(rows, size, page).hasNext {
      FollowSeesTheRest(rows, size, page + 1);
      assert Follow(rows, size, page + 1) == rows[from + size..];
      assert rows[from..from + size] + rows[from + size..] == rows[from..];
    } else {
      assert LimitOffset(rows, size, from) == rows[from..];
    }
  }

  /** Following has_next from page 1 visits every row exactly once, in order, and ends. */
  lemma PagesPartitionTheResult<T>(rows: seq<T>, size: int)
    requires size >= 1
    ensures Follow(rows, size, 1) == rows
  {
    assert 0 * size == 0;
    FollowSeesTheRest(rows, size, 1);
  }

  /** Every row is on exactly the page its index says. */
  lemma RowIsOnItsPage<T>(rows: seq<T>, size: int, i: nat)
    requires size >= 1 && i < |rows|
    ensures
      var page := i / size + 1;
      && i % size < |Counted(rows, size, page).items|
      && Counted(rows, size, page).items[i % size] == rows[i]
      && page <= Counted(rows, size, page).totalPages
  {
    var page := i / size + 1;
    assert i == (page - 1) * size + i % size;
    OffsetIsNat(page, size);
    if page > 1 {
      CeilingMeansRowsLeft(|rows|, size, page - 1);
    } else {
      DivisionOfAtLeast(|rows| + size - 1, size);
    }
  }

  lemma DivisionOfAtLeast(n: int, size: int)
    requires size >= 1 && n >= size
    ensures n / size >= 1
  {
    var q := n / size;
    assert n == q * size + n % size;
    if q <= 0 { Scale(q, 0, size); }
  }
}
