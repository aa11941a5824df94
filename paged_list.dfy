/** `PagedList`: one page of records with optional paging figures. Every figure is a nullable
    Java `Integer`, and the page count is computed with 32-bit `int` arithmetic. */
module PagedList {
  import opened Wrappers
  import opened JavaInt

  predicate IsOptInt(o: Option<int>)
  {
    o.None? || IsInt(o.value)
  }

  /** `(recordCount - 1) / pageSize + 1` in `int` arithmetic, left null when either figure is
      null or the page size is 0. */
  function PageCount(recordCount: Option<int>, pageSize: Option<int>): (r: Option<int>)
    requires IsOptInt(recordCount) && IsOptInt(pageSize)
    ensures r.None? <==> recordCount.None? || pageSize.None? || pageSize.value == 0
    ensures IsOptInt(r)
  {
    if recordCount.Some? && pageSize.Some? && pageSize.value != 0 then
      Some(Wrap32(IntDiv(Wrap32(recordCount.value - 1), pageSize.value) + 1))
    else None
  }

  datatype PagedList<T> = PagedList(
    records: seq<T>,
    pageNumber: Option<int>,
    pageSize: Option<int>,
    pageCount: Option<int>,
    recordCount: Option<int>)
  {
    /** What every constructor establishes: the page count follows from the other figures. */
    predicate Valid()
    {
      IsOptInt(pageNumber) && IsOptInt(pageSize) && IsOptInt(recordCount) &&
      pageCount == PageCount(recordCount, pageSize)
    }

    /** `map`: the records mapped one by one, with the same paging figures. */
    function Map<R>(mapper: T -> R): (r: PagedList<R>)
      requires Valid()
      ensures r.Valid()
      ensures |r.records| == |records| && forall i :: 0 <= i < |records| ==> r.records[i] == mapper(records[i])
      ensures r.pageNumber == pageNumber && r.pageSize == pageSize && r.recordCount == recordCount
      ensures r.pageCount == pageCount
    {
      PagedMapped(records, mapper, pageNumber, pageSize, recordCount)
    }
  }

  /** `PagedList(records)`: no paging figures at all. */
  function OfRecords<T>(records: seq<T>): (r: PagedList<T>)
    ensures r.Valid() && r.records == records
    ensures r.pageNumber.None? && r.pageSize.None? && r.pageCount.None? && r.recordCount.None?
  {
    PagedList(records, None, None, None, None)
  }

  /** `PagedList(records, pageNumber, pageSize, recordCount)` */
  function Paged<T>(records: seq<T>, pageNumber: Option<int>, pageSize: Option<int>, recordCount: Option<int>): (r: PagedList<T>)
    requires IsOptInt(pageNumber) && IsOptInt(pageSize) && IsOptInt(recordCount)
    ensures r.Valid() && r.records == records
    ensures r.pageNumber == pageNumber && r.pageSize == pageSize && r.recordCount == recordCount
  {
    PagedList(records, pageNumber, pageSize, PageCount(recordCount, pageSize), recordCount)
  }

  function MapSeq<O, T>(records: seq<O>, mapper: O -> T): (r: seq<T>)
    ensures |r| == |records| && forall i :: 0 <= i < |records| ==> r[i] == mapper(records[i])
  {
    seq(|records|, i requires 0 <= i < |records| => mapper(records[i]))
  }

  /** `PagedList(records, mapper)` */
  function OfMapped<O, T>(records: seq<O>, mapper: O -> T): (r: PagedList<T>)
    ensures r.Valid() && r.pageCount.None?
    ensures |r.records| == |records| && forall i :: 0 <= i < |records| ==> r.records[i] == mapper(records[i])
  {
    OfRecords(MapSeq(records, mapper))
  }

  /** `PagedList(records, mapper, pageNumber, pageSize, recordCount)` */
  function PagedMapped<O, T>(records: seq<O>, mapper: O -> T, pageNumber: Option<int>, pageSize: Option<int>,
                             recordCount: Option<int>): (r: PagedList<T>)
    requires IsOptInt(pageNumber) && IsOptInt(pageSize) && IsOptInt(recordCount)
    ensures r.Valid()
    ensures r.pageNumber == pageNumber && r.pageSize == pageSize && r.recordCount == recordCount
    ensures |r.records| == |records| && forall i :: 0 <= i < |records| ==> r.records[i] == mapper(records[i])
  {
    Paged(MapSeq(records, mapper), pageNumber, pageSize, recordCount)
  }

  /** With at least one record and a positive page size the count is the ceiling of
      recordCount / pageSize: enough pages for every record, and no empty last page. */
  lemma PageCountIsCeiling(recordCount: int, pageSize: int)
    requires 1 <= recordCount <= INT_MAX && 1 <= pageSize <= INT_MAX
    ensures PageCount(Some(recordCount), Some(pageSize)).Some?
    ensures var p := PageCount(Some(recordCount), Some(pageSize)).value;
      p >= 1 && (p - 1) * pageSize < recordCount <= p * pageSize
  {
    DivAtMost(recordCount - 1, pageSize);
    assert IntDiv(recordCount - 1, pageSize) == (recordCount - 1) / pageSize;
    CeilingOfQuotient(recordCount, pageSize);
  }

  /** (n - 1) / d + 1 pages of d hold n items, and the last of them is not empty. */
  lemma CeilingOfQuotient(n: int, d: int)
    requires n >= 1 && d >= 1
    ensures var p := (n - 1) / d + 1; (p - 1) * d < n <= p * d
  {
    var q := (n - 1) / d;
    var r := (n - 1) % d;
    assert n - 1 == q * d + r && 0 <= r < d;
    assert (q + 1) * d == q * d + d;
  }

  /** With no records the count depends on the page size: truncation gives 1 page when the
      size is at least 2 in magnitude, but 0 pages for size 1 and 2 pages for size -1. */
  lemma PageCountNoRecords(pageSize: int)
    requires IsInt(pageSize) && pageSize != 0
    ensures pageSize >= 2 || pageSize <= -2 ==> PageCount(Some(0), Some(pageSize)) == Some(1)
    ensures pageSize == 1 ==> PageCount(Some(0), Some(pageSize)) == Some(0)
    ensures pageSize == -1 ==> PageCount(Some(0), Some(pageSize)) == Some(2)
  {
    assert Wrap32(0 - 1) == -1;
    var d := if pageSize >= 0 then pageSize else -pageSize;
    if d >= 2 {
      assert 1 / d == 0;
      assert TruncDiv(-1, pageSize) == 0;
    } else if pageSize == 1 {
      assert TruncDiv(-1, pageSize) == -1;
    } else {
      assert TruncDiv(-1, pageSize) == 1;
    }
  }
}
