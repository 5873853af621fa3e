/** The shared request and response shapes of src/internal/shared/base_dtos.rs:
    pagination, filter options, the response envelope and the typed id. */
module BaseDtos {
  import opened Wrappers
  import opened Numerals
  import opened Errors
  import SharedUtils
  import opened UserEntity

  // ---- pagination request ----

  datatype PaginationRequest = PaginationRequest(page: U32, pageSize: U32)

  /** `PaginationRequest::default()`. */
  const DefaultPagination: PaginationRequest := PaginationRequest(1, 20)

  /** `PaginationRequest::new`. */
  function NewPagination(page: U32, pageSize: U32): (r: PaginationRequest)
    ensures r.page == page && r.pageSize == pageSize
  {
    PaginationRequest(page, pageSize)
  }

  /** `offset()` as written: `(page - 1) * page_size` in `u32`, with no guard
      for page 0, so page 0 underflows and a large product overflows; both
      panic. */
  function Offset(r: PaginationRequest): (o: Outcome<U32>)
    ensures r.page == 0 ==> o.Panics?
    ensures r.page > 0 ==> o == SharedUtils.CalculateOffset(r.page, r.pageSize)
  {
    if r.page == 0 then Panics
    else
      var offset := SharedUtils.Product(r.page - 1, r.pageSize);
      if offset >= 0x1_0000_0000 then Panics else Returns(offset)
  }

  /** `limit()`: the page size. */
  function Limit(r: PaginationRequest): (l: U32)
    ensures l == r.pageSize
  {
    r.pageSize
  }

  /** The default request reads the first twenty items. */
  lemma DefaultReadsFirstPage()
    ensures Offset(DefaultPagination) == Returns(0) && Limit(DefaultPagination) == 20
  {
  }

  /** Consecutive pages tile the collection: page `p + 1` starts where page
      `p` ends. */
  lemma PagesTile(page: U32, pageSize: U32)
    requires 0 < page < 0xFFFF_FFFF
    requires Offset(PaginationRequest(page + 1, pageSize)).Returns?
    ensures Offset(PaginationRequest(page, pageSize)).Returns?
    ensures Offset(PaginationRequest(page + 1, pageSize)).value
         == Offset(PaginationRequest(page, pageSize)).value + Limit(PaginationRequest(page, pageSize))
  {
    ProductStep(page - 1, pageSize);
  }

  lemma ProductStep(a: nat, k: nat)
    ensures SharedUtils.Product(a + 1, k) == SharedUtils.Product(a, k) + k
  {
  }

  /** A client may send page 0 (the request is deserialised as it comes);
      `offset()` then panics. */
  lemma PageZeroPanics(pageSize: U32)
    ensures Offset(PaginationRequest(0, pageSize)) == Panics
  {
  }

  /** The offset with the page-0 guard that `calculate_offset` has: page 0
      reads from the start. */
  function GuardedOffset(r: PaginationRequest): (o: Outcome<U32>)
    ensures r.page == 0 ==> o == Returns(0)
    ensures r.page > 0 ==> o == Offset(r)
  {
    if r.page == 0 then Returns(0) else Offset(r)
  }

  /** The guarded offset never panics, on page 0 or on a page that
      `validate_page` accepts against the page count of the response, and it
      starts inside the collection. */
  lemma GuardedOffsetWithinTotal(r: PaginationRequest, total: U64)
    requires 0 < total < 0x1_0000_0000 && r.pageSize > 0
    requires r.page == 0 || SharedUtils.ValidatePage(r.page, NewPaginationResponse<int>([], total, r.page, r.pageSize).totalPages).Ok?
    ensures GuardedOffset(r).Returns? && GuardedOffset(r).value < total
    ensures r.page == 0 ==> GuardedOffset(r).value == 0
  {
    if r.page > 0 {
      SharedUtils.OffsetWithinTotal(total, r.pageSize, r.page);
    }
  }

  // ---- pagination response ----

  datatype PaginationResponse<T> = PaginationResponse(data: seq<T>, total: U64, page: U32, pageSize: U32, totalPages: U32)

  /** `PaginationResponse::new`: the fields copied and the page count computed
      as `calculate_total_pages` does. */
  function NewPaginationResponse<T>(data: seq<T>, total: U64, page: U32, pageSize: U32): (r: PaginationResponse<T>)
    ensures r.data == data && r.total == total && r.page == page && r.pageSize == pageSize
    ensures r.totalPages == SharedUtils.TotalPages(total, pageSize)
  {
    PaginationResponse(data, total, page, pageSize, SharedUtils.TotalPages(total, pageSize))
  }

  /** For a collection that fits in `u32`, the page count is the least number
      of pages that holds every item: they hold them all, and one page fewer
      does not. */
  lemma TotalPagesIsCeiling<T>(data: seq<T>, total: U64, page: U32, pageSize: U32)
    requires total < 0x1_0000_0000 && pageSize > 0
    ensures var n := NewPaginationResponse(data, total, page, pageSize).totalPages;
      total <= SharedUtils.Product(n, pageSize) && (n == 0 || SharedUtils.Product(n - 1, pageSize) < total)
  {
    if total > 0 {
      SharedUtils.CeilingBelow(total, pageSize);
      var x := total + pageSize - 1;
      assert SharedUtils.Product(x / pageSize, pageSize) + x % pageSize == x;
    }
  }

  /** No page size gives no pages. */
  lemma ZeroPageSizeNoPages<T>(data: seq<T>, total: U64, page: U32)
    ensures NewPaginationResponse(data, total, page, 0).totalPages == 0
  {
  }

  // ---- filter options ----

  datatype SortOrder = Asc | Desc

  datatype FilterOptions = FilterOptions(sortBy: Option<string>, sortOrder: SortOrder, search: Option<string>)

  /** `FilterOptions::default()`: no sort key, ascending, no search. */
  const DefaultFilter: FilterOptions := FilterOptions(None, Asc, None)

  // ---- response envelope ----

  /** `ApiResponse`, with the time of the reply given by the caller. */
  datatype ApiResponse<T> = ApiResponse(success: bool, data: Option<T>, error: Option<string>, timestamp: Timestamp)

  /** `ApiResponse::success`. */
  function Success<T>(data: T, now: Timestamp): (r: ApiResponse<T>)
    ensures r.success && r.data == Some(data) && r.error.None? && r.timestamp == now
  {
    ApiResponse(true, Some(data), None, now)
  }

  /** `ApiResponse::error`. */
  function Failure<T>(error: string, now: Timestamp): (r: ApiResponse<T>)
    ensures !r.success && r.data.None? && r.error == Some(error) && r.timestamp == now
  {
    ApiResponse(false, None, Some(error), now)
  }

  /** Every envelope either constructor builds carries exactly one of data
      and error, and `success` says which. */
  predicate WellFormed<T>(r: ApiResponse<T>) {
    (r.success <==> r.data.Some?) && (r.data.Some? <==> r.error.None?)
  }

  lemma EnvelopesWellFormed<T>(data: T, error: string, now: Timestamp)
    ensures WellFormed(Success(data, now)) && WellFormed(Failure<T>(error, now))
    ensures Success(data, now) != Failure<T>(error, now)
  {
  }

  // ---- typed id ----

  /** `EntityId<T>`: a UUID; the phantom type parameter only separates ids of
      different entities at compile time and is not modelled. */
  datatype EntityId = EntityId(id: Uuid)

  /** `EntityId::from_uuid` and `From<Uuid>`. */
  function FromUuid(id: Uuid): EntityId {
    EntityId(id)
  }

  /** `as_uuid`. */
  function AsUuid(e: EntityId): Uuid {
    e.id
  }

  /** `Display`: the hyphenated UUID text. */
  function EntityIdText(e: EntityId): (s: string)
    ensures |s| == 36
  {
    UuidText(e.id)
  }

  /** Wrapping and unwrapping are inverse, and the displayed text tells ids
      apart. */
  lemma EntityIdRoundTrip(u: Uuid, e: EntityId, f: EntityId)
    ensures AsUuid(FromUuid(u)) == u && FromUuid(AsUuid(e)) == e
    ensures EntityIdText(e) == EntityIdText(f) ==> e == f
  {
    if EntityIdText(e) == EntityIdText(f) {
      UuidTextInjective(e.id, f.id);
    }
  }
}
