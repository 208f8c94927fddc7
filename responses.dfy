/**
 * ResponseUtil: the envelopes the controllers wrap results in.
 */
module Responses {
  import opened Errors
  import Pagination

  datatype Status = StatusSuccess | StatusError

  datatype ApiResponse<T> = ApiResponse(status: Status, message: string, data: Option<T>)

  datatype PaginatedData<T> = PaginatedData(items: seq<T>, pagination: Pagination.Meta)

  datatype PaginatedResponse<T> = PaginatedResponse(status: Status, message: string, data: PaginatedData<T>)

  /** `success(data, message = 'Operation successful')`: the default applies only when no message is passed. */
  function Success<T>(data: T, message: Option<string>): (r: ApiResponse<T>)
    ensures r.status == StatusSuccess && r.data == Some(data)
    ensures message.Some? ==> r.message == message.value
    ensures message.None? ==> r.message == "Operation successful"
  {
    ApiResponse(StatusSuccess, message.GetOr("Operation successful"), Some(data))
  }

  /** `error(message)`: no data. */
  function Error<T>(message: string): (r: ApiResponse<T>)
    ensures r.status == StatusError && r.message == message && r.data.None?
  {
    ApiResponse(StatusError, message, None)
  }

  /** `paginated(items, pagination, message = 'Data retrieved successfully')`. */
  function Paginated<T>(items: seq<T>, pagination: Pagination.Meta, message: Option<string>): (r: PaginatedResponse<T>)
    ensures r.status == StatusSuccess
    ensures r.data.items == items && r.data.pagination == pagination
    ensures r.message == if message.Some? then message.value else "Data retrieved successfully"
  {
    PaginatedResponse(StatusSuccess, message.GetOr("Data retrieved successfully"), PaginatedData(items, pagination))
  }

  /** `calculatePagination` is a second copy of `createPaginationMeta`; it computes the same record. */
  function CalculatePagination(total: nat, page: Option<int>, limit: Option<int>): (r: Pagination.Meta)
    requires limit.GetOr(10) > 0
    ensures r == Pagination.CreatePaginationMeta(total, page, limit)
  {
    var l := limit.GetOr(10);
    Pagination.Meta(page.GetOr(1), l, (total + l - 1) / l, total)
  }
}
