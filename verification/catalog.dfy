/**
 * Records received from the external movie catalogue. Every field is
 * nullable because it comes from a JSON payload; only the fields the core
 * reads are kept.
 */
module Catalog {
  import opened Wrappers

  /** A movie in a listing page or search result. */
  datatype MovieItem = MovieItem(
    name: Option<string>,
    slug: Option<string>,
    originName: Option<string>,
    posterUrl: Option<string>,
    thumbUrl: Option<string>,
    year: Option<int>,
    quality: Option<string>)

  /**
   * The `movie` part of a detail response. A failed lookup (network error,
   * bad payload, or a response without `movie`) is `None` where this is used.
   */
  datatype MovieDetail = MovieDetail(
    name: Option<string>,
    originName: Option<string>,
    posterUrl: Option<string>,
    quality: Option<string>)

  /** A country or category entry. */
  datatype Category = Category(name: Option<string>, slug: Option<string>)

  datatype Pagination = Pagination(totalItems: int, totalItemsPerPage: int, currentPage: int, totalPages: int)
}
