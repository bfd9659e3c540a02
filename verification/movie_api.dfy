/**
 * The post-processing `SearchMoviesAsync` applies to a decoded search
 * response (Services/MovieApiService.cs): the status check, the choice
 * between the nested and the top-level item list and pagination, and the
 * CDN prefix on relative poster and thumbnail URLs. The HTTP request and the
 * JSON decoding are not part of this model.
 */
module MovieApi {
  import opened Wrappers
  import opened Text
  import opened Catalog

  /** The CDN host relative image paths are resolved against. */
  const Cdn: string := "https://phimimg.com"

  datatype SearchData = SearchData(items: Option<seq<MovieItem>>, pagination: Option<Pagination>)

  /** A decoded search response: the list may sit under `data` or at the top level. */
  datatype SearchResponse = SearchResponse(
    status: Option<string>,
    message: Option<string>,
    data: Option<SearchData>,
    items: Option<seq<MovieItem>>,
    pagination: Option<Pagination>)

  datatype MovieListResponse = MovieListResponse(
    status: bool,
    message: Option<string>,
    items: seq<MovieItem>,
    pagination: Option<Pagination>)

  /**
   * The rewrite of one image URL: a non-empty URL that does not start with
   * "http" is taken as a path on the CDN.
   */
  function NormalizeImageUrl(url: Option<string>): (r: Option<string>)
    ensures IsNullOrEmpty(url) || StartsWith(url.value, "http") ==> r == url
    ensures !IsNullOrEmpty(url) && !StartsWith(url.value, "http") ==>
              r.Some? && StartsWith(r.value, Cdn + "/")
              && r.value[|Cdn| + 1..] == TrimStartChar(url.value, '/')
  {
    if !IsNullOrEmpty(url) && !StartsWith(url.value, "http")
    then Some(Cdn + "/" + TrimStartChar(url.value, '/'))
    else url
  }

  /** Normalising a URL a second time changes nothing. */
  lemma NormalizeImageUrlIdempotent(url: Option<string>)
    ensures NormalizeImageUrl(NormalizeImageUrl(url)) == NormalizeImageUrl(url)
  {
    var r := NormalizeImageUrl(url);
    if r != url {
      assert r.value[..4] == (Cdn + "/")[..4] == "http";
    }
  }

  function NormalizeItemImages(item: MovieItem): (r: MovieItem)
    ensures r.posterUrl == NormalizeImageUrl(item.posterUrl)
    ensures r.thumbUrl == NormalizeImageUrl(item.thumbUrl)
    ensures r.(posterUrl := item.posterUrl, thumbUrl := item.thumbUrl) == item
  {
    item.(posterUrl := NormalizeImageUrl(item.posterUrl), thumbUrl := NormalizeImageUrl(item.thumbUrl))
  }

  /** The search result list: `data.items`, else top-level `items`, else empty. */
  function SelectedItems(r: SearchResponse): seq<MovieItem> {
    if r.data.Some? && r.data.value.items.Some? then r.data.value.items.value
    else r.items.GetOr([])
  }

  /** The pagination, with the same precedence as the items. */
  function SelectedPagination(r: SearchResponse): Option<Pagination> {
    if r.data.Some? && r.data.value.pagination.Some? then r.data.value.pagination
    else r.pagination
  }

  predicate IsSuccess(r: SearchResponse) {
    r.status.Some? && ToLower(r.status.value) == "success"
  }

  /** The foreach over the result list that rewrites each item's image URLs in place. */
  method PrefixImages(items: array<MovieItem>)
    modifies items
    ensures forall i :: 0 <= i < items.Length ==> items[i] == NormalizeItemImages(old(items[i]))
  {
    for i := 0 to items.Length
      invariant forall j :: 0 <= j < i ==> items[j] == NormalizeItemImages(old(items[j]))
      invariant forall j :: i <= j < items.Length ==> items[j] == old(items[j])
    {
      var item := items[i];
      if !IsNullOrEmpty(item.posterUrl) && !StartsWith(item.posterUrl.value, "http") {
        item := item.(posterUrl := Some(Cdn + "/" + TrimStartChar(item.posterUrl.value, '/')));
      }
      if !IsNullOrEmpty(item.thumbUrl) && !StartsWith(item.thumbUrl.value, "http") {
        item := item.(thumbUrl := Some(Cdn + "/" + TrimStartChar(item.thumbUrl.value, '/')));
      }
      items[i] := item;
    }
  }

  /** Turns a decoded search response into a listing, or `None` when the response failed. */
  method ProcessSearchResponse(response: Option<SearchResponse>) returns (result: Option<MovieListResponse>)
    ensures result.None? <==> response.None? || !IsSuccess(response.value)
    ensures result.Some? ==>
              && result.value.status
              && result.value.message == response.value.message
              && result.value.pagination == SelectedPagination(response.value)
              && |result.value.items| == |SelectedItems(response.value)|
              && forall i :: 0 <= i < |result.value.items| ==>
                   result.value.items[i] == NormalizeItemImages(SelectedItems(response.value)[i])
  {
    if response.None? || !IsSuccess(response.value) {
      return None;
    }
    var r := response.value;
    var items := SelectedItems(r);
    var buffer := new MovieItem[|items|](i requires 0 <= i < |items| => items[i]);
    PrefixImages(buffer);
    result := Some(MovieListResponse(true, r.message, buffer[..], SelectedPagination(r)));
  }
}
