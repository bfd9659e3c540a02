/**
 * The FavoriteMovies table and the favourite service over it
 * (Services/FavoriteService.cs, rows shaped as Models/FavoriteMovie.cs):
 * membership, a validated idempotent add, an idempotent remove, and the
 * user's list newest first. The clock is a parameter `now`.
 */
module Favorites {
  import opened Wrappers
  import opened Text
  import opened Seqs
  import opened Catalog

  /** One row of the FavoriteMovies table, a cached copy of the movie's card. */
  datatype FavoriteMovie = FavoriteMovie(
    id: int,
    userId: string,
    movieSlug: string,
    movieTitle: string,
    originName: string,
    posterUrl: string,
    thumbUrl: string,
    year: Option<int>,
    addedAt: int)

  function AddedAt(f: FavoriteMovie): int {
    f.addedAt
  }

  function IsPair(userId: string, movieSlug: string): FavoriteMovie -> bool {
    (f: FavoriteMovie) => f.userId == userId && f.movieSlug == movieSlug
  }

  function OwnedBy(userId: string): FavoriteMovie -> bool {
    (f: FavoriteMovie) => f.userId == userId
  }

  ghost predicate UniqueIds(rows: seq<FavoriteMovie>) {
    forall i, j :: 0 <= i < j < |rows| ==> rows[i].id != rows[j].id
  }

  ghost predicate IdsBelow(rows: seq<FavoriteMovie>, nextId: int) {
    forall i :: 0 <= i < |rows| ==> 0 < rows[i].id < nextId
  }

  /** No user has the same movie twice. */
  ghost predicate OnePerPair(rows: seq<FavoriteMovie>) {
    forall i, j :: 0 <= i < j < |rows| ==> !(rows[i].userId == rows[j].userId && rows[i].movieSlug == rows[j].movieSlug)
  }

  ghost predicate TableInvariant(rows: seq<FavoriteMovie>, nextId: int) {
    nextId > 0 && IdsBelow(rows, nextId) && UniqueIds(rows) && OnePerPair(rows)
  }

  /** `IsFavoriteAsync`: some row pairs the user with the movie. */
  function IsFavorite(rows: seq<FavoriteMovie>, userId: string, movieSlug: string): (r: bool)
    ensures r <==> exists i :: 0 <= i < |rows| && rows[i].userId == userId && rows[i].movieSlug == movieSlug
  {
    var i := IndexWhere(rows, IsPair(userId, movieSlug));
    assert i != -1 ==> IsPair(userId, movieSlug)(rows[i]);
    i != -1
  }

  // ----- AddFavoriteAsync -----

  /** The three input checks: a user, a movie with a slug, and a name, none of them blank. */
  predicate AddInputValid(userId: Option<string>, movie: Option<MovieItem>) {
    !IsNullOrWhiteSpace(userId) && movie.Some?
    && !IsNullOrWhiteSpace(movie.value.slug) && !IsNullOrWhiteSpace(movie.value.name)
  }

  /** The row a new favourite gets: null origin name falls back to the name, null images to "". */
  function FavoriteRow(id: int, userId: string, movie: MovieItem, now: int): FavoriteMovie
    requires movie.slug.Some? && movie.name.Some?
  {
    FavoriteMovie(id, userId, movie.slug.value, movie.name.value, movie.originName.GetOr(movie.name.value),
                  movie.posterUrl.GetOr(""), movie.thumbUrl.GetOr(""), movie.year, now)
  }

  /** Whether a valid add inserts: only when the pair is not yet a favourite. */
  predicate AddInserts(rows: seq<FavoriteMovie>, userId: Option<string>, movie: Option<MovieItem>) {
    AddInputValid(userId, movie) && !IsFavorite(rows, userId.value, movie.value.slug.value)
  }

  /** The table after `AddFavoriteAsync`. */
  function AddRows(rows: seq<FavoriteMovie>, nextId: int, userId: Option<string>, movie: Option<MovieItem>,
                   now: int): seq<FavoriteMovie> {
    if AddInserts(rows, userId, movie) then rows + [FavoriteRow(nextId, userId.value, movie.value, now)] else rows
  }

  /**
   * After a valid add the movie is a favourite of the user, whether it was
   * inserted now or was there before; an invalid add changes nothing.
   */
  lemma AddMakesFavorite(rows: seq<FavoriteMovie>, nextId: int, userId: Option<string>, movie: Option<MovieItem>, now: int)
    ensures AddInputValid(userId, movie) ==>
              IsFavorite(AddRows(rows, nextId, userId, movie, now), userId.value, movie.value.slug.value)
    ensures !AddInputValid(userId, movie) ==> AddRows(rows, nextId, userId, movie, now) == rows
  {
    if AddInserts(rows, userId, movie) {
      var r := AddRows(rows, nextId, userId, movie, now);
      assert r[|rows|].userId == userId.value && r[|rows|].movieSlug == movie.value.slug.value;
    }
  }

  /** Adding the same movie twice leaves the table as after the first add. */
  lemma AddIdempotent(rows: seq<FavoriteMovie>, nextId: int, userId: Option<string>, movie: Option<MovieItem>,
                      now: int, nextId': int, later: int)
    ensures var once := AddRows(rows, nextId, userId, movie, now);
      AddRows(once, nextId', userId, movie, later) == once
  {
    AddMakesFavorite(rows, nextId, userId, movie, now);
  }

  /** A new favourite copies the card: origin name `OriginName ?? Name`, images with null as "". */
  lemma AddStoresCard(rows: seq<FavoriteMovie>, nextId: int, userId: Option<string>, movie: Option<MovieItem>, now: int)
    requires AddInserts(rows, userId, movie)
    ensures var r := AddRows(rows, nextId, userId, movie, now);
      var m := movie.value;
      && |r| == |rows| + 1 && r[..|rows|] == rows
      && r[|rows|].id == nextId && r[|rows|].userId == userId.value && r[|rows|].addedAt == now
      && r[|rows|].movieSlug == m.slug.value && r[|rows|].movieTitle == m.name.value
      && r[|rows|].originName == (if m.originName.Some? then m.originName.value else m.name.value)
      && r[|rows|].posterUrl == (if m.posterUrl.Some? then m.posterUrl.value else "")
      && r[|rows|].thumbUrl == (if m.thumbUrl.Some? then m.thumbUrl.value else "")
      && r[|rows|].year == m.year
  {
  }

  lemma AddKeepsInvariant(rows: seq<FavoriteMovie>, nextId: int, userId: Option<string>, movie: Option<MovieItem>, now: int)
    requires TableInvariant(rows, nextId)
    ensures TableInvariant(AddRows(rows, nextId, userId, movie, now), if AddInserts(rows, userId, movie) then nextId + 1 else nextId)
  {
    if AddInserts(rows, userId, movie) {
      var f := FavoriteRow(nextId, userId.value, movie.value, now);
      var r := rows + [f];
      assert forall j :: 0 <= j < |rows| ==> !(rows[j].userId == f.userId && rows[j].movieSlug == f.movieSlug);
      assert forall j :: 0 <= j < |rows| ==> r[j] == rows[j];
      assert OnePerPair(r);
    }
  }

  // ----- RemoveFavoriteAsync -----

  /** The table after `RemoveFavoriteAsync`: the pair's first row, if any, is gone. */
  function RemoveRows(rows: seq<FavoriteMovie>, userId: string, movieSlug: string): seq<FavoriteMovie> {
    var i := IndexWhere(rows, IsPair(userId, movieSlug));
    if i == -1 then rows else RemoveAt(rows, i)
  }

  /**
   * With one row per pair, a remove leaves the movie no longer a favourite
   * of the user, keeps every other row, and a second remove changes nothing.
   */
  lemma RemoveEffect(rows: seq<FavoriteMovie>, userId: string, movieSlug: string)
    requires OnePerPair(rows)
    ensures var r := RemoveRows(rows, userId, movieSlug);
      && !IsFavorite(r, userId, movieSlug)
      && (forall f :: f in r <==> f in rows && !(f.userId == userId && f.movieSlug == movieSlug))
      && RemoveRows(r, userId, movieSlug) == r
  {
    var i := IndexWhere(rows, IsPair(userId, movieSlug));
    var r := RemoveRows(rows, userId, movieSlug);
    if i != -1 {
      assert IsPair(userId, movieSlug)(rows[i]);
      forall k | 0 <= k < |r| ensures !IsPair(userId, movieSlug)(r[k]) {
        var m := if k < i then k else k + 1;
        assert r[k] == rows[m] && m != i;
      }
      forall f ensures f in r <==> f in rows && !(f.userId == userId && f.movieSlug == movieSlug) {
        if f in r {
          var k :| 0 <= k < |r| && r[k] == f;
          var m := if k < i then k else k + 1;
          assert r[k] == rows[m];
        }
        if f in rows && !(f.userId == userId && f.movieSlug == movieSlug) {
          var m :| 0 <= m < |rows| && rows[m] == f;
          if m < i {
            assert r[m] == f;
          } else {
            assert r[m - 1] == f;
          }
        }
      }
    }
    assert IndexWhere(r, IsPair(userId, movieSlug)) == -1;
  }

  lemma RemoveKeepsInvariant(rows: seq<FavoriteMovie>, nextId: int, userId: string, movieSlug: string)
    requires TableInvariant(rows, nextId)
    ensures TableInvariant(RemoveRows(rows, userId, movieSlug), nextId)
  {
    var i := IndexWhere(rows, IsPair(userId, movieSlug));
    if i != -1 {
      var r := RemoveAt(rows, i);
      forall a, b | 0 <= a < b < |r|
        ensures r[a].id != r[b].id && !(r[a].userId == r[b].userId && r[a].movieSlug == r[b].movieSlug)
      {
        var a', b' := if a < i then a else a + 1, if b < i then b else b + 1;
        assert r[a] == rows[a'] && r[b] == rows[b'] && a' < b';
      }
      assert IdsBelow(r, nextId);
    }
  }

  // ----- GetFavoriteMoviesAsync -----

  /** The card a stored favourite is listed as. */
  function AsItem(f: FavoriteMovie): MovieItem {
    MovieItem(Some(f.movieTitle), Some(f.movieSlug), Some(f.originName), Some(f.posterUrl), Some(f.thumbUrl), f.year, None)
  }

  /** The user's favourites, most recently added first. */
  function UserFavorites(rows: seq<FavoriteMovie>, userId: string): seq<FavoriteMovie> {
    SortBy(Filter(rows, OwnedBy(userId)), Desc(AddedAt))
  }

  /** `GetFavoriteMoviesAsync`: the user's favourites as movie cards. */
  function FavoriteMovies(rows: seq<FavoriteMovie>, userId: string): (r: seq<MovieItem>)
    ensures |r| == |UserFavorites(rows, userId)|
    ensures forall i :: 0 <= i < |r| ==> r[i] == AsItem(UserFavorites(rows, userId)[i])
  {
    var favs := UserFavorites(rows, userId);
    seq(|favs|, i requires 0 <= i < |favs| => AsItem(favs[i]))
  }

  /**
   * The list holds a card for a slug exactly when that movie is one of the
   * user's favourites, and the cards run from the latest addition back.
   */
  lemma FavoriteMoviesFacts(rows: seq<FavoriteMovie>, userId: string)
    ensures var favs := UserFavorites(rows, userId);
      && (forall i :: 0 <= i < |favs| ==> favs[i].userId == userId)
      && (forall i, j :: 0 <= i < j < |favs| ==> favs[i].addedAt >= favs[j].addedAt)
      && |favs| == |Filter(rows, OwnedBy(userId))|
  {
    var favs := UserFavorites(rows, userId);
    forall i | 0 <= i < |favs| ensures favs[i].userId == userId {
      SortedFilterMember(rows, OwnedBy(userId), Desc(AddedAt), favs[i]);
    }
    forall i, j | 0 <= i < j < |favs| ensures favs[i].addedAt >= favs[j].addedAt {
      assert Desc(AddedAt)(favs[i]) <= Desc(AddedAt)(favs[j]);
    }
  }

  /** A slug among the user's favourites is a favourite of the user. */
  lemma ListedIsFavorite(rows: seq<FavoriteMovie>, userId: string, i: int)
    requires 0 <= i < |UserFavorites(rows, userId)|
    ensures IsFavorite(rows, userId, UserFavorites(rows, userId)[i].movieSlug)
  {
    var f := UserFavorites(rows, userId)[i];
    SortedFilterMember(rows, OwnedBy(userId), Desc(AddedAt), f);
    var k :| 0 <= k < |rows| && rows[k] == f;
  }

  /** A favourite of the user is among the user's favourites. */
  lemma FavoriteIsListed(rows: seq<FavoriteMovie>, userId: string, movieSlug: string)
    requires IsFavorite(rows, userId, movieSlug)
    ensures exists i :: 0 <= i < |UserFavorites(rows, userId)| && UserFavorites(rows, userId)[i].movieSlug == movieSlug
  {
    var k :| 0 <= k < |rows| && rows[k].userId == userId && rows[k].movieSlug == movieSlug;
    SortedFilterMember(rows, OwnedBy(userId), Desc(AddedAt), rows[k]);
    var favs := UserFavorites(rows, userId);
    var i :| 0 <= i < |favs| && favs[i] == rows[k];
  }

  /** A slug is listed for the user exactly when `IsFavorite` says so. */
  lemma FavoriteMoviesMatchIsFavorite(rows: seq<FavoriteMovie>, userId: string, movieSlug: string)
    ensures (exists i :: 0 <= i < |FavoriteMovies(rows, userId)| && FavoriteMovies(rows, userId)[i].slug == Some(movieSlug))
        <==> IsFavorite(rows, userId, movieSlug)
  {
    var favs := UserFavorites(rows, userId);
    var items := FavoriteMovies(rows, userId);
    if exists i :: 0 <= i < |items| && items[i].slug == Some(movieSlug) {
      var i :| 0 <= i < |items| && items[i].slug == Some(movieSlug);
      ListedIsFavorite(rows, userId, i);
    }
    if IsFavorite(rows, userId, movieSlug) {
      FavoriteIsListed(rows, userId, movieSlug);
      var i :| 0 <= i < |favs| && favs[i].movieSlug == movieSlug;
      assert items[i].slug == Some(movieSlug);
    }
  }

  /** The FavoriteMovies table with its identity counter. */
  class FavoriteTable {
    var rows: seq<FavoriteMovie>
    var nextId: int

    ghost predicate Valid()
      reads this
    {
      TableInvariant(rows, nextId)
    }

    constructor ()
      ensures Valid() && rows == [] && nextId == 1
    {
      rows := [];
      nextId := 1;
    }

    /**
     * `AddFavoriteAsync`: false for a blank user, slug or name; true
     * otherwise, inserting the card only when the pair is new.
     */
    method AddFavorite(userId: Option<string>, movie: Option<MovieItem>, now: int) returns (ok: bool)
      requires Valid()
      modifies this
      ensures Valid()
      ensures ok == AddInputValid(userId, movie)
      ensures rows == AddRows(old(rows), old(nextId), userId, movie, now)
      ensures nextId == if AddInserts(old(rows), userId, movie) then old(nextId) + 1 else old(nextId)
    {
      if IsNullOrWhiteSpace(userId) {
        return false;
      }
      if movie.None? || IsNullOrWhiteSpace(movie.value.slug) {
        return false;
      }
      if IsNullOrWhiteSpace(movie.value.name) {
        return false;
      }
      var alreadyThere := IsFavorite(rows, userId.value, movie.value.slug.value);
      if alreadyThere {
        return true;
      }
      AddKeepsInvariant(rows, nextId, userId, movie, now);
      var favorite := FavoriteRow(nextId, userId.value, movie.value, now);
      rows := rows + [favorite];
      nextId := nextId + 1;
      return true;
    }

    /** `RemoveFavoriteAsync`: always true; the pair's row, if any, is removed. */
    method RemoveFavorite(userId: string, movieSlug: string) returns (ok: bool)
      requires Valid()
      modifies this
      ensures Valid() && nextId == old(nextId) && ok
      ensures rows == RemoveRows(old(rows), userId, movieSlug)
    {
      RemoveKeepsInvariant(rows, nextId, userId, movieSlug);
      var i := IndexWhere(rows, IsPair(userId, movieSlug));
      if i == -1 {
        return true;
      }
      rows := RemoveAt(rows, i);
      return true;
    }
  }
}
