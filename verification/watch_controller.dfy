/**
 * The watch-progress endpoints (Controllers/WatchController.cs) over the
 * WatchHistories table: saving progress (one row per user and movie,
 * whatever the episode), reading it back, the history page and deleting
 * an entry. The caller's identity is an optional user id; `None` or ""
 * is an unauthenticated request.
 */
module WatchHistoryStore {
  import opened Wrappers
  import opened Text
  import opened Seqs
  import opened WatchHistoryModel

  /** The JSON body of a save. Title and poster may arrive as null. */
  datatype WatchProgressRequest = WatchProgressRequest(
    movieSlug: string,
    movieTitle: Option<string>,
    posterUrl: Option<string>,
    episodeName: string,
    episodeSlug: string,
    currentTime: int,
    totalTime: int)

  datatype SaveOutcome = SaveUnauthorized | Saved

  /** The three shapes of the `GetWatchProgress` reply. */
  datatype ProgressResult =
    | InvalidRequest
    | NoProgress
    | Progress(currentTime: int, totalTime: int, episodeSlug: string, episodeName: string, progressPercent: int)

  datatype DeleteOutcome = DeleteUnauthorized | HistoryNotFound | Deleted

  /** The maximum number of rows on the history page. */
  const HistoryPageSize := 50

  predicate IsUserMovie(w: WatchHistory, userId: string, movieSlug: string) {
    w.userId == userId && w.movieSlug == movieSlug
  }

  function UserMovie(userId: string, movieSlug: string): WatchHistory -> bool {
    w => IsUserMovie(w, userId, movieSlug)
  }

  function OwnedBy(userId: string): WatchHistory -> bool {
    (w: WatchHistory) => w.userId == userId
  }

  /** The row `DeleteHistory` looks for: this id, owned by this user. */
  function IdOwnedBy(id: int, userId: string): WatchHistory -> bool {
    (w: WatchHistory) => w.id == id && w.userId == userId
  }

  ghost predicate UniqueIds(rows: seq<WatchHistory>) {
    forall i, j :: 0 <= i < j < |rows| ==> rows[i].id != rows[j].id
  }

  /** Every id was handed out before `nextId`, the table's identity counter. */
  ghost predicate IdsBelow(rows: seq<WatchHistory>, nextId: int) {
    forall i :: 0 <= i < |rows| ==> 0 < rows[i].id < nextId
  }

  /** No two rows share a (user, movie) pair. */
  ghost predicate OnePerUserMovie(rows: seq<WatchHistory>) {
    forall i, j :: 0 <= i < j < |rows| ==> !IsUserMovie(rows[j], rows[i].userId, rows[i].movieSlug)
  }

  ghost predicate TableInvariant(rows: seq<WatchHistory>, nextId: int) {
    nextId > 0 && IdsBelow(rows, nextId) && UniqueIds(rows) && OnePerUserMovie(rows)
  }

  /** The row a first save creates. */
  function CreatedRow(id: int, userId: string, req: WatchProgressRequest, now: int): WatchHistory {
    WatchHistory(id, userId, req.movieSlug, req.movieTitle, req.posterUrl.GetOr(""),
                 req.episodeName, req.episodeSlug, req.currentTime, req.totalTime, now, now)
  }

  /** The row a later save leaves: a null title or poster keeps the stored one. */
  function UpdatedRow(w: WatchHistory, req: WatchProgressRequest, now: int): WatchHistory {
    w.(movieTitle := if req.movieTitle.Some? then req.movieTitle else w.movieTitle,
       posterUrl := req.posterUrl.GetOr(w.posterUrl),
       episodeName := req.episodeName,
       episodeSlug := req.episodeSlug,
       currentTime := req.currentTime,
       totalTime := req.totalTime,
       lastWatchedAt := now)
  }

  /** The table after an authenticated save: update the (user, movie) row, or add one. */
  function SaveRows(rows: seq<WatchHistory>, nextId: int, userId: string, req: WatchProgressRequest, now: int): seq<WatchHistory> {
    var i := IndexWhere(rows, UserMovie(userId, req.movieSlug));
    if i == -1 then rows + [CreatedRow(nextId, userId, req, now)]
    else rows[i := UpdatedRow(rows[i], req, now)]
  }

  /** The identity counter after a save: it advances only when a row is added. */
  function SaveNextId(rows: seq<WatchHistory>, nextId: int, userId: string, req: WatchProgressRequest): int {
    if IndexWhere(rows, UserMovie(userId, req.movieSlug)) == -1 then nextId + 1 else nextId
  }

  /**
   * A first save for (user, movie) appends exactly one row, first and last
   * watched now, with a null poster stored as "".
   */
  lemma SaveCreates(rows: seq<WatchHistory>, nextId: int, userId: string, req: WatchProgressRequest, now: int)
    requires forall j :: 0 <= j < |rows| ==> !IsUserMovie(rows[j], userId, req.movieSlug)
    ensures var r := SaveRows(rows, nextId, userId, req, now);
      && |r| == |rows| + 1 && r[..|rows|] == rows
      && r[|rows|].id == nextId && IsUserMovie(r[|rows|], userId, req.movieSlug)
      && r[|rows|].movieTitle == req.movieTitle
      && r[|rows|].posterUrl == (if req.posterUrl.Some? then req.posterUrl.value else "")
      && r[|rows|].episodeName == req.episodeName && r[|rows|].episodeSlug == req.episodeSlug
      && r[|rows|].currentTime == req.currentTime && r[|rows|].totalTime == req.totalTime
      && r[|rows|].firstWatchedAt == r[|rows|].lastWatchedAt == now
    ensures SaveNextId(rows, nextId, userId, req) == nextId + 1
  {
  }

  /**
   * A save for a (user, movie) that has a row, whatever the episode, rewrites
   * that row in place: same count, same id, same first-watched time, the
   * request's episode and times, and the old title or poster where the
   * request has null.
   */
  lemma SaveUpdates(rows: seq<WatchHistory>, nextId: int, userId: string, req: WatchProgressRequest, now: int, i: int)
    requires 0 <= i < |rows| && IsUserMovie(rows[i], userId, req.movieSlug)
    requires forall j :: 0 <= j < i ==> !IsUserMovie(rows[j], userId, req.movieSlug)
    ensures var r := SaveRows(rows, nextId, userId, req, now);
      && |r| == |rows|
      && (forall j :: 0 <= j < |rows| && j != i ==> r[j] == rows[j])
      && r[i].id == rows[i].id && r[i].userId == userId && r[i].movieSlug == req.movieSlug
      && r[i].firstWatchedAt == rows[i].firstWatchedAt && r[i].lastWatchedAt == now
      && r[i].episodeName == req.episodeName && r[i].episodeSlug == req.episodeSlug
      && r[i].currentTime == req.currentTime && r[i].totalTime == req.totalTime
      && r[i].movieTitle == (if req.movieTitle.None? then rows[i].movieTitle else req.movieTitle)
      && r[i].posterUrl == (if req.posterUrl.None? then rows[i].posterUrl else req.posterUrl.value)
    ensures SaveNextId(rows, nextId, userId, req) == nextId
  {
  }

  /** A save never creates a second row for a (user, movie) pair. */
  lemma SaveKeepsOnePerUserMovie(rows: seq<WatchHistory>, nextId: int, userId: string, req: WatchProgressRequest, now: int)
    requires OnePerUserMovie(rows)
    ensures OnePerUserMovie(SaveRows(rows, nextId, userId, req, now))
  {
    var r := SaveRows(rows, nextId, userId, req, now);
    var i := IndexWhere(rows, UserMovie(userId, req.movieSlug));
    if i == -1 {
      assert forall j :: 0 <= j < |rows| ==> r[j] == rows[j];
    } else {
      assert forall j :: 0 <= j < |rows| && j != i ==> r[j] == rows[j];
      assert IsUserMovie(r[i], rows[i].userId, rows[i].movieSlug);
    }
  }

  /** A save keeps the table invariant, with the counter advanced as SaveNextId says. */
  lemma SaveKeepsInvariant(rows: seq<WatchHistory>, nextId: int, userId: string, req: WatchProgressRequest, now: int)
    requires TableInvariant(rows, nextId)
    ensures TableInvariant(SaveRows(rows, nextId, userId, req, now), SaveNextId(rows, nextId, userId, req))
  {
    SaveKeepsOnePerUserMovie(rows, nextId, userId, req, now);
    var r := SaveRows(rows, nextId, userId, req, now);
    var i := IndexWhere(rows, UserMovie(userId, req.movieSlug));
    if i == -1 {
      assert forall j :: 0 <= j < |rows| ==> r[j] == rows[j];
    } else {
      assert forall j :: 0 <= j < |rows| && j != i ==> r[j] == rows[j];
    }
  }

  /** With no two rows for one (user, movie), at most one row matches a pair. */
  lemma {:induction false} AtMostOneMatch(rows: seq<WatchHistory>, userId: string, movieSlug: string)
    requires OnePerUserMovie(rows)
    ensures |Filter(rows, UserMovie(userId, movieSlug))| <= 1
    decreases |rows|
  {
    if rows != [] {
      var p := UserMovie(userId, movieSlug);
      var t := rows[1..];
      assert rows == [rows[0]] + t;
      FilterCons(rows[0], t, p);
      if p(rows[0]) {
        forall j | 0 <= j < |t| ensures !p(t[j]) {
          assert t[j] == rows[j + 1];
        }
        NoMatchEmpty(t, p);
      } else {
        assert OnePerUserMovie(t) by {
          forall i, j | 0 <= i < j < |t| ensures !IsUserMovie(t[j], t[i].userId, t[i].movieSlug) {
            assert t[i] == rows[i + 1] && t[j] == rows[j + 1];
          }
        }
        AtMostOneMatch(t, userId, movieSlug);
      }
    }
  }

  lemma {:induction false} NoMatchEmpty<T>(s: seq<T>, p: T -> bool)
    requires forall j :: 0 <= j < |s| ==> !p(s[j])
    ensures Filter(s, p) == []
    decreases |s|
  {
    if s != [] {
      assert s == [s[0]] + s[1..];
      FilterCons(s[0], s[1..], p);
      NoMatchEmpty(s[1..], p);
    }
  }

  /**
   * `GetWatchProgress`: an invalid request without a user or slug; otherwise
   * the progress of the matching row watched last, or no progress.
   */
  function GetWatchProgress(rows: seq<WatchHistory>, userId: Option<string>, movieSlug: Option<string>): (r: ProgressResult)
    ensures r == InvalidRequest <==> IsNullOrEmpty(userId) || IsNullOrEmpty(movieSlug)
    ensures r == NoProgress <==>
              !IsNullOrEmpty(userId) && !IsNullOrEmpty(movieSlug)
              && forall j :: 0 <= j < |rows| ==> !IsUserMovie(rows[j], userId.value, movieSlug.value)
    ensures r.Progress? ==>
              exists i :: 0 <= i < |rows| && IsUserMovie(rows[i], userId.value, movieSlug.value)
                && r == ProgressOf(rows[i])
                && forall j :: 0 <= j < |rows| && IsUserMovie(rows[j], userId.value, movieSlug.value) ==>
                     rows[j].lastWatchedAt <= rows[i].lastWatchedAt
  {
    if IsNullOrEmpty(userId) || IsNullOrEmpty(movieSlug) then InvalidRequest
    else
      var p := UserMovie(userId.value, movieSlug.value);
      var latest := MaxBy(Filter(rows, p), LastWatched);
      MaxByFilter(rows, p, LastWatched);
      if latest.None? then NoProgress else ProgressOf(latest.value)
  }

  function ProgressOf(w: WatchHistory): (r: ProgressResult)
    ensures r.Progress? && r.progressPercent == ProgressPercent(w)
    ensures r.currentTime == w.currentTime && r.totalTime == w.totalTime
    ensures r.episodeSlug == w.episodeSlug && r.episodeName == w.episodeName
  {
    Progress(w.currentTime, w.totalTime, w.episodeSlug, w.episodeName, ProgressPercent(w))
  }

  /**
   * After an authenticated save on a table with one row per (user, movie),
   * reading the progress back gives what was saved.
   */
  lemma SaveThenGetProgress(rows: seq<WatchHistory>, nextId: int, userId: string, req: WatchProgressRequest, now: int)
    requires OnePerUserMovie(rows) && userId != "" && req.movieSlug != ""
    ensures var g := GetWatchProgress(SaveRows(rows, nextId, userId, req, now), Some(userId), Some(req.movieSlug));
      && g.Progress?
      && g.currentTime == req.currentTime && g.totalTime == req.totalTime
      && g.episodeSlug == req.episodeSlug && g.episodeName == req.episodeName
  {
    var r := SaveRows(rows, nextId, userId, req, now);
    var p := UserMovie(userId, req.movieSlug);
    SaveKeepsOnePerUserMovie(rows, nextId, userId, req, now);
    AtMostOneMatch(r, userId, req.movieSlug);
    var i := IndexWhere(rows, p);
    var k := if i == -1 then |rows| else i;
    assert p(r[k]);
    FilterKeeps(r, p, r[k]);
    var f := Filter(r, p);
    assert f == [r[k]];
    assert MaxBy(f, LastWatched) == Some(r[k]);
  }

  /** The history page of a user: their rows, latest first, cut to the page size. */
  function HistoryPage(rows: seq<WatchHistory>, userId: string): seq<WatchHistory> {
    Take(SortBy(Filter(rows, OwnedBy(userId)), Desc(LastWatched)), HistoryPageSize)
  }

  /**
   * The page holds the user's rows only, the latest ones: a page's worth
   * (or all of them when there are fewer), latest watch first, and every
   * row of the user left off the page watched no later than the last one on it.
   */
  lemma HistoryPageFacts(rows: seq<WatchHistory>, userId: string)
    ensures var page := HistoryPage(rows, userId);
      var own := Filter(rows, OwnedBy(userId));
      && |page| == (if |own| < HistoryPageSize then |own| else HistoryPageSize)
      && (forall i :: 0 <= i < |page| ==> page[i].userId == userId)
      && (forall i, j :: 0 <= i < j < |page| ==> page[i].lastWatchedAt >= page[j].lastWatchedAt)
      && multiset(page) <= multiset(rows)
      && (forall w :: w in rows && w.userId == userId && w !in page && page != [] ==>
            w.lastWatchedAt <= page[|page| - 1].lastWatchedAt)
  {
    var own := Filter(rows, OwnedBy(userId));
    HistoryPageOwned(own, userId);
    HistoryPageOrdered(own);
    TakeOfSorted(own, Desc(LastWatched), HistoryPageSize);
    FilterSubset(rows, OwnedBy(userId));
    HistoryPageLatestAll(rows, userId);
  }

  lemma HistoryPageLatestAll(rows: seq<WatchHistory>, userId: string)
    ensures var page := HistoryPage(rows, userId);
      forall w :: w in rows && w.userId == userId && w !in page && page != [] ==>
        w.lastWatchedAt <= page[|page| - 1].lastWatchedAt
  {
    var page := HistoryPage(rows, userId);
    forall w | w in rows && w.userId == userId && w !in page && page != []
      ensures w.lastWatchedAt <= page[|page| - 1].lastWatchedAt
    {
      HistoryPageLatest(rows, userId, w);
    }
  }

  /** A row of the user that the page leaves out was watched no later than the last row on it. */
  lemma HistoryPageLatest(rows: seq<WatchHistory>, userId: string, w: WatchHistory)
    requires w in rows && w.userId == userId && w !in HistoryPage(rows, userId)
    ensures var page := HistoryPage(rows, userId);
      page != [] ==> w.lastWatchedAt <= page[|page| - 1].lastWatchedAt
  {
    FilterKeeps(rows, OwnedBy(userId), w);
    TakeOfSortedDescMisses(Filter(rows, OwnedBy(userId)), LastWatched, HistoryPageSize, w);
  }

  lemma HistoryPageOwned(own: seq<WatchHistory>, userId: string)
    requires forall i :: 0 <= i < |own| ==> OwnedBy(userId)(own[i])
    ensures var page := Take(SortBy(own, Desc(LastWatched)), HistoryPageSize);
      forall i :: 0 <= i < |page| ==> page[i].userId == userId
  {
    SortByKeeps(own, Desc(LastWatched), OwnedBy(userId));
  }

  lemma HistoryPageOrdered(own: seq<WatchHistory>)
    ensures var page := Take(SortBy(own, Desc(LastWatched)), HistoryPageSize);
      forall i, j :: 0 <= i < j < |page| ==> page[i].lastWatchedAt >= page[j].lastWatchedAt
  {
    var page := Take(SortBy(own, Desc(LastWatched)), HistoryPageSize);
    TakeOfSorted(own, Desc(LastWatched), HistoryPageSize);
    forall i, j | 0 <= i < j < |page| ensures page[i].lastWatchedAt >= page[j].lastWatchedAt {
      assert Desc(LastWatched)(page[i]) <= Desc(LastWatched)(page[j]);
    }
  }

  /**
   * `History`: the signed-in user's rows, most recently watched first, at
   * most a page of them; `None` (a redirect to the login page) without a user.
   */
  function History(rows: seq<WatchHistory>, userId: Option<string>): (r: Option<seq<WatchHistory>>)
    ensures r.None? <==> IsNullOrEmpty(userId)
    ensures r.Some? ==>
              && |r.value| == (if |Filter(rows, OwnedBy(userId.value))| < HistoryPageSize
                               then |Filter(rows, OwnedBy(userId.value))| else HistoryPageSize)
              && (forall i :: 0 <= i < |r.value| ==> r.value[i].userId == userId.value)
              && (forall i, j :: 0 <= i < j < |r.value| ==> r.value[i].lastWatchedAt >= r.value[j].lastWatchedAt)
              && multiset(r.value) <= multiset(rows)
              && (forall w :: w in rows && w.userId == userId.value && w !in r.value && r.value != [] ==>
                    w.lastWatchedAt <= r.value[|r.value| - 1].lastWatchedAt)
  {
    if IsNullOrEmpty(userId) then None
    else
      HistoryPageFacts(rows, userId.value);
      Some(HistoryPage(rows, userId.value))
  }

  /** The table after `DeleteHistory` by an authenticated user: the row with this id, if the user owns it, is gone. */
  function DeleteRows(rows: seq<WatchHistory>, userId: string, id: int): seq<WatchHistory> {
    var i := IndexWhere(rows, IdOwnedBy(id, userId));
    if i == -1 then rows else RemoveAt(rows, i)
  }

  /**
   * With unique ids, a delete removes exactly the row with that id when the
   * user owns it, and nothing when no such row exists.
   */
  lemma DeleteRemovesExactly(rows: seq<WatchHistory>, userId: string, id: int)
    requires UniqueIds(rows)
    ensures var r := DeleteRows(rows, userId, id);
      && (forall w :: w in r <==> w in rows && !(w.id == id && w.userId == userId))
      && |r| == (if exists j :: 0 <= j < |rows| && rows[j].id == id && rows[j].userId == userId
                 then |rows| - 1 else |rows|)
  {
    var i := IndexWhere(rows, IdOwnedBy(id, userId));
    var r := DeleteRows(rows, userId, id);
    if i != -1 {
      assert IdOwnedBy(id, userId)(rows[i]);
      forall w ensures w in r <==> w in rows && !(w.id == id && w.userId == userId) {
        if w in r {
          var k :| 0 <= k < |r| && r[k] == w;
          var m := if k < i then k else k + 1;
          assert r[k] == rows[m] && m != i;
        }
        if w in rows && !(w.id == id && w.userId == userId) {
          var m :| 0 <= m < |rows| && rows[m] == w;
          assert m != i;
          if m < i {
            assert r[m] == w;
          } else {
            assert r[m - 1] == w;
          }
        }
      }
    }
  }

  lemma RemoveKeepsUniqueIds(rows: seq<WatchHistory>, i: int)
    requires 0 <= i < |rows| && UniqueIds(rows)
    ensures UniqueIds(RemoveAt(rows, i))
  {
    var r := RemoveAt(rows, i);
    forall a, b | 0 <= a < b < |r| ensures r[a].id != r[b].id {
      var a', b' := if a < i then a else a + 1, if b < i then b else b + 1;
      assert r[a] == rows[a'] && r[b] == rows[b'] && a' < b';
    }
  }

  lemma RemoveKeepsOnePerUserMovie(rows: seq<WatchHistory>, i: int)
    requires 0 <= i < |rows| && OnePerUserMovie(rows)
    ensures OnePerUserMovie(RemoveAt(rows, i))
  {
    var r := RemoveAt(rows, i);
    forall a, b | 0 <= a < b < |r| ensures !IsUserMovie(r[b], r[a].userId, r[a].movieSlug) {
      var a', b' := if a < i then a else a + 1, if b < i then b else b + 1;
      assert r[a] == rows[a'] && r[b] == rows[b'] && a' < b';
    }
  }

  /** A delete keeps the table invariant. */
  lemma DeleteKeepsInvariant(rows: seq<WatchHistory>, nextId: int, userId: string, id: int)
    requires TableInvariant(rows, nextId)
    ensures TableInvariant(DeleteRows(rows, userId, id), nextId)
  {
    var i := IndexWhere(rows, IdOwnedBy(id, userId));
    if i != -1 {
      RemoveKeepsUniqueIds(rows, i);
      RemoveKeepsOnePerUserMovie(rows, i);
      assert IdsBelow(RemoveAt(rows, i), nextId);
    }
  }

  /** The WatchHistories table with its identity counter. */
  class WatchHistoryTable {
    var rows: seq<WatchHistory>
    var nextId: int

    ghost predicate Valid()
      reads this
    {
      TableInvariant(rows, nextId)
    }

    constructor ()
      ensures Valid() && rows == [] && nextId == 1
    {
      rows := [];
      nextId := 1;
    }

    /**
     * `SaveWatchProgress`: without a user, Unauthorized and nothing changes;
     * otherwise the (user, movie) row is rewritten field by field, or a new
     * row is added.
     */
    method SaveWatchProgress(userId: Option<string>, req: WatchProgressRequest, now: int) returns (outcome: SaveOutcome)
      requires Valid()
      modifies this
      ensures Valid()
      ensures IsNullOrEmpty(userId) ==> outcome == SaveUnauthorized && rows == old(rows) && nextId == old(nextId)
      ensures !IsNullOrEmpty(userId) ==>
                && outcome == Saved
                && rows == SaveRows(old(rows), old(nextId), userId.value, req, now)
                && nextId == SaveNextId(old(rows), old(nextId), userId.value, req)
    {
      if IsNullOrEmpty(userId) {
        return SaveUnauthorized;
      }
      var user := userId.value;
      SaveKeepsInvariant(rows, nextId, user, req, now);
      var i := IndexWhere(rows, UserMovie(user, req.movieSlug));
      if i == -1 {
        var w := NewWatchHistory(now);
        w := w.(id := nextId, userId := user, movieSlug := req.movieSlug, movieTitle := req.movieTitle,
                posterUrl := req.posterUrl.GetOr(""), episodeName := req.episodeName,
                episodeSlug := req.episodeSlug, currentTime := req.currentTime, totalTime := req.totalTime);
        rows := rows + [w];
        nextId := nextId + 1;
      } else {
        var w := rows[i];
        w := w.(movieTitle := if req.movieTitle.Some? then req.movieTitle else w.movieTitle);
        w := w.(posterUrl := req.posterUrl.GetOr(w.posterUrl));
        w := w.(episodeName := req.episodeName);
        w := w.(episodeSlug := req.episodeSlug);
        w := w.(currentTime := req.currentTime);
        w := w.(totalTime := req.totalTime);
        w := w.(lastWatchedAt := now);
        rows := rows[i := w];
      }
      return Saved;
    }

    /**
     * `DeleteHistory`: without a user, Unauthorized; otherwise the row with
     * this id is removed if the user owns it, and not-found is reported when
     * there is none. The identity counter is untouched.
     */
    method DeleteHistory(userId: Option<string>, id: int) returns (outcome: DeleteOutcome)
      requires Valid()
      modifies this
      ensures Valid() && nextId == old(nextId)
      ensures IsNullOrEmpty(userId) ==> outcome == DeleteUnauthorized && rows == old(rows)
      ensures !IsNullOrEmpty(userId) ==>
                && rows == DeleteRows(old(rows), userId.value, id)
                && (outcome == HistoryNotFound <==> rows == old(rows))
                && (outcome == Deleted <==> |rows| == |old(rows)| - 1)
    {
      if IsNullOrEmpty(userId) {
        return DeleteUnauthorized;
      }
      DeleteKeepsInvariant(rows, nextId, userId.value, id);
      var i := IndexWhere(rows, IdOwnedBy(id, userId.value));
      if i == -1 {
        return HistoryNotFound;
      }
      rows := RemoveAt(rows, i);
      return Deleted;
    }
  }
}
