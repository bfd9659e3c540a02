/**
 * The watch-history record (Models/WatchHistory.cs): where a user stopped in
 * a movie, and the two values derived from it, the percentage watched and
 * whether the episode counts as finished.
 */
module WatchHistoryModel {
  import opened Wrappers

  /**
   * One row of the WatchHistories table. Times are whole seconds; instants
   * (`lastWatchedAt`, `firstWatchedAt`) are integer timestamps. The title
   * may be null when a request carried none; the poster never is.
   */
  datatype WatchHistory = WatchHistory(
    id: int,
    userId: string,
    movieSlug: string,
    movieTitle: Option<string>,
    posterUrl: string,
    episodeName: string,
    episodeSlug: string,
    currentTime: int,
    totalTime: int,
    lastWatchedAt: int,
    firstWatchedAt: int)

  /** The key the queries order by, most recent first. */
  function LastWatched(w: WatchHistory): int {
    w.lastWatchedAt
  }

  /** A record as the parameterless constructor leaves it, at time `now`. */
  function NewWatchHistory(now: int): (r: WatchHistory)
    ensures r.userId == r.movieSlug == r.posterUrl == r.episodeName == r.episodeSlug == ""
    ensures r.movieTitle == Some("")
    ensures ProgressPercent(r) == 0 && !IsCompleted(r)
    ensures r.firstWatchedAt == r.lastWatchedAt == now
  {
    WatchHistory(0, "", "", Some(""), "", "", "", 0, 0, now, now)
  }

  /** A conversion of a quotient to `int`: truncation toward zero. */
  function TruncDiv(a: int, b: int): int
    requires b > 0
  {
    if a >= 0 then a / b else -((-a) / b)
  }

  /** `a <= b` and `t > 0` give `a * t <= b * t`. */
  lemma MulLe(a: int, b: int, t: int)
    requires a <= b && t >= 0
    ensures a * t <= b * t
  {
    assert b * t - a * t == (b - a) * t;
  }

  /** `q` is the quotient of a non-negative `a` by a positive `b`. */
  lemma DivBounds(a: int, b: int)
    requires a >= 0 && b > 0
    ensures (a / b) * b <= a < (a / b + 1) * b
    ensures a / b >= 0
  {
  }

  /** Integer division by a positive number does not decrease. */
  lemma DivMonotone(x: int, y: int, t: int)
    requires 0 <= x <= y && t > 0
    ensures x / t <= y / t
  {
    DivBounds(x, t);
    DivBounds(y, t);
    if x / t > y / t {
      MulLe(y / t + 1, x / t, t);
    }
  }

  /** The bounds on a truncated percentage of a positive total. */
  lemma PercentBounds(c: int, t: int)
    requires t > 0
    ensures c >= 0 ==> TruncDiv(c * 100, t) * t <= c * 100 < (TruncDiv(c * 100, t) + 1) * t
    ensures 0 <= c <= t ==> 0 <= TruncDiv(c * 100, t) <= 100
    ensures c <= 0 ==> TruncDiv(c * 100, t) <= 0
  {
    var r := TruncDiv(c * 100, t);
    if c >= 0 {
      DivBounds(c * 100, t);
      if c <= t {
        MulLe(c, t, 100);
        if r > 100 {
          MulLe(101, r, t);
        }
      }
    } else {
      DivBounds(-(c * 100), t);
    }
  }

  /**
   * `ProgressPercent`: the share of the episode watched, in percent,
   * truncated toward zero, and 0 while the total time is not positive.
   */
  function ProgressPercent(w: WatchHistory): (r: int)
    ensures w.totalTime <= 0 ==> r == 0
    ensures w.totalTime > 0 && w.currentTime >= 0 ==>
              r * w.totalTime <= w.currentTime * 100 < (r + 1) * w.totalTime
    ensures w.totalTime > 0 && 0 <= w.currentTime <= w.totalTime ==> 0 <= r <= 100
    ensures w.currentTime <= 0 ==> r <= 0
  {
    if w.totalTime > 0 then
      PercentBounds(w.currentTime, w.totalTime);
      TruncDiv(w.currentTime * 100, w.totalTime)
    else 0
  }

  /** For a fixed total time, watching further never lowers the percentage. */
  lemma ProgressMonotone(w: WatchHistory, later: int)
    requires w.currentTime <= later
    ensures ProgressPercent(w) <= ProgressPercent(w.(currentTime := later))
  {
    var t := w.totalTime;
    if t > 0 {
      var a, b := w.currentTime * 100, later * 100;
      if 0 <= a {
        DivMonotone(a, b, t);
      } else if b < 0 {
        DivMonotone(-b, -a, t);
      }
    }
  }

  /** At least 90 percent is nine tenths of a positive total. */
  lemma CompletedBound(w: WatchHistory)
    ensures ProgressPercent(w) >= 90 <==> w.totalTime > 0 && 10 * w.currentTime >= 9 * w.totalTime
  {
    var c, t := w.currentTime, w.totalTime;
    if t > 0 && c >= 0 {
      var p := ProgressPercent(w);
      if p >= 90 {
        MulLe(90, p, t);
      } else {
        MulLe(p + 1, 90, t);
      }
    }
  }

  /**
   * `IsCompleted`: at least 90 percent watched, which is exactly
   * "the total is positive and nine tenths of it have been watched".
   */
  function IsCompleted(w: WatchHistory): (r: bool)
    ensures r <==> w.totalTime > 0 && 10 * w.currentTime >= 9 * w.totalTime
  {
    CompletedBound(w);
    ProgressPercent(w) >= 90
  }
}
