/**
 * The MovieComments table and the comment service over it
 * (Services/CommentService.cs, rows shaped as Models/MovieComment.cs):
 * validated insert, delete by the author or an admin, edit by the author,
 * and the per-movie listing and count. The clock is a parameter `now`.
 */
module Comments {
  import opened Wrappers
  import opened Text
  import opened Seqs

  /** The longest content accepted, measured before trimming. */
  const MaxContentLength := 1000

  /** One row of the MovieComments table; `updatedAt` is null until the first edit. */
  datatype MovieComment = MovieComment(
    id: int,
    userId: string,
    movieSlug: string,
    movieTitle: string,
    content: string,
    createdAt: int,
    updatedAt: Option<int>)

  function CreatedAt(c: MovieComment): int {
    c.createdAt
  }

  function CommentIdIs(id: int): MovieComment -> bool {
    (c: MovieComment) => c.id == id
  }

  function OnMovie(slug: string): MovieComment -> bool {
    (c: MovieComment) => c.movieSlug == slug
  }

  ghost predicate UniqueIds(rows: seq<MovieComment>) {
    forall i, j :: 0 <= i < j < |rows| ==> rows[i].id != rows[j].id
  }

  ghost predicate IdsBelow(rows: seq<MovieComment>, nextId: int) {
    forall i :: 0 <= i < |rows| ==> 0 < rows[i].id < nextId
  }

  ghost predicate TableInvariant(rows: seq<MovieComment>, nextId: int) {
    nextId > 0 && IdsBelow(rows, nextId) && UniqueIds(rows)
  }

  /**
   * The content check shared by add and edit: not null, not only white
   * space, and at most 1000 characters before trimming. What is stored is
   * then non-empty, trimmed and within the limit.
   */
  function ContentAccepted(content: Option<string>): (r: bool)
    ensures r <==> content.Some? && !AllWhiteSpace(content.value) && |content.value| <= MaxContentLength
    ensures r ==> var t := Trim(content.value);
      && t != [] && |t| <= MaxContentLength && !IsWhiteSpace(t[0]) && !IsWhiteSpace(t[|t| - 1])
  {
    !(IsNullOrWhiteSpace(content) || |content.value| > MaxContentLength)
  }

  /** The position of the row with primary key `id`, or -1 (`FindAsync`). */
  function Find(rows: seq<MovieComment>, id: int): int {
    IndexWhere(rows, CommentIdIs(id))
  }

  // ----- AddCommentAsync -----

  /** The table after an accepted add. */
  function AddRows(rows: seq<MovieComment>, nextId: int, userId: string, movieSlug: string,
                   movieTitle: string, content: string, now: int): seq<MovieComment> {
    rows + [MovieComment(nextId, userId, movieSlug, movieTitle, Trim(content), now, None)]
  }

  lemma AddKeepsInvariant(rows: seq<MovieComment>, nextId: int, userId: string, movieSlug: string,
                          movieTitle: string, content: string, now: int)
    requires TableInvariant(rows, nextId)
    ensures TableInvariant(AddRows(rows, nextId, userId, movieSlug, movieTitle, content, now), nextId + 1)
  {
    var r := AddRows(rows, nextId, userId, movieSlug, movieTitle, content, now);
    assert forall j :: 0 <= j < |rows| ==> r[j] == rows[j];
  }

  /** An added comment shows up in its movie's listing, and the count grows by one. */
  lemma AddShowsInListing(rows: seq<MovieComment>, nextId: int, userId: string, movieSlug: string,
                          movieTitle: string, content: string, now: int)
    ensures var r := AddRows(rows, nextId, userId, movieSlug, movieTitle, content, now);
      && MovieComment(nextId, userId, movieSlug, movieTitle, Trim(content), now, None) in CommentsByMovie(r, movieSlug)
      && CommentCount(r, movieSlug) == CommentCount(rows, movieSlug) + 1
  {
    var c := MovieComment(nextId, userId, movieSlug, movieTitle, Trim(content), now, None);
    var r := AddRows(rows, nextId, userId, movieSlug, movieTitle, content, now);
    SortedFilterMember(r, OnMovie(movieSlug), Desc(CreatedAt), c);
    FilterAppend(rows, c, OnMovie(movieSlug));
  }

  /** An add for another movie leaves this movie's listing as it was. */
  lemma AddElsewhereKeepsListing(rows: seq<MovieComment>, nextId: int, userId: string, movieSlug: string,
                                 movieTitle: string, content: string, now: int, other: string)
    requires other != movieSlug
    ensures CommentsByMovie(AddRows(rows, nextId, userId, movieSlug, movieTitle, content, now), other)
         == CommentsByMovie(rows, other)
  {
    var c := MovieComment(nextId, userId, movieSlug, movieTitle, Trim(content), now, None);
    assert !OnMovie(other)(c);
    FilterAppend(rows, c, OnMovie(other));
    assert AddRows(rows, nextId, userId, movieSlug, movieTitle, content, now) == rows + [c];
    assert Filter(rows + [c], OnMovie(other)) == Filter(rows, OnMovie(other));
  }

  // ----- DeleteCommentAsync -----

  /** The row exists, and the caller wrote it or is an admin. */
  predicate MayDelete(rows: seq<MovieComment>, id: int, userId: string, isAdmin: bool) {
    var i := Find(rows, id);
    i != -1 && (rows[i].userId == userId || isAdmin)
  }

  /** The table after `DeleteCommentAsync`. */
  function DeleteRows(rows: seq<MovieComment>, id: int, userId: string, isAdmin: bool): seq<MovieComment> {
    if MayDelete(rows, id, userId, isAdmin) then RemoveAt(rows, Find(rows, id)) else rows
  }

  /** With unique ids a delete is allowed exactly when the comment exists and the caller wrote it or is an admin. */
  lemma DeleteGate(rows: seq<MovieComment>, id: int, userId: string, isAdmin: bool)
    requires UniqueIds(rows)
    ensures MayDelete(rows, id, userId, isAdmin) <==>
              exists j :: 0 <= j < |rows| && rows[j].id == id && (rows[j].userId == userId || isAdmin)
  {
    var i := Find(rows, id);
    if i != -1 {
      assert rows[i].id == id;
    }
  }

  /**
   * With unique ids an allowed delete removes that comment and nothing
   * else; a refused one changes nothing.
   */
  lemma DeleteEffect(rows: seq<MovieComment>, id: int, userId: string, isAdmin: bool)
    requires UniqueIds(rows)
    ensures var r := DeleteRows(rows, id, userId, isAdmin);
      if MayDelete(rows, id, userId, isAdmin) then
        |r| == |rows| - 1 && forall c :: c in r <==> c in rows && c.id != id
      else r == rows
  {
    var i := Find(rows, id);
    if MayDelete(rows, id, userId, isAdmin) {
      assert rows[i].id == id;
      var r := RemoveAt(rows, i);
      forall c ensures c in r <==> c in rows && c.id != id {
        if c in r {
          var k :| 0 <= k < |r| && r[k] == c;
          var m := if k < i then k else k + 1;
          assert r[k] == rows[m] && m != i;
        }
        if c in rows && c.id != id {
          var m :| 0 <= m < |rows| && rows[m] == c;
          if m < i {
            assert r[m] == c;
          } else {
            assert r[m - 1] == c;
          }
        }
      }
    }
  }

  lemma DeleteKeepsInvariant(rows: seq<MovieComment>, nextId: int, id: int, userId: string, isAdmin: bool)
    requires TableInvariant(rows, nextId)
    ensures TableInvariant(DeleteRows(rows, id, userId, isAdmin), nextId)
  {
    if MayDelete(rows, id, userId, isAdmin) {
      var i := Find(rows, id);
      var r := RemoveAt(rows, i);
      forall a, b | 0 <= a < b < |r| ensures r[a].id != r[b].id {
        var a', b' := if a < i then a else a + 1, if b < i then b else b + 1;
        assert r[a] == rows[a'] && r[b] == rows[b'] && a' < b';
      }
      assert IdsBelow(r, nextId);
    }
  }

  // ----- UpdateCommentAsync -----

  /** The content is acceptable, the row exists, and the caller wrote it. */
  predicate MayUpdate(rows: seq<MovieComment>, id: int, userId: string, newContent: Option<string>) {
    var i := Find(rows, id);
    ContentAccepted(newContent) && i != -1 && rows[i].userId == userId
  }

  /** The table after `UpdateCommentAsync`. */
  function UpdateRows(rows: seq<MovieComment>, id: int, userId: string, newContent: Option<string>,
                      now: int): seq<MovieComment> {
    if MayUpdate(rows, id, userId, newContent) then
      var i := Find(rows, id);
      rows[i := rows[i].(content := Trim(newContent.value), updatedAt := Some(now))]
    else rows
  }

  /** With unique ids an edit is allowed exactly for acceptable content from the comment's author. */
  lemma UpdateGate(rows: seq<MovieComment>, id: int, userId: string, newContent: Option<string>)
    requires UniqueIds(rows)
    ensures MayUpdate(rows, id, userId, newContent) <==>
              ContentAccepted(newContent) && exists j :: 0 <= j < |rows| && rows[j].id == id && rows[j].userId == userId
  {
    var i := Find(rows, id);
    if i != -1 {
      assert rows[i].id == id;
    }
  }

  /**
   * An allowed edit replaces that comment's content by the trimmed text and
   * stamps `updatedAt`, and changes nothing else; a refused edit changes
   * nothing.
   */
  lemma UpdateEffect(rows: seq<MovieComment>, id: int, userId: string, newContent: Option<string>, now: int)
    ensures var r := UpdateRows(rows, id, userId, newContent, now);
      if MayUpdate(rows, id, userId, newContent) then
        var i := Find(rows, id);
        && |r| == |rows| && r[i].id == id && r[i].userId == userId
        && (forall j :: 0 <= j < |rows| && j != i ==> r[j] == rows[j])
        && r[i].content == Trim(newContent.value) && r[i].updatedAt == Some(now)
        && r[i].(content := rows[i].content, updatedAt := rows[i].updatedAt) == rows[i]
      else r == rows
  {
  }

  lemma UpdateKeepsInvariant(rows: seq<MovieComment>, nextId: int, id: int, userId: string,
                             newContent: Option<string>, now: int)
    requires TableInvariant(rows, nextId)
    ensures TableInvariant(UpdateRows(rows, id, userId, newContent, now), nextId)
  {
    if MayUpdate(rows, id, userId, newContent) {
      var i := Find(rows, id);
      var r := rows[i := rows[i].(content := Trim(newContent.value), updatedAt := Some(now))];
      assert forall j :: 0 <= j < |rows| ==> r[j].id == rows[j].id;
    }
  }

  // ----- GetCommentsByMovieAsync / GetCommentCountAsync -----

  /** The movie's comments, newest first. */
  function CommentsByMovie(rows: seq<MovieComment>, movieSlug: string): seq<MovieComment> {
    SortBy(Filter(rows, OnMovie(movieSlug)), Desc(CreatedAt))
  }

  /** The number of comments on the movie. */
  function CommentCount(rows: seq<MovieComment>, movieSlug: string): int {
    |Filter(rows, OnMovie(movieSlug))|
  }

  /**
   * The listing holds exactly the movie's comments, each as often as in the
   * table, newest first, and the count is its length.
   */
  lemma ListingFacts(rows: seq<MovieComment>, movieSlug: string)
    ensures var r := CommentsByMovie(rows, movieSlug);
      && (forall c :: c in r <==> c in rows && c.movieSlug == movieSlug)
      && (forall i, j :: 0 <= i < j < |r| ==> r[i].createdAt >= r[j].createdAt)
      && multiset(r) <= multiset(rows)
      && |r| == CommentCount(rows, movieSlug)
  {
    var r := CommentsByMovie(rows, movieSlug);
    forall c ensures c in r <==> c in rows && c.movieSlug == movieSlug {
      SortedFilterMember(rows, OnMovie(movieSlug), Desc(CreatedAt), c);
    }
    forall i, j | 0 <= i < j < |r| ensures r[i].createdAt >= r[j].createdAt {
      assert Desc(CreatedAt)(r[i]) <= Desc(CreatedAt)(r[j]);
    }
    FilterSubset(rows, OnMovie(movieSlug));
  }

  /** The MovieComments table with its identity counter. */
  class CommentTable {
    var rows: seq<MovieComment>
    var nextId: int

    ghost predicate Valid()
      reads this
    {
      TableInvariant(rows, nextId)
    }

    constructor ()
      ensures Valid() && rows == [] && nextId == 1
    {
      rows := [];
      nextId := 1;
    }

    /** `AddCommentAsync`: true and one new row for accepted content, false and no change otherwise. */
    method AddComment(userId: string, movieSlug: string, movieTitle: string, content: Option<string>, now: int)
      returns (ok: bool)
      requires Valid()
      modifies this
      ensures Valid()
      ensures ok == ContentAccepted(content)
      ensures ok ==> rows == AddRows(old(rows), old(nextId), userId, movieSlug, movieTitle, content.value, now)
                     && nextId == old(nextId) + 1
      ensures !ok ==> rows == old(rows) && nextId == old(nextId)
    {
      if IsNullOrWhiteSpace(content) || |content.value| > MaxContentLength {
        return false;
      }
      AddKeepsInvariant(rows, nextId, userId, movieSlug, movieTitle, content.value, now);
      var comment := MovieComment(nextId, userId, movieSlug, movieTitle, Trim(content.value), now, None);
      rows := rows + [comment];
      nextId := nextId + 1;
      return true;
    }

    /** `DeleteCommentAsync`: removes the comment when the caller wrote it or is an admin. */
    method DeleteComment(commentId: int, userId: string, isAdmin: bool) returns (ok: bool)
      requires Valid()
      modifies this
      ensures Valid() && nextId == old(nextId)
      ensures ok == MayDelete(old(rows), commentId, userId, isAdmin)
      ensures rows == DeleteRows(old(rows), commentId, userId, isAdmin)
    {
      DeleteKeepsInvariant(rows, nextId, commentId, userId, isAdmin);
      var i := Find(rows, commentId);
      if i == -1 {
        return false;
      }
      if rows[i].userId != userId && !isAdmin {
        return false;
      }
      rows := RemoveAt(rows, i);
      return true;
    }

    /** `UpdateCommentAsync`: the author's comment gets the trimmed content and an edit time. */
    method UpdateComment(commentId: int, userId: string, newContent: Option<string>, now: int) returns (ok: bool)
      requires Valid()
      modifies this
      ensures Valid() && nextId == old(nextId)
      ensures ok == MayUpdate(old(rows), commentId, userId, newContent)
      ensures rows == UpdateRows(old(rows), commentId, userId, newContent, now)
    {
      if IsNullOrWhiteSpace(newContent) || |newContent.value| > MaxContentLength {
        return false;
      }
      var i := Find(rows, commentId);
      if i == -1 || rows[i].userId != userId {
        return false;
      }
      UpdateKeepsInvariant(rows, nextId, commentId, userId, newContent, now);
      var c := rows[i];
      c := c.(content := Trim(newContent.value));
      c := c.(updatedAt := Some(now));
      rows := rows[i := c];
      return true;
    }
  }
}
