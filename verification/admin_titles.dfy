/**
 * The admin's title-override table (Controllers/AdminController.cs, rows
 * shaped as Models/CustomMovieTitle.cs plus the `IsHidden` column of the
 * AddIsHiddenToCustomMovieTitle migration): hiding and showing a movie,
 * saving a custom title by slug, deleting an override, and the dashboard
 * figures drawn from this table and from the watch ranking. The catalogue
 * lookup is an optional movie detail passed in; the signed-in admin is an
 * optional user id.
 */
module AdminTitles {
  import opened Wrappers
  import opened Text
  import opened Seqs
  import opened Catalog
  import opened WatchHistoryModel
  import WatchAnalytics

  /** One row of the CustomMovieTitles table. */
  datatype CustomMovieTitle = CustomMovieTitle(
    id: int,
    movieSlug: string,
    customTitle: string,
    originalTitle: Option<string>,
    customDescription: Option<string>,
    updatedAt: int,
    updatedBy: Option<string>,
    isHidden: bool)

  /** The fields of the edit form the POST action reads. */
  datatype TitleForm = TitleForm(
    movieSlug: string,
    customTitle: string,
    originalTitle: Option<string>,
    customDescription: Option<string>)

  datatype ToggleReply = ToggleFailed | Toggled(isHidden: bool)
  datatype EditOutcome = InvalidModel | TitleSaved
  datatype DeleteTitleOutcome = TitleNotFound | TitleDeleted

  /** A row of the dashboard's top-movie list. */
  datatype TopMovie = TopMovie(slug: string, title: string, views: int)

  function SlugIs(slug: string): CustomMovieTitle -> bool {
    (c: CustomMovieTitle) => c.movieSlug == slug
  }

  function IdIs(id: int): CustomMovieTitle -> bool {
    (c: CustomMovieTitle) => c.id == id
  }

  predicate IsHidden(c: CustomMovieTitle) {
    c.isHidden
  }

  ghost predicate UniqueIds(rows: seq<CustomMovieTitle>) {
    forall i, j :: 0 <= i < j < |rows| ==> rows[i].id != rows[j].id
  }

  ghost predicate IdsBelow(rows: seq<CustomMovieTitle>, nextId: int) {
    forall i :: 0 <= i < |rows| ==> 0 < rows[i].id < nextId
  }

  /** No two overrides for one slug. */
  ghost predicate OnePerSlug(rows: seq<CustomMovieTitle>) {
    forall i, j :: 0 <= i < j < |rows| ==> rows[i].movieSlug != rows[j].movieSlug
  }

  ghost predicate TableInvariant(rows: seq<CustomMovieTitle>, nextId: int) {
    nextId > 0 && IdsBelow(rows, nextId) && UniqueIds(rows) && OnePerSlug(rows)
  }

  // ----- ToggleHideMovie -----

  /** The override a first toggle creates: hidden, titled with the catalogue name or the slug. */
  function HiddenRow(id: int, slug: string, detail: Option<MovieDetail>, adminId: Option<string>, now: int): CustomMovieTitle {
    var name := if detail.Some? then detail.value.name else None;
    CustomMovieTitle(id, slug, name.GetOr(slug), Some(name.GetOr("")), None, now, adminId, true)
  }

  /** The table after toggling a non-empty slug: flip the slug's row, or add a hidden one. */
  function ToggleRows(rows: seq<CustomMovieTitle>, nextId: int, slug: string, detail: Option<MovieDetail>,
                      adminId: Option<string>, now: int): seq<CustomMovieTitle> {
    var i := IndexWhere(rows, SlugIs(slug));
    if i == -1 then rows + [HiddenRow(nextId, slug, detail, adminId, now)]
    else rows[i := rows[i].(isHidden := !rows[i].isHidden, updatedAt := now, updatedBy := adminId)]
  }

  function ToggleNextId(rows: seq<CustomMovieTitle>, nextId: int, slug: string): int {
    if IndexWhere(rows, SlugIs(slug)) == -1 then nextId + 1 else nextId
  }

  /** The `isHidden` of the reply: the state the slug's row is left in. */
  function ToggleReplyFor(rows: seq<CustomMovieTitle>, slug: string): ToggleReply {
    var i := IndexWhere(rows, SlugIs(slug));
    Toggled(if i == -1 then true else !rows[i].isHidden)
  }

  /**
   * A first toggle of a slug inserts exactly one override: hidden, with the
   * catalogue name (or the slug) as custom title and the catalogue name (or
   * "") as original title.
   */
  lemma ToggleCreates(rows: seq<CustomMovieTitle>, nextId: int, slug: string, detail: Option<MovieDetail>,
                      adminId: Option<string>, now: int)
    requires forall j :: 0 <= j < |rows| ==> rows[j].movieSlug != slug
    ensures var r := ToggleRows(rows, nextId, slug, detail, adminId, now);
      && |r| == |rows| + 1 && r[..|rows|] == rows
      && r[|rows|].movieSlug == slug && r[|rows|].isHidden && r[|rows|].id == nextId
      && r[|rows|].customTitle == (if detail.Some? && detail.value.name.Some? then detail.value.name.value else slug)
      && r[|rows|].originalTitle == Some(if detail.Some? && detail.value.name.Some? then detail.value.name.value else "")
  {
    assert IndexWhere(rows, SlugIs(slug)) == -1;
  }

  /** Toggling a slug with an override negates its hidden flag and touches only the audit fields. */
  lemma ToggleFlips(rows: seq<CustomMovieTitle>, nextId: int, slug: string, detail: Option<MovieDetail>,
                    adminId: Option<string>, now: int, i: int)
    requires OnePerSlug(rows) && 0 <= i < |rows| && rows[i].movieSlug == slug
    ensures var r := ToggleRows(rows, nextId, slug, detail, adminId, now);
      && |r| == |rows|
      && (forall j :: 0 <= j < |rows| && j != i ==> r[j] == rows[j])
      && r[i].isHidden == !rows[i].isHidden
      && r[i].(isHidden := rows[i].isHidden, updatedAt := rows[i].updatedAt, updatedBy := rows[i].updatedBy) == rows[i]
  {
    assert SlugIs(slug)(rows[i]);
    assert IndexWhere(rows, SlugIs(slug)) == i;
  }

  /** Toggling the same slug twice restores every field except the audit fields. */
  lemma ToggleTwiceRestores(rows: seq<CustomMovieTitle>, nextId: int, slug: string, d1: Option<MovieDetail>,
                            d2: Option<MovieDetail>, a1: Option<string>, a2: Option<string>, t1: int, t2: int, i: int)
    requires OnePerSlug(rows) && 0 <= i < |rows| && rows[i].movieSlug == slug
    ensures var r := ToggleRows(ToggleRows(rows, nextId, slug, d1, a1, t1), nextId, slug, d2, a2, t2);
      r == rows[i := rows[i].(updatedAt := t2, updatedBy := a2)]
  {
    var r1 := ToggleRows(rows, nextId, slug, d1, a1, t1);
    ToggleFlips(rows, nextId, slug, d1, a1, t1, i);
    assert OnePerSlug(r1) by {
      forall a, b | 0 <= a < b < |r1| ensures r1[a].movieSlug != r1[b].movieSlug {
        assert r1[a].movieSlug == rows[a].movieSlug && r1[b].movieSlug == rows[b].movieSlug;
      }
    }
    ToggleFlips(r1, nextId, slug, d2, a2, t2, i);
  }

  /** The reply's `isHidden` is the flag stored for the slug afterwards. */
  lemma ToggleReplyMatchesState(rows: seq<CustomMovieTitle>, nextId: int, slug: string, detail: Option<MovieDetail>,
                                adminId: Option<string>, now: int)
    ensures var r := ToggleRows(rows, nextId, slug, detail, adminId, now);
      var k := IndexWhere(r, SlugIs(slug));
      k >= 0 && ToggleReplyFor(rows, slug) == Toggled(r[k].isHidden)
  {
    var r := ToggleRows(rows, nextId, slug, detail, adminId, now);
    var i := IndexWhere(rows, SlugIs(slug));
    if i == -1 {
      assert IndexWhere(r, SlugIs(slug)) == |rows| by {
        assert forall j :: 0 <= j < |rows| ==> r[j] == rows[j];
        assert SlugIs(slug)(r[|rows|]);
      }
    } else {
      assert IndexWhere(r, SlugIs(slug)) == i by {
        assert forall j :: 0 <= j < i ==> r[j] == rows[j];
        assert SlugIs(slug)(r[i]);
      }
    }
  }

  /** A toggle moves the dashboard's hidden-movie count by exactly one. */
  lemma ToggleMovesHiddenCount(rows: seq<CustomMovieTitle>, nextId: int, slug: string, detail: Option<MovieDetail>,
                               adminId: Option<string>, now: int)
    ensures var r := ToggleRows(rows, nextId, slug, detail, adminId, now);
      var hidden := ToggleReplyFor(rows, slug).isHidden;
      HiddenMoviesCount(r) == HiddenMoviesCount(rows) + (if hidden then 1 else -1)
  {
    var i := IndexWhere(rows, SlugIs(slug));
    if i == -1 {
      FilterAppend(rows, HiddenRow(nextId, slug, detail, adminId, now), IsHidden);
    } else {
      FilterUpdate(rows, i, rows[i].(isHidden := !rows[i].isHidden, updatedAt := now, updatedBy := adminId), IsHidden);
    }
  }

  lemma ToggleKeepsInvariant(rows: seq<CustomMovieTitle>, nextId: int, slug: string, detail: Option<MovieDetail>,
                             adminId: Option<string>, now: int)
    requires TableInvariant(rows, nextId)
    ensures TableInvariant(ToggleRows(rows, nextId, slug, detail, adminId, now), ToggleNextId(rows, nextId, slug))
  {
    var r := ToggleRows(rows, nextId, slug, detail, adminId, now);
    var i := IndexWhere(rows, SlugIs(slug));
    if i == -1 {
      assert forall j :: 0 <= j < |rows| ==> r[j] == rows[j];
    } else {
      assert forall j :: 0 <= j < |rows| ==> r[j].id == rows[j].id && r[j].movieSlug == rows[j].movieSlug;
    }
  }

  // ----- EditTitle (POST) -----

  /** The original title a new override gets: the submitted one, or the catalogue name when none was submitted. */
  function OriginalTitleFor(form: TitleForm, detail: Option<MovieDetail>): Option<string> {
    if IsNullOrEmpty(form.originalTitle) && detail.Some? then Some(detail.value.name.GetOr(""))
    else form.originalTitle
  }

  /** The table after a valid edit: update the slug's override, or insert the form as a new one. */
  function EditRows(rows: seq<CustomMovieTitle>, nextId: int, form: TitleForm, detail: Option<MovieDetail>,
                    adminId: Option<string>, now: int): seq<CustomMovieTitle> {
    var i := IndexWhere(rows, SlugIs(form.movieSlug));
    if i == -1 then
      rows + [CustomMovieTitle(nextId, form.movieSlug, form.customTitle, OriginalTitleFor(form, detail),
                               form.customDescription, now, adminId, false)]
    else
      rows[i := rows[i].(customTitle := form.customTitle, customDescription := form.customDescription,
                         updatedAt := now, updatedBy := adminId)]
  }

  function EditNextId(rows: seq<CustomMovieTitle>, nextId: int, form: TitleForm): int {
    if IndexWhere(rows, SlugIs(form.movieSlug)) == -1 then nextId + 1 else nextId
  }

  /**
   * Editing a slug that has an override changes only its custom title,
   * description and audit fields; the original title and the hidden flag
   * are kept, and so is every other row.
   */
  lemma EditUpdatesSelectedFields(rows: seq<CustomMovieTitle>, nextId: int, form: TitleForm, detail: Option<MovieDetail>,
                                  adminId: Option<string>, now: int, i: int)
    requires OnePerSlug(rows) && 0 <= i < |rows| && rows[i].movieSlug == form.movieSlug
    ensures var r := EditRows(rows, nextId, form, detail, adminId, now);
      && |r| == |rows|
      && (forall j :: 0 <= j < |rows| && j != i ==> r[j] == rows[j])
      && r[i].customTitle == form.customTitle && r[i].customDescription == form.customDescription
      && r[i].updatedAt == now && r[i].updatedBy == adminId
      && r[i].id == rows[i].id && r[i].movieSlug == rows[i].movieSlug
      && r[i].originalTitle == rows[i].originalTitle && r[i].isHidden == rows[i].isHidden
  {
    assert SlugIs(form.movieSlug)(rows[i]);
    assert IndexWhere(rows, SlugIs(form.movieSlug)) == i;
  }

  /**
   * Editing a new slug inserts one visible override; the catalogue is
   * consulted for the original title only when none was submitted.
   */
  lemma EditCreates(rows: seq<CustomMovieTitle>, nextId: int, form: TitleForm, detail: Option<MovieDetail>,
                    adminId: Option<string>, now: int)
    requires forall j :: 0 <= j < |rows| ==> rows[j].movieSlug != form.movieSlug
    ensures var r := EditRows(rows, nextId, form, detail, adminId, now);
      && |r| == |rows| + 1 && r[..|rows|] == rows
      && r[|rows|].movieSlug == form.movieSlug && r[|rows|].customTitle == form.customTitle
      && !r[|rows|].isHidden && r[|rows|].id == nextId
      && (!IsNullOrEmpty(form.originalTitle) ==> r[|rows|].originalTitle == form.originalTitle)
      && (IsNullOrEmpty(form.originalTitle) && detail.Some? ==>
            r[|rows|].originalTitle == Some(detail.value.name.GetOr("")))
      && (detail.None? ==> r[|rows|].originalTitle == form.originalTitle)
  {
    assert IndexWhere(rows, SlugIs(form.movieSlug)) == -1;
  }

  lemma EditKeepsInvariant(rows: seq<CustomMovieTitle>, nextId: int, form: TitleForm, detail: Option<MovieDetail>,
                           adminId: Option<string>, now: int)
    requires TableInvariant(rows, nextId)
    ensures TableInvariant(EditRows(rows, nextId, form, detail, adminId, now), EditNextId(rows, nextId, form))
  {
    var r := EditRows(rows, nextId, form, detail, adminId, now);
    var i := IndexWhere(rows, SlugIs(form.movieSlug));
    if i == -1 {
      assert forall j :: 0 <= j < |rows| ==> r[j] == rows[j];
    } else {
      assert forall j :: 0 <= j < |rows| ==> r[j].id == rows[j].id && r[j].movieSlug == rows[j].movieSlug;
    }
  }

  // ----- DeleteTitle -----

  /** The table after deleting by primary key. */
  function DeleteTitleRows(rows: seq<CustomMovieTitle>, id: int): seq<CustomMovieTitle> {
    var i := IndexWhere(rows, IdIs(id));
    if i == -1 then rows else RemoveAt(rows, i)
  }

  /** With unique ids, exactly the row with that id goes, and nothing when there is none. */
  lemma DeleteTitleRemovesExactly(rows: seq<CustomMovieTitle>, id: int)
    requires UniqueIds(rows)
    ensures var r := DeleteTitleRows(rows, id);
      && (forall c :: c in r <==> c in rows && c.id != id)
      && |r| == (if exists j :: 0 <= j < |rows| && rows[j].id == id then |rows| - 1 else |rows|)
  {
    var i := IndexWhere(rows, IdIs(id));
    var r := DeleteTitleRows(rows, id);
    if i != -1 {
      assert IdIs(id)(rows[i]);
      forall c ensures c in r <==> c in rows && c.id != id {
        if c in r {
          var k :| 0 <= k < |r| && r[k] == c;
          var m := if k < i then k else k + 1;
          assert r[k] == rows[m] && m != i;
        }
        if c in rows && c.id != id {
          var m :| 0 <= m < |rows| && rows[m] == c;
          if m < i {
            assert r[m] == c;
          } else {
            assert r[m - 1] == c;
          }
        }
      }
    }
  }

  lemma RemoveKeepsUniqueIds(rows: seq<CustomMovieTitle>, i: int)
    requires 0 <= i < |rows| && UniqueIds(rows)
    ensures UniqueIds(RemoveAt(rows, i))
  {
    var r := RemoveAt(rows, i);
    forall a, b | 0 <= a < b < |r| ensures r[a].id != r[b].id {
      var a', b' := if a < i then a else a + 1, if b < i then b else b + 1;
      assert r[a] == rows[a'] && r[b] == rows[b'] && a' < b';
    }
  }

  lemma RemoveKeepsOnePerSlug(rows: seq<CustomMovieTitle>, i: int)
    requires 0 <= i < |rows| && OnePerSlug(rows)
    ensures OnePerSlug(RemoveAt(rows, i))
  {
    var r := RemoveAt(rows, i);
    forall a, b | 0 <= a < b < |r| ensures r[a].movieSlug != r[b].movieSlug {
      var a', b' := if a < i then a else a + 1, if b < i then b else b + 1;
      assert r[a] == rows[a'] && r[b] == rows[b'] && a' < b';
    }
  }

  lemma DeleteTitleKeepsInvariant(rows: seq<CustomMovieTitle>, nextId: int, id: int)
    requires TableInvariant(rows, nextId)
    ensures TableInvariant(DeleteTitleRows(rows, id), nextId)
  {
    var i := IndexWhere(rows, IdIs(id));
    if i != -1 {
      RemoveKeepsUniqueIds(rows, i);
      RemoveKeepsOnePerSlug(rows, i);
      assert IdsBelow(RemoveAt(rows, i), nextId);
    }
  }

  // ----- Dashboard -----

  /** The dashboard's top-movie rows: an empty title falls back to the slug. */
  function DashboardTopMovies(top: seq<WatchAnalytics.WatchAnalyticsMovie>): (r: seq<TopMovie>)
    ensures |r| == |top|
    ensures forall i :: 0 <= i < |r| ==>
              && r[i].slug == top[i].slug && r[i].views == top[i].watchCount
              && (top[i].title != "" ==> r[i].title == top[i].title)
              && (top[i].title == "" ==> r[i].title == top[i].slug)
              && (r[i].title == "" <==> top[i].title == "" && top[i].slug == "")
  {
    seq(|top|, i requires 0 <= i < |top| => TopMovie(top[i].slug, if top[i].title == "" then top[i].slug else top[i].title, top[i].watchCount))
  }

  /** The ten-entry ranking the dashboard shows never has an empty title. */
  lemma DashboardTitlesNonEmpty(rows: seq<WatchHistory>, lookup: string -> Option<MovieDetail>)
    ensures var shown := DashboardTopMovies(WatchAnalytics.TopWatched(rows, 10, lookup));
      |shown| <= 10 && forall i :: 0 <= i < |shown| ==> shown[i].title != ""
  {
    WatchAnalytics.TopWatchedFacts(rows, 10, lookup);
  }

  /** The dashboard's hidden-movie count: zero exactly when no movie is hidden, all of them exactly when every one is. */
  function HiddenMoviesCount(rows: seq<CustomMovieTitle>): (r: int)
    ensures 0 <= r <= |rows|
    ensures r == 0 <==> forall i :: 0 <= i < |rows| ==> !rows[i].isHidden
    ensures r == |rows| <==> forall i :: 0 <= i < |rows| ==> rows[i].isHidden
  {
    FilterCountBounds(rows, IsHidden);
    |Filter(rows, IsHidden)|
  }

  /** The CustomMovieTitles table with its identity counter. */
  class TitleTable {
    var rows: seq<CustomMovieTitle>
    var nextId: int

    ghost predicate Valid()
      reads this
    {
      TableInvariant(rows, nextId)
    }

    constructor ()
      ensures Valid() && rows == [] && nextId == 1
    {
      rows := [];
      nextId := 1;
    }

    /**
     * `ToggleHideMovie`: an empty slug fails and changes nothing; otherwise
     * the slug's override is flipped, or created hidden, and the reply
     * carries the stored flag.
     */
    method ToggleHideMovie(slug: string, detail: Option<MovieDetail>, adminId: Option<string>, now: int)
      returns (reply: ToggleReply)
      requires Valid()
      modifies this
      ensures Valid()
      ensures slug == "" ==> reply == ToggleFailed && rows == old(rows) && nextId == old(nextId)
      ensures slug != "" ==>
                && rows == ToggleRows(old(rows), old(nextId), slug, detail, adminId, now)
                && nextId == ToggleNextId(old(rows), old(nextId), slug)
                && reply == ToggleReplyFor(old(rows), slug)
    {
      if slug == "" {
        return ToggleFailed;
      }
      ToggleKeepsInvariant(rows, nextId, slug, detail, adminId, now);
      var i := IndexWhere(rows, SlugIs(slug));
      if i == -1 {
        var created := HiddenRow(nextId, slug, detail, adminId, now);
        rows := rows + [created];
        nextId := nextId + 1;
        reply := Toggled(created.isHidden);
      } else {
        var c := rows[i];
        c := c.(isHidden := !c.isHidden);
        c := c.(updatedAt := now);
        c := c.(updatedBy := adminId);
        rows := rows[i := c];
        reply := Toggled(c.isHidden);
      }
    }

    /**
     * `EditTitle` (POST): an invalid form changes nothing; otherwise the
     * slug's override is updated, or the form is inserted.
     */
    method EditTitle(form: TitleForm, modelValid: bool, detail: Option<MovieDetail>, adminId: Option<string>, now: int)
      returns (outcome: EditOutcome)
      requires Valid()
      modifies this
      ensures Valid()
      ensures !modelValid ==> outcome == InvalidModel && rows == old(rows) && nextId == old(nextId)
      ensures modelValid ==>
                && outcome == TitleSaved
                && rows == EditRows(old(rows), old(nextId), form, detail, adminId, now)
                && nextId == EditNextId(old(rows), old(nextId), form)
    {
      if !modelValid {
        return InvalidModel;
      }
      EditKeepsInvariant(rows, nextId, form, detail, adminId, now);
      var i := IndexWhere(rows, SlugIs(form.movieSlug));
      if i == -1 {
        var original := form.originalTitle;
        if IsNullOrEmpty(original) && detail.Some? {
          original := Some(detail.value.name.GetOr(""));
        }
        rows := rows + [CustomMovieTitle(nextId, form.movieSlug, form.customTitle, original,
                                         form.customDescription, now, adminId, false)];
        nextId := nextId + 1;
      } else {
        var c := rows[i];
        c := c.(customTitle := form.customTitle);
        c := c.(customDescription := form.customDescription);
        c := c.(updatedAt := now);
        c := c.(updatedBy := adminId);
        rows := rows[i := c];
      }
      return TitleSaved;
    }

    /** `DeleteTitle`: not found for an unknown id, otherwise that row is removed. */
    method DeleteTitle(id: int) returns (outcome: DeleteTitleOutcome)
      requires Valid()
      modifies this
      ensures Valid() && nextId == old(nextId)
      ensures rows == DeleteTitleRows(old(rows), id)
      ensures outcome == TitleNotFound <==> forall j :: 0 <= j < |old(rows)| ==> old(rows)[j].id != id
    {
      DeleteTitleKeepsInvariant(rows, nextId, id);
      var i := IndexWhere(rows, IdIs(id));
      if i == -1 {
        return TitleNotFound;
      }
      assert IdIs(id)(rows[i]);
      rows := RemoveAt(rows, i);
      return TitleDeleted;
    }
  }
}
