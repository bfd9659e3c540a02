/**
 * The most-watched ranking of the admin dashboard
 * (Services/WatchAnalyticsService.cs): watch-history rows grouped by movie
 * slug, ranked by row count and then by the latest watch, cut to `count`,
 * titled from each movie's most recent row, and then completed where a title
 * or poster is missing from a catalogue lookup, given here as a function
 * from slug to an optional movie detail.
 */
module WatchAnalytics {
  import opened Wrappers
  import opened Text
  import opened Seqs
  import opened Catalog
  import opened WatchHistoryModel

  /** One entry of the ranking. */
  datatype WatchAnalyticsMovie = WatchAnalyticsMovie(
    slug: string,
    title: string,
    originTitle: Option<string>,
    posterUrl: Option<string>,
    quality: Option<string>,
    watchCount: int)

  /** A slug's group: its number of rows and its latest watch time. */
  datatype Group = Group(slug: string, watchers: int, latestInteraction: int)

  function Watchers(g: Group): int {
    g.watchers
  }

  function LatestInteraction(g: Group): int {
    g.latestInteraction
  }

  function SlugIs(slug: string): WatchHistory -> bool {
    (w: WatchHistory) => w.movieSlug == slug
  }

  predicate HasSlug(w: WatchHistory) {
    w.movieSlug != ""
  }

  /** The values of `s`, each once, in order of first appearance. */
  function Dedup(s: seq<string>): (r: seq<string>)
    ensures Distinct(r)
    ensures forall x :: x in r <==> x in s
  {
    if s == [] then []
    else
      var r := Dedup(s[..|s| - 1]);
      assert s == s[..|s| - 1] + [s[|s| - 1]];
      if s[|s| - 1] in r then r else r + [s[|s| - 1]]
  }

  function SlugsOf(rows: seq<WatchHistory>): (r: seq<string>)
    ensures |r| == |rows| && forall i :: 0 <= i < |rows| ==> r[i] == rows[i].movieSlug
  {
    seq(|rows|, i requires 0 <= i < |rows| => rows[i].movieSlug)
  }

  /** The group of `slug`: how many rows have it and when the latest of them was watched. */
  function GroupOf(rows: seq<WatchHistory>, slug: string): Group {
    var latest := MaxBy(Filter(rows, SlugIs(slug)), LastWatched);
    Group(slug, |Filter(rows, SlugIs(slug))|, if latest.Some? then latest.value.lastWatchedAt else 0)
  }

  /** The distinct non-empty slugs of the table, in order of first appearance. */
  function GroupSlugs(rows: seq<WatchHistory>): (r: seq<string>)
    ensures Distinct(r)
    ensures forall x :: x in r <==> x != "" && exists j :: 0 <= j < |rows| && rows[j].movieSlug == x
  {
    var kept := Filter(rows, HasSlug);
    var r := Dedup(SlugsOf(kept));
    forall x ensures x in r <==> x != "" && exists j :: 0 <= j < |rows| && rows[j].movieSlug == x {
      if x in r {
        var k :| 0 <= k < |kept| && SlugsOf(kept)[k] == x;
        FilterMember(rows, HasSlug, kept[k]);
        var j :| 0 <= j < |rows| && rows[j] == kept[k];
      }
      if x != "" && exists j :: 0 <= j < |rows| && rows[j].movieSlug == x {
        var j :| 0 <= j < |rows| && rows[j].movieSlug == x;
        FilterKeeps(rows, HasSlug, rows[j]);
        var k :| 0 <= k < |kept| && kept[k] == rows[j];
        assert SlugsOf(kept)[k] == x;
      }
    }
    r
  }

  /** The grouped rows before ranking: one group per distinct non-empty slug. */
  function Groups(rows: seq<WatchHistory>): (r: seq<Group>)
    ensures |r| == |GroupSlugs(rows)|
    ensures forall i :: 0 <= i < |r| ==> r[i] == GroupOf(rows, GroupSlugs(rows)[i])
  {
    var ks := GroupSlugs(rows);
    seq(|ks|, i requires 0 <= i < |ks| => GroupOf(rows, ks[i]))
  }

  /** `OrderByDescending(Watchers).ThenByDescending(LatestInteraction)`. */
  function Ranked(groups: seq<Group>): seq<Group> {
    SortBy(SortBy(groups, Desc(LatestInteraction)), Desc(Watchers))
  }

  /** The ranked groups cut to `count`; nothing for a non-positive count. */
  function TopGroups(rows: seq<WatchHistory>, count: int): seq<Group> {
    if count <= 0 then [] else Take(Ranked(Groups(rows)), count)
  }

  /** A group that belongs to the table: a non-empty slug some row has, and its true counts. */
  predicate IsTableGroup(rows: seq<WatchHistory>, g: Group) {
    g == GroupOf(rows, g.slug) && g.slug != "" && g.slug in SlugsOf(rows)
  }

  lemma GroupsAreTableGroups(rows: seq<WatchHistory>)
    ensures forall i :: 0 <= i < |Groups(rows)| ==> IsTableGroup(rows, Groups(rows)[i])
    ensures Distinct(Groups(rows))
  {
    var gs := Groups(rows);
    var ks := GroupSlugs(rows);
    forall i | 0 <= i < |gs| ensures IsTableGroup(rows, gs[i]) {
      assert ks[i] in ks;
      var j :| 0 <= j < |rows| && rows[j].movieSlug == ks[i];
      assert SlugsOf(rows)[j] == ks[i];
    }
    forall i, j | 0 <= i < j < |gs| ensures gs[i] != gs[j] {
      assert gs[i].slug == ks[i] && gs[j].slug == ks[j];
    }
  }

  /**
   * The ranking before titles: at most `count` groups, each a group of the
   * table with its true row count, no slug twice, ordered by row count and
   * then by latest watch, both descending.
   */
  lemma TopGroupsFacts(rows: seq<WatchHistory>, count: int)
    ensures var top := TopGroups(rows, count);
      && |top| <= (if count <= 0 then 0 else count)
      && |top| == (if count <= 0 then 0 else if count < |GroupSlugs(rows)| then count else |GroupSlugs(rows)|)
      && (forall i :: 0 <= i < |top| ==> IsTableGroup(rows, top[i]))
      && (forall i, j :: 0 <= i < j < |top| ==> top[i].slug != top[j].slug)
  {
    if count > 0 {
      var ranked := Ranked(Groups(rows));
      RankedTableGroups(rows);
      var top := TopGroups(rows, count);
      assert top == ranked[..|top|];
      forall i, j | 0 <= i < j < |top| ensures top[i].slug != top[j].slug {
        assert top[i] == ranked[i] && top[j] == ranked[j];
        assert IsTableGroup(rows, top[i]) && IsTableGroup(rows, top[j]);
      }
    }
  }

  /** Ranking keeps the groups as they are: each a group of the table, none twice. */
  lemma RankedTableGroups(rows: seq<WatchHistory>)
    ensures var ranked := Ranked(Groups(rows));
      && |ranked| == |GroupSlugs(rows)|
      && (forall i :: 0 <= i < |ranked| ==> IsTableGroup(rows, ranked[i]))
      && Distinct(ranked)
  {
    var gs := Groups(rows);
    var inner := SortBy(gs, Desc(LatestInteraction));
    GroupsAreTableGroups(rows);
    SortByKeeps(gs, Desc(LatestInteraction), g => IsTableGroup(rows, g));
    SortByKeeps(inner, Desc(Watchers), g => IsTableGroup(rows, g));
    SortByDistinct(gs, Desc(LatestInteraction));
    SortByDistinct(inner, Desc(Watchers));
  }

  /** Ranked groups: row count descending, then latest watch descending. */
  lemma RankedOrdered(gs: seq<Group>, i: int, j: int)
    requires 0 <= i < j < |gs|
    ensures var r := Ranked(gs);
      && r[i].watchers >= r[j].watchers
      && (r[i].watchers == r[j].watchers ==> r[i].latestInteraction >= r[j].latestInteraction)
  {
    ThenByOrder(gs, Desc(Watchers), Desc(LatestInteraction), i, j);
  }

  /** A group the first `n` of the ranking leave out ranks no higher than the last one taken. */
  lemma RankedMisses(gs: seq<Group>, n: int, g: Group)
    requires g in gs && g !in Take(Ranked(gs), n)
    ensures var top := Take(Ranked(gs), n);
      top != [] ==>
        && g.watchers <= top[|top| - 1].watchers
        && (g.watchers == top[|top| - 1].watchers ==> g.latestInteraction <= top[|top| - 1].latestInteraction)
  {
    var top := Take(Ranked(gs), n);
    assert Ranked(gs) == SortBy(SortBy(gs, Desc(LatestInteraction)), Desc(Watchers));
    TakeOfThenByDescMisses(gs, Watchers, LatestInteraction, n, g);
  }

  /** The same order holds in the cut ranking. */
  lemma TopGroupsOrdered(rows: seq<WatchHistory>, count: int, i: int, j: int)
    requires 0 <= i < j < |TopGroups(rows, count)|
    ensures var top := TopGroups(rows, count);
      && top[i].watchers >= top[j].watchers
      && (top[i].watchers == top[j].watchers ==> top[i].latestInteraction >= top[j].latestInteraction)
  {
    var ranked := Ranked(Groups(rows));
    RankedOrdered(Groups(rows), i, j);
    assert TopGroups(rows, count) == ranked[..|TopGroups(rows, count)|];
  }

  /**
   * The cut keeps the most-watched groups: a group of the table that the cut
   * leaves out has no more rows than the last group kept, and when it has as
   * many, a latest watch no later than that group's.
   */
  lemma TopGroupsSelection(rows: seq<WatchHistory>, count: int, s: string)
    requires s in GroupSlugs(rows)
    requires forall i :: 0 <= i < |TopGroups(rows, count)| ==> TopGroups(rows, count)[i].slug != s
    ensures var top := TopGroups(rows, count);
      var g := GroupOf(rows, s);
      top != [] ==>
        && g.watchers <= top[|top| - 1].watchers
        && (g.watchers == top[|top| - 1].watchers ==> g.latestInteraction <= top[|top| - 1].latestInteraction)
  {
    var gs := Groups(rows);
    var top := TopGroups(rows, count);
    if top != [] {
      var g := GroupOf(rows, s);
      var k :| 0 <= k < |GroupSlugs(rows)| && GroupSlugs(rows)[k] == s;
      assert gs[k] == g;
      assert forall i :: 0 <= i < |top| ==> top[i] != g;
      TopGroupsMisses(rows, count, g);
    }
  }

  lemma TopGroupsMisses(rows: seq<WatchHistory>, count: int, g: Group)
    requires g in Groups(rows) && g !in TopGroups(rows, count)
    ensures var top := TopGroups(rows, count);
      top != [] ==>
        && g.watchers <= top[|top| - 1].watchers
        && (g.watchers == top[|top| - 1].watchers ==> g.latestInteraction <= top[|top| - 1].latestInteraction)
  {
    if count > 0 {
      RankedMisses(Groups(rows), count, g);
    }
  }

  /** A ranked group has a non-empty slug and counts the rows with that slug, at least one. */
  lemma TopGroupCounts(rows: seq<WatchHistory>, count: int, i: int)
    requires 0 <= i < |TopGroups(rows, count)|
    ensures var g := TopGroups(rows, count)[i];
      g.slug != "" && g.watchers == |Filter(rows, SlugIs(g.slug))| > 0
  {
    TopGroupsFacts(rows, count);
    var g := TopGroups(rows, count)[i];
    assert IsTableGroup(rows, g);
    var j :| 0 <= j < |rows| && SlugsOf(rows)[j] == g.slug;
    FilterKeeps(rows, SlugIs(g.slug), rows[j]);
  }

  /**
   * The entry of a group before enrichment: the title of the group's most
   * recent row, or the slug when that title is null, and that row's poster.
   */
  function Entry(rows: seq<WatchHistory>, g: Group): WatchAnalyticsMovie {
    var latest := MaxBy(Filter(rows, SlugIs(g.slug)), LastWatched);
    WatchAnalyticsMovie(
      g.slug,
      if latest.Some? then latest.value.movieTitle.GetOr(g.slug) else g.slug,
      None,
      if latest.Some? then Some(latest.value.posterUrl) else None,
      None,
      g.watchers)
  }

  /** An entry's title and poster come from a row of that slug watched no earlier than any other. */
  lemma EntryFromLatestRow(rows: seq<WatchHistory>, g: Group)
    requires g.slug in SlugsOf(rows)
    ensures var e := Entry(rows, g);
      exists k :: 0 <= k < |rows| && rows[k].movieSlug == g.slug
        && (forall j :: 0 <= j < |rows| && rows[j].movieSlug == g.slug ==> rows[j].lastWatchedAt <= rows[k].lastWatchedAt)
        && e.title == (if rows[k].movieTitle.Some? then rows[k].movieTitle.value else g.slug)
        && e.posterUrl == Some(rows[k].posterUrl)
        && e.slug == g.slug && e.watchCount == g.watchers
  {
    var p := SlugIs(g.slug);
    MaxByFilter(rows, p, LastWatched);
    var j :| 0 <= j < |rows| && SlugsOf(rows)[j] == g.slug;
    assert p(rows[j]);
  }

  /** Entries that the enrichment pass looks up: a missing poster or title. */
  predicate NeedsDetail(e: WatchAnalyticsMovie) {
    IsNullOrEmpty(e.posterUrl) || e.title == ""
  }

  /**
   * One step of the enrichment pass: a found detail fills an empty title
   * (with the catalogue name, or the slug), a null poster, and the original
   * title and quality; a failed lookup changes nothing.
   */
  function Enriched(e: WatchAnalyticsMovie, detail: Option<MovieDetail>): (r: WatchAnalyticsMovie)
    ensures r.slug == e.slug && r.watchCount == e.watchCount
    ensures !NeedsDetail(e) || detail.None? ==> r == e
    ensures e.title != "" ==> r.title == e.title
    ensures e.posterUrl.Some? ==> r.posterUrl == e.posterUrl
    ensures NeedsDetail(e) && detail.Some? ==>
              && r.originTitle == detail.value.originName && r.quality == detail.value.quality
              && (e.title == "" ==> r.title == detail.value.name.GetOr(e.slug))
              && (e.posterUrl.None? ==> r.posterUrl == detail.value.posterUrl)
  {
    if !NeedsDetail(e) || detail.None? then e
    else
      var d := detail.value;
      e.(title := if e.title == "" then d.name.GetOr(e.slug) else e.title,
         originTitle := d.originName,
         posterUrl := if e.posterUrl.None? then d.posterUrl else e.posterUrl,
         quality := d.quality)
  }

  /**
   * The poster of an entry built from a row is never null, so the lookup
   * never replaces it, not even when it is the empty string that made the
   * entry need a lookup.
   */
  lemma RowPosterNeverReplaced(rows: seq<WatchHistory>, g: Group, detail: Option<MovieDetail>)
    requires g.slug in SlugsOf(rows)
    ensures Entry(rows, g).posterUrl.Some?
    ensures Enriched(Entry(rows, g), detail).posterUrl == Entry(rows, g).posterUrl
  {
    EntryFromLatestRow(rows, g);
  }

  /** The enrichment `foreach`, rewriting each entry in place; a failed lookup skips only that entry. */
  method EnrichAll(items: array<WatchAnalyticsMovie>, lookup: string -> Option<MovieDetail>)
    modifies items
    ensures forall i :: 0 <= i < items.Length ==> items[i] == Enriched(old(items[i]), lookup(old(items[i]).slug))
  {
    for i := 0 to items.Length
      invariant forall j :: 0 <= j < i ==> items[j] == Enriched(old(items[j]), lookup(old(items[j]).slug))
      invariant forall j :: i <= j < items.Length ==> items[j] == old(items[j])
    {
      var item := items[i];
      if NeedsDetail(item) {
        var detail := lookup(item.slug);
        if detail.Some? {
          if item.title == "" {
            item := item.(title := detail.value.name.GetOr(item.slug));
          }
          item := item.(originTitle := detail.value.originName);
          if item.posterUrl.None? {
            item := item.(posterUrl := detail.value.posterUrl);
          }
          item := item.(quality := detail.value.quality);
          items[i] := item;
        }
      }
    }
  }

  /** The ranking as `GetTopWatchedMoviesAsync` returns it, with each entry enriched from `lookup`. */
  function TopWatched(rows: seq<WatchHistory>, count: int, lookup: string -> Option<MovieDetail>): seq<WatchAnalyticsMovie> {
    var top := TopGroups(rows, count);
    seq(|top|, i requires 0 <= i < |top| => Enriched(Entry(rows, top[i]), lookup(top[i].slug)))
  }

  /**
   * At most `count` entries (none for a non-positive count or an empty
   * table), one per movie, each counting that movie's rows, ordered by that
   * count and then by the movie's latest watch, both descending.
   */
  lemma TopWatchedFacts(rows: seq<WatchHistory>, count: int, lookup: string -> Option<MovieDetail>)
    ensures var r := TopWatched(rows, count, lookup);
      && (count <= 0 || rows == [] ==> r == [])
      && (count > 0 ==> |r| <= count)
      && (count > 0 ==> |r| == if count < |GroupSlugs(rows)| then count else |GroupSlugs(rows)|)
      && (forall i :: 0 <= i < |r| ==> r[i].slug != "" && r[i].watchCount == |Filter(rows, SlugIs(r[i].slug))| > 0)
      && (forall i, j :: 0 <= i < j < |r| ==> r[i].slug != r[j].slug)
      && (forall i, j :: 0 <= i < j < |r| ==>
            && r[i].watchCount >= r[j].watchCount
            && (r[i].watchCount == r[j].watchCount ==>
                  GroupOf(rows, r[i].slug).latestInteraction >= GroupOf(rows, r[j].slug).latestInteraction))
  {
    TopWatchedSize(rows, count, lookup);
    TopWatchedCounts(rows, count, lookup);
    TopWatchedOrdered(rows, count, lookup);
  }

  lemma TopWatchedSize(rows: seq<WatchHistory>, count: int, lookup: string -> Option<MovieDetail>)
    ensures var r := TopWatched(rows, count, lookup);
      && (count <= 0 || rows == [] ==> r == [])
      && (count > 0 ==> |r| <= count)
      && (count > 0 ==> |r| == if count < |GroupSlugs(rows)| then count else |GroupSlugs(rows)|)
      && (forall i, j :: 0 <= i < j < |r| ==> r[i].slug != r[j].slug)
  {
    TopGroupsFacts(rows, count);
    if rows == [] {
      assert GroupSlugs(rows) == [];
    }
  }

  lemma TopWatchedCounts(rows: seq<WatchHistory>, count: int, lookup: string -> Option<MovieDetail>)
    ensures var r := TopWatched(rows, count, lookup);
      forall i :: 0 <= i < |r| ==> r[i].slug != "" && r[i].watchCount == |Filter(rows, SlugIs(r[i].slug))| > 0
  {
    var r := TopWatched(rows, count, lookup);
    forall i | 0 <= i < |r|
      ensures r[i].slug != "" && r[i].watchCount == |Filter(rows, SlugIs(r[i].slug))| > 0
    {
      TopGroupCounts(rows, count, i);
    }
  }

  lemma TopWatchedOrdered(rows: seq<WatchHistory>, count: int, lookup: string -> Option<MovieDetail>)
    ensures var r := TopWatched(rows, count, lookup);
      forall i, j :: 0 <= i < j < |r| ==>
        && r[i].watchCount >= r[j].watchCount
        && (r[i].watchCount == r[j].watchCount ==>
              GroupOf(rows, r[i].slug).latestInteraction >= GroupOf(rows, r[j].slug).latestInteraction)
  {
    var r := TopWatched(rows, count, lookup);
    var top := TopGroups(rows, count);
    TopGroupsFacts(rows, count);
    forall i, j | 0 <= i < j < |r|
      ensures && r[i].watchCount >= r[j].watchCount
              && (r[i].watchCount == r[j].watchCount ==>
                    GroupOf(rows, r[i].slug).latestInteraction >= GroupOf(rows, r[j].slug).latestInteraction)
    {
      TopGroupsOrdered(rows, count, i, j);
      assert IsTableGroup(rows, top[i]) && IsTableGroup(rows, top[j]);
    }
  }

  /**
   * The ranking lists the most-watched movies: a movie of the table that is
   * not listed has no more rows than the last one listed, and when it has as
   * many, a latest watch no later than that movie's.
   */
  lemma TopWatchedSelection(rows: seq<WatchHistory>, count: int, lookup: string -> Option<MovieDetail>, s: string)
    requires s in GroupSlugs(rows)
    requires forall i :: 0 <= i < |TopWatched(rows, count, lookup)| ==> TopWatched(rows, count, lookup)[i].slug != s
    ensures var r := TopWatched(rows, count, lookup);
      r != [] ==>
        && |Filter(rows, SlugIs(s))| <= r[|r| - 1].watchCount
        && (|Filter(rows, SlugIs(s))| == r[|r| - 1].watchCount ==>
              GroupOf(rows, s).latestInteraction <= GroupOf(rows, r[|r| - 1].slug).latestInteraction)
  {
    var r := TopWatched(rows, count, lookup);
    var top := TopGroups(rows, count);
    TopWatchedShape(rows, count, lookup);
    TopGroupsSelection(rows, count, s);
    if top != [] {
      TopGroupIsTableGroup(rows, count, |top| - 1);
    }
    EntriesSelection(rows, top, r, s);
  }

  /** Each entry of the ranking carries its group's slug and row count. */
  lemma TopWatchedShape(rows: seq<WatchHistory>, count: int, lookup: string -> Option<MovieDetail>)
    ensures var r := TopWatched(rows, count, lookup);
      var top := TopGroups(rows, count);
      && |r| == |top|
      && forall i :: 0 <= i < |r| ==> r[i].slug == top[i].slug && r[i].watchCount == top[i].watchers
  {
    var r := TopWatched(rows, count, lookup);
    var top := TopGroups(rows, count);
    forall i | 0 <= i < |r| ensures r[i].slug == top[i].slug && r[i].watchCount == top[i].watchers {
      var e := Entry(rows, top[i]);
      assert r[i] == Enriched(e, lookup(top[i].slug));
      assert e.slug == top[i].slug && e.watchCount == top[i].watchers;
    }
  }

  /** The selection of the groups carried over to entries with the same slugs and counts. */
  lemma EntriesSelection(rows: seq<WatchHistory>, top: seq<Group>, r: seq<WatchAnalyticsMovie>, s: string)
    requires |r| == |top|
    requires forall i :: 0 <= i < |r| ==> r[i].slug == top[i].slug && r[i].watchCount == top[i].watchers
    requires top != [] ==> GroupOf(rows, top[|top| - 1].slug) == top[|top| - 1]
    requires var g := GroupOf(rows, s);
      top != [] ==>
        && g.watchers <= top[|top| - 1].watchers
        && (g.watchers == top[|top| - 1].watchers ==> g.latestInteraction <= top[|top| - 1].latestInteraction)
    ensures r != [] ==>
      && |Filter(rows, SlugIs(s))| <= r[|r| - 1].watchCount
      && (|Filter(rows, SlugIs(s))| == r[|r| - 1].watchCount ==>
            GroupOf(rows, s).latestInteraction <= GroupOf(rows, r[|r| - 1].slug).latestInteraction)
  {
  }

  lemma TopGroupIsTableGroup(rows: seq<WatchHistory>, count: int, i: int)
    requires 0 <= i < |TopGroups(rows, count)|
    ensures GroupOf(rows, TopGroups(rows, count)[i].slug) == TopGroups(rows, count)[i]
  {
    TopGroupsFacts(rows, count);
    assert IsTableGroup(rows, TopGroups(rows, count)[i]);
  }

  /**
   * `GetTopWatchedMoviesAsync`: builds the entries of the ranked groups and
   * runs the enrichment pass over them.
   */
  method GetTopWatchedMovies(rows: seq<WatchHistory>, count: int, lookup: string -> Option<MovieDetail>)
    returns (result: seq<WatchAnalyticsMovie>)
    ensures result == TopWatched(rows, count, lookup)
  {
    if count <= 0 {
      assert TopGroups(rows, count) == [];
      return [];
    }
    var grouped := TopGroups(rows, count);
    if grouped == [] {
      return [];
    }
    var items := new WatchAnalyticsMovie[|grouped|](i requires 0 <= i < |grouped| => Entry(rows, grouped[i]));
    EnrichAll(items, lookup);
    result := items[..];
    EnrichedTop(rows, count, lookup, result);
  }

  /** A list that enriches each top group's entry in order is the ranking `TopWatched` describes. */
  lemma EnrichedTop(rows: seq<WatchHistory>, count: int, lookup: string -> Option<MovieDetail>, result: seq<WatchAnalyticsMovie>)
    requires |result| == |TopGroups(rows, count)|
    requires forall i :: 0 <= i < |result| ==>
               result[i] == Enriched(Entry(rows, TopGroups(rows, count)[i]), lookup(TopGroups(rows, count)[i].slug))
    ensures result == TopWatched(rows, count, lookup)
  {
  }
}
