# Web movie site: table operations and helpers, modelled in Dafny

This project models the behaviour of the ASP.NET Core movie site
(project-web-movie) that sits behind its pages. It does not model the pages
themselves. The database tables the site changes become classes that own a
sequence of rows and an identity counter. Each operation is a method whose
new state is given by a pure function of the old state. The properties the
code promises are proved about those functions.

- **Watch history** (`WatchHistoryModel`, `WatchHistoryStore`):
  - the `WatchHistory` record, with its derived `ProgressPercent` and `IsCompleted`;
  - saving progress as an upsert keyed by (user, movie), whatever the episode;
  - reading the latest progress back;
  - the 50-row history page;
  - deleting a row, only when the caller owns it.
- **Top-watched ranking** (`WatchAnalytics`):
  - rows are grouped by non-empty slug;
  - groups are ranked by row count, then by latest watch, and cut to `count`;
  - each entry takes its title and poster from the group's most recent row;
  - a best-effort enrichment pass over the entries uses a catalogue lookup.
- **Admin title overrides** (`AdminTitles`):
  - hiding or showing a movie, which creates the override on first use;
  - saving a custom title by slug;
  - deleting an override by id;
  - the dashboard's top-movie rows and hidden-movie count.
- **Comments** (`Comments`):
  - a validated insert;
  - delete by the author or an admin, edit by the author;
  - the per-movie listing, newest first, and the count.
- **Favourites** (`Favorites`):
  - membership;
  - an idempotent add after input checks, and an idempotent remove;
  - the user's list, newest first.
- **Helpers**:
  - the slug-to-display-name table (`CategoryNames`);
  - the CDN prefixing and item/pagination fallback that post-process a search response (`MovieApi`);
  - the popular-country filter and order of the country menu (`CountryMenu`).

Supporting modules:

- `Wrappers`: an `Option` type.
- `Seqs`: the LINQ operators the code applies, with their lemmas. These are `Where` (`Filter`), a stable `OrderBy` (`SortBy`; descending is the same sort on the negated key), `Take`, `FirstOrDefault` (`IndexWhere`, `MaxBy`) and `RemoveAt`.
- `Text`: `string.IsNullOrWhiteSpace`, using .NET's white-space set; `Trim`; ASCII case mapping; `StartsWith` and `TrimStart`.
- `Catalog`: the catalogue records (`MovieItem`, `MovieDetail`, `Category`, `Pagination`).

Other conventions:

- The clock (`DateTime.UtcNow`) is an integer parameter `now`.
- The signed-in user is an optional id.
- A catalogue lookup is an `Option<MovieDetail>` argument. The enrichment loop takes a total function from slug to `Option<MovieDetail>`; a failed or absent lookup is `None`.
- A nullable string is `Option<string>`.
- The database's identity column is the table's `nextId` counter.
- Each table keeps an invariant:
  - ids are positive, unique and below `nextId`;
  - watch history has one row per (user, movie);
  - favourites have one row per (user, slug);
  - overrides have one row per slug.

## Model

| member | source | states |
|---|---|---|
| WatchHistoryModel.NewWatchHistory | Models/WatchHistory.cs:13-80 | A freshly constructed record has empty strings, zero times, percentage 0, is not completed, and was first and last watched at the same instant |
| WatchHistoryModel.ProgressPercent | Models/WatchHistory.cs:65 | 0 when the total time is not positive; otherwise the exact integer quotient of 100·current by total, truncated toward zero (r·total ≤ 100·current < (r+1)·total for a non-negative position), within 0..100 when 0 ≤ current ≤ total, and never positive for a non-positive position. The exact quotient belongs to the integer model: the source's `double` arithmetic can give one less (see "Left out") |
| WatchHistoryModel.ProgressMonotone | Models/WatchHistory.cs:65 | For a fixed total time, a later position never gives a lower percentage |
| WatchHistoryModel.CompletedBound | Models/WatchHistory.cs:65-70 | The percentage is at least 90 exactly when the total is positive and 10·current ≥ 9·total |
| WatchHistoryModel.IsCompleted | Models/WatchHistory.cs:70 | Completed exactly when the total is positive and at least nine tenths of it were watched |
| WatchHistoryStore.SaveCreates | Controllers/WatchController.cs:82-97 | A first save for a (user, movie) appends exactly one row with the next id, the request's episode and times, a null poster stored as "", first and last watched now; the counter advances |
| WatchHistoryStore.SaveUpdates | Controllers/WatchController.cs:77-112 | A save for a (user, movie) that has a row, whatever the episode, rewrites the first matching row in place: row count, id and first-watched time kept, episode and times from the request, last watched now, title and poster kept where the request has null; every other row unchanged |
| WatchHistoryStore.SaveKeepsOnePerUserMovie | Controllers/WatchController.cs:77-112 | Because the lookup ignores the episode, a save never makes a second row for a (user, movie) pair |
| WatchHistoryStore.SaveKeepsInvariant | Controllers/WatchController.cs:77-112 | A save keeps ids unique and below the counter, and one row per (user, movie) |
| WatchHistoryStore.AtMostOneMatch | Controllers/WatchController.cs:77-80 | With one row per (user, movie), at most one row matches a pair |
| WatchHistoryStore.GetWatchProgress | Controllers/WatchController.cs:129-153 | Invalid request exactly when the user or slug is null or empty; no progress exactly when no row matches; otherwise the progress of a matching row whose last-watched time is the greatest among the matches |
| WatchHistoryStore.ProgressOf | Controllers/WatchController.cs:145-153 | The reply carries the row's position, total, episode and its ProgressPercent |
| WatchHistoryStore.SaveThenGetProgress | Controllers/WatchController.cs:77-140 | After an authenticated save, reading progress for that (user, movie) returns the saved position, total and episode |
| WatchHistoryStore.HistoryPageFacts | Controllers/WatchController.cs:170-174 | The page holds min(50, the user's row count) rows, only the user's, latest first, drawn from the table; every row of the user left off the page was watched no later than the last row on it |
| WatchHistoryStore.HistoryPageLatest | Controllers/WatchController.cs:170-174 | A row of the user that the page leaves out was watched no later than the page's last row: the page is the user's latest rows |
| WatchHistoryStore.History | Controllers/WatchController.cs:164-177 | No user gives the login redirect; otherwise min(50, the user's row count) rows, all the user's, by last-watched time descending, a sub-multiset of the table, and every row of the user not shown was watched no later than the last one shown |
| WatchHistoryStore.DeleteRemovesExactly | Controllers/WatchController.cs:190-196 | With unique ids, exactly the row with that id goes when the caller owns it, and nothing goes otherwise |
| WatchHistoryStore.DeleteKeepsInvariant | Controllers/WatchController.cs:190-197 | A delete keeps the table invariant |
| WatchHistoryStore.WatchHistoryTable.SaveWatchProgress | Controllers/WatchController.cs:60-117 | Without a user: Unauthorized and the table unchanged; otherwise the table becomes SaveRows of the old one (field-by-field update or insert) and the invariant holds |
| WatchHistoryStore.WatchHistoryTable.DeleteHistory | Controllers/WatchController.cs:182-200 | Without a user: Unauthorized and nothing changes; otherwise the owned row is removed; not-found exactly when the table is unchanged, success exactly when it lost one row |
| WatchAnalytics.GroupSlugs | Services/WatchAnalyticsService.cs:45-46 | The group keys are distinct and are exactly the non-empty slugs that occur in the table |
| WatchAnalytics.Groups | Services/WatchAnalyticsService.cs:46-51 | One group per key, carrying that slug's row count and latest watch time |
| WatchAnalytics.GroupsAreTableGroups | Services/WatchAnalyticsService.cs:44-51 | Every group belongs to the table with its true counts, and no group appears twice |
| WatchAnalytics.TopGroupsFacts | Services/WatchAnalyticsService.cs:44-56 | The cut ranking has exactly min(`count`, number of distinct non-empty slugs) groups, none for a non-positive count, each a true group of the table, no slug twice |
| WatchAnalytics.RankedOrdered | Services/WatchAnalyticsService.cs:53-54 | Ranked groups run by row count descending, and by latest watch descending among equal counts |
| WatchAnalytics.TopGroupsOrdered | Services/WatchAnalyticsService.cs:53-55 | The same order holds after the cut to `count` |
| WatchAnalytics.RankedMisses | Services/WatchAnalyticsService.cs:53-55 | A group that the cut leaves out has no more rows than the last group kept, and on a tie a latest watch no later than its |
| WatchAnalytics.TopGroupsMisses | Services/WatchAnalyticsService.cs:44-56 | The same for a group of the table and the cut ranking of the table |
| WatchAnalytics.TopGroupsSelection | Services/WatchAnalyticsService.cs:44-56 | Any non-empty slug of the table whose group is not kept has no more rows than the last group kept, and on a tie a latest watch no later than its: the cut keeps the most-watched movies |
| WatchAnalytics.TopGroupCounts | Services/WatchAnalyticsService.cs:45-51 | A ranked group has a non-empty slug and counts the rows with that slug, at least one |
| WatchAnalytics.EntryFromLatestRow | Services/WatchAnalyticsService.cs:65-86 | An entry's title (or the slug for a null title) and poster come from a row of its slug watched no earlier than any other row of that slug |
| WatchAnalytics.Enriched | Services/WatchAnalyticsService.cs:90-104 | Slug and count never change; an entry with title and poster, or a failed lookup, is left alone; a non-empty title and a non-null poster are kept; a found detail fills an empty title with its name or the slug, a null poster, and sets origin title and quality |
| WatchAnalytics.RowPosterNeverReplaced | Services/WatchAnalyticsService.cs:72-100 | An entry's poster comes from a row and is never null, so enrichment never replaces it, even when it is the empty string that triggered the lookup |
| WatchAnalytics.EnrichAll | Services/WatchAnalyticsService.cs:90-110 | The in-place loop leaves each entry enriched by its own lookup; a failed lookup affects only that entry |
| WatchAnalytics.TopWatchedFacts | Services/WatchAnalyticsService.cs:37-88 | Exactly min(`count`, number of distinct non-empty slugs) entries for a positive count (none for a non-positive count or an empty table); one per movie; each counts that movie's rows; ordered by count and then by latest watch, both descending |
| WatchAnalytics.TopWatchedSize | Services/WatchAnalyticsService.cs:39-61 | Empty for a non-positive count or an empty table, exactly min(`count`, number of distinct non-empty slugs) entries otherwise, no slug twice |
| WatchAnalytics.TopWatchedCounts | Services/WatchAnalyticsService.cs:47-83 | Every entry has a non-empty slug and a watch count equal to the number of rows with that slug |
| WatchAnalytics.TopWatchedOrdered | Services/WatchAnalyticsService.cs:53-54 | Entries are ordered by watch count, then by the movie's latest watch, both descending |
| WatchAnalytics.TopWatchedShape | Services/WatchAnalyticsService.cs:63-83 | Each entry carries the slug and row count of the group at the same position of the cut ranking |
| WatchAnalytics.TopWatchedSelection | Services/WatchAnalyticsService.cs:44-56 | A movie of the table that the ranking does not list has no more rows than the last entry's count, and on a tie a latest watch no later than that movie's: the ranking lists the most-watched movies |
| WatchAnalytics.GetTopWatchedMovies | Services/WatchAnalyticsService.cs:37-112 | The method (early returns, array build, enrichment loop) returns exactly the ranking TopWatched describes |
| AdminTitles.ToggleCreates | Controllers/AdminController.cs:250-280 | The first toggle of a slug appends one hidden override with the next id; its custom title is the catalogue name or the slug, and its original title is the catalogue name or "" |
| AdminTitles.ToggleFlips | Controllers/AdminController.cs:282-288 | Toggling a slug that has an override negates its hidden flag, changes only the audit fields besides it, and leaves every other row alone |
| AdminTitles.ToggleTwiceRestores | Controllers/AdminController.cs:282-288 | Two toggles restore every field except the audit fields |
| AdminTitles.ToggleReplyMatchesState | Controllers/AdminController.cs:290-297 | The reply's isHidden equals the flag stored for the slug afterwards |
| AdminTitles.ToggleMovesHiddenCount | Controllers/AdminController.cs:248-288 | A toggle moves the dashboard's HiddenMoviesCount by +1 when the reply says hidden and by -1 otherwise |
| AdminTitles.ToggleKeepsInvariant | Controllers/AdminController.cs:248-288 | A toggle keeps ids unique and below the counter, and one override per slug |
| AdminTitles.EditUpdatesSelectedFields | Controllers/AdminController.cs:214-220 | Editing a slug with an override changes only its custom title, description, update time and updater; its original title and hidden flag are kept; every other row is unchanged |
| AdminTitles.EditCreates | Controllers/AdminController.cs:190-213 | Editing a new slug appends one visible override; the catalogue name becomes the original title only when none was submitted and the lookup succeeded |
| AdminTitles.EditKeepsInvariant | Controllers/AdminController.cs:190-220 | An edit keeps the table invariant |
| AdminTitles.DeleteTitleRemovesExactly | Controllers/AdminController.cs:231-234 | With unique ids, exactly the row with that id goes; nothing goes for an unknown id |
| AdminTitles.DeleteTitleKeepsInvariant | Controllers/AdminController.cs:231-234 | A delete keeps the table invariant |
| AdminTitles.DashboardTopMovies | Controllers/AdminController.cs:65-73 | One row per ranking entry, with its slug and count; the entry's title when non-empty, else the slug; a row's title is empty only when both the entry's title and slug are |
| AdminTitles.DashboardTitlesNonEmpty | Controllers/AdminController.cs:65-73 | The dashboard's ten-entry ranking never shows an empty title |
| AdminTitles.HiddenMoviesCount | Controllers/AdminController.cs:76 | The hidden-movie count is between 0 and the number of overrides; it is 0 exactly when no override is hidden, and equals the number of overrides exactly when every one is hidden |
| AdminTitles.TitleTable.ToggleHideMovie | Controllers/AdminController.cs:241-298 | An empty slug fails and changes nothing; otherwise the table becomes ToggleRows of the old one and the reply is the stored flag |
| AdminTitles.TitleTable.EditTitle | Controllers/AdminController.cs:185-226 | An invalid form changes nothing; otherwise the slug's override is updated field by field, or the form is inserted |
| AdminTitles.TitleTable.DeleteTitle | Controllers/AdminController.cs:229-238 | Not found exactly when no row has the id; otherwise that row is removed; the counter is untouched |
| Comments.ContentAccepted | Services/CommentService.cs:30-33 | Accepted exactly when not null, not only white space, and at most 1000 characters before trimming; the stored trimmed text is then non-empty, within the limit, and starts and ends with non-white-space |
| Comments.AddShowsInListing | Services/CommentService.cs:35-46 | An added comment, with the trimmed content, appears in its movie's listing, and that movie's count grows by one |
| Comments.AddElsewhereKeepsListing | Services/CommentService.cs:35-46 | An add for one movie leaves every other movie's listing unchanged |
| Comments.AddKeepsInvariant | Services/CommentService.cs:35-45 | An add keeps ids unique and below the counter |
| Comments.DeleteGate | Services/CommentService.cs:60-66 | With unique ids, a delete is allowed exactly when a comment with that id exists and the caller wrote it or is an admin |
| Comments.DeleteEffect | Services/CommentService.cs:60-71 | An allowed delete removes exactly the comment with that id; a refused one changes nothing |
| Comments.DeleteKeepsInvariant | Services/CommentService.cs:60-70 | A delete keeps the table invariant |
| Comments.UpdateGate | Services/CommentService.cs:85-94 | With unique ids, an edit is allowed exactly for acceptable content from the comment's author |
| Comments.UpdateEffect | Services/CommentService.cs:90-100 | An allowed edit sets that comment's content to the trimmed text and its edit time to now, and changes nothing else; a refused one changes nothing |
| Comments.UpdateKeepsInvariant | Services/CommentService.cs:90-99 | An edit keeps the table invariant |
| Comments.ListingFacts | Services/CommentService.cs:16-23 | The listing holds exactly the movie's comments, newest first, drawn from the table; its length is the count of lines 110-114 |
| Comments.CommentTable.AddComment | Services/CommentService.cs:26-53 | Returns whether the content is accepted; if so, one row with the trimmed content is appended, otherwise nothing changes |
| Comments.CommentTable.DeleteComment | Services/CommentService.cs:56-78 | Returns whether the delete is allowed; the table becomes DeleteRows of the old one |
| Comments.CommentTable.UpdateComment | Services/CommentService.cs:81-107 | Returns whether the edit is allowed; the row is updated field by field exactly as UpdateRows says |
| Favorites.IsFavorite | Services/FavoriteService.cs:16-20 | True exactly when some row pairs the user with the movie |
| Favorites.AddMakesFavorite | Services/FavoriteService.cs:27-72 | After a valid add the movie is a favourite of the user, whether inserted now or before; an add with a blank user, slug or name changes nothing |
| Favorites.AddIdempotent | Services/FavoriteService.cs:47-54 | Adding the same movie a second time leaves the table as after the first add |
| Favorites.AddStoresCard | Services/FavoriteService.cs:56-68 | A new favourite appends one row with the next id, the user, slug, name, origin name `OriginName ?? Name`, null images as "", the year, and added now |
| Favorites.AddKeepsInvariant | Services/FavoriteService.cs:47-68 | An add keeps ids unique and below the counter, and one row per (user, slug) |
| Favorites.RemoveEffect | Services/FavoriteService.cs:85-92 | With one row per pair, after a remove the movie is no longer a favourite, every other row is kept, and removing again changes nothing |
| Favorites.RemoveKeepsInvariant | Services/FavoriteService.cs:85-92 | A remove keeps the table invariant |
| Favorites.FavoriteMovies | Services/FavoriteService.cs:105-117 | One card per favourite of the user, in the listing's order, each carrying that row's name, slug, origin name, images and year |
| Favorites.FavoriteMoviesFacts | Services/FavoriteService.cs:105-117 | The user's favourites are all the user's, by added time descending, and there are as many as the user has rows |
| Favorites.ListedIsFavorite | Services/FavoriteService.cs:105-117 | Every listed movie is a favourite of the user |
| Favorites.FavoriteIsListed | Services/FavoriteService.cs:105-117 | Every favourite of the user is listed |
| Favorites.FavoriteMoviesMatchIsFavorite | Services/FavoriteService.cs:105-117 | A slug is on the user's list exactly when IsFavorite says so |
| Favorites.FavoriteTable.AddFavorite | Services/FavoriteService.cs:22-79 | False for a blank user, a null movie, a blank slug or a blank name; true otherwise, inserting only when the pair is new |
| Favorites.FavoriteTable.RemoveFavorite | Services/FavoriteService.cs:81-99 | Always true; the pair's row, if any, is removed and nothing else changes |
| CategoryNames.Fallback | Helpers/CategoryNames.cs:67-69 | The fallback name has the key's length, no '-', dashes as spaces, and the first character upper-cased |
| CategoryNames.GetDisplayName | Helpers/CategoryNames.cs:61-70 | "" for null or white-space input; the mapped name for a known trimmed, lower-cased key; otherwise the fallback of that key |
| CategoryNames.FallbackShape | Helpers/CategoryNames.cs:63-69 | An unknown name keeps the trimmed slug's length, is non-empty, and contains no '-' |
| CategoryNames.SameKeySameName | Helpers/CategoryNames.cs:63-65 | Two slugs with the same key get the same name |
| CategoryNames.IgnoresCaseAndPadding | Helpers/CategoryNames.cs:63-65 | Surrounding white space and ASCII case do not change the result |
| MovieApi.NormalizeImageUrl | Services/MovieApiService.cs:88-91 | Null, empty and "http…" URLs are unchanged; any other becomes the CDN host, "/", and the URL with leading '/' removed |
| MovieApi.NormalizeImageUrlIdempotent | Services/MovieApiService.cs:88-91 | Normalising twice equals normalising once |
| MovieApi.NormalizeItemImages | Services/MovieApiService.cs:86-92 | Only poster and thumb URLs change, each normalised |
| MovieApi.PrefixImages | Services/MovieApiService.cs:86-92 | The in-place loop leaves every item with normalised images |
| MovieApi.ProcessSearchResponse | Services/MovieApiService.cs:79-100 | No listing exactly for a missing response or a status other than "success" (any case); otherwise items from `data.items`, else `items`, else empty, each normalised, and pagination by the same precedence |
| CountryMenu.IndexOf | ViewComponents/CountryMenuViewComponent.cs:29 | The first position of the slug in the list, or -1 exactly when it is absent |
| CountryMenu.Rank | ViewComponents/CountryMenuViewComponent.cs:28-29 | The order key is non-negative exactly for a popular country and then names the lower-cased slug's position in the popular list |
| CountryMenu.PopularCountries | ViewComponents/CountryMenuViewComponent.cs:27-30 | A null list gives an empty menu; every entry is popular; entries are in popular-list order |
| CountryMenu.MenuFromInput | ViewComponents/CountryMenuViewComponent.cs:27-30 | The menu is a sub-multiset of the input, so never longer |
| CountryMenu.MenuComplete | ViewComponents/CountryMenuViewComponent.cs:27-28 | Every popular country of the input is on the menu |
| CountryMenu.MenuStable | ViewComponents/CountryMenuViewComponent.cs:29 | Entries of equal rank keep their input order, because the sort is stable |

## Left out

- HTTP, JSON and the catalogue client are not modelled. A catalogue lookup is an `Option<MovieDetail>` argument, and the search post-processing starts from an already decoded response. A lookup that throws is `None`, because the detail call already turns failures into null. So the catch branch of `ToggleHideMovie` creates the same row as the null-detail path.
- Identity and user management (`ManageUsers`, `CreateUser`, `EditUser`, `ToggleUserRole`, `DeleteUser`), the data seeder, the profile page and startup are not modelled. They are calls into the identity framework and configuration.
- WatchHistoryModel.ProgressPercent: the source divides in `double` first and then multiplies by 100 and truncates. The model takes the exact integer quotient of 100·current by total. The exact quotient is a property of the model only: the source can give one less, since 29/100 is 0.29, times 100 is 28.999999999999996, and the cast gives 28 where the model gives 29. The completion threshold (90) is stated on the model's value.
- WatchHistoryModel.ProgressPercent: the `(int)` cast of a double outside the 32-bit range is not modelled. Integers are unbounded.
- String comparison in database queries is modelled as exact string equality. The table is stored in MySQL (Program.cs:32), whose default collations compare case-insensitively, so the source can match rows that the model does not. This concerns the (user, movie) match of WatchHistoryStore.SaveRows and WatchHistoryStore.GetWatchProgress (Controllers/WatchController.cs:77-80), the favourite pair of Favorites.IsFavorite, Favorites.AddRows and Favorites.RemoveRows (Services/FavoriteService.cs:16-20 and 47-54), the override slug of AdminTitles.ToggleRows and AdminTitles.EditRows (Controllers/AdminController.cs), the grouping of WatchAnalytics.GroupSlugs (Services/WatchAnalyticsService.cs:44-46) and the listing of Comments.CommentsByMovie (Services/CommentService.cs:19).
- Where the database leaves an order unspecified, the model picks one. Groups come in the order a slug first appears in the table. Rows with equal sort keys keep table order. `FirstOrDefault` without an order takes the first row in table order.
- A failure in `SaveChangesAsync`, and the `catch` branches that turn it into `false`, are not modelled. Neither are logging and `Console.WriteLine`. Every save succeeds, so `AddFavorite` returns true whenever it inserts.
- Concurrent requests are not modelled; every operation runs alone.
- The listing overlay of custom titles, the scan for hidden movies, `GetAllMoviesForAdminAsync` and `ManageMovies` are not modelled. The code they need is not part of this model.
- The admin `Index`, `Titles` and `DebugHistories` actions and the GET form of `EditTitle` are not modelled. They only read and render.
- Request plumbing is not modelled: the comment and favourite controllers, `BaseController`, `MovieController`, `HomeController`, the render-only view components and `MovieService`. Neither are the image upload (`CloudinaryService`) and the browser script.
- AdminTitles.TitleTable.EditTitle: form validation (`ModelState.IsValid`) is a boolean parameter. A new override is inserted visible, because the form binding of `IsHidden` is not modelled.
- Text.ToLower, Text.ToUpperChar and Text.StartsWith: the case mappings change ASCII letters only, and the prefix test is ordinal. The source's `ToLowerInvariant` also maps non-ASCII letters. Its `char.ToUpper` and `StartsWith(string)` follow the server's current culture, which nothing in the source fixes. Neither is modelled.
- CategoryNames.Fallback: the first letter is upper-cased for ASCII only. `char.ToUpper` (Helpers/CategoryNames.cs:69) follows the current culture. Under a Turkish culture the source turns the unknown slug "isekai" into "İsekai" where the model gives "Isekai", and it upper-cases non-ASCII first letters that the model keeps.
- CategoryNames.GetDisplayName: the key is lower-cased for ASCII only, and the fallback inherits the ASCII upper-casing of CategoryNames.Fallback. `ToLowerInvariant` (Helpers/CategoryNames.cs:64) also lower-cases non-ASCII letters, such as the Kelvin sign to 'k'. A key that only such a mapping would turn into a known slug finds its name in the source but falls back in the model.
- CountryMenu.Rank: the slug is lower-cased for ASCII only. `ToLowerInvariant` (ViewComponents/CountryMenuViewComponent.cs:28-29) also maps non-ASCII letters. For example, "hong-\u212Aong", with the Kelvin sign, becomes "hong-kong", so the source puts that country on the menu and the model does not.
- MovieApi.NormalizeImageUrl: the "http" test is an ordinal prefix test. The source's `StartsWith("http")` (Services/MovieApiService.cs:88-91) is culture-sensitive and skips ignorable characters and weighs combining ones. A URL such as "\u00ADhttp://x", with a leading soft hyphen, is left alone by the source but gets the CDN host prefixed by the model.
- Comments.ContentAccepted: the 1000-character limit counts Dafny characters, not UTF-16 code units.
- The navigation properties (`User`) and the string-length attributes of the entity classes are not modelled.
