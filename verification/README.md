# Bookmark service: a Dafny model and its proofs

This project models the four hard parts of the bookmark service and proves, for every input, every
run or every reachable state, what they are for:

- **The optimistic-concurrency write protocol.** `WriteProtocol` is a transition system over the
  shared tables (`Store`) with any number of sessions. One session takes separate steps: read the
  bookmark row, read its tags with a second query, check If-Match, look up the tags, flush each
  missing tag, insert a new bookmark under an id drawn then, commit conditionally or roll back, and
  read back the row and then its tags. `Serializability` proves that every interleaving equals a
  serial run of the committed mutations. `WriteGuarantees` derives what clients are promised of
  writes; `WriteAnswers` proves that refusals were due, that successes show the right bookmark, and
  that no request takes more than a fixed number of steps. `TagRepository` and `BookmarkService` are
  the source's classes, proved to carry out one request of that serial specification.
- **The read path.** `Queries` gives the SQL statements the repository builds a meaning over rows
  (joins, an escaped LIKE with three-valued OR, ORDER BY, OFFSET/LIMIT) and proves them equal to
  "filter the user's bookmarks, then sort". `Listing` and `CursorWalk` do the same for pages and for
  following cursors, on unchanging data and while others write. `Like`, `Ordering` and `Text` hold
  the theory they need.
- **The login guard.** `LoginGuard` is the class and the login that drives it; `LoginRuns` reasons
  about whole runs of logins in time.
- **Tags, ETags and statistics.** `TagNormalizer`, `ETag` and `Stats` give these loops and aggregate
  queries exact specifications.

`ReadsDuringWrites` joins the first two parts: cursor walks, listings and statistics on the states
that runs of the write protocol reach, and non-interference between users over whole runs.
`Isolation` supplies the two-database statements behind it. `dafny verify dfyconfig.toml` checks
everything.

## How to read the model

- *The database.* A statement, a flush and a commit are atomic steps, and a read sees what is
  committed when it runs. Of SQLAlchemy only this is taken for granted: UPDATE and DELETE carry
  `id = ? AND version = ?`; zero rows or a link collision roll everything back; changed columns are
  those that differ from the loaded values; links are written as the difference from the loaded
  collection, and a link row found missing or already present loses the race.
- *Ids are never reused*, as with PostgreSQL sequences. An insert draws its id before it commits, so
  bookmarks may become visible in another order than that of their ids. With a plain SQLite rowid the largest id can
  come back after a delete; an ETag would then no longer name one content of one bookmark.
- *New tags.* A flushed tag row is private until its session commits. A second insert of the same
  name waits while another open transaction holds it, and fails (a 500, no effect) once it is
  committed.
- *The reads after a commit or rollback are their own steps*, so a response may show a later version
  than the one just written, and tags newer than its row. What was shown, row and tags, is kept as
  history. A listing shows each bookmark as a get does: the row by one query, its tags by a second.
- *Class methods run one request at a time.* Interleaving is the business of `WriteProtocol`; both
  use the same `CommitUpdate`, `CommitDelete` and `CommitCreate`.
- *Parameters.* Clock readings, ids drawn from sequences, the collation (`string -> real` ranks), the
  dialect's month expression (an integer key of a timestamp) and password verification. Times in the
  tables are integer microseconds; the guard's clock is real-valued, and a login reads it once for
  the lock and once more to record a failure. The lockout is a positive number of seconds.
- *Attempts on one login key are sequential*; logins on different keys may overlap in any way. A run
  lists them in any order that keeps each key's own.
- *Text* is Latin-1 for `strip`, which is all a header can hold, and ASCII for `lower`. `page` is at least 1, as the endpoint's parameter demands
  (`app/routers/bookmarks.py:90`).

## Where the code and its documentation part

- `app/utils/login_guard/guard.py:3` speaks of a sliding window. The code restarts a fixed window.
  The tight bound on admitted failures in any interval as long as the lockout is max(M, 2M - 2), with
  M the configured maximum but at least 1 (`LoginRuns.FailuresPerLockout`,
  `LoginRuns.BoundIsAttained`). The documented reading holds for all runs exactly when M is at most 2
  (`LoginRuns.KeepsToMaxIff`); the configured default of 10 admits 18.
- `app/utils/etag/etag.py:5` promises the strong comparison of RFC 7232. The code splits on commas,
  which section 2.3 allows inside an opaque-tag. `ETag.MatchesExactly` says for every list what the
  code answers, obs-text in opaque-tags included; `ETag.StrongComparisonIff` gives the exact
  condition for strong comparison: no opaque-tag has, between two of its own commas, a star alone or
  padded only with U+0085 and U+00A0, which `strip` removes. `ETag.HiddenStarExample` is a list that
  has one.

## Model

| member | source | states |
|---|---|---|
| Serializability.RunsAreSerial | app/services/bookmark/service.py:139-174 | In every state of every interleaving, bookmarks and their tags are exactly what serving the committed creates, updates and deletes one after the other in commit order would leave, each accepted (owner, If-Match, tags) when its turn came; the link table is determined by that. |
| Serializability.StepKeeps | app/repositories/bookmark/repository.py:35-71 | Every step of every session keeps the protocol invariant; bookmarks keep row and links as long as they keep their version, tags are never changed, ids never reused. |
| Serializability.UpdateEffect | app/repositories/bookmark/repository.py:46-63 | Where id and version still match, a load is the current row and tags even if they were read at different moments; the link difference cannot collide; the result is the edited row at the next version with exactly the edited tags, nothing else touched. |
| Serializability.DeleteEffect | app/repositories/bookmark/repository.py:65-71 | The conditional delete, where it matches, never collides on links and removes this bookmark and its links only. |
| Serializability.CreateEffect | app/repositories/bookmark/repository.py:35-39 | Committing a bookmark under the id its insert drew, whichever others committed since, links it to exactly the resolved tags and changes no other bookmark. |
| Requests.ServeMeans | app/services/bookmark/service.py:68-174 | What serving one accepted request leaves, column by column: a create's row and clean tags; an update's fields as sent where present (a present null clears the description) and as before where absent, id, owner and creation time unchanged, version one more; a delete's absence; every other bookmark as it was. |
| Serializability.InsertKeeps | app/repositories/bookmark/repository.py:36-37 | Drawing an id and inserting privately keeps the invariant: nobody sees the row, and no two open inserts share an id. |
| Serializability.ReadTagsKeeps | app/models/bookmark.py:53-58 | The second query, at whatever moment it runs, leaves a load whose tags are the current ones if its row still is. |
| Serializability.FinishWriteKeeps | app/services/bookmark/service.py:163-174 | A commit of a loaded bookmark, won or lost, update or delete, keeps the invariant, including agreement with the serial replay. |
| Serializability.FindTagsKeeps | app/repositories/tag/repository.py:20-21 | Looking up existing tags in one query leaves found and missing names exactly the requested normalised ones. |
| Serializability.AddTagKeeps | app/repositories/tag/repository.py:26-30 | Flushing a missing tag, or failing on a name committed meanwhile, keeps names unique across committed and all pending rows. |
| WriteGuarantees.CommitWinsIff | app/repositories/bookmark/repository.py:53-61 | A commit is lost exactly when the row is gone or its version moved; a lost one changes nothing and remembers what it had loaded, a winning one worked on the current row and tags and is logged once. |
| WriteGuarantees.UpdateWritesExactly | app/repositories/bookmark/repository.py:46-63 | After a successful update url, title and description are as sent where present and as before where absent, id, owner and creation time unchanged, version raised by one; the tag names are exactly the requested clean ones (or as before if none were given). |
| WriteGuarantees.CreateWritesExactly | app/services/bookmark/service.py:77-80 | After a create commits there is one more bookmark, with the columns sent, the requester as owner, version 1, and exactly the requested clean tag names. |
| WriteGuarantees.NoLostUpdate | app/services/bookmark/service.py:147-166 | In every run the row and tags a committed PUT replaces are those it loaded and those every response ever showed for that id at that version, even one whose row and tags were read at different moments; the header quotes that version's ETag unless it has a star. |
| WriteGuarantees.UnforcedUpdatesMix | app/repositories/bookmark/repository.py:47-52 | Without forcing the row into the UPDATE, of two tag-only edits of any load the later would commit under an unchanged version unless link rows collide; and exactly when its own tags would survive the mix with the earlier ones. |
| WriteGuarantees.LostRaceReport | app/services/bookmark/service.py:164-180 | The 412 of a lost race names a version strictly newer than the loaded one, or none exactly when the requester's bookmark is gone at the re-read. |
| WriteGuarantees.ExactlyTheSuccessfulWrote | app/services/bookmark/service.py:42-55 | In every run, requests refused with 404, 412, 428 or a tag error committed nothing, and successful mutations committed exactly once, with their own request. |
| WriteAnswers.RefusalsAreDue | app/services/bookmark/service.py:42-88 | In every run, a 404, 428, 412 or tag error was deserved at some moment since its request arrived (not the requester's bookmark; no header but blanks; neither star nor the current ETag quoted; a name over 50 or more than 30 names), with the ETag of that moment, or is the 412 of a race lost at the commit. |
| WriteAnswers.AnswersShowTheirOwn | app/services/bookmark/service.py:80-166 | In every run, a bookmark shown as an answer is the requester's and the one asked for, is on record as shown, and after a create or update is the session's own at the version it wrote or later; only a delete is answered as one. |
| WriteAnswers.RefusedExactlyWhenDue | app/services/bookmark/service.py:42-88 | The serial specification gives a refusal exactly when those plain conditions on tables and request call for it. |
| WriteAnswers.FailureHasACause | app/repositories/tag/repository.py:26-29 | An unhandled error means the session was given up, the tag name it was adding had been committed by another, or its bookmark was gone at the read back. |
| WriteAnswers.RequestsEnd | app/services/bookmark/service.py:139-180 | In every run no session takes more than 38 steps of its own. |
| WriteAnswers.NeverStuck | app/services/bookmark/service.py:139-180 | In every reachable state a session without an answer can take its next step, with any fresh ids and at any time, unless another open transaction holds the tag name it is about to add. |
| WriteGuarantees.VersionCountsUpdates | app/models/bookmark.py:35-44 | In every reachable state a bookmark's version is one more than the number of updates committed to it. |
| WriteGuarantees.OnlyLoggedStepsWrite | app/services/bookmark/service.py:163-174 | Every step that commits nothing leaves bookmarks, links and committed tags alone. |
| WriteGuarantees.OthersUntouched | app/repositories/bookmark/repository.py:41-44 | No step for one user changes another user's bookmarks or their links, though the tag table is shared. |
| BookmarkService.BookmarkRepository.Update | app/repositories/bookmark/repository.py:46-63 | On any tables and any stale load: reports stale exactly when the conditional transaction fails, and then leaves the tables as they were and the session clean. |
| BookmarkService.BookmarkRepository.Delete | app/repositories/bookmark/repository.py:65-71 | On any load, however old: stale exactly when the row is gone or newer, and then clients see what they saw; otherwise every bookmark but this one, and the same tag rows. |
| BookmarkService.BookmarkService.Update | app/services/bookmark/service.py:139-166 | Tables and answer are those of the serial specification: 404, 428, 412, tag error, or the bookmark shown with each field as sent or as before, the next version and the requested tags. |
| BookmarkService.BookmarkService.Delete | app/services/bookmark/service.py:168-174 | The same for a delete. |
| BookmarkService.BookmarkService.Create | app/services/bookmark/service.py:68-80 | The same for a create: shown with the columns sent, version 1, and exactly the clean tags. |
| Requests.PreconditionMeans | app/services/bookmark/service.py:42-55 | A mutation passes exactly when the header has a star or quotes the bookmark's own ETag; 428 exactly when there is no header but blanks, else 412, each with the current ETag. |
| BookmarkService.UpdateCommits | app/services/bookmark/service.py:147-166 | From load through tag resolution to commit, an undisturbed update always wins and its view is the specified one. |
| TagRepository.TagRepository.GetOrCreate | app/repositories/tag/repository.py:16-32 | The loop with its name index returns the ids, visible rows and next id that resolving each name in turn specifies. |
| TagRepository.ResolveExact | app/repositories/tag/repository.py:16-32 | Names stay unique, existing rows unchanged, one tag per requested name in order, and exactly the missing names are added under fresh ids. |
| TagRepository.ResolveAgain | app/repositories/tag/repository.py:16-32 | Asking again adds nothing and returns the same ids. |
| TagRepository.ResolveAllExact | app/repositories/tag/repository.py:16-32 | Over any sequence of calls names stay unique, no row changes, and the names present are the old ones and those ever asked for. |
| TagRepository.DistinctNamesDistinctTags | app/services/bookmark/service.py:77-79 | After normalisation the tags of a bookmark repeat no id, so no link pair is written twice. |
| TagNormalizer.NormalizeTags | app/utils/tags/normalizer.py:11-34 | The loop returns, or raises, what the specification of the whole list says. |
| TagNormalizer.NormalizeExact | app/utils/tags/normalizer.py:11-34 | Raises exactly when an item's clean name exceeds 50, naming the first, or there are more than 30 distinct ones; otherwise returns exactly the distinct clean names, in the order in which items first say them. |
| TagNormalizer.KeptElements | app/utils/tags/normalizer.py:20-25 | The names considered are exactly the trimmed, lower-cased, non-blank items. |
| TagNormalizer.FirstOccurrencesUnique | app/utils/tags/normalizer.py:28-30 | Only one list is distinct, complete and in that order. |
| TagNormalizer.ResultIsNormal | app/utils/tags/normalizer.py:11-34 | Every returned list is at most 30 distinct clean names of at most 50 characters. |
| TagNormalizer.NormalizeIdempotent | app/utils/tags/normalizer.py:37-41 | Normalising in the schema and again in the service never raises the second time and changes nothing. |
| ETag.MatchHeader | app/utils/etag/etag.py:18-35 | The token loop, with its skips and early returns, answers whether some comma-separated piece accepts the version. |
| ETag.MatchesExactly | app/utils/etag/etag.py:18-35 | For every list of entity-tags, weak or strong, with any blanks, empty elements, commas and obs-text: exactly when the code matches. |
| ETag.StrongComparisonIff | app/utils/etag/etag.py:5-6 | The code is strong comparison (RFC 7232 sections 2.3.2 and 3.1) for all versions exactly on lists in which no opaque-tag hides a star, bare or blank-padded, between its commas. |
| ETag.CommaFreeIsStrong | app/utils/etag/etag.py:20-35 | With no comma inside opaque-tags the code is strong comparison. |
| ETag.HiddenStarExample | app/utils/etag/etag.py:20-26 | One legal entity-tag that names no version and is still accepted for every version. |
| ETag.PrintedETagMatches | app/utils/etag/etag.py:15-35 | A printed ETag matches version w exactly when it was printed for w. |
| ETag.DecimalRoundTrip | app/utils/etag/etag.py:15-19 | Printing a version loses nothing, so distinct versions have distinct ETags. |
| ETag.DecimalExact | app/utils/etag/etag.py:15-16 | Versions print in decimal notation, digits most significant first, and only zero starts with a zero. |
| ETag.MatchesByStarOrQuote | app/utils/etag/etag.py:24-34 | Any header whatever matches only by a star or by quoting the version's own ETag. |
| ETag.StarMatchesAll | app/utils/etag/etag.py:24-26 | A star, blanks around it or not, matches every version. |
| Like.SearchIsSubstring | app/repositories/bookmark/repository.py:107-115 | For every term and text, the escaped pattern is well formed and LIKE finds exactly the substring. |
| Like.EscapeIsOnePass | app/repositories/bookmark/repository.py:110 | The three successive replaces equal one pass that escapes each special character once. |
| Like.BackslashMustGoFirst | app/repositories/bookmark/repository.py:110 | With the backslash replaced last this fails, already on the term "%". |
| Like.SearchEitherColumn | app/repositories/bookmark/repository.py:112-117 | Under three-valued OR a null description counts as not containing the term. |
| Like.UnescapedWildcards | app/repositories/bookmark/repository.py:108 | Unescaped, a percent sign would find every text and an underscore every text but the empty one. |
| Text.LowerExact | app/repositories/bookmark/repository.py:106-109 | lower maps each capital to its small letter and nothing else. |
| Text.StripExact | app/repositories/bookmark/repository.py:106-109 | strip removes blanks from the two ends and nothing else. |
| Text.BlankCodes | app/utils/tags/normalizer.py:23 | Which Latin-1 characters strip removes, by code. |
| Queries.SelectedExactly | app/repositories/bookmark/repository.py:101-124 | What a listing selects, in full: owner, tag and term trimmed and lower-cased, empty ones asking for nothing, dates as whole days of 86,400,000,000 microseconds. |
| Queries.StatementMeans | app/repositories/bookmark/repository.py:101-124 | For every combination of filters the SQL selects exactly the specified bookmarks, each once, join and all. |
| Queries.JoinLinksWhere | app/repositories/bookmark/repository.py:102-106 | The tag join yields a bookmark once if it carries the tag and otherwise not at all. |
| Queries.CountMeans | app/repositories/bookmark/repository.py:74-80 | count is the length of the unlimited listing for every filter combination and any order. |
| Queries.ListOffsetMeans | app/repositories/bookmark/repository.py:82-90 | LIMIT and OFFSET cut a window of the specified listing: they count bookmarks, not joined rows. |
| Queries.ListKeysetMeans | app/repositories/bookmark/repository.py:92-97 | The keyset query is the front of the specified listing below the cursor, newest id first. |
| Queries.ListingExact | app/repositories/bookmark/repository.py:85-90 | The listing holds exactly the wanted bookmarks, strictly ordered under the id tie-break, no id twice. |
| Queries.OrderIsTotal | app/repositories/bookmark/repository.py:85-89 | For every sort string the ordering is a strict total order of the rows. |
| Queries.ListingIgnoresScanOrder | app/repositories/bookmark/repository.py:89 | Two scans of the same wanted rows, in any physical order, give the same listing. |
| Queries.ScansAreKeyed | app/models/tag.py:15-17 | Any scan of tables that satisfy the schema has unique ids, links and tag names. |
| Ordering.SortUnique | app/repositories/bookmark/repository.py:89 | Whatever arrangement the database computes, if ordered it is the sorted list. |
| Listing.PagesCoverListing | app/services/bookmark/service.py:105-137 | total is the listing's length and pages 1 to total_pages concatenate to exactly the listing. |
| Listing.OffsetPageSorted | app/repositories/bookmark/repository.py:22-27 | For every sort string, on every page: items stand in the strict order of created_at, updated_at, title or id as named, downwards after a dash, ties by larger id; any other name means created_at. |
| Listing.OffsetPageFields | app/services/bookmark/service.py:105-137 | page and per_page as asked, total the listing's length, total_pages the fewest that hold it, no cursor. |
| Listing.CursorPageFields | app/services/bookmark/service.py:114-123 | page 1, no previous page, and the total and total_pages of the whole listing, cursor or not. |
| Listing.PerPage | app/services/bookmark/service.py:103 | per_page is as requested from 1 to 100, and the nearest of those otherwise. |
| Listing.HasNextMeans | app/services/bookmark/service.py:134-135 | has_next is true exactly when the next, and so some later, page has an item; has_prev exactly after page 1. |
| Listing.CursorPageMeans | app/services/bookmark/service.py:108-123 | A cursor page holds the first per_page wanted bookmarks below the cursor; it names a next cursor, its last id, exactly when more remain. |
| CursorWalk.WalkDescends | app/services/bookmark/service.py:108-123 | While anything is written between pages, ids strictly descend through the whole walk from below its start, so none is returned twice. |
| CursorWalk.WalkTerminates | app/services/bookmark/service.py:113-113 | A walk from cursor c ends within c pages, whatever is written meanwhile. |
| CursorWalk.WalkExactlyOnce | app/services/bookmark/service.py:108-123 | A finished walk returns exactly once every bookmark below its start that was there and matched throughout. |
| CursorWalk.StillWalk | app/services/bookmark/service.py:108-123 | On unchanging data a finished walk is exactly the wanted bookmarks below c in descending id order, all pages but the last full, only the last without a cursor, exact multiples included. |
| CursorWalk.StillWalkIsOffsetPages | app/services/bookmark/service.py:108-137 | From a cursor above every id it equals the concatenated offset pages under sort "-id". |
| ReadsDuringWrites.ReachableTables | app/models/bookmark.py:17-58 | In every state any run of the write protocol reaches, tables have the keys, resolved links and positive ids that the read path relies on. |
| ReadsDuringWrites.WalkDuringRun | app/services/bookmark/service.py:108-123 | A cursor walk among interleaved write sessions ends, descends, and returns each bookmark that stays wanted exactly once. |
| ReadsDuringWrites.OthersAreInvisible | app/repositories/bookmark/repository.py:101-104 | While only others' requests make progress, a user's offset pages, cursor pages, totals and statistics do not change. |
| Isolation.ListingsIsolated | app/repositories/bookmark/repository.py:101-124 | Two databases that agree on one user's bookmarks, links and linked tag names give that user the same listing under any filter, order and cursor. |
| Isolation.CountIsolated | app/repositories/bookmark/repository.py:74-80 | The same for count. |
| Isolation.StatsIsolated | app/repositories/stats/repository.py:27-85 | The same for the whole statistics report. |
| Stats.GroupByExact | app/repositories/stats/repository.py:52-57 | Grouping gives one group per key that occurs, with its number of rows; the counts sum to the rows. |
| Stats.MonthsConserveTotal | app/repositories/stats/repository.py:65-84 | Months ascend, are exactly those with bookmarks, each with its number, and sum to total_bookmarks, the number of the user's bookmarks. |
| Stats.TagCountsConserveLinks | app/repositories/stats/repository.py:49-59 | Each tag in use has one group counting the user's bookmarks that carry it; all groups together count the user's links. |
| Stats.TopTagsArePrefix | app/repositories/stats/repository.py:49-63 | top_tags has min(10, total_tags) entries and is the prefix of the ranking in which each tag has a larger count than the next, or the same count and a smaller name; so stands every listed tag to every omitted one. |
| Stats.TotalTagsIsGroups | app/repositories/stats/repository.py:36-47 | COUNT(DISTINCT t.id) is the number of tag groups. |
| LoginGuard.InMemoryLoginGuard.AssertNotLocked | app/utils/login_guard/guard.py:47-57 | Answers the remaining seconds, rounded up and at least 1, exactly while the key is locked; changes nothing. |
| LoginGuard.InMemoryLoginGuard.RecordFailure | app/utils/login_guard/guard.py:59-69 | Changes this key's entry as the window rule says and no other entry, with entries shared by reference. |
| LoginGuard.InMemoryLoginGuard.RecordSuccess | app/utils/login_guard/guard.py:71-73 | Forgets this key and no other. |
| LoginGuard.AuthService.Login | app/services/auth/service.py:52-67 | Refused exactly while the key is locked; otherwise welcomed only as a registered user with that address and a password that verifies, and rejected exactly when there is none; the guard's state is that of the specified login. |
| LoginGuard.AuthService.Register | app/services/auth/service.py:35-50 | Stores the cleaned address; a conflict exactly when the address or, failing that, the user name is taken; addresses stay clean and unique. |
| LoginGuard.AnySpellingFinds | app/repositories/user/repository.py:19-20 | A written address finds a registered user exactly when its clean form is that user's address. |
| LoginRuns.RunProjects | app/services/auth/service.py:52-67 | In any run whose attempts on one key are sequential, other keys overlapping at will, that key's failures since its last success are never inside a lock and alone make up its entry. |
| LoginRuns.FailuresPerLockout | app/utils/login_guard/guard.py:47-69 | Per key, with only that key's attempts sequential: between two successes any half-open interval as long as the lockout contains at most max(M, 2M - 2) admitted failures. |
| LoginRuns.BoundIsAttained | app/utils/login_guard/guard.py:59-69 | For every configuration some run attains that bound, even one in which no two logins overlap. |
| LoginRuns.KeepsToMaxIff | app/utils/login_guard/guard.py:3-7 | Every key whose attempts are sequential keeps to M failures per lockout-long interval, in all runs, exactly when M is at most 2. |
| LoginRuns.MemoryShape | app/utils/login_guard/guard.py:63-69 | Count, window end and lock after a failure, in terms of the failure times alone. |
| LoginRuns.RetryAfterIsLeast | app/utils/login_guard/guard.py:51-52 | Per key, at any time not before its own last attempt: retry_after is the least whole number of seconds after which an attempt is not refused, between 1 and the lockout. |
| LoginRuns.AttemptsDuringLock | app/services/auth/service.py:54 | While a key is locked any number of attempts on it, amid any others, are refused and change nothing. |
| LoginRuns.LockEnds | app/utils/login_guard/guard.py:50-57 | In any run, after any attempts made during a lock and anything on other keys, an attempt retry_after seconds after the refusal is judged by its credentials. |
| LoginRuns.OtherKeysIrrelevant | app/utils/login_guard/guard.py:43-45 | What the guard holds and answers for a key depends only on attempts under that normalised key. |

## Left out

- FastAPI routing, Pydantic schemas, OpenAPI, error rendering, middleware and settings: plumbing over libraries. The normaliser's check that every item is a string is the type of its argument here.
- bcrypt and JWT: verification is an uninterpreted predicate, hashes are opaque strings, tokens are not produced; the constant-time dummy verification has no effect on state or answer.
- The slowapi rate limiter: its algorithm is in the library.
- Isolation levels below commit granularity, SQLite's and PostgreSQL's locking, and the statement order inside one flush: a commit is one step.
- Deleting a user and the cascade to the user's bookmarks: no endpoint does it.
- Unicode case folding, `lower` beyond ASCII, `strip` beyond Latin-1, collations that identify different names, time zones, and float rounding in `math.ceil(total / per_page)` and in clock differences.
- ETag.Decimal: versions are unbounded, so the 32-bit limit of the version column is not modelled.
- BookmarkService.BookmarkService.Update: states the outcome of a request that nothing interrupts; what interruption does is stated for the transition system and for BookmarkRepository.Update on arbitrary stale loads.
- LoginRuns.FailuresPerLockout: covers keys whose own attempts are sequential. Overlapping calls on one key read the clock before the mutex (`app/utils/login_guard/guard.py:48-49`), may see readings out of order, and can all pass the check before any records.
- LoginGuard.AuthService.Register: one registration at a time; two at once rely on the unique columns of the database.
- Isolation.StatsIsolated: assumes the collation tells any two tag names of a database apart; otherwise the order of equal counts is the database's choice.
- Alembic migrations, the seeding script, container files and connection pooling: configuration.
