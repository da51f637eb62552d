# Bookstore backend: a verified model

A Dafny model of the stateful core of an online bookstore, with proofs of what its algorithms and
protocols promise:

- the main recommendation feed: weighted sampling, capped picking, four cursor-driven sources, the
  slot blender, the trimmed list of what a session has been shown, and the signed cursor token;
- the rebuild of a user's recommendation profile by producers and delayed workers that share a lock,
  a pending flag and a version counter;
- orders, payments and stock, including webhooks that repeat and the sweep of expired orders;
- refresh sessions in Redis, token rotation and replay handling;
- the two search stores beside Postgres: incremental reconciliation of the vector store, single-book
  syncs and full reindexes;
- keyset pagination and fixed-window rate limits;
- what the assistant remembers about books it has already recommended.

`dafny verify dfyconfig.toml` checks everything.

## How it is built

Each component has a module with its values, a functional description of every operation and the
lemmas about it. Code that changes things step by step is also written that way: classes such as
`OrderTransactions.Database`, `RefreshStore.JwtRefreshSessions`, `QdrantCollection.BooksCollection` or
`Feed.MainFeed` keep the fields the program keeps, and each method ends in exactly the result and state
its functional description gives. Protocols are state machines; a run is any sequence of their steps.

- Random draws, shuffles and answers of the vector store are parameters constrained by what they
  guarantee: a draw with replacement from a pool, a permutation, a search that honours its exclusion
  filter and its limit. A database query returns the first rows, in the order asked for, of those the
  filter selects (`Catalog.Answers`).
- Scores, ratings, prices and weights are integers of their smallest unit or do not appear; so are the
  fractional numbers of JSON. MD5, JSON, the keyed hash and the embedding model are functions, injective
  where the code relies on it; `Encodings` constructs functions that meet each of these assumptions.
- One Redis command is one step in the profile protocol. Sessions, carts, orders and feeds are changed
  by one operation at a time. Over a feed session the catalogue stays as it is.

## What the code does not do

Seven promises hold only under a condition; the condition is proved, for all inputs or all runs.

- An event whose version increment and refused flag both fall between a worker's second version read
  and its delete of the pending flag starts no update (`ProfileProtocol.WindowLosesAnEvent`). It is lost
  exactly when that worker had seen no new version and no later event sets the flag again
  (`ProfileWindow.LostExactly`). A delayed task that finds the lock still taken is dropped; the flag is
  stranded exactly then, and every later event is lost (`ProfileStranded.QuietFlagMeansDropped`,
  `ProfileStranded.EventAfterDropIsLost`).
- The popular cursor keeps pages apart without the exclusion list exactly when a page holds one book, or
  no two of the books it is drawn from tie at a score that a whole page of them, or all, reach
  (`PopularTies.ShownAgainExactlyOnTies`). The books a page is drawn from are the unexcluded ones among the
  first ten pages' worth past the cursor.
- A capped page keeps its caps as soon as 2 * limit - 2 books of the pool do, and no sooner
  (`CapThreshold.DefaultThreshold`; for all caps `CapThreshold.ThresholdIsSharp`).
- A limit of n messages per window admits up to 2n - 1 in an interval of that length, more than n exactly
  when n and the length are at least 2 (`RateLimitSlack.SlackExactly`).
- A confirmation repeated for a payment row that does not exist clears the cart again
  (`Orders.RepeatedConfirmAndCart`).
- A full reindex of Elasticsearch over an empty table deletes nothing (`SearchStores.ReindexIsEqualUnlessEmpty`).
- A cursor that is the id 0 counts as no cursor (`BookListings.ZeroIdNeverPasses`).

A feed token whose signature holds a character outside ASCII is not refused as invalid: comparing it
raises (`CursorCodec.DecodeExactly`).

## Model

| member | source | states |
|---|---|---|
| WeightedSample.SampleIsFull | app/product/service/infrastructure/query_handlers/book/main_reco.py:159-216 | a weighted sample is distinct by key, from the pool, and exactly min(limit, distinct keys) long, whatever was drawn |
| WeightedSample.FullSampleIsPermutation | app/product/service/infrastructure/query_handlers/book/main_reco.py:159-216 | sampling a whole pool is a random rearrangement of it, nothing lost |
| WeightedSample.Run | app/product/service/infrastructure/query_handlers/book/main_reco.py:159-216 | the draw-and-deduplicate loop with its top-up computes the sample above |
| CappedPick.PickIsFull | app/product/service/infrastructure/query_handlers/book/main_reco.py:256-328 | exactly min(limit, pool size) distinct books, all from the pool |
| CappedPick.PickNearOptimal | app/product/service/infrastructure/query_handlers/book/main_reco.py:256-328 | if any 2 * limit - 1 books fit both caps, the picked page fits both caps |
| CapThreshold.ThresholdIsSharp | app/product/service/infrastructure/query_handlers/book/main_reco.py:256-328 | for all caps of at least 1 and all limits of at least 1: n books within the caps guarantee a page within them if and only if n exceeds the number of books that the full groups of limit - 1 picks can block, or the page is no longer than either cap |
| CapThreshold.DefaultThreshold | app/product/service/infrastructure/query_handlers/book/main_reco.py:256-328 | with the caps of two that are used and an even page of four or more, 2 * limit - 2 such books are enough and one fewer is not |
| CappedPick.MaximalIsHalf | app/product/service/infrastructure/query_handlers/book/main_reco.py:282-316 | a selection to which nothing can be added under two caps is at least half of any feasible one |
| CappedPick.DiversifiedPick | app/product/service/infrastructure/query_handlers/book/main_reco.py:256-328 | the three phases with their count dictionaries give the greedy capped pick of the sample, then of the pool, then the uncapped fill |
| CappedPick.Picker.Offer | app/product/service/infrastructure/query_handlers/book/main_reco.py:282-304 | one candidate is taken exactly when it is new and neither its category nor its author is full |
| PickOrder.DrawnComeFirst | app/product/service/infrastructure/query_handlers/book/main_reco.py:308-326 | when the drawn books alone admit a selection within the caps beyond the threshold, every book on the page is a drawn one |
| PickOrder.DrawnInOrder | app/product/service/infrastructure/query_handlers/book/main_reco.py:308-316 | the first min(limit, drawn) drawn books, if they fit the caps together, begin the page in the order drawn |
| PickOrder.NoGroupNoCap | app/product/service/infrastructure/query_handlers/book/main_reco.py:282-304 | books without a category or author, or with the id 0 for one, are never held back |
| Blender.PageIsFull | app/product/service/infrastructure/query_handlers/book/main_reco.py:1103-1173 | for any four lists and any shuffle: distinct ids, min(20, offered ids) of them, with the first slot-count ids of every source |
| Blender.BlendMeetsQuota | app/product/service/infrastructure/query_handlers/book/main_reco.py:1126-1173 | every slot of a source consumes one more id of that source, under any fallback order |
| Blender.NothingIsDropped | app/product/service/infrastructure/query_handlers/book/main_reco.py:1126-1173 | when sources keep to their slot counts the page is exactly their union |
| Blender.Mix | app/product/service/infrastructure/query_handlers/book/main_reco.py:1126-1156 | the loop over the shuffled slots builds that page from the four queues |
| Blender.SlotQueues.PopFrom | app/product/service/infrastructure/query_handlers/book/main_reco.py:1158-1173 | pops the first unseen id along the preferred slot and its fallback chain, dropping seen ones |
| BlendOrder.SlotTakesExactly | app/product/service/infrastructure/query_handlers/book/main_reco.py:1119-1173 | a slot takes the first unseen book of its own source, else of the first of personalized, popular, new and exploration that has one, and leaves that queue from the next book on; it stays empty exactly when none has one |
| BlendOrder.PageFollowsPattern | app/product/service/infrastructure/query_handlers/book/main_reco.py:1132-1156 | from sources that share no book and fill their slots, the i-th of the twenty books is the next one of the source whose slot is i-th |
| SlidingWindow.WindowedStream | app/product/service/infrastructure/query_handlers/book/main_reco.py:112-130 | batches that avoid the last n shown never repeat anything within n positions, over any number of batches |
| SlidingWindow.TrimAfterAppend | app/product/service/infrastructure/query_handlers/book/main_reco.py:118-130 | append-then-trim keeps exactly the end of the whole stream |
| SlidingWindow.ShownNeverRepeats | app/product/service/infrastructure/query_handlers/book/main_reco.py:1309-1316 | of a stream without repeats within n positions only part is shown: two showings of an entry have more than n positions between, those not shown counted |
| Exploration.Get | app/product/service/infrastructure/query_handlers/book/main_reco.py:444-492 | a page is the next rows on the ring, wrapping once when they run out, and excludes what it was told to |
| Exploration.StepIsNonEmpty | app/product/service/infrastructure/query_handlers/book/main_reco.py:444-492 | a page is empty exactly when no unseen book is left |
| Exploration.WalkNeverRepeats | app/product/service/infrastructure/query_handlers/book/main_reco.py:444-492 | over any walk, equal keys included, no book is returned twice and no page is empty too early |
| Exploration.WalkCompletes | app/product/service/infrastructure/query_handlers/book/main_reco.py:444-492 | with distinct keys all N unseen books are gone after ceil(N / limit) + 1 pages |
| Exploration.WalkShowsEveryBook | app/product/service/infrastructure/query_handlers/book/main_reco.py:444-492 | and each of them is on one of those pages |
| ExplorationTour.TourRecordsAll | app/product/service/infrastructure/query_handlers/book/main_reco.py:444-492 | with distinct random keys, and with exclusions that forget, interference by other sources and failing pages: after as many successful pages as there are books on sale, all of them are recorded |
| ExplorationTour.FastTour | app/product/service/infrastructure/query_handlers/book/main_reco.py:444-492 | with distinct random keys, while the exclusions forget nothing, ceil(N / limit) + 1 successful pages are enough |
| NewBooks.Get | app/product/service/infrastructure/query_handlers/book/main_reco.py:502-581 | the page is as full as the window allows and honours exclusions; it has at most two books of a category exactly when some selection of that size among the unexcluded rows has, and otherwise every category keeps two or all it has; the cursor stays exactly when the whole window is excluded |
| NewBooks.PickedIsFull | app/product/service/infrastructure/query_handlers/book/main_reco.py:541-572 | the capped loop and the top-up give min(limit, candidates) distinct books |
| NewBooks.CapExactly | app/product/service/infrastructure/query_handlers/book/main_reco.py:541-572 | the picks keep to two books a category, None being one, if and only if some selection of their size does; if none does, each category still has two, or all of its books, among them |
| NewBooks.NewestAreFetched | app/product/service/infrastructure/query_handlers/book/main_reco.py:512-527 | what is fetched is on sale, of the top categories if there are any, and below the cursor; what is left out of these is older than all that is fetched, and only when the query is full |
| NewBooks.CursorProgress | app/product/service/infrastructure/query_handlers/book/main_reco.py:520-581 | the cursor strictly decreases on every page that picks something |
| NewBooks.PagesAreDisjoint | app/product/service/infrastructure/query_handlers/book/main_reco.py:520-581 | so no two pages of a session share a book, even without exclusion |
| PopularBooks.Get | app/product/service/infrastructure/query_handlers/book/main_reco.py:593-667 | the page is the weighted sample of the unexcluded rows past the cursor, full as far as they go, and the next cursor is the lowest row of it; only an empty first query falls back to top sales |
| PopularBooks.FallbackTopSales | app/product/service/infrastructure/query_handlers/book/main_reco.py:669-686 | the fallback page is the capped pick of the unexcluded cold pool, full as far as the pool goes |
| PopularBooks.MostPopularAreFetched | app/product/service/infrastructure/query_handlers/book/main_reco.py:604-638 | what is fetched is on sale, has a positive score and lies past the cursor in the (score, id) order; what is left out of these lies behind all that is fetched, and only when the query is full |
| PopularBooks.CursorProgress | app/product/service/infrastructure/query_handlers/book/main_reco.py:617-667 | each time it is set, the (score, id) cursor lies strictly further down the order |
| PopularTies.ShownAgainExactlyOnTies | app/product/service/infrastructure/query_handlers/book/main_reco.py:617-667 | before the call: some draw shows a book that the next cursor leaves ahead if and only if the page holds at least 2 and, among the unexcluded books of the query's window, two tie at a score that at least min(limit, all) of them reach |
| PopularTies.SmallCatalogue | app/product/service/infrastructure/query_handlers/book/main_reco.py:617-667 | when the eligible books fit into one query and nothing is excluded, those books are all the eligible ones |
| PopularTies.PagesAreDisjoint | app/product/service/infrastructure/query_handlers/book/main_reco.py:617-667 | with pairwise different scores no two pages of a session share a book, even without exclusion |
| PopularBooks.TiedBookComesBack | app/product/service/infrastructure/query_handlers/book/main_reco.py:617-667 | two books of one score on a page: the second comes back |
| Personalized.Get | app/product/service/infrastructure/query_handlers/book/main_reco.py:708-903 | every branch returns at most limit ids, none excluded, none purchased, moves the status as the mode rules say, and the ids are those of the mode it ends in: the vector search, the similar users, or the cold start by categories or from the shared pool |
| Personalized.WeightedDiversify | app/product/service/infrastructure/query_handlers/book/main_reco.py:931-1003 | the loop takes the sample greedily under the caps, then fills from the rest |
| PersonalizedPages.CandidatesExactly | app/product/service/infrastructure/query_handlers/book/main_reco.py:962-980 | exactly the points with a payload can be picked, under the category and author their payload names |
| PersonalizedPages.VectorPageIsFull | app/product/service/infrastructure/query_handlers/book/main_reco.py:949-994 | a vector page has min(limit, drawn points with a payload) distinct books; with payloads on all points, min(limit, points) |
| PersonalizedPages.VectorPageKeepsCaps | app/product/service/infrastructure/query_handlers/book/main_reco.py:957-994 | it keeps both caps whenever the drawn points admit more books within them than the threshold |
| PersonalizedPages.ColdPages | app/product/service/infrastructure/query_handlers/book/main_reco.py:1005-1091 | without a vector the page holds unexcluded books of the user's categories, or of the shared pool, distinct and as many as asked for or as there are |
| Collaborative.CollaborativePicks | app/product/service/infrastructure/query_handlers/book/main_reco.py:822-903 | nothing without similar users or categories; else what is not excluded of a weighted sample of the points found in the page's ten categories, distinct and at most limit |
| Collaborative.ScoreCategories | app/product/service/infrastructure/query_handlers/book/main_reco.py:841-852 | the nested loops give every category any similar user names the sum of the users' scores divided by its place with them, and no other category |
| Collaborative.PlaceWeights | app/product/service/infrastructure/query_handlers/book/main_reco.py:841-852 | a user gives the category in the i-th place of his own his score divided by i + 1, and others nothing |
| Collaborative.GivenAdds | app/product/service/infrastructure/query_handlers/book/main_reco.py:841-852 | what several users give is added up, user by user |
| Collaborative.BestCategoriesFirst | app/product/service/infrastructure/query_handlers/book/main_reco.py:854-868 | the first three pages ask for ten categories none of the others is given more than |
| Collaborative.EchelonsWalkTheRanking | app/product/service/infrastructure/query_handlers/book/main_reco.py:854-868 | page by page the categories asked for go down the whole ranking in tens, three pages each, then stay with the best ten |
| Personalized.ModeOverSession | app/product/service/infrastructure/query_handlers/book/main_reco.py:708-820 | over any session, failed pages and missing vectors included: the mode is the vector mode if and only if since the user last had no vector every page was filled and began below the offset limit; the offsets count those pages |
| Personalized.CollaborativeIsKept | app/product/service/infrastructure/query_handlers/book/main_reco.py:740-820 | collaborative mode is never left while the user has a vector, and its offset grows by one limit a page |
| Personalized.LeavingCollaborative | app/product/service/infrastructure/query_handlers/book/main_reco.py:708-820 | one page leaves collaborative mode exactly when it is served without a vector |
| Personalized.EveryCategoryIsAskedFor | app/product/service/infrastructure/query_handlers/book/main_reco.py:790-878 | within 3 * ceil(n / 10) served pages of leaving the vector mode, failed pages in between or not, each of the n ranked categories is asked for, while the user keeps a vector and the ranking stays |
| FeedSources.Gather | app/product/service/infrastructure/query_handlers/book/main_reco.py:1228-1276 | whichever sources fail, each that succeeds gives its own answer to this cursor, profile and exclusion list, keeps its slot count and exclusions, and moves its own part of the cursor |
| Feed.MainFeed.ForUser | app/product/service/infrastructure/query_handlers/book/main_reco.py:1204-1337 | one request: the page is the union of the sources, the seen list and impressions are appended and trimmed and nobody else's change, a next cursor is given exactly when a book is shown; every session, whatever requests of others come between, stays a run of such requests |
| Feed.MainFeed.AddSeen | app/product/service/infrastructure/query_handlers/book/main_reco.py:118-130 | the session's list becomes its last 400 entries and no other session changes |
| Feed.MainFeed.AddImpressions | app/product/service/infrastructure/query_handlers/book/main_reco.py:144-156 | the user's impressions become their last 300 and nobody else's change |
| Feed.MainFeed.EnsureNewSessionAllowed | app/product/service/infrastructure/query_handlers/book/main_reco.py:96-110 | a new session is counted in the user's window and refused past the limit |
| Feed.FailureIsContained | app/product/service/infrastructure/query_handlers/book/main_reco.py:1244-1333 | a failed source gives no ids and leaves its cursor fields as they were; one that succeeds gives all its ids to its own slots and sets its own fields; no source touches another's |
| Feed.VisibleExactly | app/product/service/infrastructure/query_handlers/book/main_reco.py:1309-1316 | of the page exactly the books the repository still finds are shown, in the page's order |
| Feed.SeenIsRecent | app/product/service/infrastructure/query_handlers/book/main_reco.py:112-130 | the trimmed Redis list is always the last 400 ids of everything shown |
| Feed.SessionNeverRepeats | app/product/service/infrastructure/query_handlers/book/main_reco.py:1204-1316 | over any number of pages, two occurrences of a book are more than 400 positions apart |
| Feed.MainFeed.EverySessionIsFresh | app/product/service/infrastructure/query_handlers/book/main_reco.py:1204-1316 | so in every session the store has served, picks keep that distance and the stored list is the last 400 of them |
| Feed.ReaderNeverSeesRepeat | app/product/service/infrastructure/query_handlers/book/main_reco.py:1309-1316 | of what the reader is shown: a book comes again only after more than 400 places, picked books that no longer exist counted; without such books, 400 places of the shown pages |
| FeedSession.ForUser | app/product/service/infrastructure/query_handlers/book/main_reco.py:1204-1337 | the whole request, from reading the session's list to the next cursor: whatever the databases answer and whichever sources fail, the pages served remain a session, each page made of the sources' own answers and asked for with the cursor the page before gave |
| FeedSession.NewPicksNeverRepeat | app/product/service/infrastructure/query_handlers/book/main_reco.py:1244-1333 | over a whole session, whichever sources fail on the way, the new-books source never gives a book twice |
| FeedSession.PopularCursorDescends | app/product/service/infrastructure/query_handlers/book/main_reco.py:1237-1333 | over a session the popular (score, id) cursor never goes back, failures and empty pages included |
| FeedSession.PopularStep | app/product/service/infrastructure/query_handlers/book/main_reco.py:1237-1333 | a page on which the popular source gives a cursor hands exactly that one on, further down than the one before |
| FeedSession.PersonalizedFollows | app/product/service/infrastructure/query_handlers/book/main_reco.py:1318-1333 | over a session, failures included, every page is asked for with the mode and offsets that the personalized outcomes of the pages before it lead to |
| FeedSession.SessionMode | app/product/service/infrastructure/query_handlers/book/main_reco.py:1228-1333 | so a session is in the vector mode if and only if since the user last had no vector every page was filled and began below the offset limit; the offsets count those pages |
| FeedSession.CursorCountsPages | app/product/service/infrastructure/query_handlers/book/main_reco.py:1318-1333 | page numbers count the pages, seed and session stay, score and id are set together |
| FeedExploration.EveryBookComesUp | app/product/service/infrastructure/query_handlers/book/main_reco.py:444-492 | over a session of any length with distinct keys: once exploration has succeeded on as many pages as there are books on sale, each of them has been picked, although the list remembers only 400 and any page may fail |
| FeedExploration.EveryBookComesUpSooner | app/product/service/infrastructure/query_handlers/book/main_reco.py:444-492 | in a session of at most 400 picks, ceil(N / 2) + 1 pages with exploration are enough |
| FeedExploration.WalkGoesOn | app/product/service/infrastructure/query_handlers/book/main_reco.py:453-492 | the walk of a session starts at the key drawn from its seed and goes on where the last successful step ended |
| CursorCodec.CursorRoundTrips | app/product/dto/book/main_reco.py:45-117 | decode(encode(c)) = c for every cursor that validates, null fields included |
| CursorCodec.FeedCursorRoundTrips | app/product/dto/book/main_reco.py:45-100 | feed cursors come back as themselves and no two share a token |
| CursorCodec.AcceptedIsSignedAndValid | app/product/dto/book/main_reco.py:65-117 | an accepted token is a payload with its own signature, and its cursor passes validation |
| CursorCodec.DecodeExactly | app/product/dto/book/main_reco.py:65-117 | a token raises if and only if a character that is not ASCII follows its last dot and something precedes it; it is accepted if and only if it carries its payload's signature and the payload reads as a valid cursor; the rest are the client's error |
| CursorCodec.SignedObjectReadsExactly | app/product/dto/book/main_reco.py:75-117 | a signed object is accepted if and only if it has a session id of 1 to 64 characters, an integer seed, a page and offsets from 0 and one of the two modes, the offsets and mode being optional; each field is then the value under its name or its default |
| CursorCodec.OlderTokensStillRead | app/product/dto/book/main_reco.py:76-88 | a token with only session, seed and page reads as that session at its start |
| Encodings.LawfulLibraryExists | app/product/dto/book/main_reco.py:45-63 | there are JSON functions that read back every object they write, in ASCII, with a signature in ASCII that holds no dot: all that the cursor theorems assume |
| CursorCodec.Base64RoundTrip | app/product/dto/book/main_reco.py:59-76 | base64url with padding decodes to the bytes it was made from |
| ProfileProtocol.AtMostOneUpdate | app/client/service/infrastructure/user/reco_profile.py:92-109 | in every interleaving at most one worker is past the lock |
| ProfileProtocol.NoEventIsLost | app/client/service/infrastructure/user/reco_profile.py:522-592 | once all is quiet every finished event was committed before a completed update began, unless it fell into the delete window |
| ProfileWindow.LostExactly | app/client/service/infrastructure/user/reco_profile.py:522-592 | in every run in which no task was dropped, once all is quiet: a finished event is lost if and only if it was missed in the window of a delete whose worker read the same version twice and the flag was never set again |
| ProfileWindow.WindowExactly | app/client/service/infrastructure/user/reco_profile.py:548-568 | whatever a delete by such a worker leaves uncovered is covered in the end if and only if the flag is set again after it |
| ProfileWindow.CoveredExactlyIfSetAgain | app/client/service/infrastructure/user/reco_profile.py:522-592 | at any moment without the flag, an uncovered event is covered in the end if and only if the flag is set again, by whatever event |
| ProfileProtocol.TaskFindsFlag | app/client/service/infrastructure/user/reco_profile.py:534-546 | while no task was dropped, a task that gets the lock finds the flag set |
| ProfileProtocol.WindowLosesAnEvent | app/client/service/infrastructure/user/reco_profile.py:558-568 | a run in which the window loses an event, with no task dropped |
| ProfileProtocol.DroppedTaskLosesAnEvent | app/client/service/infrastructure/user/reco_profile.py:526-536 | a run in which a dropped task leaves the flag set with nobody to act on it |
| ProfileStranded.NothingHappensAfterDrop | app/client/service/infrastructure/user/reco_profile.py:526-536 | in every run, from the first dropped task on: the flag stays set, no task is queued and no update completes |
| ProfileStranded.EventAfterDropIsLost | app/client/service/infrastructure/user/reco_profile.py:526-536 | an event recorded after a drop is never covered, whatever follows |
| ProfileStranded.QuietFlagMeansDropped | app/client/service/infrastructure/user/reco_profile.py:526-592 | once all is quiet the flag is still set if and only if a task was dropped |
| ProfileWorker.RecoStore.Build | app/client/service/infrastructure/user/reco_profile.py:522-592 | the worker's code, others acting between any two commands and any command raising but the attempt to set the flag again and the release of the lock, is a run of the protocol; it raises only where a command does, and does nothing but take its task when the lock is taken; an update covers every event committed before the call; after an exception the lock is released and the task queued again |
| ProfileWorker.RecoStore.Rebuild | app/client/service/infrastructure/user/reco_profile.py:496-520 | sets the flag again and queues one task if it was gone, keeping all history; queueing may raise |
| ProfileWorker.RecoStore.UpdateUserRecoProfile | app/product/service/usecase/book/personal_reco.py:213-252 | the producer's code is a run of the protocol that ends with the event finished |
| Orders.StockIsConserved | app/order/usecase/order/purchase.py:107-138 | over every run: stock + PENDING + PAID copies = initial sum + copies of orders moved from CANCELED to PAID, and stock is never negative |
| Orders.ReserveTakes | app/order/usecase/order/purchase.py:107-121 | a reservation takes exactly the copies asked for, a book listed twice included, and never goes below zero |
| Orders.BuyConserves | app/order/usecase/order/purchase.py:86-155 | a purchase moves copies from the shelf to a PENDING order, or changes nothing |
| Orders.CancelConserves | app/order/usecase/order/cancel.py:34-58 | a cancellation moves copies back to the shelf, or changes nothing |
| Orders.ConfirmConserves | app/order/usecase/order/confirm_payment.py:30-56 | a confirmation leaves the shelf alone and adds copies only when it revives a canceled order |
| Orders.PaidIsForever | app/order/usecase/order/confirm_payment.py:36-50 | PAID is never left, PENDING never re-entered, a successful payment keeps its intent |
| Orders.PaymentFollowsOrder | app/order/usecase/order/purchase.py:104-148 | over every run whose confirmations name an order with its own payment: one payment per order, of the order's total (`OrderMoney.BuyCharges`), PENDING, SUCCESS or FAILED as the order is PENDING, PAID or CANCELED |
| Orders.CancelSucceedsOnce | app/order/usecase/order/cancel.py:34-58 | `cancel` answers True at most once per order, whatever happens in between |
| Orders.ConfirmIsIdempotent | app/order/usecase/order/confirm_payment.py:36-56 | a repeated confirmation of an existing payment changes nothing, cart rows added since included |
| Orders.RepeatedConfirmAndCart | app/order/usecase/order/confirm_payment.py:39-56 | a repeated confirmation is idempotent for a later cart row if and only if the payment exists or the order does not concern that row |
| Orders.FailedCheckoutHasNoEffect | app/order/usecase/order/purchase.py:198-203 | a purchase that fails at an item, or at checkout with its cancellation completed, leaves every stock as it was |
| OrderMoney.BuyCharges | app/order/usecase/order/purchase.py:104-148 | a purchase charges, to its order and its payment, exactly what the copies it takes off the shelf were worth, price times quantity; the lines are the items at the books' prices, and nothing else changes among orders and payments |
| OrderMoney.ReserveSucceedsExactly | app/order/usecase/order/purchase.py:107-121 | reserving item by item succeeds if and only if every item is for a positive number of an available book that has the copies all items together want of it |
| OrderMoney.BuySucceedsExactly | app/order/usecase/order/purchase.py:72-121 | a purchase succeeds if and only if it has one to ten items, the buyer exists, no book is held by another transaction and the items can be had together; else the error names the first of these to fail, and the first item that cannot be had |
| OrderMoney.CancelSucceedsExactly | app/order/usecase/order/cancel.py:34-58 | an order is canceled if and only if it is pending and none of its books is held; a held book is an error, anything else answers False |
| OrderMoney.PurchaseCompletes | app/order/usecase/order/confirm_payment.py:30-56 | bought, checked out and confirmed: the order is paid, its payment records checkout and intent, the copies stay off the shelf, and of the cart exactly the buyer's rows for those books go |
| OrderTransactions.Database.ReserveOrder | app/order/usecase/order/purchase.py:86-155 | the in-place reservation commits the whole order or puts every row back, with the right error; what it charges and when it succeeds are `OrderMoney.BuyCharges` and `OrderMoney.BuySucceedsExactly` |
| OrderTransactions.Database.TakeCopies | app/order/usecase/order/purchase.py:104-138 | the loop over the items takes the copies, adds up the total and writes the lines, or stops at the first item that cannot be had |
| OrderTransactions.Database.CancelOrder | app/order/usecase/order/cancel.py:34-58 | order and payment are changed before the books are locked, and a lock failure undoes both |
| OrderTransactions.Database.ConfirmOrder | app/order/usecase/order/confirm_payment.py:30-56 | payment, order and cart end as the confirmation says |
| OrderTransactions.Database.BuyBooks | app/order/usecase/order/purchase.py:72-214 | the three transactions together: an error changes nothing, a failed checkout cancels, a good one stores its session |
| OrderTransactions.Database.CancelExpired | app/order/service/infrastructure/taskiq/tasks/order/cancel_expired.py:29-74 | the periodic job's loop is the sweep over the first hundred expired ids and counts what it canceled |
| OrderTransactions.SweepCancelsExactly | app/order/service/infrastructure/taskiq/tasks/order/cancel_expired.py:53-74 | whatever is locked, exactly the listed orders that can be canceled are, and the count is theirs |
| OrderTransactions.SweepIsRun | app/order/service/infrastructure/taskiq/tasks/order/cancel_expired.py:53-74 | a sweep is a run of cancel steps, so conservation covers it |
| OrderTransactions.BacklogIsDrained | app/order/db/sqlalchemy/repositories/order.py:42-58 | with no book held, n sweeps remove exactly min(backlog, 100 n) expired orders |
| OrderTransactions.FirstHundred | app/order/db/sqlalchemy/repositories/order.py:42-58 | a sweep is given the hundred lowest ids, or all, of the orders that are PENDING and were created before the cutoff |
| OrderTransactions.StaleOrdersGo | app/order/service/infrastructure/taskiq/tasks/order/cancel_expired.py:53-74 | with no book held, as many sweeps as there are hundreds of them cancel exactly the PENDING orders created before the cutoff and leave all others as they were |
| RefreshSessions.IndexAgreesAlways | app/client/service/infrastructure/jwt/refresh_session.py:14-90 | at every clock time after every serial run: live keys are indexed, the index outlives them, nobody exceeds the maximum |
| RefreshSessions.EvictionSparesLive | app/client/service/infrastructure/jwt/refresh_session.py:25-41 | making room drops a live session only when no indexed one has expired, and never another user's |
| RefreshSessions.LogoutAllLeavesNone | app/client/service/infrastructure/jwt/refresh_session.py:71-91 | logging out everywhere leaves the user no live session and touches nobody else's |
| RefreshSessions.TokenIsExchangedOnce | app/client/service/usecase/jwt/refresh_update.py:31-70 | a refresh token is exchanged at most once; presented again while it decodes, it leaves its owner without a live session |
| RefreshSessions.LiveTokenRefreshes | app/client/service/usecase/jwt/refresh_update.py:31-61 | a token whose session lives refreshes it for an active user |
| RefreshLifetimes.CreateExactly | app/client/service/infrastructure/jwt/refresh_session.py:14-57 | creating a session adds it to the keys and to its owner's set; below the maximum nothing goes for it, at the maximum exactly the oldest of that user; other users' sets stay |
| RefreshLifetimes.SessionLivesOn | app/client/service/infrastructure/jwt/refresh_session.py:14-57 | over every serial run: the session a login or an exchange starts lives until its time is up, unless it is logged out or presented, all of its owner's are ended, or its owner was given the maximum of other sessions in the same second or later |
| RefreshLifetimes.LogoutsEnd | app/client/service/usecase/user/logout.py:11-24 | a logout ends its session and no other; a logout everywhere ends all of the owner's and no others |
| RefreshLifetimes.InactiveLeavesNone | app/client/service/usecase/jwt/refresh_update.py:39-45 | a live token of an inactive account is refused and the account is left without a live session, nobody else affected |
| RefreshStore.JwtRefreshSessions.Create | app/client/service/infrastructure/jwt/refresh_session.py:14-57 | key by key, creates the session, evicting the oldest at the maximum and only then (`RefreshLifetimes.CreateExactly`) |
| RefreshStore.JwtRefreshSessions.Remove | app/client/service/infrastructure/jwt/refresh_session.py:64-69 | deletes key and member; an emptied index is gone |
| RefreshStore.JwtRefreshSessions.RemoveAllUserSessions | app/client/service/infrastructure/jwt/refresh_session.py:71-91 | deletes every indexed key and the index |
| RefreshStore.JwtRefreshSessions.Update | app/client/service/usecase/jwt/refresh_update.py:31-70 | check, replay handling, inactive account, removal and creation in the code's order |
| RefreshStore.FindOldest | app/client/service/infrastructure/jwt/refresh_session.py:26-33 | the member of lowest score, ties by member, is found |
| QdrantBooks.ReconcileIsRebuild | app/product/db/qdrant/collections/books.py:184-241 | from any collection with true hashes, reconciling ends with what a rebuild gives |
| QdrantBooks.NothingToDoWhenRight | app/product/db/qdrant/collections/books.py:202-219 | a run writes nothing if and only if the collection is already the rebuilt one |
| QdrantBooks.SecondRunIsIdle | app/product/db/qdrant/collections/books.py:184-241 | the hash invariant is kept and a second run embeds, updates and deletes nothing |
| QdrantBooks.UnchangedIsRight | app/product/db/qdrant/collections/books.py:205-214 | a book counts as unchanged exactly when its point is already right; a payload update finds the right vector in place |
| QdrantBooks.PointFollowsExcerpt | app/product/db/qdrant/collections/books.py:28-49 | of the description exactly the first 1000 characters matter to a point, an empty one counting as none |
| QdrantBooks.PointShowsPayload | app/product/db/qdrant/collections/books.py:92-117 | a change of any payload field is noticed |
| BookEdits.EditIsNoticedExactly | app/product/db/qdrant/collections/books.py:28-117 | after an edit of one field a right point is embedded again exactly if the title, a name, the year (0 and none alike) or the first 1000 characters of the description changed; of the other edits, overwritten exactly if a field other than the description changed; else left alone |
| BookEdits.BatchesAreSlices | app/product/db/qdrant/collections/books.py:82-140 | the books to embed go out once each, in order, a hundred at a time |
| QdrantBooks.InterruptedRunConverges | app/product/db/qdrant/collections/books.py:221-234 | after any number of its writes a run may stop, and the next one still ends right, over whatever books there are then |
| Encodings.InjectiveToolsExist | app/product/db/qdrant/collections/books.py:24-116 | there are a hash without collisions and a JSON text that tells all payloads apart |
| QdrantCollection.BooksCollection.Reconcile | app/product/db/qdrant/collections/books.py:184-241 | scrolling, comparing and writing give the rebuilt collection and true statistics |
| QdrantCollection.BooksCollection.ExistingHashes | app/product/db/qdrant/collections/books.py:158-182 | scrolling page by page finds the hashes of every point once |
| QdrantCollection.BooksCollection.EmbedAndUpsert | app/product/db/qdrant/collections/books.py:122-140 | embedding in batches of 100 writes the point of every book |
| SearchStores.StoresConverge | app/product/service/infrastructure/taskiq/tasks/book/sync_book.py:31-56 | over every interleaving, a book unedited since its last sync agrees with Postgres in both stores; since a full reindex, in that store, for Elasticsearch provided the table held a book |
| SearchStores.OnlyEditsDisturb | app/product/service/infrastructure/taskiq/tasks/book/sync_book.py:31-56 | no sync, reindex or edit of another book disturbs an agreement |
| StoreEdits.EditDisturbsElasticExactly | app/product/db/elasticsearch/repositories/books.py:31-56 | an edit puts Elasticsearch behind exactly if it changes anything but the description |
| StoreEdits.EditDisturbsQdrantExactly | app/product/service/infrastructure/taskiq/tasks/book/sync_book.py:31-56 | an edit of one field puts the vector store behind exactly if it changes whether the book is available, or the book is available and the edit is one that would be embedded or overwritten |
| SearchStores.ReindexIsEqualUnlessEmpty | app/product/db/elasticsearch/repositories/books.py:65-83 | a full reindex equals the table if and only if the table has a book or the index held nothing |
| SearchSync.Tasks.SyncBookTask | app/product/service/infrastructure/taskiq/tasks/book/sync_book.py:21-56 | deleted books leave both stores, unavailable ones only the vector store |
| SearchSync.Tasks.ElasticIndexTask | app/product/service/infrastructure/taskiq/tasks/book/elastic_index.py:6-21 | index everything, then delete what is missing |
| SearchSync.Tasks.QdrantIndexTask | app/product/service/infrastructure/taskiq/tasks/book/qdrant_index.py:38-49 | reconcile with the available books |
| SearchSync.BooksElastic.IndexBatch | app/product/db/elasticsearch/repositories/books.py:31-56 | every document is stored under its id, later ones winning |
| SearchSync.BooksElastic.DeleteMissing | app/product/db/elasticsearch/repositories/books.py:65-83 | documents of other books go; an empty list deletes nothing |
| KeysetPaging.PagingRefinesSlicing | app/shared/db/postgres/repositories/sqlalchemy/cursor_pagination.py:36-63 | following the cursor shows exactly the pages of the plain list if and only if no full page ends in a key taken for "no cursor" |
| KeysetPaging.WalkIsListing | app/shared/db/postgres/repositories/sqlalchemy/cursor_pagination.py:36-63 | the pages concatenate to the whole list, in ceil(n / limit) pages, one for an empty list |
| KeysetPaging.NothingShownTwice | app/shared/db/postgres/repositories/sqlalchemy/cursor_pagination.py:65-92 | while rows come and go between requests, no row is on two pages |
| KeysetPaging.LastingRowIsShown | app/shared/db/postgres/repositories/sqlalchemy/cursor_pagination.py:65-92 | a row that stays in the table for the whole of a finished walk is shown |
| BookListings.NewestFirstPagesWell | app/product/db/postgres/repositories/sqlalchemy/paginators/book/cursor.py:97-117 | the newest-first listing pages without skip or repeat |
| BookListings.ByIdPagesWell | app/shared/db/postgres/repositories/sqlalchemy/cursor_pagination.py:36-63 | so does the listing by id |
| BookListings.ByPopularityPagesWell | app/product/db/postgres/repositories/sqlalchemy/paginators/book/cursor.py:27-69 | so does the listing by (score, id), equal scores included |
| BookListings.ShuffledPagesWell | app/shared/db/postgres/repositories/sqlalchemy/cursor_pagination.py:65-92 | so does the order by MD5 of id and seed, since different ids give different texts |
| BookListings.PlaceTellsBookAndSeed | app/shared/db/postgres/repositories/sqlalchemy/cursor_pagination.py:71-87 | with a collision-free hash every other seed gives every book another place, and one seed gives no two books the same |
| Encodings.InjectiveHashExists | app/shared/db/postgres/repositories/sqlalchemy/cursor_pagination.py:71 | there is a hash of texts without collisions |
| BookListings.ZeroIdNeverPasses | app/shared/db/postgres/repositories/sqlalchemy/cursor_pagination.py:43-44 | a page ending in id 0 is shown again for ever |
| RateLimits.AnySlidingWindowIsBounded | app/agents/ratelimit.py:28-48 | over every timed sequence, an interval of one ttl holds fewer than 2 * limit accepted messages, for all chained windows at once |
| RateLimitSlack.BoundIsReached | app/agents/ratelimit.py:28-48 | in any chain of windows that leaves room for it, 2 * limit - 1 accepted messages within one ttl are reached |
| RateLimitSlack.SlackExactly | app/agents/ratelimit.py:28-48 | for every window: an interval of one ttl can hold more than limit accepted messages if and only if limit and ttl are both at least 2 |
| RateLimitSlack.AgentBoundsAreExact | app/agents/ratelimit.py:28-48 | in the chain of the assistant's three windows the most in a minute, an hour and a day is exactly 19, 199 and 999 |
| RateLimitSlack.ChatBoundIsReached | app/support/usecase/escalation.py:84-97 | nine messages within ten seconds pass the support chat's limit of five |
| RateLimits.AgentRateLimiter.Check | app/agents/ratelimit.py:28-48 | the loop over the windows counts until one refuses and touches no other user |
| RateLimits.ChainExactly | app/agents/ratelimit.py:28-48 | a message is accepted if and only if every window has room for it, and is counted in each window up to the first that has none, that one included, and in no later one |
| RateLimits.SupportChatGuard.Check | app/support/usecase/escalation.py:84-97 | a muted user is refused uncounted; past the rate a violation is registered; the answers over a run are those of `ChatMutes.VerdictExactly` |
| RateLimits.SupportChatGuard.RegisterViolation | app/support/usecase/escalation.py:67-82 | the third violation in its window mutes and clears the violations |
| RateLimits.ChatIsBounded | app/support/usecase/escalation.py:67-97 | fewer than 10 messages in any 10 seconds, none while a mute lives, three over-limit messages per mute |
| ChatMutes.VerdictExactly | app/support/usecase/escalation.py:67-97 | the exact answer to every message of every run: muted if and only if a mute set in the last 60 seconds is in force, or five counted messages lie in the open ten seconds and two over-limit ones, since the last mute, in the open 300; allowed if and only if neither that mute nor those five are there |
| ChatMutes.ThirdStrikeMutes | app/support/usecase/escalation.py:67-82 | the third over-limit message within 300 seconds of the first since the last mute sets a mute, and every message of the next 60 seconds is refused |
| ChatMutes.SameRun | app/support/usecase/escalation.py:67-97 | these runs are the ones whose rate is bounded above |
| AssistantMemory.AssistantNeverRepeats | app/agents/tools/books.py:73-157 | over any number of turns, one book, or one title and author, is recommended again only after more than 100 others; ids stored in the old format count too |
| AssistantMemory.StoredIsRecent | app/agents/memory.py:107-133 | the stored entries are always the last hundred recommended |
| AssistantMemory.RecommendResult | app/agents/tools/books.py:118-132 | a turn's books are new and pairwise different by id and by title and author |
| AssistantMemory.CollapseExactly | app/agents/tools/books.py:118-132 | of the books found, the first of every title and author not shown before is kept, in order, and no other |
| AssistantMemory.RecommendIsFull | app/agents/tools/books.py:118-157 | a turn recommends five books, or one for every new title and author there is |
| AssistantMemory.KeyTellsTitleAndAuthor | app/agents/tools/books.py:118-132 | unless a title holds the separator, two books share a key exactly if their normalised titles and authors are the same |
| AssistantMemory.OldFormatIsCarriedOver | app/agents/memory.py:89-133 | ids stored in the old format are not recommended and are kept in front of the new entries |
| AssistantMemory.HistoryIsWholeExchanges | app/agents/memory.py:45-63 | the dialog history is the end of everything said and always whole question-answer pairs |
| AssistantMemory.SpokenInOrder | app/agents/memory.py:45-63 | what is said is each question followed by its own answer |
| AssistantTools.ShownBooksTracker.Get | app/agents/memory.py:89-105 | ids in either format, keys only in the current one |
| AssistantTools.ShownBooksTracker.Add | app/agents/memory.py:107-133 | unknown ids are appended, the old format is migrated, the last hundred kept |
| AssistantTools.SemanticSearch | app/agents/tools/books.py:73-164 | two-level deduplication, the limit of five, and what is remembered |
| AssistantTools.ChatHistory.Append | app/agents/memory.py:45-63 | one exchange appended, the last twenty messages kept |
| Pages.CeilDivIsCeiling | app/shared/db/postgres/repositories/sqlalchemy/cursor_pagination.py:47-51 | the page count used above is the quotient rounded up |

## Left out

- CappedPick.DiversifiedPick: asks for a limit of at least 1, since its callers pass 6 and 8; the limit 0 is not modelled.
- Collaborative.CollaborativePicks: which users are similar and how points are scored is not modelled; categories with equal scores may be ranked either way.
- ProfileProtocol.NoEventIsLost: a worker whose attempt to set the flag again, or to release the lock, raises, a broker that gives up after its retries, and expiry of the flag, lock or version key are not modelled.
- ProfileWorker.RecoStore.Build: nor are these two exceptions in the worker's code.
- ProfileStranded.NothingHappensAfterDrop: expiry of the flag, which ends the stranding after its time to live, is not modelled.
- ProfileWorker.RecoStore.UpdateUserRecoProfile: the time to live set on the version counter and the pending flag is not modelled.
- Feed.SessionNeverRepeats: pages of one session are served one after the other; expiry of the session's list and parallel requests on one cursor are not modelled.
- FeedExploration.EveryBookComesUp: the catalogue stays as it is over the session, and no two books share a random key.
- Orders.StockIsConserved: each transaction is one step; finer interleavings of transactions on one order row, which the code does not lock, and the states an administrator sets by hand are not modelled.
- OrderTransactions.Database.BuyBooks: of the checkout service only success with a session id, or failure, is modelled; the names, addresses and line items sent to it are not.
- RefreshSessions.IndexAgreesAlways: operations on one user's sessions do not overlap, and an operation reads the clock once.
- SearchStores.StoresConverge: a sync task and a reindex are each one step; a task that reads Postgres, is overtaken and then writes an older row is not modelled.
- QdrantCollection.BooksCollection.Reconcile: nothing else writes to the collection during a run; the lock that keeps two runs apart is not modelled.
- BookListings.ByPopularityPagesWell: the text of the popularity cursor is not modelled; its score and id are taken to come back as they were.
- CursorCodec.CursorRoundTrips: the base64 decoder of the model refuses characters outside the alphabet, which the library skips; JSON is a pair of functions that read back what they write.
- CursorCodec.DecodeExactly: strings hold no lone surrogates, on which encoding the payload would raise.
- AssistantMemory.AssistantNeverRepeats: expiry of the stored books and of the dialog history is not modelled.
- RateLimits.AgentRateLimiter.Check: the turn lock and letting messages through when Redis is down are not modelled.
- Weights, cosine scores, time decay, profile vectors and the normalisation of cold-start scores: floating point; the proofs hold for any weights.
- Web endpoints, templates, admin views, chat transport, mail, the language model and its prompts: interface and foreign services.
- JWT signing, password hashing and one-time codes: library cryptography; tokens are genuine and ids fresh.
- Wishlist, cart and address edits, reviews, chat assignment: easy beside the rest.
