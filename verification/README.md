# A Dafny model of todo-rust

This project models the parts of the todo-rust web application that carry an argument, and proves
what they promise. `dafny verify dfyconfig.toml` checks all of it.

| file | models |
|---|---|
| `TokenBucket.dfy` | one client's token bucket: decisions over whole traces, windows, lock races |
| `Rejections.dfy` | when a rejected request leaves no trace in later decisions |
| `RateLimiter.dfy` | the shared limiter, the choice of the client address, the threads that stamp before they lock |
| `Todos.dfy` | the todos table and the page that the browser updates in place |
| `CachedTodos.dfy` | the read-through cache and its handlers run one at a time |
| `CacheProtocol.dfy` | the same handlers interleaved, with failing calls, expiry and cancellation |
| `Staleness.dfy` | exactly when the rows in that cache are stale |
| `FileTree.dfy`, `Assets.dfy` | directory trees, content-hashed names, the asset manifest in both directions |
| `OtelContext.dfy` | the guard stack that keeps the OpenTelemetry context in step with open spans |
| `TimeMarkup.dfy` | escaping and the `<time>` element, with a reader for both |
| `Users.dfy`, `Locale.dfy` | accounts, preference patches, and the language a page is rendered in |
| `Preview.dfy` | the template preview: its index and the page that renders one story |
| `Text.dfy`, `Orders.dfy` | string operations and sorting used by the others |

What is worth knowing before reading:

- **Rate limiter.** Levels and times are reals. The clock is read before the lock is taken, so the
  stamps of consecutive critical sections can step back. `RaceIsOrderedRunOnWarpedClock` shows that
  a racing limiter takes exactly the decisions of an ordered one on a clock that stands still at
  every backward step; the bound for races follows. The bound without the backward term is the
  right one for exactly the ordered traces (`PlainBoundIffOrdered`), and it does break at the
  router's limits (`SixInNoTime`). A rejected request may matter to later ones under a race;
  `InvisibleIffBetweenOrLast` says exactly when it cannot.
- **Listings.** `ORDER BY completed ASC, created_at DESC` leaves ties open, so a listing is a
  predicate on sequences (`IsListing`), and unique when creation times differ (`ListingIsUnique`).
- **Cache.** The code does not keep the cache coherent under interleaving (`StaleAfterRace`).
  Proved instead: the only three ways an entry can be stale, how old it can be at most, when exactly
  a hit is stale (`CurrentIffTouchedRowsComeAndGone`), and that serial runs refine the uncached
  service.
- **Forwarded address.** The comment on `client_ip_from_headers` speaks of the rightmost entry if it
  parses; the code takes the rightmost entry that parses, and only on the first of several header
  lines (`SecondLineIsIgnored`). The model follows the code.
- **Hashed names.** The comment on `resolve_hashed_request` speaks of `<dir>/<name>.<8hex>.<ext>`; the
  code compares with the values of the manifest, and `inject_hash` splits at the last dot of the
  whole path, directories included, or appends. The model follows the code.
- **Spans that are not found.** `on_enter` returns without a guard while `on_exit` still pops one.
  The guards then fall out of step on exactly the traces that are not `Clean`
  (`GuardsInStepIffClean`). Whether the wrong context becomes current depends on the contexts too:
  it does on exactly those traces if entering a found span always changes the context
  (`IsCurrentIffClean`), and need not otherwise (`BareSpanHidesForeignPop`). A balanced trace
  restores a fresh thread in any case (`BalancedRestores`).
- **Saved locales.** The comment on `override_from_profile` asks every authenticated handler to call
  it; the login and signup forms do not, even for a logged-in user (`ChosenLocaleIsUsed`).

## Model

| member | source | states |
|---|---|---|
| TokenBucket.LevelIsLeastSlack | crates/app/src/middleware/rate_limit.rs:72-81 | closed form: the level any schedule leaves in the bucket is the least allowance left in a window ending at the last request |
| TokenBucket.TokensStayInRange | crates/app/src/middleware/rate_limit.rs:68-81 | tokens stay between zero and the burst for every trace, ordered or not |
| TokenBucket.CheckConforms | crates/app/src/middleware/rate_limit.rs:65-82 | with stamps in order no window of any trace admits more than burst plus rate times its length |
| TokenBucket.GreedyOptimal | crates/app/src/middleware/rate_limit.rs:65-82 | after every prefix at least as many requests are admitted as by any other schedule that obeys the same rate and burst |
| TokenBucket.AdmitsIffStillConforms | crates/app/src/middleware/rate_limit.rs:76-81 | a request is admitted exactly when admitting it keeps every window within the allowance, a description without tokens that fixes every decision |
| TokenBucket.AdmitsAllIffWindowsFit | crates/app/src/middleware/rate_limit.rs:65-82 | nobody is rejected exactly when every sub-window i..j has at most burst + rate*(t_j - t_i) requests |
| TokenBucket.RaceIsOrderedRunOnWarpedClock | crates/app/src/middleware/rate_limit.rs:66-75 | for stamps in any lock order the decisions and tokens are those of an ordered run on the clock that stands still at backward steps |
| TokenBucket.WarpNonDecreasing | crates/app/src/middleware/rate_limit.rs:66-75 | that clock never steps back, so everything said of ordered traces applies to it |
| TokenBucket.RaceWindowBound | crates/app/src/middleware/rate_limit.rs:66-75 | any run of consecutive critical sections admits at most burst plus rate times (last - first stamp + all backward steps) |
| TokenBucket.RaceAdmitsIffStillConforms | crates/app/src/middleware/rate_limit.rs:66-81 | for stamps in any order, a request is admitted exactly when that keeps every window within the allowance on the clock that stands still at backward steps |
| TokenBucket.PlainBoundIffOrdered | crates/app/src/middleware/rate_limit.rs:66-75 | the bound without backward steps holds at every rate and burst if and only if the stamps reach the lock in order |
| TokenBucket.SixInNoTime | crates/app/src/router.rs:50-51 | at the router's own limits, a racing trace on which six requests pass in a window of length zero |
| Rejections.RejectionsAreInvisible | crates/app/src/middleware/rate_limit.rs:68-81 | removing a rejected request whose stamp lies between its neighbours' leaves every other decision unchanged |
| Rejections.InvisibleIffBetweenOrLast | crates/app/src/middleware/rate_limit.rs:66-81 | for every trace and index: at all limits a rejection there leaves no trace in the other decisions if and only if the stamp lies between its neighbours' or no later stamp steps forward |
| Rejections.OrderedIsBetween | crates/app/src/middleware/rate_limit.rs:68-81 | in an ordered trace every request meets that condition |
| Rejections.RejectionVisibleUnderRace | crates/app/src/middleware/rate_limit.rs:66-75 | a racing trace on which a rejected request makes a later one admitted |
| RateLimiting.RateLimiter.constructor | crates/app/src/middleware/rate_limit.rs:36-45 | a new limiter has no buckets, is enabled and does not trust forwarding |
| RateLimiting.RateLimiter.TrustForwardedFor | crates/app/src/middleware/rate_limit.rs:47-53 | sets only the trust flag |
| RateLimiting.RateLimiter.SetEnabled | crates/app/src/middleware/rate_limit.rs:55-63 | sets only the enabled flag |
| RateLimiting.RateLimiter.CheckAddress | crates/app/src/middleware/rate_limit.rs:65-82 | the answer extends the answers the address would get from a limiter of its own; no other bucket changes |
| RateLimiting.RateLimiter.Handle | crates/app/src/middleware/rate_limit.rs:85-111 | switched off it passes everything and touches nothing; switched on it answers 429 exactly when the key's own bucket rejects |
| RateLimiting.LastAppendedAddressWins | crates/app/src/middleware/rate_limit.rs:113-122 | with forwarding trusted the key is the address appended last to the first header line, whatever precedes it and whatever lines follow; an appended piece that is no address leaves the key as it was |
| RateLimiting.AddressAfterComma | crates/app/src/middleware/rate_limit.rs:117-121 | after any visible ASCII text, a comma and perhaps a space, an address of hexadecimal digits, dots and colons is the key |
| RateLimiting.OtherTextIsNoHeader | crates/app/src/middleware/rate_limit.rs:118-118 | a first line with a character outside visible ASCII, space and tab counts as no header |
| RateLimiting.SecondLineIsIgnored | crates/app/src/middleware/rate_limit.rs:118-118 | of two addresses on two header lines the first is the key, and of the same two on one line the second |
| RateLimiting.AddedLineWinsIffFirst | crates/app/src/middleware/rate_limit.rs:118-121 | whatever address is appended as a line of its own becomes the key if and only if there was no header line before |
| RateLimiting.OtherwiseThePeer | crates/app/src/middleware/rate_limit.rs:94-101 | without trust, or without an address in the first header line, the key is the peer's address, 0.0.0.0 if there is none |
| RateLimiting.IpIndependence | crates/app/src/middleware/rate_limit.rs:65-82 | in every interleaving of stamping and locking threads, an address is answered as if its requests were replayed alone |
| RateLimiting.AdmissionBoundUnderRaces | crates/app/src/middleware/rate_limit.rs:65-82 | the race bound for every address in every interleaving |
| RateLimiting.SerialStampsAreOrdered | crates/app/src/middleware/rate_limit.rs:66-67 | if never two stamped requests wait, every address's stamps are in lock order |
| RateLimiting.AtMostTenPerMinute | crates/app/src/router.rs:50-51 | with the router's constants at most ten requests of an address pass in sixty seconds, backward steps counted |
| RateLimiting.AtMostTenPerMinuteWithoutOverlap | crates/app/src/router.rs:50-51 | at most ten in any sixty seconds when threads do not overlap |
| Todos.TodoRepository.ListForUser | crates/storage/src/todo_repo.rs:22-33 | exactly the user's rows, each once, open ones before completed ones, among equals the later created first |
| Todos.TodoRepository.Create | crates/storage/src/todo_repo.rs:36-50 | succeeds if and only if the id is free and the trimmed title is 1..280 long, and then adds an open row with that title and both times now; else nothing changes |
| Todos.TodoRepository.Get | crates/storage/src/todo_repo.rs:53-64 | the row if and only if the user owns it |
| Todos.TodoRepository.Update | crates/storage/src/todo_repo.rs:67-89 | succeeds if and only if the user owns the row and the title it would have is 1..280 long; a given title (trimmed) or mark is stored, one not given stays, the time of change is now, and nothing else moves; NotFound exactly without such a row |
| Todos.TodoRepository.Toggle | crates/storage/src/todo_repo.rs:92-103 | succeeds if and only if the user owns the row; only the mark, negated, and the time of change move, in this row alone, and the row returned is the row stored |
| Todos.ToggleBack | crates/storage/src/todo_repo.rs:92-103 | two toggles leave the table as it was but for that row's time of change |
| Todos.TodoRepository.Delete | crates/storage/src/todo_repo.rs:106-117 | succeeds if and only if the user owns the row, and removes it alone; else NotFound and nothing changes |
| Todos.ListingIsUnique | crates/storage/src/todo_repo.rs:22-33 | with distinct creation times all results of list_for_user are the same sequence |
| Todos.WriteOutdatesListings | crates/storage/src/todo_repo.rs:36-117 | every successful create, toggle or delete makes every earlier listing wrong, which is why handlers invalidate |
| Todos.ValidatedTitleFitsIffNotBlank | crates/domain/src/todo.rs:52-56 | a title that passes validation satisfies the column's constraint once trimmed if and only if it is not blank |
| Todos.WritesKeepTitles | migrations/20260101000001_init.sql:16-23 | stored titles are always trimmed and 1..280 long; exactly which creates succeed |
| Todos.ClickInFull | templates/partials/todo.html:6-30 | a new row is put first, a changed one stays in its place, a deleted one leaves the others in theirs, a refused write changes nothing |
| Todos.PageIsPermutationOfReload | templates/partials/todo.html:6-30 | after any clicks in any order the page holds exactly the rows of a reload, with equal contents |
| Todos.PageEqualsReload | templates/index.html:23-24 | with creates (each the latest) and deletes only, the page is a result of list_for_user, order included |
| CachedTodos.Cache.Get | crates/app/src/cache.rs:37-70 | a value if and only if enabled, reachable, present, not past its expiry and decodable, and then the stored one |
| CachedTodos.Cache.Put | crates/app/src/cache.rs:73-102 | the value with an expiry the whole seconds of the given or default time to live from now; a failing or disabled cache, or less than a second, changes nothing |
| CachedTodos.Cache.Invalidate | crates/app/src/cache.rs:105-118 | removes the key, and no other, unless the call fails or the cache is disabled |
| CachedTodos.Cache.GetOrCompute | crates/app/src/cache.rs:122-139 | the cached value, else the database's answer to a query made only then, stored if it is no error |
| CachedTodos.AppState.ListTodosCached | crates/app/src/state.rs:57-69 | a live entry of the user is the answer and is left alone; else the answer is a genuine listing, stored to expire at now + 60 s unless the SET fails, or the database's error |
| CachedTodos.HitsAreRecent | crates/app/src/state.rs:61-62 | in every serial run, rows answered without the database were fetched for the same user by a call at most sixty seconds earlier |
| CachedTodos.AppState.InvalidateTodosCache | crates/app/src/state.rs:72-78 | drops exactly the user's entry |
| CachedTodos.AppState.HandleCreate | crates/app/src/routes/todos.rs:43-75 | refuses a raw title outside 1..280 untouched; else adds exactly the row of the trimmed title, when it fits and the id is free, and then drops the user's entry and no other; a failed insert drops nothing |
| CachedTodos.AppState.HandleToggle | crates/app/src/routes/todos.rs:78-100 | negates the mark of an owned row, leaves its title, owner and creation time and all other rows, and then drops the user's entry and no other; NotFound changes nothing |
| CachedTodos.AppState.HandleDelete | crates/app/src/routes/todos.rs:103-113 | removes an owned row alone and then drops the user's entry and no other; NotFound changes nothing |
| CachedTodos.ServeKeepsCoherence | crates/app/src/state.rs:50-78 | a handler run alone keeps every decodable entry a current listing |
| CachedTodos.SerialRefinement | crates/app/src/state.rs:50-78 | over every serial run in which DELs succeed, writes answer as without a cache and lists are results of list_for_user at that moment, for any expiry, eviction, damage and failing GET or SET |
| CachedTodos.UsersAreIndependent | crates/app/src/state.rs:50-78 | what a user is served, and the user's rows and entry, are what the user's own calls alone would give |
| CacheProtocol.OnlyCausesOfStaleness | crates/app/src/cache.rs:122-139 | in every reachable state of interleaved handlers a stale hit implies a writer that committed since the fetch and has yet to DEL, a DEL lost since, or a reader that stored after a DEL what it fetched before the commit |
| CacheProtocol.BoundedStaleness | crates/app/src/state.rs:57-69 | even if every DEL is lost, a hit was stored at most 60.0 seconds ago and was the database's answer when it was fetched, the filling reader's fetch-to-SET time before that |
| Staleness.CurrentIffTouchedRowsRestored | crates/app/src/cache.rs:122-139 | in every reachable state a hit is the current list if and only if each todo on which the user committed since the fetch is again exactly what it was at the fetch |
| Staleness.CurrentIffTouchedRowsComeAndGone | crates/app/src/routes/todos.rs:64-65 | for any number of commits: as long as no commit on a todo since the fetch repeats the time of an earlier one on it, a hit is current if and only if every todo committed on since was the user's neither at the fetch nor is now |
| Staleness.CurrentIffNothingCommitted | crates/app/src/routes/todos.rs:64-65 | with commit times that ascend and any number of commits without a delete since the fetch, a hit is current if and only if there was none |
| Staleness.StaleIffCommitted | crates/app/src/routes/todos.rs:64-65 | with at most one commit since the fetch, whatever its time, a hit is current if and only if there was none |
| CacheProtocol.StaleAfterRace | crates/app/src/cache.rs:133-138 | a concrete run with no lost DEL after which a stale list is served |
| CacheProtocol.StaleUntilDeleted | crates/app/src/routes/todos.rs:64-65 | a concrete run that serves a stale list between commit and DEL, and after a lost DEL |
| CacheProtocol.MissAnswersFromTheDatabase | crates/app/src/cache.rs:136-138 | the rows a reader answers with after a miss are what the database listed at a step of this very read, when the reader had missed, and it has held them ever since |
| Assets.HexShort | crates/assets/src/manifest.rs:123-129 | eight characters of 0-9 and a-f, two for each of the first four bytes in order, whose values make 16 * first + second the byte |
| Assets.DeadBeef | crates/assets/src/manifest.rs:126-126 | the bytes de ad be ef are written deadbeef |
| Assets.HexPrefixDetermines | crates/assets/src/manifest.rs:123-129 | the hexadecimal text determines the bytes |
| Assets.HashedNameIs | crates/assets/src/manifest.rs:131-139 | stem.ext becomes stem.hash.ext for an extension without a dot, whatever the stem; a path without a dot gets .hash at its end |
| Assets.EjectInvertsInject | crates/assets/src/manifest.rs:131-139 | a hashed name comes apart into exactly its path and hash, dotless paths and dots in directories included |
| Assets.InjectInvertsEject | crates/assets/src/manifest.rs:131-139 | only hashed names come apart |
| Assets.InjectIsInjective | crates/assets/src/manifest.rs:131-139 | different paths or hashes never give the same name |
| Assets.UnknownResolvesToItself | crates/assets/src/manifest.rs:53-61 | a path outside the manifest, and every path in development, resolves to itself |
| Assets.ResolveHashedRequest | crates/assets/src/manifest.rs:63-75 | in any scan order, on a manifest of hashed names, answers root/l exactly for the hashed name of a key l, and nothing else |
| Assets.OpenFile.Read | crates/assets/src/manifest.rs:112-112 | a read gives some next bytes, none exactly at the end |
| Assets.HashFile | crates/assets/src/manifest.rs:104-121 | the first four bytes of the digest of the whole content in hexadecimal, for every way the reads may split it |
| Assets.ManifestBuilder.WalkFiles | crates/assets/src/manifest.rs:78-102 | terminates on every finite tree, fails exactly when something needed cannot be read, else records the files met |
| Assets.Production | crates/assets/src/manifest.rs:34-38 | a manifest exactly when the whole walk succeeds |
| Assets.WalkableIff | crates/assets/src/manifest.rs:78-102 | the walk succeeds if and only if no path leads to a directory that cannot be opened, nor to an unreadable file other than a .gz or .br |
| Assets.ManifestIsExact | crates/assets/src/manifest.rs:78-102 | the keys are exactly the files that are not .gz or .br, each mapped to its path with the hash of its own content |
| Assets.ManifestNames | crates/assets/src/manifest.rs:94-99 | each file that is not .gz or .br has an entry: its path with the first four bytes of its own content's digest in hexadecimal before the extension, or at the end |
| Assets.ManifestIgnoresOrder | crates/assets/src/manifest.rs:83-100 | for trees whose directories enumerate the same entries in any other order at every depth: one walk succeeds exactly if the other does, and then the manifests are equal |
| FileTree.FilesAreLookups | crates/assets/src/manifest.rs:83-89 | a walk meets a file exactly when looking its path up finds it |
| FileTree.ReadableIffNoBrokenDir | crates/assets/src/manifest.rs:83-84 | a walk opens every directory if and only if no path leads to one that cannot be opened |
| FileTree.PermutedIsReordered | crates/assets/src/manifest.rs:83-84 | any permutation of a directory's entries is such a reordering |
| FileTree.FilesReordered | crates/assets/src/manifest.rs:83-100 | reordered trees have the same files with the same contents |
| FileTree.ReadableReordered | crates/assets/src/manifest.rs:83-84 | and fail to open a directory together |
| OtelContext.OtelContextLayer.Enter | crates/observability/src/otel_context_layer.rs:39-74 | nothing for a span not found; otherwise a guard of the previous context, and with data the span's own ids, the parent's where missing, sampled and local, become current |
| OtelContext.OtelContextLayer.Exit | crates/observability/src/otel_context_layer.rs:76-80 | the guard pushed last is gone and its context current; nothing without a guard |
| OtelContext.CurrentIsInnermost | crates/observability/src/otel_context_layer.rs:39-80 | when every span is found, after every prefix the current context is the innermost open span's, and a balanced trace restores context and guards |
| OtelContext.CleanRun | crates/observability/src/otel_context_layer.rs:39-80 | the whole thread state after a clean trace, spans that are not found included |
| OtelContext.IsCurrentIffClean | crates/observability/src/otel_context_layer.rs:39-80 | if entering a found span always changes the context, the innermost open span is current after every prefix if and only if no span that is not found is exited while a found one is open |
| OtelContext.GuardsInStepIffClean | crates/observability/src/otel_context_layer.rs:40-79 | whatever the contexts, the guards are as many as the found open spans after every prefix if and only if no span that is not found is exited while a found one is open |
| OtelContext.BareSpanHidesForeignPop | crates/observability/src/otel_context_layer.rs:44-50 | a trace with such an exit on which the right context is current all along, because the found span has no data |
| OtelContext.UnfoundSpanLosesContext | crates/observability/src/otel_context_layer.rs:40-40 | a trace after which a traced span is open but not current |
| OtelContext.BalancedRestores | crates/observability/src/otel_context_layer.rs:76-80 | a balanced trace restores a fresh thread even with spans that are not found |
| OtelContext.ThreadsAreIndependent | crates/observability/src/otel_context_layer.rs:28-30 | a thread's state depends on its own events alone in every interleaving |
| OtelContext.ContextFollowsTheSpan | crates/observability/src/otel_context_layer.rs:13-16 | on whatever thread a task's span is innermost, the current context carries that span's own trace and span ids, the parent's where it has none |
| OtelContext.BalancedThreadIsRestored | crates/observability/src/otel_context_layer.rs:13-16 | in every interleaving a thread whose spans are closed has its original context and no guards |
| TimeMarkup.EscapeAttr | crates/i18n/src/minijinja.rs:113-126 | output without quotes and angle brackets that unescapes to the input |
| TimeMarkup.EscapeText | crates/i18n/src/minijinja.rs:132-143 | output without angle brackets that unescapes to the input |
| TimeMarkup.MarkupIsWritten | crates/i18n/src/minijinja.rs:113-143 | the reference written for each of the five characters, wherever it stands, in attributes and in text |
| TimeMarkup.UnescapeInverts | crates/i18n/src/minijinja.rs:113-143 | unescaping inverts both escapes for every string, whatever follows |
| TimeMarkup.RenderTime | crates/i18n/src/minijinja.rs:48-53 | the element is read back as its three strings in front of any markup, and for strings without markup it is the literal tag with datetime and data-style |
| TimeMarkup.ParseInvertsPrint | crates/i18n/src/minijinja.rs:48-53 | print/parse round trip with any markup following |
| TimeMarkup.PrintIsInjective | crates/i18n/src/minijinja.rs:48-53 | different contents never print alike |
| Users.UserRepository.Create | crates/storage/src/user_repo.rs:31-58 | succeeds if and only if the id is free and no account's folded email equals that of the trimmed one, and then adds exactly the account with that email, hash and time and no preferences; else Conflict and nothing changes |
| Users.CreateSucceedsIff | migrations/20260101000001_init.sql:14-14 | the same after every run: a signup goes through exactly when its id is fresh and the email finds nobody |
| Users.AccountsStay | crates/storage/src/user_repo.rs:31-170 | no operation removes an account or changes its email, hash or creation time |
| Users.UserRepository.FindByEmail | crates/storage/src/user_repo.rs:75-86 | some stored account whose folded email equals the folded trimmed one, or none exactly if there is none |
| Users.UserRepository.Verify | crates/storage/src/user_repo.rs:93-120 | a stored account with that email whose hash verifies; none for an unknown email, and for a known one only if a matching hash does not verify |
| Users.UserRepository.UpdatePreferences | crates/storage/src/user_repo.rs:125-170 | for each of the two fields: not given stays, the empty string clears, anything else is stored; no other field, account or unknown id is touched |
| Users.AlwaysUnique | migrations/20260101000001_init.sql:14-14 | in every reachable state at most one account matches any email |
| Users.LookupIsDeterministic | crates/storage/src/user_repo.rs:75-86 | LIMIT 1 has no choice in any reachable state |
| Users.VerifyFindsTheAccount | crates/storage/src/user_repo.rs:93-120 | after a successful create and any later operations, verify answers that account for every email equal up to case and space, exactly if the password verifies, and no one else can take the address |
| Users.SurroundingSpaceIsIgnored | crates/storage/src/user_repo.rs:82-100 | white space around an email never changes what it matches |
| Users.LastSetIsLast | crates/storage/src/user_repo.rs:122-123 | the value that survives is the last one that was not skipped |
| Users.PatchesCollapse | crates/storage/src/user_repo.rs:122-170 | any sequence of patches equals one with the last value not skipped of each field |
| Users.TablePatchesCollapse | crates/storage/src/user_repo.rs:122-170 | the same on the table |
| Locale.UpdateLocale | crates/app/src/routes/preferences.rs:31-60 | accepts exactly en, es, fr and de after trimming, then sets the cookie to it and the saved locale of a logged-in account, and nothing else |
| Locale.SavedLocalesAreSupported | crates/app/src/routes/preferences.rs:37-49 | in every reachable state each saved locale is null or supported |
| Locale.Precedence | crates/i18n/src/locale.rs:19-43 | profile, then cookie, then the first language negotiated from the header, then English; a source that does not name a supported language counts as absent |
| Locale.RequestDecides | crates/i18n/src/locale.rs:25-65 | in every reachable state a form, and a page of an account without a saved locale, is in the cookie's language if it names a supported one, else in the first one negotiated from Accept-Language, else in English |
| Locale.UnusableCookieIsIgnored | crates/i18n/src/locale.rs:28-31 | a cookie that names no supported language changes no page of anybody |
| Locale.PagesAreInSupportedLanguages | crates/app/src/render.rs:31-45 | in every reachable state every page, forms included, is in a supported language, except exactly the preview pages asked for a parseable locale of another one; pages that need a login are refused exactly without one |
| Locale.ChosenLocaleIsUsed | crates/app/src/render.rs:31-45 | after an account's accepted choice and until its next, a page has that language whatever the browser's headers say if and only if it needs a login or is a preview page asked for that language: the login and signup forms ignore the account |
| Locale.AcceptedCookieIsUsed | crates/app/src/routes/auth.rs:21-40 | in every reachable state the cookie of an accepted choice, sent back, is the page's language if and only if the page is a form, or needs a login of an account that has saved no locale or that one, or is a preview page asked for that language |
| Locale.PreviewLanguage | crates/app/src/preview/routes.rs:38-40 | a preview page is in the fixture's language, else the query's, else English, and in English if that does not parse |
| Preview.StoriesFor | crates/app/src/preview/fixtures.rs:148-178 | the sorted stories of a fixture directory, none if it is missing, an error if it cannot be listed |
| Preview.NameOrder | crates/app/src/preview/fixtures.rs:171-176 | the comparator is a strict total order on names |
| Preview.StoriesAre | crates/app/src/preview/fixtures.rs:148-178 | the stories are exactly the .toml files with a stem, in strict order |
| Preview.StoriesInFull | crates/app/src/preview/fixtures.rs:148-178 | for the template stem.html: the directory stem, every file name.toml in it as the story name with that file, no other items, default first and the others by name; none without the directory, an error if it cannot be listed |
| Preview.DefaultComesFirst | crates/app/src/preview/fixtures.rs:171-176 | default leads whenever its fixture exists |
| Preview.StoriesIgnoreOrder | crates/app/src/preview/fixtures.rs:148-178 | the order a fixture directory enumerates in does not show |
| Preview.TemplateWalk.WalkTemplates | crates/app/src/preview/fixtures.rs:111-146 | pushes an entry for each template met, fails exactly when a directory cannot be read |
| Preview.Discover | crates/app/src/preview/fixtures.rs:101-109 | the index as a function of the two trees |
| Preview.IndexIs | crates/app/src/preview/fixtures.rs:101-146 | the index holds exactly the .html files that do not start with an underscore, sorted by path, each with its stories |
| Preview.IndexedIff | crates/app/src/preview/fixtures.rs:101-146 | there is an index if and only if no path leads to a directory that cannot be opened and each template's fixture directory is missing or can be listed |
| Preview.IndexIgnoresOrder | crates/app/src/preview/fixtures.rs:101-146 | when template and fixture directories enumerate in any other order at every depth, the answer is the same: no index, or an equal one |
| Preview.SplitsAgain | crates/app/src/preview/routes.rs:165-170 | splitting undoes joining a template path and a story |
| Preview.ListedStoriesRender | crates/app/src/preview/routes.rs:102-116 | the path of every listed story is split into the same pair and loads the very fixture the index names |
| Preview.PageIff | crates/app/src/preview/routes.rs:102-116 | a page is found if and only if its path is that of a file, a slash and a story that the file's fixture directory has an item for |
| Preview.FixturePath | crates/app/src/preview/routes.rs:111-116 | the page of stem.html/story loads story.toml in the fixture directory stem |
| Preview.ListedIffRendered | crates/app/src/preview/routes.rs:102-116 | for every file of the tree and every story, the page finds a fixture if and only if the story is listed, or the file is no template, or the story is empty, or the fixture is a directory |
| Text.TextLessIs | crates/app/src/preview/fixtures.rs:107-107 | the order on paths: a proper beginning comes first, else the first place that differs decides |
| Text.WhiteCharacters | crates/storage/src/todo_repo.rs:38-38 | what counts as white space for trimming: the twenty-five characters with that Unicode property |

## Left out

- `find_by_id` of the accounts: a lookup by key with nothing to prove beyond it; that accounts stay is `Users.AccountsStay`.
- f64 rounding in the limiter: levels are reals, so the last-bit behaviour of the sums is not modelled.
- SHA-256, argon2, LOWER, serde, the parser of IP addresses and the language library are parameters; a UUID is identified with its text. Assumed are only a digest of at least four bytes that depends on the bytes in order, an address parser that reads at least two addresses, supported names that parse to themselves, and negotiation that answers supported languages.
- OpenTelemetry's own stack: dropping a guard puts back the context it replaced, which is how version 0.26 does it.
- Redis: the server and the application share one clock, and a call that reports failure has had no effect; a SET that lands late is a reader that stores late.
- Todos.TodoRepository.ListForUser: the sort is the database's; the model builds one result by insertion, and only the predicate on results is used elsewhere.
- The browser: only fragments of successful writes by the same page are swapped in; error responses and other tabs are not modelled.
- Locale.UpdateLocale: the response's status, the Secure flag and the redirect target are not modelled, because they do not bear on the language.
- Time zones follow the same override as locales and are modelled only as a stored preference.
- Preview: loading and parsing the TOML, and merging it over the ambient context, are not modelled but for the `_locale` it may set; nor are non-UTF-8 names, symbolic links and names with backslashes.
- Deleting users, sessions, HTML templates, metrics, tracing calls, configuration, compression negotiation of assets and everything under deploy, docker, k6 and docs.
