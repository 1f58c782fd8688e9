# Offline cache router and page checks of contabilizador-transpneus

This project models the two parts of the repository that contain decision
logic.

- `service-worker.js` is the offline cache router of the web app. The
  install handler opens the current cache generation (`contabilizador-v1`)
  and adds the application shell to it. The activate handler deletes every
  other cache. The fetch handler sorts each request into one of three
  policies:
  - the shell, cache first with a fallback to `/index.html`;
  - images, cache first with no fallback;
  - everything else, network first with the cache as fallback.
- `run_checks.js` is a local check script. The model covers three of its
  steps:
  - the loop that extracts inline `<script>` bodies with a global,
    case-insensitive regular expression;
  - the search for a Chrome/Chromium binary;
  - the final summary, which sets the process exit code to 2 when the page
    reported errors and to 0 otherwise.

`ServiceWorker` (`service_worker.dfy`) models cache storage as a class,
`CacheStorage`. Its fields are:

- the store names in creation order, which is also the order `caches.match`
  searches them;
- a map from store name to store.

The handlers are methods that update this storage. The network is an
oracle: a function from request key to either a response (with its status)
or a network error.

`RunChecks` (`run_checks.dfy`) models the regular expression
`/<script[^>]*>([\s\S]*?)<\/script>/gi` as the scan its backtracking
amounts to:

- find the first `<script`, ignoring ASCII case;
- then the first `>` after it;
- then the first `</script>` after that.

The scan is proved equal to the declarative meaning of a leftmost regex
match. `trim` strips exactly the ECMAScript white-space and line-terminator
characters. `Wrappers` (`wrappers.dfy`) holds the `Option` type.

Behaviour of the code that the model makes explicit:

- On a shell cache hit the code returns the cached response and does no
  fetch, so there is no background refresh (service-worker.js:25).
  `CacheFirstKeepsFirstAnswer` proves the consequence: a later, different
  network answer is never seen.
- The image branch has no `catch`. A miss while offline therefore rejects
  the `respondWith` promise (`Rejected`).
- The network-first branch answers `undefined` (`Respond(None)`) when both
  the network and the cache miss. `NetworkFirstNeverCaches` shows such a
  case.
- `"."` in the asset list can never equal a URL pathname, because a
  pathname starts with `/`. Only `/index.html` and `/manifest.webmanifest`
  select the shell branch by path (`ShellByPathname`).

## Model

| member | source | states |
|---|---|---|
| RunChecks.InlineScripts | run_checks.js:21-27 | the `scripts` array holds at most one script per match of the regular expression, each non-empty and trimmed |
| RunChecks.Trim | run_checks.js:25 | `trim` returns the slice of its input that has no white space at either end, and everything it cuts off at the front and at the back is white space |
| RunChecks.TrimEmptyIff | run_checks.js:25-26 | a trimmed capture is empty, and so skipped, exactly when the capture is all white space |
| RunChecks.TrimmedIsFixed | run_checks.js:25 | trimming a string with no white space at either end leaves it unchanged |
| RunChecks.FindFrom | run_checks.js:22 | the search for a tag returns the first index at or after the start where the tag occurs, ignoring ASCII case, or nothing when it occurs nowhere after the start |
| RunChecks.NextMatch | run_checks.js:22-24 | `exec` from `lastIndex` returns a regex match that starts at or after `lastIndex`, ends inside the text and is leftmost (no `<script` is skipped before it); when it returns null, no regex match starts at or after `lastIndex` |
| RunChecks.Matches | run_checks.js:24 | every match the global `exec` loop visits is a genuine match of the regular expression |
| RunChecks.MatchesInDocumentOrder | run_checks.js:22-24 | the visited matches come in document order and never overlap; from where the search resumes, no `<script` is skipped before the next match |
| RunChecks.MatchesAreExhaustive | run_checks.js:24 | when the loop stops, no regex match starts after the end of the last match visited |
| RunChecks.TrimmedCaptures | run_checks.js:25-26 | the pushed scripts number at most the matches, and each of them is non-empty and trimmed |
| RunChecks.ExtractInlineScripts | run_checks.js:20-27 | the `while`/`exec` loop yields exactly the trimmed, non-empty bodies of all visited matches, in document order |
| RunChecks.ScriptsAreTrimmed | run_checks.js:25-26 | every extracted script is non-empty and is left unchanged by a further `trim` |
| RunChecks.NoClosingTagNoScripts | run_checks.js:22-27 | markup with no `</script>` after the end of any `<script` yields no scripts |
| RunChecks.EnvPath | run_checks.js:53 | a non-empty `CHROME_BIN` wins. Otherwise the result is `CHROME_PATH`. The result is empty exactly when both variables are unset or empty |
| RunChecks.FindChromeBinary | run_checks.js:52-68 | a returned path exists. An existing `CHROME_BIN`, or `CHROME_PATH` when `CHROME_BIN` is empty, wins. Otherwise the result is the first existing candidate in list order. Null is returned exactly when neither the override nor any candidate exists |
| RunChecks.Errors | run_checks.js:139 | the filter keeps exactly the messages of type `"error"`, and nothing else |
| RunChecks.ErrorsOfConcat | run_checks.js:139 | the filter keeps order: it works piecewise on a concatenation of message lists |
| RunChecks.ExitCode | run_checks.js:145-146 | the exit code is 2 exactly when some captured message is a page error, and 0 exactly when none is |
| RunChecks.CapturedMessages | run_checks.js:70-146 | the run exits with code 2 exactly when a browser binary was found and the page reported an error; otherwise it exits with 0 |
| RunChecks.NoBrowserExitsZero | run_checks.js:70-75 | a run without a browser binary always exits with code 0 |
| ServiceWorker.Classify | service-worker.js:23-35 | the shell branch is taken exactly for a navigation or a request whose pathname is an asset; the image branch exactly for any other request whose destination is an image; the catch-all branch exactly for the rest |
| ServiceWorker.NavigationIsShell | service-worker.js:23 | a navigation takes the shell branch, even when its destination is an image |
| ServiceWorker.ShellByPathname | service-worker.js:23 | for a request that is not a navigation and whose pathname starts with `/`, the shell branch is taken exactly for `/index.html` and `/manifest.webmanifest`; the image branch is taken exactly for other image requests |
| ServiceWorker.FirstMatch | service-worker.js:25 | the lookup finds nothing exactly when no store (from the given position on) holds the key; otherwise it returns the entry of the first store in creation order that holds it |
| ServiceWorker.CacheStorage.Match | service-worker.js:25 | `caches.match` misses exactly when no store holds the key; otherwise it returns the entry of the first store, in creation order, that holds the key |
| ServiceWorker.CacheStorage.Open | service-worker.js:5 | `caches.open` creates an empty store, last in creation order, only when none has that name; nothing else changes |
| ServiceWorker.CacheStorage.Put | service-worker.js:27 | opening the current store and putting a response stores that response under the key and changes no other entry or store |
| ServiceWorker.CacheStorage.Delete | service-worker.js:13 | `caches.delete` reports whether the store existed, removes exactly that store and its name, and keeps the other names in order |
| ServiceWorker.FetchAll | service-worker.js:5 | the fetching half of `addAll` yields the response for every key, in order, when every fetch gave a 2xx response other than 206, and fails when some key did not |
| ServiceWorker.StoredAll | service-worker.js:5 | after a successful `addAll` every key holds its network response and every other entry is as before |
| ServiceWorker.CacheStorage.AddAll | service-worker.js:5 | `addAll` succeeds exactly when every key fetched with a 2xx status other than 206. It is all-or-nothing: on success the store holds every response; on failure nothing changes |
| ServiceWorker.Install | service-worker.js:4-7 | install succeeds exactly when all three shell assets fetch with a 2xx status other than 206. The current store exists afterwards even when `addAll` rejects. On success it holds every asset response. Other stores are untouched |
| ServiceWorker.Activate | service-worker.js:9-16 | activate leaves only the current store, with its contents unchanged, if it existed, and no store otherwise |
| ServiceWorker.HandleFetch | service-worker.js:18-48 | the three policies, branch by branch. A cache-first hit answers from the cache with no fetch and no write. A cache-first miss with a response answers it and stores it in the current store. A shell miss while offline answers whatever `/index.html` matches. An image miss while offline rejects. Everything else answers from the network, else from the cache, and never writes |
| ServiceWorker.OfflineNavigation | service-worker.js:4-30 | from any earlier cache state, after a successful install and activate, an offline navigation is always answered with a cached response and never with an error. A request for a shell asset gets that asset's response; one the current store did not hold gets the shell page |
| ServiceWorker.CacheFirstKeepsFirstAnswer | service-worker.js:23-44 | from any cache state where no store holds the request, a cache-first request answered once from the network is answered with that first response afterwards and does not touch the network |
| ServiceWorker.NetworkFirstNeverCaches | service-worker.js:46-47 | a catch-all request that no store holds, once it succeeds over the network, still has no cache fallback when the network later fails: the reply is `undefined` |

## Left out

- The HTMLHint and ESLint runs (`run_checks.js` lines 12-18 and 29-46) are not modelled. They call foreign linters and only print.
- The Puppeteer session is not modelled: the browser launch, page navigation, axe-core audit, report and screenshot writes (lines 77-136). The messages the page reports are a parameter of `CapturedMessages`. A failed browser launch is not modelled.
- Console output is not modelled. This includes the summary lines that print message and error counts (lines 140-143).
- `scripts/audit-remote.js` and `scripts/render-icons.js` are not part of this model.
- `self.skipWaiting()` and `self.clients.claim()` only affect which page the worker controls, and are not modelled.
- `Response.clone()` and response bodies as streams are not modelled: a response is a value.
- URL parsing is not modelled. A request carries its URL and its pathname as given. The model's `AddAll` keys entries by the strings as listed (`"."`, `/index.html`, `/manifest.webmanifest`). In the worker, `"."` resolves to the scope root, so a navigation to `/` hits that entry; the model sees that hit only if the request's `url` is written `"."`.
- Request matching by method, `Vary` and query string is not modelled. Neither is `cache.put` rejecting a partial (206) response or a non-GET request.
- The handlers' promises are modelled as running to completion one after another. The fire-and-forget `cache.put` of the fetch handler is an immediate write, and the parallel deletes of activate run one at a time. Interleavings with other events are not modelled.
- Failures of `caches.open`, `caches.match`, `caches.keys` and `caches.delete` themselves, such as a quota being exceeded, are not modelled.
- `IsTrimSpace` follows the space-separator set of current Unicode versions. Strings are sequences of code points rather than UTF-16 code units.
- `RunChecks.FindChromeBinary`: reading `process.env` and `fs.existsSync` are parameters (a map and a predicate). The `try`/`catch` around `existsSync` can only swallow an exception, and is not modelled.
