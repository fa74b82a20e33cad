# Hike tracker PWA: cache policy and page swapping, modelled in Dafny

This project models two parts of the hike-tracker progressive web app:

- **The service worker's cache policy** (`TPAM-project/sw.js`), in `service_worker.dfy`.
  - **Install** opens the cache generation `hike-tracker-cache-v3` and stores the eight app-shell assets with `addAll`. This fails as a whole if any asset does not fetch with an ok (2xx) status.
  - **Activate** walks the names that `caches.keys()` lists and deletes every generation except the current one.
  - **Fetch** answers navigations network first, falling back to the cached `views/offline.html`. It answers every other request cache first, falling back to the network.
- **The page script's navigation logic** (`TPAM-project/app.js`), in `page_text.dfy` and `app.dfy`.
  - `extractMain` is the case-insensitive, lazy regular expression `<main[^>]*>([\s\S]*?)<\/main>`. It is given a reference meaning (`Matches`, `Reported`) and a scan that finds the reported match.
  - The navigation-link filter decides which links are loaded in place.
  - `loadPage` tries the page, then the offline fragment, then a toast.
  - The model also covers the camera stream slot and the saved-list renderer.

Shared browser values (`Response`, the settled `fetch` outcome `Resolved(response) | Rejected`) are in `web.dfy`. The origin's CacheStorage is a `Storage` value with two parts:
- the cache names in creation order, which is what `caches.keys()` lists and the order in which `caches.match` searches;
- a map from each cache name to its own map from URL to response.

The class `CacheStorage` holds this state and changes it in place.

The network, `getUserMedia` and `localStorage` become parameters of the operations:
- the network is a function from URL to outcome during install, and a single outcome per fetch elsewhere;
- `getUserMedia` is the granted stream, or null when it is refused;
- `localStorage` is the already decoded item list.

The DOM parts that the code touches are class fields:
- the `<main>` region's HTML;
- the pushed history entries;
- the toast text;
- the stream slot, the preview and stop-button visibility;
- the saved list's entries.

Behaviour of the code that the model keeps, although a reader might expect otherwise:
- `loadPage` treats a non-ok response like a network failure (app.js:34). The offline fragment's response is used whatever its status, because its `ok` is never checked (app.js:46-50).
- `<main` is matched without a word boundary, so `<maintenance>` opens a match. Only ASCII letters are case-folded, which is exact for these ASCII patterns under the `i` flag without `u`.
- The link filter compares text, not schemes. `HTTPS://…` is intercepted, and a relative `http-notes.html` is not (`PageText.LinkFilterIsTextual`).
- Before activation, `caches.match` also searches older generations, in creation order. An installed worker that is still waiting gets no fetch events, so this case is the previous worker's handler running on the storage both workers share; `self.skipWaiting()` (sw.js:14) keeps that window short. In it, an older generation's copy of the offline page may be the one served (`ServiceWorker.FallbackFoundAfterInstall` only promises that some page is found).
- Opening the camera again replaces the stream in the slot without stopping the old one's tracks (`App.Camera.Open` modifies only the slot).
- A malformed `savedItems` value is not turned into an empty list: `JSON.parse` throws (app.js:129).

## Model

| member | source | states |
|---|---|---|
| ServiceWorker.MatchFrom | TPAM-project/sw.js:43 | `caches.match` finds nothing iff no cache holds the URL. Otherwise it answers with the entry of the first cache, in creation order, that holds it. |
| ServiceWorker.Match | TPAM-project/sw.js:43 | `caches.match` over all caches answers nothing iff no listed cache holds the URL. Otherwise it answers with the entry of the first listed cache that holds it. |
| ServiceWorker.AddAll | TPAM-project/sw.js:16 | `addAll` succeeds iff every URL fetches with an ok (2xx) status. On success the table gains exactly those URLs, each mapped to what the network returned, and other entries are kept. On failure nothing is stored. |
| ServiceWorker.Opened | TPAM-project/sw.js:16 | `caches.open` keeps the storage valid. When the cache exists the storage is returned unchanged. Otherwise the named cache is appended, empty, at the end of the creation order, and every existing cache is left unchanged. |
| ServiceWorker.Installed | TPAM-project/sw.js:1-18 | Install succeeds iff every PRECACHE asset fetches ok. Then every asset is in `hike-tracker-cache-v3` with its fetched response, the table's keys are exactly its earlier keys plus the assets, and the creation order is that of `caches.open`. The current cache always exists afterwards, other generations are untouched, and a failed install stores no asset. |
| ServiceWorker.Activated | TPAM-project/sw.js:20-27 | After activation the cache names are the previous names intersected with `{CACHE_NAME}`. The current generation's contents are unchanged. |
| ServiceWorker.AtMostCurrent | TPAM-project/sw.js:22-26 | Once only the current generation can remain, `caches.keys()` lists exactly it, or nothing. |
| ServiceWorker.ActivateIdempotent | TPAM-project/sw.js:20-27 | A second activation deletes nothing more. |
| ServiceWorker.Respond | TPAM-project/sw.js:31-45 | A navigation always goes to the network. A resolved navigation is returned unchanged. A rejected one gets the cache lookup of `views/offline.html`. Any other request uses the network iff the cache misses: a hit is returned and a miss gets the network's response, or none on failure. |
| ServiceWorker.OfflinePageIsPrecached | TPAM-project/sw.js:2-11 | `views/offline.html` is one of the PRECACHE assets. |
| ServiceWorker.NavigationFallbackIgnoresUrl | TPAM-project/sw.js:37 | A failed navigation gets the same fallback whatever URL it asked for. |
| ServiceWorker.FallbackFoundAfterInstall | TPAM-project/sw.js:13-38 | After a successful install, a navigation the network fails still gets a cached page, even before activation. |
| ServiceWorker.OfflineFallbackAfterInstall | TPAM-project/sw.js:13-38 | After a successful install and activation, a failed navigation gets exactly the offline page the network delivered at install time. |
| ServiceWorker.ShellServedFromCache | TPAM-project/sw.js:13-44 | After a successful install and activation, every app-shell asset is answered from the cache with its install-time response, and the network is not used. |
| ServiceWorker.Remove | TPAM-project/sw.js:24 | Deleting a name from the name list keeps exactly the other names, keeps them distinct and keeps their creation order: from a distinct list holding the name, the result is the list with that one position cut out. |
| ServiceWorker.CacheStorage.Open | TPAM-project/sw.js:16 | The storage after `caches.open` is `Opened` of the storage before it. |
| ServiceWorker.CacheStorage.Delete | TPAM-project/sw.js:24 | `caches.delete` removes the name and its table, keeps the storage valid, and reports whether the cache existed. |
| ServiceWorker.CacheStorage.Install | TPAM-project/sw.js:13-18 | The new storage and the success flag are `Installed` of the old storage. |
| ServiceWorker.CacheStorage.Activate | TPAM-project/sw.js:20-27 | The loop over the listed names leaves the storage equal to `Activated` of the old storage. |
| ServiceWorker.CacheStorage.HandleFetch | TPAM-project/sw.js:31-45 | The reply is `Respond` of the current storage. The method has no modifies clause, so a fetch event writes to no cache. |
| PageText.IndexOf | TPAM-project/app.js:27 | The `[^>]*>` step: gives the first `>` at or after a position, or reports that there is none. |
| PageText.IndexOfFolded | TPAM-project/app.js:27 | Gives the first case-insensitive occurrence of a pattern at or after a position, or reports that there is none. |
| PageText.MatchAt | TPAM-project/app.js:27 | One attempt at a start position finds a match with the shortest group iff the pattern matches there at all. |
| PageText.FindMainFrom | TPAM-project/app.js:27 | The scan returns the leftmost start at which the pattern matches, with its shortest group. It returns nothing iff there is no match. |
| PageText.TagEndUnique | TPAM-project/app.js:27 | For a given start, `[^>]*>` can end only at the first `>`. |
| PageText.ReportedUnique | TPAM-project/app.js:27 | The match that `exec` reports (leftmost start, shortest group) is unique. |
| PageText.ExtractMain | TPAM-project/app.js:26-29 | Returns the input unchanged when the pattern does not match. Otherwise returns the contiguous substring between the opening tag's first `>` and the first following `</main>`. |
| PageText.GroupHasNoCloseTag | TPAM-project/app.js:27 | The group of the reported match contains no `</main>` in any letter case. |
| PageText.ExtractedHasNoCloseTag | TPAM-project/app.js:27-28 | When there is a match, `extractMain`'s result contains no `</main>` in any letter case. |
| PageText.ExtractMainExample | TPAM-project/app.js:27-28 | Case-insensitive tags with attributes: `<MAIN id="x">hi</Main>` yields `hi`. |
| PageText.IsInternal | TPAM-project/app.js:63 | An href is loaded in place iff it is non-empty and is neither `http` nor `mailto:` followed by any text. |
| PageText.AbsoluteLinksNotIntercepted | TPAM-project/app.js:61-63 | `http://…`, `https://…` and `mailto:…` links are left to the browser. |
| PageText.RelativeLinksIntercepted | TPAM-project/app.js:61-63 | A non-empty href whose first letter is neither `h` nor `m` is loaded in place. |
| PageText.LinkFilterIsTextual | TPAM-project/app.js:63 | The prefix test is case-sensitive and textual: `HTTPS://…` is intercepted and `http-notes.html` is not. |
| App.Document.LoadPage | TPAM-project/app.js:31-56 | With an ok response, main becomes `extractMain` of its text, and exactly one entry (the URL) is pushed iff `addToHistory`. When the URL is on another origin, `pushState` throws after main was replaced, and the offline branch runs with nothing pushed. After a failure nothing is pushed. If the offline fetch resolves, main becomes `extractMain` of its text whatever its status. If that fetch fails too, the toast shows and main keeps what it held, which is the page's extract after a rejected `pushState`. Main changes only when a `<main>` exists. |
| App.Document.OnLinkClick | TPAM-project/app.js:58-69 | A click is intercepted iff the href passes the filter. An intercepted click loads the page with history, including the offline branch that a cross-origin `pushState` failure takes. Any other click changes nothing. |
| App.Document.OnPopState | TPAM-project/app.js:152-154 | A back or forward navigation reloads the page's main region like `loadPage` and never pushes history. |
| App.Camera.Open | TPAM-project/app.js:100-113 | A granted stream fills the slot and shows the preview and the stop button where they exist. A refusal only raises the alert, and the slot keeps its old value. |
| App.Camera.Stop | TPAM-project/app.js:115-124 | Every track of the stream in the slot is stopped. The slot becomes null, and stays null when it was null. The preview and the stop button are hidden. |
| App.SavedList.Render | TPAM-project/app.js:126-136 | An empty item list renders exactly one placeholder entry. Otherwise there is one entry per item, in stored order. |

## Left out

- Promise sequencing and the event loop: `event.waitUntil`, `self.skipWaiting`, `self.clients.claim` and service-worker registration (app.js:3-12). Each handler is modelled as one atomic step.
- The service-worker lifecycle is not modelled, so nothing enforces that a failed install is never activated. The lemmas that combine install and activation require that install succeeded. A waiting worker receives no fetch events, so a fetch between install and activation is served by the previous worker's handler over the shared storage; with `skipWaiting` (sw.js:14) that window is brief.
- Request and URL matching inside the Cache API and `fetch` (request method, `Vary`, resolving relative URLs) is left out. URLs are compared as plain strings. The page fetches `/views/offline.html` and the worker caches `views/offline.html`; in a browser both resolve to the same URL, and here the page's offline fetch is a parameter.
- `addAll`'s rejection of duplicate requests is left out, because PRECACHE has no duplicates.
- ServiceWorker.AddAll: accepts every 2xx response. `addAll` also rejects a 206 partial response and a response with `Vary: *`; response headers are not modelled.
- Response bodies are text, and a failing `res.text()` is not modelled.
- The `{cache: 'no-cache'}` option of the page fetch is left out.
- The geolocation button (app.js:75-93), including the `toFixed` formatting, is left out: it is device I/O and floating-point formatting.
- The online and offline listeners and the notifications (app.js:139-149) are left out.
- The toast's element creation and its 5-second `setTimeout` hide (app.js:14-24) are left out. The toast is modelled as its text only.
- `bindDynamic`'s re-binding after a page swap (app.js:41, 51, 159) is modelled as a single binding. Each run adds a new listener with `addEventListener`, and nothing removes the earlier ones. What that means for the navigation links and the camera is stated under App.Document.OnLinkClick and App.Camera below.
- App.Document.OnLinkClick: models one click listener per link. A navigation link outside `<main>` survives every swap (app.js:38, 50 replace only main's content) and gains one more listener on each `bindDynamic` run. After n runs, one click starts n `loadPage` calls, so n fetches and, on success, n pushes of the same URL, each of which binds again.
- App.Document.LoadPage: whether the URL is on the document's origin is the `sameOrigin` parameter, not computed from the URL, because URL resolution against the document's base is not modelled.
- App.Document.LoadPage: assumes that `bindDynamic` returns normally. If it threw (for example on malformed saved-list JSON), the successful branch would fall into the offline branch after main and history were already updated.
- App.SavedList.Render: takes the items already decoded and turned into text. `localStorage`, `JSON.parse` (which throws on malformed data), non-array values and `String(it)` conversion are left out.
- App.Camera: `getUserMedia` is its result, and the alert text and the preview's `srcObject` are left out. Each run of `bindDynamic` makes its own stream slot (app.js:98); the model shows one binding.
- The haversine distance, the hike store and the tracking session are left out: none of them is in these two files.
