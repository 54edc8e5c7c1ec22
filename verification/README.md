# Web image gallery — a Dafny model of its core

The system has two parts.

- **The extraction function** (`netlify/functions/extract-images.cjs`) receives a page URL, fetches the page and lists the image URLs its `<img>` elements reference. For each element it takes the resolved `src`, then the resolved `data-src`, then one URL per comma-separated `srcset` candidate. It stops scanning once 200 URLs are collected and answers with at most 200. A missing URL parameter gets a 400 response, and any failure while fetching gets a 500.
- **The gallery** (`src/App.jsx`) is a single React component. It asks the function for a page's images and reveals them twenty at a time as the last one scrolls into view. It filters the revealed images by extension and shows a fullscreen viewer. With the arrow keys the viewer steps to the filtered image after or before the first occurrence of the current one, wrapping around, and it closes on Escape. Since URLs are not deduplicated, a URL repeated right after its first occurrence stops the viewer there: each step right finds the first copy again and lands on the second.

The model is written in Dafny. Both parts are pure functions over immutable data.

- **The page is already parsed.** It is a sequence of `<img>` attribute records, with the empty string standing for an absent attribute, since the code tests each attribute for truthiness.
- **Outside operations are parameters.**
  - Fetching the page and reading its text: `fetchHtml`.
  - Loading the HTML and selecting its `<img>` elements: `parseImgs`.
  - `new URL(relative, base)`, reference resolution as in section 5.2 of RFC 3986: `resolve`, a partial function returning an option.
- **The gallery is a `Session` record.** It holds:
  - `allExtracted` (the `allExtractedImages` ref);
  - `images`, `currentPage` and `visibleImagesCount`;
  - `loading` and `error`;
  - the extension filter;
  - the fullscreen image.

  Each handler maps the session before it to the session after it.
- **JavaScript semantics are written out** in module `Js` and module `Fullscreen`:
  - `split` with one-character separators: `"".split(',')` is `[""]`;
  - `trim`, with the ECMAScript white-space and line-terminator set;
  - `slice` clamping;
  - `indexOf`;
  - the truncating `%`;
  - truthiness.

Modules:

| file | module | models |
|---|---|---|
| `results.dfy` | `Results` | `Option` and `Result` |
| `js.dfy` | `Js` | the JavaScript built-ins used by the two files |
| `extract_images.dfy` | `ExtractImages` | `handler` and `resolveUrl` |
| `api.dfy` | `Api` | the reply `fetchImages` receives, and how it classifies it |
| `image_filter.dfy` | `ImageFilter` | the seven-key extension filter and `filteredImages` |
| `fullscreen.dfy` | `Fullscreen` | `navigateFullscreen`'s index arithmetic |
| `gallery.dfy` | `Gallery` | the session: fetch, reveal, the scroll guard, filter, viewer, keys |

## Model

| member | source | states |
|---|---|---|
| ExtractImages.ResolveUrl | netlify/functions/extract-images.cjs:60-67 | `resolveUrl` never fails. It yields the resolver's href when resolution succeeds, and exactly the input reference when it fails. |
| ExtractImages.SrcsetCandidate | netlify/functions/extract-images.cjs:34-36 | A `srcset` candidate's URL is the first space-free token of the trimmed piece: a prefix of the trimmed piece, ending at its end or before a space. Width and density descriptors are dropped. |
| ExtractImages.SrcsetUrls | netlify/functions/extract-images.cjs:33-38 | Every comma-separated piece contributes exactly one URL, in the order written. That includes an empty piece, such as the one after a trailing comma. |
| ExtractImages.ElementUrlCount | netlify/functions/extract-images.cjs:30-38 | One element contributes one URL for a non-empty `src` and one for a non-empty `data-src`. A non-empty `srcset` adds one more URL than it has commas. Empty attributes contribute nothing. |
| ExtractImages.ElementUrlOrder | netlify/functions/extract-images.cjs:30-38 | Within one element the resolved `src` comes first, the resolved `data-src` next, and then the `srcset` candidates in order. |
| ExtractImages.FlattenAppend | netlify/functions/extract-images.cjs:23-40 | The URLs of consecutive runs of elements concatenate. |
| ExtractImages.CollectKeepsFirst | netlify/functions/extract-images.cjs:22-40 | Checking the 200 cap before each element and slicing at the end keeps exactly the first 200 URLs of what an uncapped scan would collect. |
| ExtractImages.CollectShape | netlify/functions/extract-images.cjs:23-24 | The scan collects the URLs of the first k elements. Each earlier element started below 200, and if k is short of all elements the list has reached 200. Only the last scanned element can push the list past 200. |
| ExtractImages.CollectIgnoresLaterImages | netlify/functions/extract-images.cjs:24 | Once 200 URLs are collected, no later `<img>` element changes the result. |
| ExtractImages.Truncate | netlify/functions/extract-images.cjs:49 | `slice(0, 200)` keeps a prefix of length min(200, n). |
| ExtractImages.ImageUrls | netlify/functions/extract-images.cjs:22-49 | The answer is exactly the first 200 of all the elements' URLs in document order, without deduplication. It never holds more than 200, and it holds exactly 200 when the page references at least that many. |
| ExtractImages.Handler | netlify/functions/extract-images.cjs:4-58 | A missing or empty `url` gets the fixed 400 "Missing URL parameter" response, decided before any fetch. A fetched page gets status 200 with the three CORS headers and the URL list. A failed fetch or read gets status 500 with "Failed to extract images" and the error's message as `details`. Only the 200 response carries headers, and each status occurs exactly in its case. |
| Js.Split | src/App.jsx:80 | `split` with a one-character separator gives one piece more than there are separators. No piece contains the separator, and joining the pieces gives back the input. |
| Js.SplitUnique | src/App.jsx:80 | The pieces of `split` are the only separator-free list that joins back to the input. |
| Js.FirstToken | netlify/functions/extract-images.cjs:34-36 | `split(' ')[0]` is the longest space-free prefix: the whole text, or the text before its first space. |
| Js.LastPiece | src/App.jsx:80 | `split('.').pop()` is the longest dot-free suffix: the whole text, or the text after its last dot. |
| Js.Trim | netlify/functions/extract-images.cjs:34 | `trim` leaves text that neither starts nor ends with white space. |
| Js.TrimKeepsMiddle | netlify/functions/extract-images.cjs:34 | `trim` keeps a contiguous part of the input and drops only white space before and after it. |
| Js.Slice | src/App.jsx:56 | `slice(start, end)` clamps both bounds to the length: it is the part between them when both are inside, the rest of the list when only the end is past it, and empty when the start is at or past the end or the length. |
| Js.AsciiLower | src/App.jsx:80 | Lower-casing keeps the length and maps each character on its own, turning only `A`-`Z` into `a`-`z`. |
| Js.AsciiLowerIdempotent | src/App.jsx:80 | Lower-cased text has no upper-case ASCII letter left, so lower-casing it again changes nothing. |
| Js.NatToStringRoundTrip | src/App.jsx:39 | The decimal rendering of a status is digits only, without a leading zero, and reads back as the same number. |
| Api.ReplyData | src/App.jsx:36-45 | A reply yields URLs exactly when it has an ok status and a URL-array body. A reply that is not ok yields "HTTP error! status: N" without its body being read. A network failure yields its own message. An ok reply whose body cannot be read or used as a URL array yields the message of the error raised while reading or using it. |
| Api.HttpErrorNamesStatus | src/App.jsx:39 | The status can be read back from the "HTTP error! status: N" message. |
| ImageFilter.ParseExt | src/App.jsx:11-13 | The seven keys name the seven extensions. Any other text names none. |
| ImageFilter.ParseExtName | src/App.jsx:11-13 | Parsing a key gives back its extension. |
| ImageFilter.ExtFilter.Toggle | src/App.jsx:166 | A checkbox change flips its own extension and leaves the other six as they were. |
| ImageFilter.ToggleTwice | src/App.jsx:166 | Two changes of the same checkbox restore the filter. |
| ImageFilter.KeepIff | src/App.jsx:79-82 | An image is kept exactly when the lower-cased text after its last dot is the key of a checked extension. |
| ImageFilter.FilterIsOrderedSubsequence | src/App.jsx:79-82 | `filteredImages` is an order-preserving subsequence of `images`. It is witnessed by ascending positions, and it contains exactly the positions whose URL passes the filter. |
| ImageFilter.FilterMembers | src/App.jsx:79-82 | Every filtered image passes the filter and comes from `images`. Every image that passes is in the filtered view. |
| ImageFilter.FilterAppend | src/App.jsx:79-82 | Filtering distributes over concatenation. |
| Fullscreen.IndexOf | src/App.jsx:93 | `indexOf` finds the first occurrence, or gives -1 exactly when the element is absent. |
| Fullscreen.JsRem | src/App.jsx:95-98 | JavaScript's `%` truncates. The remainder has the dividend's sign, lies strictly between -n and n, and agrees with the mathematical remainder for a non-negative dividend. |
| Fullscreen.StepIndex | src/App.jsx:93-99 | From position i, right moves to (i+1) mod N and left to (i-1+N) mod N, always inside the list. From a missing image (i = -1), right moves to 0 and left moves to N-2, or to 0 when N = 1. |
| Fullscreen.Step | src/App.jsx:92-101 | Navigation over a non-empty filtered view always lands on one of its images, cyclically from the first occurrence of the current one. An empty view leaves no image, which closes the viewer. |
| Fullscreen.StepsUndo | src/App.jsx:92-101 | On a view without repeats, a step left undoes a step right and a step right undoes a step left. |
| Fullscreen.StepRightRepeats | src/App.jsx:92-101 | Because `indexOf` finds the first occurrence, a URL whose first occurrence is immediately followed by a second copy stays shown on ArrowRight, however often it is pressed. |
| Gallery.InitialRevealInvariant | src/App.jsx:5-18 | The component starts idle, with nothing extracted, the reveal invariant holding and every extension checked. |
| Gallery.BeginFetch | src/App.jsx:32-34 | `fetchImages` does nothing while loading. Otherwise it marks loading and clears the error. |
| Gallery.FetchImages | src/App.jsx:31-51 | While loading it does nothing; otherwise loading ends off. Success replaces `allExtracted`, resets the page to 0 and shows the first min(20, n) URLs with that count. Failure changes only `error`. The reveal invariant is kept. |
| Gallery.AtMostOneInFlight | src/App.jsx:32-33 | Once a fetch has begun, a second `fetchImages` changes nothing whatever its reply. |
| Gallery.LoadMoreImages | src/App.jsx:53-63 | With nothing left to reveal it changes nothing. Otherwise it advances the page and extends `images` by at most twenty. Only `images`, `currentPage` and `visibleImagesCount` ever change, and the reveal invariant is kept. |
| Gallery.LoadMoreIdempotentAtEnd | src/App.jsx:54-62 | At the end of the list, repeated reveals are idle. |
| Gallery.RevealProgress | src/App.jsx:42-62 | After a fresh fetch, k reveals show the first min(20·(k+1), n) images, and the reveal invariant holds throughout. |
| Gallery.RevealStep | src/App.jsx:53-62 | One reveal past the first min(20·k, n) images shows the first min(20·(k+1), n). |
| Gallery.RevealFortyFive | src/App.jsx:42-62 | Forty-five extracted images are revealed 20, then 40, then 45 at a time, never 60. |
| Gallery.OnIntersect | src/App.jsx:67-72 | The scroll callback reveals more only while not loading, with a sentinel rendered (the observed node is the last image of the filtered view, set at lines 176-179, so an empty filtered view reveals nothing), with the sentinel in view, and with fewer images revealed than extracted. Otherwise it changes nothing. |
| Gallery.GuardMeansMoreToReveal | src/App.jsx:70 | Under the reveal invariant, "fewer revealed than extracted" means exactly that the next page is not empty. |
| Gallery.LoadMoreExtendsFilteredView | src/App.jsx:79-82 | A reveal only extends the filtered view at its end, by the filtered new images. |
| Gallery.ToggleFilter | src/App.jsx:166 | The checkbox handler flips one extension and changes nothing else in the session. |
| Gallery.OpenFullscreen | src/App.jsx:84-86 | Opening sets the viewer to exactly the clicked image and changes nothing else; the viewer is shown unless that image is the empty string. |
| Gallery.CloseFullscreen | src/App.jsx:88-90 | Closing hides the viewer and changes nothing else. |
| Gallery.NavigateFullscreen | src/App.jsx:92-101 | Navigating changes only the viewer. It lands on an image of the current filtered view, and it closes the viewer when that view is empty. |
| Gallery.HandleKeyDown | src/App.jsx:103-110 | Keys act only while an image is shown: Escape closes, ArrowLeft and ArrowRight navigate, and every other key does nothing. |
| Gallery.EmptyUrlFailsWith400 | src/App.jsx:37-47 | Submitting an empty URL surfaces the function's 400 as "HTTP error! status: 400" and keeps the images already extracted. |
| Gallery.UnfetchablePageFailsWith500 | src/App.jsx:37-47 | A page the function cannot fetch surfaces as "HTTP error! status: 500" and keeps the images already extracted. |
| Gallery.FetchedPageWithinCap | src/App.jsx:41-45 | A fetched page replaces the extracted list with the first 200 of its image URLs, and the reveal invariant holds. |

## Left out

- **Rendering.** The React rendering, the theme, `localStorage` and the columns slider are UI and browser I/O.
- **The IntersectionObserver lifecycle.** Creating, disconnecting and re-observing the observer is browser event plumbing. Only the callback's guard is modelled, as `Gallery.OnIntersect`. While loading, the code returns before disconnecting the previous observer.
- **Network and parsing.** `fetch` (in both files), `response.text()`, `response.json()` and `cheerio` are network I/O and a foreign parser. They are parameters or an input value. The function never inspects the upstream page's status, so a non-2xx page is not a failure in the model either.
- **WHATWG `URL` parsing.** It stays abstract, as the `resolve` parameter.
- **A missing query object.** When `event.queryStringParameters` is null, the destructuring throws outside the `try`, and the hosting platform answers. `Handler` takes the parameter as an `Option` instead.
- **`JSON.stringify` and serialization.** The response body is the `Body` datatype rather than its serialized text. On the gallery side a body is either a URL array or "anything else", and `Api.Transport` maps the function's error object to the latter.
- **A non-array body with an ok status.** The code first assigns the parsed value to `allExtractedImages` and resets `currentPage` to 0, and only then fails at `.slice`. The model treats such a reply as a plain failure and leaves both `allExtracted` and `currentPage` unchanged. A JSON string body, which has its own `slice`, is not distinguished either.
- **Remote pagination.** `fetchImages`' `page` argument is never used. Page-number URL rewriting and fetching the next remote page have no implementation in the code, so they are not modelled.
- **The prototype-key quirk.** `filter[ext]` would be truthy for an extension such as `constructor`. The model's filter is a total map over the seven extensions, and any other extension is excluded.
- **Character encoding.**
  - Strings are sequences of Unicode characters, not UTF-16 code units.
  - `toLowerCase` is modelled as ASCII lower-casing. That is exact for deciding whether text is one of the seven lower-case keys: only two non-ASCII characters lower-case to text containing an ASCII letter. The Kelvin sign gives `k`, and no key contains `k`. U+0130 (capital I with dot above) gives `i` followed by the combining dot U+0307, which stays in the text, so no key can result. In both cases the model, which leaves these characters alone, also yields text that is not a key.
- **Logging.** `console.error` and `console.warn` are logging only.
- **The other components.** `src/CustomGallery.jsx` and `src/LightboxViewer.jsx` are thin wrappers over third-party components and are not part of this model.
- **What the filter applies to.** `filteredImages` filters `images`, the revealed prefix, not the whole extracted list; the model does the same.
