# Vapor `FileMiddleware` in Dafny

This project models Vapor's static-file middleware, `FileMiddleware`. It is built
from a public directory and a chunk size. For each request it does three things
in order:

1. If the request has a single-range `Range: bytes=S-E` header, the file under
   the public directory exists, and the range is non-empty and fits in the
   file, the middleware answers with `206 Partial Content`.
2. Every other request, apart from the 403 below, goes to the next responder
   (the router). That includes a missing file and a range with `S > E`. As
   written, a range that reaches past the end of the file crashes instead
   (see "## Findings"); corrected, it goes to the router as well.
3. If the router reports a missing route, the middleware falls back to serving
   the file at the request path.

A request path that contains `../` is refused with 403 on two branches: the range
branch, and the fallback after a missing route.

The source is pure apart from its I/O, so the model is written as datatypes,
functions and lemmas:

- `strings.dfy` (module `Strings`) gives the Swift string helpers the middleware
  uses, by their evident meaning: `hasPrefix`, `finished(with:)`, `contains`,
  `split(separator:)` (which drops empty pieces), `Int(String)` for a 64-bit
  `Int`, and decimal rendering.
- `file_middleware.dfy` (module `FileMiddleware`) covers construction, `Range`
  parsing, path resolution, the 206 response and the request pipeline `Respond`.
- `middleware_properties.dfy` (module `FileMiddlewareProperties`) holds the
  lemmas about `Respond`.

How the environment is modelled:

- The file system is a `map<string, seq<byte>>`.
- The next responder is the value `NextResult` it would produce:
  `Handled(response)`, `MissingRoute` or `OtherError(error)`. "The router is
  not consulted" is stated as "the outcome is the same for every `NextResult`".
- Every end of a request is an `Outcome`:
  - `Partial`: the 206 response;
  - `Forbidden`: the thrown 403;
  - `FromNext`: the router's own response;
  - `NextFailed`: any other error from the router, propagated;
  - `FileFallback(filePath, ifNoneMatch, chunkSize)`: the arguments passed to the
    `Response(filePath:ifNoneMatch:chunkSize:)` initialiser;
  - `Crash`: the process traps.

The commented-out bounds guard is an explicit `BoundsPolicy` parameter:

- `Unchecked` is the code as written.
- `FallThrough` is the corrected behaviour: a range that reaches past the file
  is not served and goes on to `next`.

Every lemma about dispatch, traversal and the 206 headers holds for both
policies.

What the code does at its edges, which the model keeps:

- The comment at `FileMiddleware.swift:14` speaks of removing a trailing "/", but
  the code appends one when it is missing. A directory that already ends in "//"
  keeps both slashes.
- On the non-range branch, the traversal check runs only after the router has
  reported a missing route. A route that matches a path containing `../` answers
  normally. 403 comes only from the range branch or after a missing route;
  `TraversalIsForbidden` states exactly when.
- Because `split` drops empty pieces, `bytes=1--2` is acted on as `1-2`
  (`ParseRangeDoubledDash`).
- A path ending in `/..`, with no slash after the dots, is not refused. It
  resolves to the public directory followed by `..` (`ResolveTrailingDotDot`).

## Model

| member | source | states |
|---|---|---|
| `Strings.Finished` | Sources/Vapor/File/FileMiddleware.swift:15 | the result ends with the suffix, extends the input by at most the suffix, and equals the input exactly when the input already ends with the suffix |
| `Strings.ContainsAt` | Sources/Vapor/File/FileMiddleware.swift:26 | `contains` holds exactly when the pattern starts at some offset of the string |
| `Strings.ContainsDotDotSlashAfterSlash` | Sources/Vapor/File/FileMiddleware.swift:30 | appending to a string that ends in "/" creates no "../" that neither part already holds |
| `Strings.Split` | Sources/Vapor/File/FileMiddleware.swift:23 | every piece is non-empty and free of the separator |
| `Strings.SplitFrom` | Sources/Vapor/File/FileMiddleware.swift:23 | splitting from a separator-free partial piece yields only non-empty, separator-free pieces |
| `Strings.SplitKeepsText` | Sources/Vapor/File/FileMiddleware.swift:23 | the pieces, concatenated, are the input with every separator removed: no other character is lost or reordered |
| `Strings.SplitJoin` | Sources/Vapor/File/FileMiddleware.swift:23 | splitting pieces joined by the separator gives back the same pieces |
| `Strings.SplitTrailingSeparator` | Sources/Vapor/File/FileMiddleware.swift:23 | a trailing separator adds no piece |
| `Strings.SplitLeadingSeparator` | Sources/Vapor/File/FileMiddleware.swift:23 | a leading separator adds no piece |
| `Strings.ShowNat` | Sources/Vapor/File/FileMiddleware.swift:36-37 | the decimal rendering is non-empty, all digits, and has no leading zero; 0 renders as exactly "0" |
| `Strings.ParseNatShowNat` | Sources/Vapor/File/FileMiddleware.swift:36-37 | reading back a rendered number gives the number |
| `Strings.ParseInt` | Sources/Vapor/File/FileMiddleware.swift:24 | a parsed value fits the 64-bit `Int`, is negative only after a leading `-`, and its magnitude is what the digits after an optional `+` or `-` read as; any other first character leaves no sign to skip |
| `Strings.ParseIntDigits` | Sources/Vapor/File/FileMiddleware.swift:24 | `Int(_)` reads every run of digits whose value fits `Int`, leading zeros included (`007` is 7), with or without a leading `+` |
| `Strings.ParseIntNegativeDigits` | Sources/Vapor/File/FileMiddleware.swift:24 | `Int(_)` reads `-` followed by any run of digits whose negated value fits `Int` |
| `Strings.ParseIntShowNat` | Sources/Vapor/File/FileMiddleware.swift:24 | `Int(_)` reads any rendered number up to `Int.max` back as itself |
| `Strings.ParseIntPlus` | Sources/Vapor/File/FileMiddleware.swift:24 | `Int("+n")` reads as `n` for every `n` up to `Int.max` |
| `Strings.ParseIntMinus` | Sources/Vapor/File/FileMiddleware.swift:24 | `Int("-n")` reads as `-n` for every `n` down to `Int.min` |
| `FileMiddleware.Init` | Sources/Vapor/File/FileMiddleware.swift:13-17 | the public directory ends with "/" and is the given one when that already did, otherwise one character longer; the chunk size is the given one, or 32768 when none is given |
| `FileMiddlewareProperties.InitIdempotent` | Sources/Vapor/File/FileMiddleware.swift:13-17 | constructing again from the normalised directory changes nothing |
| `FileMiddleware.ParseIntUnsigned` | Sources/Vapor/File/FileMiddleware.swift:24 | a piece without `-` never reads as a negative `Int` |
| `FileMiddleware.ParseRange` | Sources/Vapor/File/FileMiddleware.swift:20-24 | a range is read exactly when the header starts with `bytes=` and the rest, split on `-` with empty pieces dropped, is two pieces that both read as `Int`; the offsets are those values, non-negative and at most `Int.max` |
| `FileMiddlewareProperties.ParseRangeTwoPieces` | Sources/Vapor/File/FileMiddleware.swift:21-24 | `bytes=a-b` with two non-empty dash-free pieces is acted on exactly when both read as `Int`, giving those values |
| `FileMiddlewareProperties.ParseRangeShown` | Sources/Vapor/File/FileMiddleware.swift:21-24 | `bytes=S-E` written in decimal is read as the range S to E |
| `FileMiddlewareProperties.ParseRangeIgnoresOpenEnded` | Sources/Vapor/File/FileMiddleware.swift:23-24 | `bytes=a-` is not acted on |
| `FileMiddlewareProperties.ParseRangeIgnoresSuffix` | Sources/Vapor/File/FileMiddleware.swift:23-24 | `bytes=-a` is not acted on |
| `FileMiddlewareProperties.ParseRangeIgnoresThreePieces` | Sources/Vapor/File/FileMiddleware.swift:23-24 | `bytes=a-b-c` is not acted on |
| `FileMiddlewareProperties.ParseRangeDoubledDash` | Sources/Vapor/File/FileMiddleware.swift:23-24 | `bytes=a--b` is acted on exactly as `bytes=a-b`, because the empty piece is dropped |
| `FileMiddleware.Relative` | Sources/Vapor/File/FileMiddleware.swift:27-29 | a path starting with "/" is that "/" followed by the result; any other path is returned unchanged |
| `FileMiddleware.ResolvePath` | Sources/Vapor/File/FileMiddleware.swift:25-30 | a path is refused exactly when it contains "../"; otherwise the file path is the public directory followed by the path with one leading "/" removed; the range and fallback branches (lines 51-56) both use this one definition |
| `FileMiddlewareProperties.ResolveAddsNoTraversal` | Sources/Vapor/File/FileMiddleware.swift:26-30 | a resolved file path contains "../" only if the public directory does |
| `FileMiddlewareProperties.ResolveTrailingDotDot` | Sources/Vapor/File/FileMiddleware.swift:25-30 | the path `/..` is not refused and resolves to the public directory followed by `..` |
| `FileMiddleware.ContentRangeRoundTrip` | Sources/Vapor/File/FileMiddleware.swift:37 | the `Content-Range` value `bytes S-E/L` reads back as S, E and L |
| `FileMiddleware.PartialResponse` | Sources/Vapor/File/FileMiddleware.swift:34-40 | status 206; the body is exactly the `E-S+1` file bytes starting at S; the headers are exactly `Content-Length`, the body's length in canonical decimal, `Content-Range`, the text `bytes S-E/L` with S, E and the whole file's length L in canonical decimal, and `Accept-Ranges: bytes`; both numeric headers read back as those numbers |
| `FileMiddleware.SliceRange` | Sources/Vapor/File/FileMiddleware.swift:32-42 | a non-positive length passes the request on; a range inside the file is served with `PartialResponse`; a 206 is served only inside the file; only the unchecked policy can crash |
| `FileMiddleware.ServeRange` | Sources/Vapor/File/FileMiddleware.swift:20-45 | without a usable `Range` header the request is passed on; it is refused with 403 exactly when the header is usable and the path contains `../`; otherwise a missing file passes it on and an existing file is sliced |
| `FileMiddleware.AfterNext` | Sources/Vapor/File/FileMiddleware.swift:47-58 | the router's response and its other errors come back unchanged; 403 is the answer exactly when the route is missing and the path contains "../"; a missing route on any other path falls back to the file at the public directory followed by the path without its leading "/", with the raw `If-None-Match` value and the chunk size |
| `FileMiddleware.Respond` | Sources/Vapor/File/FileMiddleware.swift:19-60 | only the unchecked policy can crash, and a partial answer has status 206 |
| `FileMiddlewareProperties.PartialContentShape` | Sources/Vapor/File/FileMiddleware.swift:20-41 | a 206 comes only from a well-formed range on an existing, non-traversing file and within its bounds; the response is exactly `PartialResponse` of that file and range, so it carries exactly those bytes and the exact `Content-Length`, `Content-Range` and `Accept-Ranges` text |
| `FileMiddlewareProperties.WellFormedRangeIsServed` | Sources/Vapor/File/FileMiddleware.swift:20-41 | a well-formed range within an existing file is always answered with that 206 response |
| `FileMiddlewareProperties.PartialNeverConsultsNext` | Sources/Vapor/File/FileMiddleware.swift:41-48 | a 206 answer is the same whatever the next responder would do |
| `FileMiddlewareProperties.MalformedRangeGoesToNext` | Sources/Vapor/File/FileMiddleware.swift:20-24 | without an acceptable `Range` header the request goes straight to `next` |
| `FileMiddlewareProperties.MissingFileGoesToNext` | Sources/Vapor/File/FileMiddleware.swift:31 | a well-formed range on a missing file goes to `next` |
| `FileMiddlewareProperties.EmptyRangeGoesToNext` | Sources/Vapor/File/FileMiddleware.swift:32-33 | a range with `end - start + 1 <= 0` goes to `next` |
| `FileMiddlewareProperties.RouterResultsPassThrough` | Sources/Vapor/File/FileMiddleware.swift:47-58 | a router response or other router error is returned as it is; the file fallback happens only on a missing route, with the shared resolved path, the raw `If-None-Match` value and the chunk size |
| `FileMiddlewareProperties.MissingRouteFallsBack` | Sources/Vapor/File/FileMiddleware.swift:49-58 | when the range header is not acted on and the route is missing, a path without "../" is served from the public directory, at the directory followed by the path without its leading "/" |
| `FileMiddlewareProperties.ForbiddenOnlyForTraversal` | Sources/Vapor/File/FileMiddleware.swift:26 | a 403 answer implies the request path contains "../" |
| `FileMiddlewareProperties.TraversalIsForbidden` | Sources/Vapor/File/FileMiddleware.swift:26 | for a path containing "../", the answer is 403 exactly when the range header is acted on or the route is missing; otherwise it is the router's own result; the file system is never consulted |
| `FileMiddlewareProperties.UncheckedCrashesPastEnd` | Sources/Vapor/File/FileMiddleware.swift:33-34 | as written, a well-formed range that ends at or past the end of an existing file crashes on the slice |
| `FileMiddlewareProperties.UncheckedOverflows` | Sources/Vapor/File/FileMiddleware.swift:32 | as written, `bytes=0-9223372036854775807` on an existing file overflows `end - start + 1` |
| `FileMiddlewareProperties.FallThroughPastEndGoesToNext` | Sources/Vapor/File/FileMiddleware.swift:33 | corrected, a range that reaches past the end of the file is not served and goes to `next` |
| `FileMiddlewareProperties.PoliciesAgreeUnlessCrash` | Sources/Vapor/File/FileMiddleware.swift:32-34 | the corrected middleware differs from the code as written only where the latter crashes |
| `FileMiddlewareProperties.NoDotNoTraversal` | Sources/Vapor/File/FileMiddleware.swift:26 | a path without a dot is never refused as a traversal |
| `FileMiddlewareProperties.PastEndExample` | Sources/Vapor/File/FileMiddleware.swift:31-34 | a ten-byte file requested with `bytes=5-20` crashes as written, but falls through to the file fallback once corrected |

## Left out

- The file system read (`NSData(contentsOfFile:)`, line 31) is a lookup in a map from path to bytes. Read errors other than absence are not modelled.
- `Response(filePath:ifNoneMatch:chunkSize:)` (line 58) is not part of this model. ETag comparison, 304, 404 and chunked streaming happen in it, so the model stops at the `FileFallback` outcome and its three arguments.
- `RouterError.missingRoute` and the next responder are not part of this model. Routing is reduced to the `NextResult` value it would produce.
- Header names are exact map keys. The case-insensitive `HeaderKey` comparison is not modelled.
- Swift strings are sequences of grapheme clusters. The model uses `seq<char>`.
- `Int(String)` is modelled as an optional sign followed by decimal digits within the 64-bit range. No other parsing quirk is modelled.
- A crash is a `Crash` outcome, whether it is a trap on `end - start + 1` or the slice past the data at line 34. On some platforms the slice reads past the buffer instead of trapping. The model does not tell these apart.
- Repeated identical requests give identical answers because `Respond` is a function. No separate lemma states this.
- `Tests/VaporTests/ControllerTests.swift` tests the router and the request decoder, which are not part of this model.

## Findings

| source | as written | input that shows it | evidently intended | confidence | as-written member | corrected member |
|---|---|---|---|---|---|---|
| Sources/Vapor/File/FileMiddleware.swift:33-34 | the length guard is commented out, so `subdata` takes `length` bytes from `start` whatever the file's size | a 10-byte file `Public/movie` requested as `/movie` with `Range: bytes=5-20` | a range that does not fit in the file is not served and the request falls through | high; not executed | `FileMiddlewareProperties.UncheckedCrashesPastEnd` | `FileMiddlewareProperties.FallThroughPastEndGoesToNext` |
| Sources/Vapor/File/FileMiddleware.swift:32 | `end - start + 1` is checked `Int` arithmetic and traps when `end - start` is `Int.max` | any existing file requested with `Range: bytes=0-9223372036854775807` | the range is rejected (it cannot fit in any file) instead of crashing | medium; not executed | `FileMiddlewareProperties.UncheckedOverflows` | `FileMiddlewareProperties.FallThroughPastEndGoesToNext` |

The guard left as a comment at line 33, `length < data.length`, would not be enough either. It compares the length alone with the file size, so `bytes=8-9` on a 5-byte file passes it. The corrected policy requires `end` to be smaller than the file's length.
