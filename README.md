# timeprox in Dafny

timeprox is an HTTP proxy that serves a website as the Internet Archive's
Wayback Machine captured it at a chosen time. For each request it does four
things:

- It resolves the archive URL to fetch (`arcUrl`).
- It classifies the archive's answer as missing, textual or binary
  (`isFetchResTs404`, `isFetchResText`).
- It copies and renames the upstream headers, adding three diagnostic
  headers and the content type (`setHeaders`, `setContentType`).
- It sends the body. Binary bodies go out unchanged. Text is decoded, cleaned
  of the archive's rewriting artefacts (`filterBody`) and encoded again
  (`sendBody`).

This project models that pipeline from `server.js`:

- `text.dfy` (`Text`): digits, ECMAScript white space, ASCII case-insensitive
  matching, and the subsequence relation ("only deletes").
- `decimal.dfy` (`Decimal`): the decimal text of integers and its parser.
- `dates.dfy` (`Dates`): `pad`, `formatOffset` and `formatDate`, over the
  integer fields a `Date` reports.
- `resolver.dfy` (`Resolver`): `arcUrl`, with the pathname and the configured
  timestamp as parameters.
- `rewriter.dfy` (`Rewriter`): the five replacements of `filterBody`. Each is
  a string function that follows its regular expression's semantics, next to
  a declarative description of what that expression matches.
- `upstream.dfy` (`Upstream`): the response `fetch` resolves with, and
  `Headers.get`.
- `classifier.dfy` (`Classifier`): `isStartOf`, `isFetchResText` and
  `isFetchResTs404`.
- `http.dfy` (`Http`): the part of Node's `ServerResponse` the proxy uses, as
  a class with a status, a header map and a body.
- `translation.dfy` (`Translation`): the per-name copying rule, and the
  imperative `setHeaders` and `setContentType` on a `Response`.
- `handler.dfy` (`Handler`): `notFound`, `serverError`, `sendBody` and the
  request handler. `Respond` gives the reply as a value; `Handle` builds it
  step by step and is proved to reach that value.

Some behaviour of the code is easy to miss. The model follows the code on each
point below, except for the copying loop, which is a finding (see
"## Findings"):

- **Status.** A successful reply has status 200, Node's default, because the
  handler never passes the upstream status on.
- **Content type.** It is always overwritten with the upstream
  `content-type` (`server.js:94`). When that header is missing, the value
  written is `null`, which replaces the guessed `<type>; charset=<charset>`
  written just before at line 90.
- **Unwrapped names.** A header `x-archive-orig-<name>` is always re-emitted
  as `<name>`. So `content-encoding`, `link`, `transfer-encoding` or an
  `x-archive-…` name can still reach the client this way
  (`Translation.UnwrapCanEmitSkipped`).
- **Copying loop.** `Object.keys(fetchRes.headers.entries())` (lines 98-100)
  has no keys, so the code as written copies no upstream header at all
  (`Translation.TranslatedAsWritten`). The rest of the model runs the evident
  per-name rule over the upstream header list (`Translation.CopyHeaders`).
- **Unparsable URL.** If `new URL(req.url)` throws, nothing is written to the
  client. The exception happens outside the promise chain, and the process's
  `uncaughtException` handler only logs it.
- **Zero offset.** A zero timezone offset is written `-00:00`, because the
  sign is `+` only for a negative `getTimezoneOffset()`.

## Model

| member | source | states |
|---|---|---|
| `Decimal.NatToString` | server.js:19 | decimal text of a non-negative number: at least one digit, a single character exactly below 10, a leading `0` only for zero |
| `Decimal.NatToStringRoundTrip` | server.js:19 | the digits read back as the number they were made from |
| `Decimal.IntToStringRoundTrip` | server.js:37 | the year's text, minus sign included, parses back to the year |
| `Decimal.IntToString` | server.js:37 | an integer's text is never empty and starts with `-` exactly for a negative number; the rest is all digits, and a non-negative number has a single digit exactly below 10 |
| `Dates.Pad` | server.js:19 | a `0` is prefixed exactly for values 0..9, whose text has one character |
| `Dates.PadTwoDigits` | server.js:19 | every value in 0..99 becomes exactly two digits that denote it |
| `Dates.FormatOffset` | server.js:21-27 | the offset text starts with `+` exactly when the offset is negative; for offsets under 100 hours it has six characters and reads back as minus the offset in minutes |
| `Dates.DateTailRoundTrip` | server.js:31-37 | everything after the year is 21 characters in the layout `-MM-DDTHH:MM:SS±HH:MM` and yields month, day, time and offset back |
| `Dates.FormatDate` | server.js:29-38 | for valid fields, the request-time text is the year's text plus 21 characters and parses back to every field it was made from |
| `Resolver.IsArchivePath` | server.js:46 | the hand-written matcher accepts a path exactly when it is `/web/`, one or more digits, an optional `fw_` or `im_`, then `/` |
| `Resolver.ArcUrl` | server.js:44-49 | every fetched URL is on the archive origin, and its path is archive-shaped whenever the configured time is at most 14 digits |
| `Resolver.Timestamp` | server.js:48 | the configured time is completed from `19980101000000`: 14 characters starting with the time when it is at most 14 long, the whole fallback when empty, the time itself when 14 or longer |
| `Resolver.ArcUrlPassThrough` | server.js:44-47 | an archive-shaped path is fetched as the archive origin plus the path, whatever the URL and the configured time |
| `Resolver.ArcUrlWrap` | server.js:44-48 | any path that is not archive-shaped is fetched as the archive origin plus `/web/<timestamp>/<url>`, whatever the configured time holds |
| `Resolver.TimestampDigits` | server.js:48 | a timestamp of at most 14 digits is completed to exactly 14 digits |
| `Resolver.SnapshotPathIsArchivePath` | server.js:46-48 | the path built for any other request is archive-shaped when the time is at most 14 digits |
| `Resolver.ArcUrlSnapshot` | server.js:44-49 | any other request is wrapped as `/web/<timestamp>/<url>`, and resolving that path again changes nothing |
| `Rewriter.DowngradeArchiveScheme` | server.js:53 | the result is shorter than the input or equal to it |
| `Rewriter.DowngradeFirstMatch` | server.js:53 | at the leftmost `https://web.archive.org/`, in any letter case, the text before it is kept, the match becomes `http://web.archive.org/` and the rest is downgraded in turn |
| `Rewriter.DowngradeLeavesNoSecureRef` | server.js:53 | after step (a) no `https://web.archive.org/` remains, in any letter case, including across the replaced text |
| `Rewriter.DowngradeUnchangedIff` | server.js:53 | step (a) changes the text exactly when it contains `https://web.archive.org/` in any letter case |
| `Rewriter.SnapshotLengthExact` | server.js:54 | where an optional archive host, `/web/`, digits and `/` or `fw_/` start the text, the matcher consumes exactly that |
| `Rewriter.SnapshotLength` | server.js:54 | the matcher consumes at most the text, and whatever it consumes is an optional archive host, `/web/`, digits and `/` or `fw_/` |
| `Rewriter.StripSnapshotPrefixes` | server.js:54 | the result is shorter than the input or equal to it |
| `Rewriter.StripFirstMatch` | server.js:54 | at the leftmost snapshot segment, the text before it is kept, exactly the matched characters are deleted and the rest is stripped in turn |
| `Rewriter.DeleteFirstMatch` | server.js:54 | the global deletion keeps a match-free prefix and deletes the match that follows it, then goes on after the match |
| `Rewriter.StripUnchangedIff` | server.js:54 | step (b) changes the text exactly when a `/web/<digits>/` or `/web/<digits>fw_/` segment occurs in it |
| `Rewriter.StripIsSubsequence` | server.js:54 | step (b) only deletes characters |
| `Rewriter.LeadingSpaceLength` | server.js:55 | the length of the run of `\s` characters the text starts with |
| `Rewriter.TrimSpaceBeforeTag` | server.js:55 | the result is a suffix; only white space is removed; it changes exactly when white space at the start is followed by `<`, and then the result starts with `<` |
| `Rewriter.TrimIsSubsequence` | server.js:55 | step (c) only deletes characters |
| `Rewriter.LastMarker` | server.js:57 | finds the last end-of-Wayback marker, in any letter case, within a range, or shows there is none |
| `Rewriter.FindBlock` | server.js:56-63 | finds the leftmost opening tag from which a marker is reachable, the first `>` after it, and the last reachable marker, or shows that no block exists |
| `Rewriter.RemoveWaybackBlock` | server.js:56-63 | steps (d) and (e) change the text exactly when a block exists, and then make it shorter |
| `Rewriter.WaybackBlockRemoval` | server.js:56-59 | the result is the text up to and including the leftmost tag's first `>`, followed by the text after the chosen marker |
| `Rewriter.WaybackBlockReachesLastMarker` | server.js:57 | without U+2028/U+2029 in the text, no marker comes after the chosen one |
| `Rewriter.RemoveIsSubsequence` | server.js:56-63 | steps (d) and (e) only delete characters |
| `Rewriter.FilterBody` | server.js:51-63 | `filterBody` returns its input exactly when the text has none of the five artefacts |
| `Rewriter.FilterBodyWithoutArtifacts` | server.js:51-63 | a text with no secure archive link, no snapshot segment, no white space before a leading `<` and no marker is returned unchanged |
| `Rewriter.FilterBodyOnlyDeletes` | server.js:54-63 | after the scheme downgrade, the remaining steps only delete characters |
| `Rewriter.ExampleStepA` | server.js:53 | the downgrade turns the example's `https` archive link into `http` |
| `Rewriter.ExampleStepB` | server.js:54 | snapshot stripping reduces the example to the archived site's URL |
| `Rewriter.FilterBodyExample` | server.js:51-63 | `https://web.archive.org/web/19980101000000/http://example.com` filters to `http://example.com` |
| `Upstream.Values` | server.js:69 | the values of the headers with a given name: none exactly when no header has that name |
| `Upstream.Get` | server.js:69 | `get` is missing exactly when no header has the name |
| `Upstream.GetSingle` | server.js:75 | with a single header of the name, `get` returns that header's value unchanged |
| `Upstream.GetWithoutComma` | server.js:75 | `get` equals a value without commas exactly when one header of the name carries that value |
| `Classifier.IsStartOf` | server.js:65-66 | true exactly when the prefix is empty, or the text is present and starts with the prefix |
| `Classifier.IsFetchResText` | server.js:68-73 | true exactly when the content type is present and starts, with letter case counting, with `text/html` or `text/plain` |
| `Classifier.IsFetchResTs404` | server.js:75 | true exactly when there is one `x-ts` header and it reads `404` |
| `Classifier.NoTimestampHeaderIsFound` | server.js:75 | a response without `x-ts` is never treated as missing |
| `Classifier.RepeatedTimestampHeader` | server.js:75 | two `x-ts: 404` headers combine to `404, 404` and are not treated as missing |
| `Translation.Unwrap` | server.js:103 | the `x-archive-orig-` prefix is removed when present; other names are unchanged |
| `Translation.Rename` | server.js:101-103 | a header is dropped exactly when it is `content-encoding`, `link`, `transfer-encoding`, or `x-archive-` not followed by `orig` |
| `Translation.Copied` | server.js:100-104 | a name is in the copied map exactly when it was there before or some header is copied under it |
| `Translation.CopiedLastWriter` | server.js:100-104 | a copied name carries the value of the last header copied under it |
| `Translation.CopiedUntouched` | server.js:100-104 | a name no header is copied under keeps its earlier value |
| `Translation.CopiedSkippedOnlyUnwrapped` | server.js:101-103 | a dropped name reaches the response only by unwrapping `x-archive-orig-<name>` |
| `Translation.UnwrapCanEmitSkipped` | server.js:101-103 | `x-archive-orig-transfer-encoding` is re-emitted as `transfer-encoding` |
| `Translation.Translated` | server.js:97-110 | the three diagnostics hold the fetched URL, the request time and the request URL; the content type is the upstream value, even a missing one; all other names are as copying left them |
| `Translation.TranslatedAsWritten` | server.js:97-110 | as written, the three diagnostics and the content type are set as in `Translated`, and every other name is exactly as it was before |
| `Translation.AsWrittenCopiesNothing` | server.js:97-110 | as written, a fresh response ends with exactly the three diagnostics and the content type |
| `Translation.AsWrittenLosesUpstreamHeader` | server.js:98-104 | an upstream `etag` header is kept by the per-name rule and lost as written |
| `Translation.CopyHeader` | server.js:100-104 | one header is copied exactly as the per-name rule says: skipped, or set under its unwrapped name with its value |
| `Translation.CopyHeaders` | server.js:98-104 | the copying loop leaves exactly the copied map, with the invariant that the map holds the headers copied so far; status and body are untouched |
| `Translation.SetContentType` | server.js:80-95 | the only lasting change is the content type, which is set to the upstream value; a guess written before it is overwritten |
| `Translation.SetHeaders` | server.js:97-110 | the header map becomes the translated map: the copied headers, then the three diagnostics, then the content type; status and body are untouched |
| `Handler.BodyCharset` | server.js:121-122 | the archive's guessed charset when present and non-empty, otherwise `utf8` |
| `Handler.SentBody` | server.js:112-130 | headers are kept; status is 200 exactly when the body is bytes, otherwise 500 with `timeprox: Server Error` and an error; a non-textual body is passed on byte for byte; a textual 200 body is the encoding of some filtered text |
| `Handler.SendBody` | server.js:112-130 | ends the response as `SentBody` describes, or returns the failure with the response still open and its headers kept |
| `Handler.NotFound` | server.js:132-135 | status 404 and `timeprox: Not Found`, headers kept |
| `Handler.ServerError` | server.js:137-140 | status 500 and `timeprox: Server Error` followed by a blank line and the error, headers kept |
| `Handler.Handle` | server.js:142-151 | the response ends as `Respond` describes, or stays untouched when the request URL does not parse |
| `Handler.Respond` | server.js:142-151 | no reply exactly when the request URL does not parse; otherwise status 200, 404 or 500, and 200 exactly when the body is bytes |
| `Handler.MissingSnapshotIsNotFound` | server.js:146 | an `x-ts: 404` answer becomes a 404 with no headers, whatever its status and body |
| `Handler.BinaryPassThrough` | server.js:115-117 | a non-textual body is sent byte for byte with status 200 under the upstream content type |
| `Handler.CleanPageUnchanged` | server.js:126-129 | a textual page whose decoded text has no artefacts goes out as the re-encoding of that text |
| `Handler.TextPageIsFiltered` | server.js:115-129 | a textual page is decoded with its charset, passed through `filterBody`, encoded again and sent with status 200 under the translated headers |
| `Handler.FetchFailureIsServerError` | server.js:143-150 | a failed fetch gives status 500 with `timeprox: Server Error` and the error, and no headers |
| `Handler.BodyReadFailureIsServerError` | server.js:113 | a failure to read the body gives status 500 with the error text, keeping the translated headers |
| `Handler.DecodeFailureIsServerError` | server.js:126 | a failure to decode a textual body gives status 500 with the error text, keeping the translated headers |
| `Handler.DiagnosticsOnEveryOutcome` | server.js:142-151 | once the upstream answer is accepted, every outcome carries the three diagnostic headers, body failures included |
| `Handler.UnparsableUrlUnanswered` | server.js:143 | a request URL that does not parse gets no reply |

## Left out

- `app.js`: the nodemon restart wrapper, which is process tooling with no
  logic of its own.
- Network and server plumbing, which become parameters of the model:
  `http.createServer`, `server.listen`, the `fetch` call and `arrayBuffer()`.
  An upstream answer is a value whose body read can fail.
- iconv-lite's `decode` and `encode`, which become function parameters. The
  unused `charset` import and `res.getHeader('content-type')` (line 120),
  whose result is never used, are not modelled.
- The `URL` parser, which is replaced by a pathname parameter (`None` when
  parsing throws).
- The clock: `Date` becomes the integer fields it reports, passed in.
  `getTimezoneOffset()` is a whole number of minutes here. Fractional-minute
  offsets, as some engines report for historic local mean time, and the
  years a `Date` cannot represent are not modelled.
- `ARCHIVE_TIME` and `PORT` environment reads. The configured time is a
  parameter.
- `console` logging (`log`, lines 40-42, 133, 138) and the `process.on`
  handlers (lines 12-17). They produce no response.
- `isFetchResYear` (lines 77-78), because it is never called.
- Concurrency between requests. Each request is handled independently.
- `Upstream.Get` assumes lower-case header names, as the Fetch API stores
  them. It combines repeated headers with `, `. The sorting and combining
  that `Headers.entries()` applies before iteration is not modelled. The
  copying loop visits the header list in arrival order.
- Node's header validation, which throws on invalid characters in a header
  value, and the way Node writes a `null` header value on the wire (as the
  text `null`) are not modelled. The map holds `None`.
- Translation.CopyHeaders: copies the upstream headers by the per-name rule,
  which the source intends but, as written, never runs (see "## Findings").
  `Translation.TranslatedAsWritten` is the behaviour as written.

## Findings

| source | as written | input that shows it | evidently intended | confidence | as-written member | corrected member |
|---|---|---|---|---|---|---|
| server.js:98-100 | `Object.keys(fetchRes.headers.entries())` enumerates the own keys of an iterator, which has none, so no upstream header is copied | an upstream answer with the header `etag: "v1"`: the client receives no `etag` | every upstream header goes through the per-name rule of lines 101-103 and is copied under its unwrapped name | not executed | `Translation.AsWrittenLosesUpstreamHeader` | `Translation.CopyHeaders` |
