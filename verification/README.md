# Pastebin storage core — a Dafny model

This project models the backend of a small pastebin: a client posts a text
snippet and later reads it back by a twelve-character identifier. Snippets
expire after fourteen days, and each snippet has a view counter. The model
covers three pieces:

- **Identifier allocation** (`backend/utils/idGenerator.js`). Each candidate
  identifier is twelve URL-safe characters built from twelve random bytes.
  The allocator tries at most five candidates. It returns the first one whose
  key `snippet:<id>` does not exist, and fails when all five are taken.
- **The snippet handlers** (`backend/controllers/snippetController.js`).
  - `saveSnippet` writes the record at `snippet:<id>`. It writes the counter
    `0` at `snippet:<id>:views`. Both keys get a time to live of
    1,209,600 seconds, and the reply reports the expiry in milliseconds.
  - `getSnippet` reads the record and increments the counter together. It
    reports the incremented count, answers 404 when the record is missing or
    expired, and answers 500 when any store call fails.
- **The request validators** (`backend/middleware/validation.js`) and how
  the routes put each one in front of its handler
  (`backend/routes/snippets.js`).

The store is Valkey (a Redis fork). It is modelled as an immutable map from
key to (value, optional deadline). The clock is a parameter, and only the
four commands the code uses are modelled: EXISTS, GET, SETEX and INCR. The
model keeps the store's own rules:
- a key is visible while the clock is at or before its deadline;
- INCR treats an absent or expired key as 0 and stores the result without a
  deadline;
- INCR fails on a value that is not a 64-bit integer, and on the largest one.

Randomness and connection failures are inputs:
- Randomness is a sequence of twelve-byte draws.
- Connection failures are a set `failing` of the ordinals of the store calls
  that fail in one request.

Files and modules:

| file | module | models |
|---|---|---|
| `results.dfy` | `Results` | `Option`, `Result` |
| `js_values.dfy` | `JsValues` | JSON body values, truthiness, `length` (UTF-16 units), `Buffer.byteLength` (UTF-8), a UTF-8 encoder and decoder |
| `store.dfy` | `KeyValueStore` | the store and its four commands; indistinguishability of stores |
| `snippet_keys.dfy` | `SnippetKeys` | identifier shape, key naming, the time-to-live constants |
| `id_generator.dfy` | `IdGenerator` | `generateSnippetId`, `generateUniqueId` |
| `validation.dfy` | `Validation` | `validateSnippet`, `validateSnippetId` |
| `snippet_controller.dfy` | `SnippetController`, `SnippetLifecycle` | `saveSnippet`, `getSnippet`, and properties across calls |
| `routes.dfy` | `Routes` | validator-then-handler routes; round trip, view counting, expiry and uniqueness over sequences of requests |

## Behaviour worth knowing

- The view counter goes up on every read, including reads that answer 404
  (`GetSnippet`).
- A read of an unknown or expired id leaves a counter of 1 with no deadline,
  so that counter never expires
  (`ReadOfMissingSnippetLeavesPersistentCounter`). The same happens on the
  first read of a record whose counter write failed, which is served as
  view 1 (`ReadOfRecordWithoutCounter`).
- Errors are HTTP statuses only. A malformed id gets 400, a missing or
  expired snippet gets 404. Every store failure, allocation exhaustion and
  date-formatting failure gets the same 500 "Internal server error".
- A save whose expiry would lie past the last valid JavaScript Date
  (8.64·10^15 ms) answers 500 after both writes have landed.

## Model

| member | source | states |
|---|---|---|
| `JsValues.PresentStringIsNonEmpty` | backend/middleware/validation.js:5 | the presence-and-type guard lets through exactly the non-empty strings |
| `JsValues.Utf16Length` | backend/middleware/validation.js:44 | JavaScript's `length` counts one unit per character below U+10000 and two above, so it lies between the character count and twice it |
| `JsValues.Utf16LengthOfBmp` | backend/middleware/validation.js:44 | JavaScript's `length` of a string with no astral characters is its character count |
| `JsValues.Utf8Length` | backend/middleware/validation.js:20 | `Buffer.byteLength(content, 'utf8')` sums the RFC 3629 widths of the characters, so it lies between the character count and four times it |
| `JsValues.Utf8LengthOfAscii` | backend/middleware/validation.js:20 | the UTF-8 size of ASCII text is its character count |
| `JsValues.Utf8LengthIsEncodedLength` | backend/middleware/validation.js:20 | the size the validator measures is the length of the RFC 3629 encoding of the content |
| `JsValues.DecodeEncodeChar` | backend/middleware/validation.js:20 | decoding one encoded character gives it back and uses exactly its bytes |
| `JsValues.DecodeEncode` | backend/middleware/validation.js:20 | the encoding being measured loses nothing: decoding it gives the content back |
| `KeyValueStore.Exists` | backend/utils/idGenerator.js:13 | EXISTS is true exactly when the key is stored and has no deadline or a deadline the clock has not passed |
| `KeyValueStore.Get` | backend/controllers/snippetController.js:41 | GET returns a value exactly when the key exists, and then the stored value |
| `KeyValueStore.SetEx` | backend/controllers/snippetController.js:18-19 | SETEX makes the key visible with value v and deadline now + seconds·1000, and changes no other key |
| `KeyValueStore.Incr` | backend/controllers/snippetController.js:42 | INCR on an absent or expired key stores 1 with no deadline; on a live counter it keeps the counter's deadline; on success the key holds the returned count and no other key changes |
| `KeyValueStore.IncrAddsOne` | backend/controllers/snippetController.js:42 | INCR succeeds exactly when the counter it reads is a 64-bit integer below the maximum, and then returns that counter plus one |
| `KeyValueStore.ExpiredKeyIsNeverWritten` | backend/controllers/snippetController.js:45-49 | a store with an expired key cannot be told apart from the same store without it |
| `KeyValueStore.CommandsRespectIndistinguishable` | backend/controllers/snippetController.js:40-43 | stores that cannot be told apart answer EXISTS, GET and INCR alike, and stay indistinguishable after SETEX and INCR |
| `SnippetKeys.KeysAreSeparate` | backend/controllers/snippetController.js:18-19 | distinct ids have distinct record keys and distinct counter keys; no well-formed id's record key is any counter key; an id's two keys differ |
| `IdGenerator.GenerateSnippetId` | backend/utils/idGenerator.js:3-7 | every candidate is twelve characters from `[A-Za-z0-9_-]` |
| `IdGenerator.AlphabetIsUrlSafe` | backend/utils/idGenerator.js:4 | the 64-symbol alphabet and the URL-safe characters are in bijection |
| `IdGenerator.EveryIdCanBeGenerated` | backend/utils/idGenerator.js:3-7 | every well-formed id is the candidate of some draw |
| `IdGenerator.Allocate` | backend/utils/idGenerator.js:9-18 | at most five checks; a returned id is the first candidate whose record key was absent, after the checks of all earlier candidates found theirs present; a failed check ends allocation; `Exhausted` means all five were present |
| `IdGenerator.ExhaustedIffAllTaken` | backend/utils/idGenerator.js:11-17 | allocation throws 'Failed to generate unique ID' exactly when all five candidates exist and no check failed |
| `IdGenerator.GenerateUniqueId` | backend/utils/idGenerator.js:9-18 | the source's loop: 1 to 5 checks; a returned id is well-formed and free, and it is the candidate of the last check; every earlier candidate was taken; it agrees with `Allocate` |
| `Validation.ValidateSnippet` | backend/middleware/validation.js:1-39 | missing or non-string content gives 400 first; then missing language gives 400; then content over 2 MiB of UTF-8 gives 413; then a language outside the seven gives 400. It passes exactly when all four checks pass, and then `contentSize` is the UTF-8 length of the content |
| `Validation.UrlSafeUnitsAreCharacters` | backend/middleware/validation.js:44-53 | for a string the URL-safe pattern matches, JavaScript's `length` equals the character count |
| `Validation.ValidateSnippetId` | backend/middleware/validation.js:41-61 | `next()` is called exactly for twelve-character URL-safe ids; every other id gets 400 'Invalid snippet ID format', in particular a wrong length or any character outside the alphabet |
| `Validation.SizeLimitBoundary` | backend/middleware/validation.js:19-26 | any content of exactly 2,097,152 UTF-8 bytes in an allowed language passes; any content of 2,097,153 bytes gets 413; 2 MiB of ASCII and one more character are instances of each |
| `SnippetController.SaveSnippet` | backend/controllers/snippetController.js:4-34 | success exactly when allocation succeeds, neither write fails and the expiry is a valid Date. A failed allocation or first write leaves the store untouched. Once the first write lands, the record key holds a record with the submitted content and language, a null title when the title is falsy, `created_at` = now and `file_size` = contentSize, with deadline now + 1,209,600 s. When the second write fails, the record key is the only key that changed; the counter key is as it was. After both writes the counter key holds 0 with the same deadline and no other key changed. On success the id is well-formed and was free, and the reported expiry is that deadline in ms. Every failure is 500 |
| `SnippetController.GetSnippet` | backend/controllers/snippetController.js:36-69 | a failed GET or INCR call, an INCR command error (a counter at 2^63−1 or a non-integer), a counter under the record key, or a `created_at` that is not a valid Date gives 500; every reply is `Found`, 404 or 500. When INCR succeeds the counter ends one higher than before, present record or not; a live counter keeps its deadline, and a counter INCR creates holds 1 with no deadline. Only the counter key can change. 404 exactly when both calls succeed and the record is absent or expired. When both succeed and a live record with a valid date is present, the reply is `Found` with that record and the post-increment count; a `Found` reply implies all of this |
| `SnippetLifecycle.ReadKeepsRecords` | backend/controllers/snippetController.js:40-43 | a read never changes the record of the id read, nor of any well-formed id |
| `SnippetLifecycle.AllocateRespectsIndistinguishable` | backend/utils/idGenerator.js:11-15 | the allocator cannot tell an expired record from an absent one, so an expired id can be handed out again |
| `SnippetLifecycle.SaveRespectsIndistinguishable` | backend/controllers/snippetController.js:4-34 | a save replies alike on indistinguishable stores and leaves indistinguishable stores |
| `SnippetLifecycle.GetRespectsIndistinguishable` | backend/controllers/snippetController.js:36-69 | a read replies alike on indistinguishable stores and leaves indistinguishable stores |
| `SnippetLifecycle.ExpiredSnippetIsNeverWritten` | backend/controllers/snippetController.js:40-50 | reading a snippet whose keys have expired replies exactly as reading one never written: 404 when no call fails |
| `SnippetLifecycle.ReadOfMissingSnippetLeavesPersistentCounter` | backend/controllers/snippetController.js:40-50 | reading an id with no live record or counter answers 404 and leaves a counter of 1 with no deadline |
| `SnippetLifecycle.ReadOfRecordWithoutCounter` | backend/controllers/snippetController.js:40-59 | the first read of a live record with no live counter returns that record with views = 1, keeps the record, and leaves a counter of 1 with no deadline |
| `Routes.PostSnippet` | backend/routes/snippets.js:8 | a body the validator halts leaves the store untouched and gets the validator's status; a body it passes is handed to `saveSnippet` with its UTF-8 length as `contentSize`; a created snippet had non-empty string content of at most 2 MiB in an allowed language, and its `file_size` is the UTF-8 length |
| `Routes.FetchSnippet` | backend/routes/snippets.js:11 | a malformed id gets 400 with the store untouched, whatever the store holds and whichever calls would fail, so no store call is made; a well-formed id reaches `getSnippet` |
| `Routes.PostStores` | backend/controllers/snippetController.js:9-25 | after a successful post the record and a zero counter are stored with the reported expiry as deadline |
| `Routes.ReadsCountUp` | backend/controllers/snippetController.js:40-58 | while the snippet is live, the j-th read after v earlier ones reports the stored record and view number v + j + 1 |
| `Routes.SaveThenRead` | backend/controllers/snippetController.js:9-59 | round trip: within fourteen days of a post, the k-th read returns the submitted content, language and title, `created_at` = post time, and views = k (1 on the first read) |
| `Routes.ReadAfterExpiryIsNotFound` | backend/controllers/snippetController.js:18-49 | after fourteen days a read of a posted snippet answers 404 |
| `Routes.HandleKeepsHeld` | backend/utils/idGenerator.js:13-14 | a request keeps every well-formed record that is live through the horizon live through it; a created id is well-formed, not one of them, and live through the horizon |
| `Routes.CreatedIdsAreDistinct` | backend/utils/idGenerator.js:11-15 | within any fourteen-day window, however posts and reads interleave and whichever calls fail, successful posts return pairwise distinct ids, and none of them had a record live through the end of the window; an id whose record expires inside the window can be handed out again |

## Left out

- Concurrency: `Promise.all` is modelled as GET then INCR on the same store state. Both calls are always issued. The two keys differ, so their order does not matter. Concurrent requests, and the race between the existence check and the write, are not modelled. So the property that M concurrent reads see exactly 1..M is not stated.
- JSON encoding and ISO date formatting: the stored record is a datatype. Formatting `created_at` and `expires_at` is reduced to its failure condition, a magnitude above 8.64·10^15 ms.
- A value under a record key that is not a record becomes 500. In the source, parsing the counter's text yields no `created_at`, and date formatting then throws.
- Clocks: one clock reading `now` serves the whole request. It is also the store's clock. The source reads `Date.now()` twice in `saveSnippet`, once for `created_at` and once for `expires_at` after the writes. The model uses the same instant for both.
- Failed store calls: a failed call changes nothing. A write that times out but still lands is not modelled.
- `KeyValueStore.SetEx`: requires a positive time to live. The store rejects other values, but the only callers pass 1,209,600.
- Randomness: nanoid's random bytes are an input, one twelve-byte draw per candidate. The alphabet is listed in `A-Z a-z 0-9 - _` order. nanoid's own order is a permutation of it, which changes no property here. Collision probability is not modelled.
- JavaScript strings are Dafny strings of Unicode scalar values. A string holding an unpaired surrogate cannot be represented. JSON numbers are reals. A numeric literal too large for a double, which `JSON.parse` turns into ±Infinity, cannot be represented; the source would store such a title as `null` (`JSON.stringify` writes Infinity as `null`), whereas `Routes.SaveThenRead` hands back the submitted title.
- View counts: the store's client hands INCR's 64-bit reply to JavaScript as a Number, which is exact only below 2^53. `SnippetController.GetSnippet` and `Routes.ReadsCountUp` report the exact count up to 2^63 − 1, so counts from 2^53 upward are not rounded as the source would round them.
- A route parameter is always a string, so the `typeof id !== 'string'` branch of `validateSnippetId` is not modelled. A body that is not an object is not modelled either.
- The Express wiring, CORS, compression, the 2.5 MB JSON body limit, the global error handler, the store client setup, the browser UI and its HTTP wrapper are not part of this model.
