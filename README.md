# Web Refinder background script, modelled in Dafny

Web Refinder is a browser extension. When a bookmark is created, or a file
download completes, it renders a small annotated preview and uploads it with
some text to the Gyazo image host. This project models the two parts of
`background.js` that hold logic:

* **The download watcher** (module `Downloads`). The `downloadItems` map
  keeps downloads by id until they finish. Three host events update it:
  * `onCreated` stores the download unless its URL is rejected. The test
    uses `startsWith` from `JsStrings`.
  * `onDeterminingFilename` spreads a partial item over the stored one.
  * `onChanged` spreads the `current` value of each changed field over the
    stored item. When the merged state is `"complete"`, it removes the entry
    and starts one capture with the URL and the formatted file size.

  `DownloadTracker` is a class with the map as a field. Each handler is a
  method that updates that field in place. Each method is proved equal to a
  specification function (`Created`, `FilenameDetermined`, `Changed`). The
  properties are proved about those functions. The class invariant
  `KeyedById` says every item is stored under its own `id`. All three
  handlers preserve it.
* **The capture text** (module `Capture`). These are the pure strings
  `createGyazo` computes before drawing and uploading:
  * the hexadecimal SHA-256 digest and its 8-character short hash;
  * the resolved title;
  * the `desc` upload field.

  They are built on the JavaScript string methods in `JsStrings`: `split`,
  `join`, `slice` and `padStart`. Object values and the object spread
  `{...a, ...b}` are in `JsValues`.

In these places the model follows what the code does, not what its
comments or a casual reading suggest:

* `onCreated` rejects **every** URL of 1024 characters or more, not only
  data URLs. The comment above the test says "Reject Data URLs", but the
  test does not check for a data URL.
* The blob-URL test is a plain prefix test on `"blob:https://gyazo.com"`.
* The title fallback takes the piece after the **last** `/` of the pathname.
  For a pathname ending in `/` that piece is `""`. The code does not look
  back for a non-empty segment (`TrailingSlash`).
* A title that is the empty string is kept. Nullish coalescing replaces
  only `null` and `undefined`.

## Model

| member | source | states |
|---|---|---|
| `JsValues.Spread` | background.js:31-34 | Spreading `over` onto `base` keeps every property of either. Properties of `over` take its values. The others keep `base`'s values. |
| `Downloads.Rejected` | background.js:13-17 | A URL of 1024 characters or more is always rejected. A shorter one is rejected exactly when it begins with `"blob:https://gyazo.com"`, character by character. |
| `Downloads.Created` | background.js:12-22 | A URL of length ≥ 1024, or one starting with the own blob prefix, leaves the table unchanged. Any other item is stored under its `id`. No other key changes. `KeyedById` is preserved. |
| `Downloads.FilenameDetermined` | background.js:24-37 | An id not in the table leaves it unchanged. A tracked id gets the stored item with the partial spread over it: the partial's fields win and the other fields stay. Other keys are untouched and the key set is the same. `KeyedById` is preserved. |
| `Downloads.Currents` | background.js:48-53 | The merged object has the delta's field names, each holding that field's `current` value. |
| `Downloads.MergeChanges` | background.js:46-54 | Fields in the delta take their `current` value. Fields absent from the delta keep the stored value. |
| `Downloads.Changed` | background.js:39-68 | An untracked id is a no-op with no capture. For a tracked id, a capture is emitted exactly when the merged state is `"complete"`. Then the id leaves the table and the request carries the merged URL, `filesize` of the merged size, and no title. Otherwise the merged item is stored. Other keys are untouched and `KeyedById` is preserved. |
| `Downloads.ChangedIgnoresPrevious` | background.js:46-54 | Two deltas with the same `current` values have the same effect, whatever their `previous` values. |
| `Downloads.CapturedOnce` | background.js:56-62 | After a capture the id is gone. A later filename event for it, or a later change event, leaves the table unchanged and starts no second capture. |
| `Downloads.CompletionCapturesDownload` | background.js:12-68 | Take a created, non-rejected download whose state then becomes `"complete"`. It yields one capture of its URL with its formatted size, and afterwards its id is not in the table. |
| `Downloads.DownloadTracker.constructor` | background.js:10 | The table starts empty and satisfies the invariant. |
| `Downloads.DownloadTracker.OnCreated` | background.js:12-22 | The new table is `Created` of the old one, and the invariant is kept. |
| `Downloads.DownloadTracker.OnDeterminingFilename` | background.js:24-37 | The new table is `FilenameDetermined` of the old one, and the invariant is kept. |
| `Downloads.DownloadTracker.OnChanged` | background.js:39-68 | The new table and the returned capture request are `Changed` of the old table, and the invariant is kept. |
| `JsStrings.StartsWith` | background.js:16 | `s` starts with `prefix` exactly when it is at least as long and agrees with it at every index of `prefix`. |
| `JsStrings.Slice` | background.js:94 | The result has the clamped length and is the substring of `s` at `start`. |
| `JsStrings.PadStart` | background.js:91 | The result is `s` preceded by fill characters up to `width`. A longer `s` is kept as it is. |
| `JsStrings.Join` | background.js:122 | Joining no parts gives `""`. Otherwise the result starts with the first part and is as long as the parts plus one separator between each two neighbours. `JoinSplit`, `SplitJoin` and `JoinContains` pin it down further. |
| `JsStrings.Split` | background.js:95 | There is always at least one piece, and no piece holds the separator. |
| `JsStrings.JoinSplit` | background.js:95 | Joining the pieces of a split with the separator gives back the original string. |
| `JsStrings.SplitJoin` | background.js:122 | Splitting a join of separator-free parts gives back the parts. |
| `JsStrings.SplitLast` | background.js:95 | The last piece of a split has no separator and is a suffix of the string. It is either the whole string or preceded by the separator. |
| `JsStrings.JoinContains` | background.js:122 | Every part occurs in the joined string. |
| `Capture.HexDigit` | background.js:91 | Each digit is a lower-case hexadecimal character whose value is the digit. |
| `Capture.ToRadix16` | background.js:91 | The base-16 text of `n` is non-empty lower-case hex. It denotes `n` and has no leading zero unless `n` is 0. |
| `Capture.ByteHex` | background.js:91 | Every byte becomes exactly two characters: its high digit, then its low digit. The encoding is zero-padded. |
| `Capture.Hex` | background.js:86-92 | The encoding is twice as long as the digest. |
| `Capture.HexAppend` | background.js:86-92 | The encoding of two byte sequences one after the other is their two encodings one after the other: each byte is encoded on its own and the results are joined with no separator. |
| `Capture.HexAt` | background.js:86-92 | Characters `2i` and `2i+1` of the encoding are the two digits of byte `i`. |
| `Capture.HexIsLowerCase` | background.js:86-92 | The encoding consists of lower-case hexadecimal digits only. |
| `Capture.HexPrefix` | background.js:86-94 | The encoding of the first `n` bytes is the first `2n` characters of the encoding. |
| `Capture.FromHex` | background.js:86-92 | A reference decoder for the round trip, not code of the script: a decoded string gives half as many bytes as it has characters. |
| `Capture.FromHexHex` | background.js:86-92 | Decoding the encoding gives back the digest. |
| `Capture.HexInjective` | background.js:86-92 | Two digests with the same encoding are equal. |
| `Capture.ShortHash` | background.js:94 | The short hash is the first min(8, 2·length) characters of the encoding. |
| `Capture.ShortHashOfSha256` | background.js:86-94 | For a 32-byte digest the short hash has length 8 and is the encoding of its first four bytes. |
| `Capture.LastSegment` | background.js:95 | The last segment holds no `/` and ends the pathname. It is the whole pathname or follows a `/`. |
| `Capture.TrailingSlash` | background.js:95 | A pathname ending in `/` has the empty string as its last segment. |
| `Capture.ResolvedTitle` | background.js:95 | A present title is kept, even when empty. An absent title (`null` or `undefined`) is replaced by the text after the pathname's last `/`. |
| `Capture.Truthy` | background.js:122 | The filter keeps only non-empty strings and never lengthens the list. |
| `Capture.TruthyMembers` | background.js:122 | A string is in the filtered list exactly when it is non-empty and present among the entries. |
| `Capture.TruthyAppend` | background.js:122 | Filtering a concatenation is the concatenation of the filtered halves, so the kept entries stay in input order. |
| `Capture.DescLines` | background.js:122 | There are at most three lines. A string is a line exactly when it is non-empty and is the resolved title, the URL or the description. |
| `Capture.DescLinesInOrder` | background.js:122 | The `desc` lines are the resolved title, the URL and the description, in that order, each only when present and non-empty. |
| `Capture.Desc` | background.js:120-123 | `desc` is empty exactly when the title, the URL and the description are all empty or absent. A non-empty URL always occurs in it. `DescLinesInOrder` and `DescSplitsBack` give its exact lines. |
| `Capture.DescSplitsBack` | background.js:122 | When no entry contains a line break, splitting `desc` at line breaks gives back exactly its lines. |

## Left out

- Canvas drawing, image loading and the zoom factor (background.js:72-84, 97-105). These are DOM rendering. The zoom is floating-point division.
- The SHA-256 digest and the UTF-8 encoding of the URL (background.js:88). These are host cryptography. The digest is an input byte sequence.
- URL parsing (background.js:95). The pathname is an input string.
- `filesize` (background.js:1, 65). It is an external library. `OnChanged` takes it as a function parameter from values to strings, so the model takes `filesize` to be total and to always return a string. A `filesize` that throws after the entry is deleted at background.js:62 is not modelled: the model always emits the capture.
- `getThumbnailURL` (background.js:145-174). It is a network request with a fixed fallback image, and holds no logic beyond the I/O.
- The access-token read, the `!gyazoAccessToken` early return, the form building and the upload (background.js:105-137). These are host storage and network I/O. Only the `desc` field's text is modelled.
- The bookmark listener (background.js:3-8). It only passes the bookmark's title and URL to `createGyazo`.
- Listener registration, and the interleaving of asynchronous continuations between events. These are host plumbing. Each handler is modelled as one atomic step on the table.
- JavaScript numbers are modelled as integers. Download ids and byte counts are whole numbers, and NaN never appears as a key.
- String lengths count Dafny characters (Unicode scalar values). JavaScript's `length` counts UTF-16 code units, so a URL with characters outside the Basic Multilingual Plane has a larger JavaScript length than the model's.
- Downloads.DownloadTracker.OnCreated: requires the item's `url` to be a string. The code calls string methods on it, and the host always supplies one. A non-string URL would throw instead of being handled.
- Downloads.DownloadTracker.OnChanged: requires that the delta has no `id` property. The delta is the rest of the event object after `id` is destructured out, so it cannot have one.
- Capture.ResolvedTitle: titles are strings or absent. The code would also keep a non-string title.
- Capture.Desc: `desc` is stated for string entries. `createGyazo`'s implicit conversion of a non-string URL to text is not modelled, so a download's URL enters the capture request as a `Value`.
