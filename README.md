# Video upload quota: a Dafny model

This project models the core of a small video-upload service. A browser posts
an email address and a video; the server checks the request, enforces a quota
of two uploads per email, stores the file on Google Drive and records the
upload in a document collection.

The model covers four pieces of the repository:

- **The upload tracker** (`src/lib/uploadTracker.ts`). The collection is the
  `table` field of the class `UploadTracker.Tracker`, a map from the
  normalised email (`toLowerCase().trim()`) to a record holding `email`,
  `count` and the ordered list of `uploads`. The four readers
  (`GetUploadCount`, `CanUpload`, `GetRemainingUploads`, `GetUploadHistory`)
  are functions of that state. `RecordUpload` is a method that reads the
  record, rejects at the ceiling of 2, and otherwise upserts: it increments the
  count, appends one event and, for a new email, creates the record. The class
  invariant `Valid()` is `Consistent()` (every record sits under its own email,
  `count == |uploads|`, `count <= 2`) together with `KeysNormalized()` (every
  key is already normalised). `RecordUpload` keeps both. The source keeps these
  records in a single MongoDB collection, and `table` models that collection.
- **The upload handler** (`src/app/api/upload/route.ts`). `UploadRoute.Post`
  is a method over a `Tracker`. It runs the checks in the source's order:
  email, video presence, MIME type, quota, Drive outcome, then record. It
  returns the HTTP answer and the Drive upload it would perform, or `None`
  when it performs none. The Drive outcome is a parameter.
- **The Drive file name** (`src/lib/googleDrive.ts`). `SanitizeEmail`,
  `StampForName`, `Extension` and `UniqueFileName` build the stored name.
  `FileRequestBody` sets `parents` only when a folder id is configured.
  As written, `split('.').pop() || 'mp4'` falls back to `mp4` only for an
  empty name or one ending in `.`. A name without any dot becomes its own
  extension (`ExtensionWithoutDot`).
- **The `.env` reader** (`scripts/check-drive-user.js`). `EnvFile.LoadEnv` is
  the `forEach` loop over the lines. It is proved equal to the left fold
  `ApplyLines`. `ParseLine` and `StripQuotes` are the per-line regular
  expressions. The regular-expression `.` matches any character except the
  four line terminators `\n`, `\r`, U+2028 and U+2029, so a value that holds
  one of them is not matched (`IsLineTerminator`).

Shared string helpers live in `Strings`: the ASCII part of `toLowerCase` and
`trim`, `indexOf`, `split` on one character with its inverse `Join`, and the
decimal rendering of a number. `Options` holds the optional-value datatype.

Timestamps (`new Date().toISOString()`) are string parameters. The Drive
call's result is an `UploadResult` parameter. The content of the `.env`
file is a string parameter, and the environment is a map that is passed in
and returned.

## Model

| member | source | states |
|---|---|---|
| `UploadTracker.Normalize` | src/lib/uploadTracker.ts:46 | the key is never longer than the email; its case and padding facts are `NormalizeSpec`, `NormalizeIdempotent` and `NormalizeIgnoresCaseAndPadding` |
| `UploadTracker.NormalizeSpec` | src/lib/uploadTracker.ts:46 | the normalised email has no capital letter, no whitespace at either end, and is no longer than the input; it is the contiguous middle of the lower-cased email, and everything dropped before and after it is whitespace |
| `UploadTracker.NormalizeIdempotent` | src/lib/uploadTracker.ts:46 | normalising a normalised email changes nothing |
| `UploadTracker.NormalizeIgnoresCaseAndPadding` | src/lib/uploadTracker.ts:46 | an email with whitespace added around it, its lower-case spelling and the email itself all normalise to the same key |
| `UploadTracker.SameSubmitterSameView` | src/lib/uploadTracker.ts:126-128 | two emails with the same normalisation see the same count, history, permission and remaining quota |
| `UploadTracker.Tracker.GetUploadCount` | src/lib/uploadTracker.ts:41-49 | 0 for an email with no record; on a consistent table the count equals the history length and is at most 2 |
| `UploadTracker.Tracker.GetUploadHistory` | src/lib/uploadTracker.ts:121-129 | the empty list for an email with no record; at most 2 events on a consistent table |
| `UploadTracker.Tracker.CanUpload` | src/lib/uploadTracker.ts:54-57 | true for an email with no record; on a consistent table, true exactly when fewer than 2 uploads are recorded |
| `UploadTracker.Tracker.GetRemainingUploads` | src/lib/uploadTracker.ts:62-65 | at most 2, positive exactly when another upload is allowed, and then count plus remaining is 2 (so it is `max(0, 2 - count)`) |
| `UploadTracker.Tracker.RecordUpload` | src/lib/uploadTracker.ts:70-116 | succeeds exactly when `CanUpload` held before; a rejection returns `{false, 0, error}` and leaves the table unchanged; a success adds 1 to the count, appends exactly the new event, keeps or sets the record's email, changes no other key, and returns `2 - (oldCount + 1)`; both invariants are preserved |
| `UploadTracker.Tracker.constructor` | src/lib/uploadTracker.ts:28-36 | an empty collection satisfies the invariant |
| `UploadTracker.FreshEmail` | src/lib/uploadTracker.ts:41-57 | on an empty collection an email has count 0, may upload and has an empty history |
| `UploadTracker.HistoryInOrder` | src/lib/uploadTracker.ts:94-108 | two successive uploads appear in the history in the order they were recorded |
| `UploadTracker.ThirdUploadRejected` | src/lib/uploadTracker.ts:85-91 | after two uploads a third is rejected with remaining 0, and the count stays 2 with 2 events |
| `UploadTracker.TrailingPadding` | src/lib/uploadTracker.ts:46 | an email followed by whitespace and the email's lower-case spelling normalise to the same key |
| `UploadTracker.CountSharedAcrossSpellings` | src/lib/uploadTracker.ts:79 | an upload recorded under an email followed by whitespace (such as `"Foo@Bar.com "`) is counted once under the email's lower-case spelling |
| `Strings.ToLower` | src/lib/uploadTracker.ts:46 | `toLowerCase` keeps the length of its input; `ToLowerSpec` states what each character becomes |
| `Strings.Trim` | src/lib/uploadTracker.ts:46 | `trim` never lengthens its input; `TrimSpec` states which piece it keeps and that only whitespace is dropped |
| `Strings.ToLowerSpec` | src/lib/uploadTracker.ts:46 | lower-casing keeps the length, maps each character on its own, and leaves no capital |
| `Strings.TrimStartSpec` | src/lib/uploadTracker.ts:46 | the leading-trim result is the longest suffix not starting with whitespace |
| `Strings.TrimEndSpec` | src/lib/uploadTracker.ts:46 | the trailing-trim result is the longest prefix not ending with whitespace |
| `Strings.TrimSpec` | src/lib/uploadTracker.ts:46 | `trim` keeps a contiguous piece of its input with no whitespace at either end, and everything it drops before and after that piece is whitespace |
| `Strings.TrimIdempotent` | src/lib/uploadTracker.ts:46 | trimming twice is trimming once |
| `Strings.ToLowerIdempotent` | src/lib/uploadTracker.ts:46 | lower-casing twice is lower-casing once |
| `Strings.TrimToLower` | src/lib/uploadTracker.ts:46 | lower-casing and trimming commute |
| `Strings.TrimPadding` | src/lib/uploadTracker.ts:46 | whitespace added at either end is removed again by `trim` |
| `Strings.IndexOf` | scripts/check-drive-user.js:11 | a position it reports lies inside the string and holds the character |
| `Strings.IndexOfSpec` | scripts/check-drive-user.js:11 | no position is reported exactly when the character does not occur; a reported position is its first occurrence |
| `Strings.Split` | scripts/check-drive-user.js:10 | `split` on one character always gives at least one piece |
| `Strings.SplitPieces` | scripts/check-drive-user.js:10 | no piece of a split holds the separator |
| `Strings.JoinSplit` | scripts/check-drive-user.js:10 | joining the pieces of a split with the separator gives the input back |
| `Strings.SplitJoin` | scripts/check-drive-user.js:10 | splitting the join of separator-free pieces gives the pieces back |
| `Strings.LastPieceOfSplit` | src/lib/googleDrive.ts:58 | the suffix modelled as the last piece is exactly the element `split(sep).pop()` returns |
| `Strings.SplitLast` | src/lib/googleDrive.ts:58 | a last piece that is not the whole string starts right after a separator |
| `Strings.LastPieceFree` | src/lib/googleDrive.ts:58 | the last piece holds no separator, so it is the text after the last one |
| `Strings.NatToString` | src/app/api/upload/route.ts:73 | the decimal numeral of a number: digits only, no leading zero, and it denotes the number |
| `GoogleDrive.SanitizeEmail` | src/lib/googleDrive.ts:57 | same length as the email; every character is `[a-zA-Z0-9]` or `_`; alphanumerics are kept in place and all others become `_` |
| `GoogleDrive.StampForName` | src/lib/googleDrive.ts:56 | same length as the timestamp, no `:` or `.`, those become `-` and every other character is kept |
| `GoogleDrive.Extension` | src/lib/googleDrive.ts:58 | never empty and never holds `.`; `mp4` for an empty name or one ending in `.`, otherwise the text after the last `.` or the whole name |
| `GoogleDrive.ExtensionAfterLastDot` | src/lib/googleDrive.ts:58 | a name ending in `.` plus a non-empty dot-free text has that text as its extension |
| `GoogleDrive.ExtensionWithoutDot` | src/lib/googleDrive.ts:58 | a non-empty name without `.` is its own extension |
| `GoogleDrive.UniqueFileName` | src/lib/googleDrive.ts:56-59 | the stored name is as long as the email, the timestamp, the extension and the two separators together; its shape is stated by the three lemmas below |
| `GoogleDrive.UniqueFileNameParts` | src/lib/googleDrive.ts:56-59 | the stored name holds exactly one `.`: it splits on `.` into the sanitised email, `_` and timestamp on one side and the extension on the other |
| `GoogleDrive.UniqueFileNameExtension` | src/lib/googleDrive.ts:58-59 | the stored name has the same extension as the original file name |
| `GoogleDrive.UniqueFileNamePrefix` | src/lib/googleDrive.ts:57-59 | the stored name starts with the sanitised email followed by `_` |
| `GoogleDrive.FileRequestBody` | src/lib/googleDrive.ts:66-74 | the body names the unique file name; `parents` is present, as `[folderId]`, exactly when a non-empty folder id is configured |
| `UploadRoute.ValidEmailHasAt` | src/app/api/upload/route.ts:14 | the test of `!email` or `!email.includes('@')` rejects an email exactly when it is missing or holds no `@`; the emptiness test adds nothing |
| `UploadRoute.CheckRequest` | src/app/api/upload/route.ts:13-35 | 400 for a missing, empty or `@`-less email before anything else, then 400 for a missing video, then 400 for a MIME type outside `video/mp4`, `video/quicktime`; no answer exactly when all three pass |
| `UploadRoute.DriveErrorMessage` | src/app/api/upload/route.ts:58-63 | the Drive error when it is present and non-empty, otherwise the fixed default "Failed to upload video"; never empty |
| `UploadRoute.SuccessMessage` | src/app/api/upload/route.ts:70-74 | the last-upload message for 0, "You have 1 upload remaining." for 1, "You have N uploads remaining." with N in decimal for N > 1 |
| `UploadRoute.Post` | src/app/api/upload/route.ts:7-77 | validation failures answer first and touch nothing; a full quota answers 429 without a Drive upload or a record; a failed Drive upload answers 500 and writes nothing; otherwise the event is appended and the answer is 200 with the remaining-quota message, which on a consistent table is the one-left or the last-upload message |
| `EnvFile.StripQuotes` | scripts/check-drive-user.js:14 | a value of length at least 2 starting and ending with a quote of either kind, and with no line terminator between them, loses those two characters; a value too short, not quoted at both ends, or holding a line terminator between the quotes is kept |
| `EnvFile.ParseLine` | scripts/check-drive-user.js:11-14 | a line with no `=` or starting with `=` is not matched; a matched key holds no `=` |
| `EnvFile.ParseAssignmentLine` | scripts/check-drive-user.js:11-14 | `key=value` with a non-empty `=`-free key and no line terminator in the value is matched as the trimmed key and the trimmed, quote-stripped value, which may hold further `=` |
| `EnvFile.CarriageReturnSkipped` | scripts/check-drive-user.js:11 | a line with `\r` after its first `=` is not matched |
| `EnvFile.ApplyLine` | scripts/check-drive-user.js:11-15 | an unmatched line leaves the environment as it is; a matched line adds exactly its key and sets it to its value |
| `EnvFile.ApplyLines` | scripts/check-drive-user.js:10-15 | processing lines in order never removes a variable; which value each key ends with is stated by `UnassignedKeyUntouched` and `LastAssignmentWins` |
| `EnvFile.LoadEnv` | scripts/check-drive-user.js:10-17 | the loop over the `\n`-separated lines yields the in-order fold of the per-line assignment |
| `EnvFile.UnassignedKeyUntouched` | scripts/check-drive-user.js:15 | a key no line assigns keeps its value, or stays absent |
| `EnvFile.LastAssignmentWins` | scripts/check-drive-user.js:15 | the last line assigning a key decides its value |

## Left out

- `getMongoClient` and the cached client (src/lib/uploadTracker.ts:6-26): environment lookup and a network connection. The "storage unavailable" failure this can raise is not modelled, because the database is always reachable in the model.
- The race between `findOne` and `updateOne` in `recordUpload`, and the `remaining` computed from the earlier read: concurrency. The model is sequential, so "five concurrent calls give exactly two successes" cannot be stated. `Post` ignores the result of `RecordUpload`; in the model that result is always a success.
- Unicode case mapping and Unicode whitespace in `toLowerCase` and `trim`: only ASCII capitals and the ASCII whitespace characters (space, tab, line feed, vertical tab, form feed, carriage return) are modelled.
- `new Date()` and `toISOString()`: the timestamps are string parameters.
- The Google Drive and OAuth clients, the stream conversion, `formData` and `arrayBuffer` parsing, and `NextResponse` (src/lib/googleDrive.ts:5-27, 51-52, 61-64 and 76-97; src/app/api/upload/route.ts:9-11 and 47-56): foreign calls and I/O. The Drive outcome is a parameter of `Post`. The `GOOGLE_DRIVE_FOLDER_ID` lookup (src/lib/googleDrive.ts:53) is the `folderId` parameter of `FileRequestBody`.
- The `catch` block of `POST` (src/app/api/upload/route.ts:78-85), which answers 500 for a thrown error: nothing in the model throws.
- The description field of the request body uses a second `new Date()`; the model takes it as its own parameter.
- The file read and the Drive call of scripts/check-drive-user.js (lines 7-9 and 20-63): file-system and network I/O.
- `process.env` assignment is modelled as a plain map update. Node's conversion of values to strings does not matter here, because every value is already a string. On Windows `process.env` keys are case-insensitive, so there `FOO=1` followed by `foo=2` assigns one variable; `LastAssignmentWins` and `UnassignedKeyUntouched` treat keys as case-sensitive, as on other platforms.
- EnvFile.ApplyLine: a line whose text before the first `=` is only whitespace (such as ` =x`) trims to the empty key, and the model stores it under `""`. Node's `process.env` setter rejects an empty name and stores nothing, so `LastAssignmentWins` and `UnassignedKeyUntouched` describe the plain map, which differs from `process.env` for the key `""` only.
- GoogleDrive.SanitizeEmail: works per Unicode character, while JavaScript strings are UTF-16 code units and `/[^a-zA-Z0-9]/g` (without the `u` flag) replaces each half of a surrogate pair. A character outside the Basic Multilingual Plane, such as an emoji, becomes one `_` in the model where the source writes two (`"a😀@x.com"` gives `"a__x_com"` in the model and `"a___x_com"` in the source). All lengths in the model (`SanitizeEmail`, `StampForName`, `UniqueFileName`, the `|email|` index of `UniqueFileNamePrefix`) count characters, not UTF-16 code units.
- scripts/get-token.ts, scripts/check-drive-user.ts, src/app/upload/page.tsx, src/app/layout.tsx and next.config.ts: OAuth flow, a `dotenv` call, user interface and configuration. None of them is part of this model.
- `UploadTracker.Tracker.GetUploadHistory`: its own contract states only the empty and the bounded cases. The exact contents, one appended event per successful upload, are stated by `RecordUpload`.
